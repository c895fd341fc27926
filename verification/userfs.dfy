/**
 * The user-space file system: named files held in memory as chains of
 * 512-byte blocks, opened through descriptors that keep a cursor (block
 * index, offset in the block) and the open flags.  The descriptor table
 * reuses its lowest free slot and doubles when full.
 */
module UserFs {
  import opened BlockContent

  const MaxFileSize: int := 1024 * 1024 * 100

  /** Open flags, one bit each. */
  const Create: bv32 := 1
  const ReadOnly: bv32 := 2
  const WriteOnly: bv32 := 4
  const ReadWrite: bv32 := 8

  datatype ErrorCode = NoErr | NoFile | NoMem | NoPermission

  /** struct block: a block's memory, how many of its bytes are in use, and its number in the file. */
  datatype Block = Block(memory: seq<bv8>, occupied: int, index: int)

  /** A freshly allocated block: nothing in use yet. */
  function EmptyBlock(index: int): (b: Block)
    ensures |b.memory| == BlockSize && b.occupied == 0 && b.index == index
  {
    Block(seq(BlockSize, _ => 0), 0, index)
  }

  /** Block b is block number k of its file and its in-use bytes are chunk. */
  ghost predicate Holds(b: Block, k: int, chunk: seq<bv8>)
  {
    && b.index == k && |b.memory| == BlockSize
    && b.occupied == |chunk| <= BlockSize && b.memory[..b.occupied] == chunk
  }

  /** The blocks hold the chunks: block k is numbered k and holds chunk k, and the chunks are well shaped. */
  ghost predicate Stores(blocks: seq<Block>, chunks: seq<seq<bv8>>)
  {
    && |blocks| == |chunks|
    && Shape(chunks)
    && forall k :: 0 <= k < |blocks| ==> Holds(blocks[k], k, chunks[k])
  }

  /**
   * write_byte on the blocks: byte b at offset o of block k, counted as
   * occupied when it lands just past the end of the last block, puts b at
   * position k * BlockSize + o of the content, which is at most its length.
   */
  lemma StorePut(blocks: seq<Block>, chunks: seq<seq<bv8>>, k: int, o: int, b: bv8)
    requires Stores(blocks, chunks) && 0 <= k < |blocks| && 0 <= o < BlockSize
    requires k * BlockSize + o <= (|blocks| - 1) * BlockSize + blocks[|blocks| - 1].occupied
    ensures o <= |chunks[k]| && k * BlockSize + o <= |Concat(chunks)|
    ensures var cur := blocks[k];
            var occupied := if k == |blocks| - 1 && o == cur.occupied then cur.occupied + 1 else cur.occupied;
            Stores(blocks[k := Block(cur.memory[o := b], occupied, cur.index)], chunks[k := Put(chunks[k], o, b)])
    ensures Concat(chunks[k := Put(chunks[k], o, b)]) == Put(Concat(chunks), k * BlockSize + o, b)
  {
    ConcatLength(chunks);
    assert o <= |chunks[k]|;
    ConcatPut(chunks, k, o, b);
    PutShape(chunks, k, o, b);
    MemoryPut(blocks[k].memory, blocks[k].occupied, o, b);
  }

  /** Appending an empty block after a full last block stores the same content. */
  lemma StoreGrow(blocks: seq<Block>, chunks: seq<seq<bv8>>)
    requires Stores(blocks, chunks) && 1 <= |blocks| && blocks[|blocks| - 1].occupied == BlockSize
    ensures Stores(blocks + [EmptyBlock(|blocks|)], chunks + [[]])
    ensures Concat(chunks + [[]]) == Concat(chunks)
  {
    ConcatGrow(chunks);
    var blocks', chunks' := blocks + [EmptyBlock(|blocks|)], chunks + [[]];
    forall k | 0 <= k < |blocks'|
      ensures Holds(blocks'[k], k, chunks'[k])
    {
      if k < |blocks| {
        assert blocks'[k] == blocks[k] && chunks'[k] == chunks[k];
      }
    }
  }

  /** Writing byte i of buf after the first i have been spliced in extends the splice by one byte. */
  lemma CopyStep(c: seq<bv8>, p: int, buf: seq<bv8>, i: int)
    requires 0 <= p <= |c| && 0 <= i < |buf|
    ensures Splice(c, p, buf[..i + 1]) == Put(Splice(c, p, buf[..i]), p + i, buf[i])
  {
    SpliceStep(c, p, buf[..i], buf[i]);
    assert buf[..i + 1] == buf[..i] + [buf[i]];
  }

  class File {
    const name: string
    /** The chain of blocks, block_list first and last_block last. */
    var blocks: seq<Block>
    /** How many descriptors are open on the file. */
    var refs: int
    /** The in-use bytes of each block. */
    ghost var Chunks: seq<seq<bv8>>

    /** The bytes the file holds. */
    ghost function Content(): seq<bv8>
      reads this`Chunks
    {
      Concat(Chunks)
    }

    /** Block k is numbered k and holds chunk k; the chunks are well shaped. */
    ghost predicate Valid()
      reads this`blocks, this`Chunks
    {
      Stores(blocks, Chunks)
    }

    /** create_file's new file: no descriptors, one empty block numbered 0. */
    constructor (name: string)
      ensures Valid() && this.name == name && refs == 0 && blocks == [EmptyBlock(0)]
      ensures Content() == [] && Size() == 0
    {
      this.name := name;
      blocks := [EmptyBlock(0)];
      refs := 0;
      Chunks := [[]];
    }

    /** The file size as the last block tells it: whole blocks before it, plus its occupied bytes. */
    function Size(): (r: int)
      requires 1 <= |blocks|
      reads this`blocks
      ensures var last := blocks[|blocks| - 1];
              last.index == |blocks| - 1 && 0 <= last.occupied <= BlockSize ==>
                (|blocks| - 1) * BlockSize <= r <= |blocks| * BlockSize
    {
      blocks[|blocks| - 1].index * BlockSize + blocks[|blocks| - 1].occupied
    }

    /** The size the last block tells is the length of the content. */
    lemma SizeIsLength()
      requires Valid()
      ensures Size() == |Content()|
    {
      ConcatLength(Chunks);
    }
  }

  class FileDesc {
    const file: File
    /** The block the cursor is in (current_block), by its number. */
    var block: int
    /** The cursor's offset within that block. */
    var offset: int
    var id: int
    const flags: bv32

    /** ufs_open's new descriptor: the cursor at offset 0 of the first block. */
    constructor (file: File, flags: bv32)
      requires file.Valid()
      ensures this.file == file && this.flags == flags && block == 0 && offset == 0 && id == 0
      ensures Valid() && Position() == 0
    {
      this.file := file;
      this.flags := flags;
      id := 0;
      block := 0;
      offset := 0;
    }

    /** The byte offset of the cursor within the file. */
    function Position(): (r: int)
      reads this`block, this`offset
      ensures 0 <= offset < BlockSize ==> block * BlockSize <= r < (block + 1) * BlockSize
    {
      block * BlockSize + offset
    }

    /** The cursor lies in a block of its file, at or before the end of the content. */
    ghost predicate Valid()
      reads this`block, this`offset, file`blocks
    {
      0 <= block < |file.blocks| && 0 <= offset < BlockSize && Position() <= file.Size()
    }

    /** read_byte: the byte under the cursor. */
    function ReadByte(): (r: bv8)
      requires file.Valid() && Valid() && Position() < file.Size()
      reads this`block, this`offset, file`blocks, file`Chunks
      ensures Position() < |file.Content()| && r == file.Content()[Position()]
    {
      ConcatLength(file.Chunks);
      assert offset < |file.Chunks[block]|;
      ConcatAt(file.Chunks, block, offset);
      file.blocks[block].memory[offset]
    }

    /**
     * write_byte: stores b under the cursor, and counts it as occupied when
     * it lands just past the end of the last block.
     */
    method WriteByte(b: bv8)
      requires file.Valid() && Valid()
      modifies file`blocks, file`Chunks
      ensures file.Valid() && Valid() && |file.blocks| == old(|file.blocks|)
      ensures Position() <= |old(file.Content())| && file.Content() == Put(old(file.Content()), Position(), b)
      ensures file.Size() == old(file.Size()) + (if Position() == old(file.Size()) then 1 else 0)
      ensures Position() < file.Size()
    {
      StorePut(file.blocks, file.Chunks, block, offset, b);
      var current := file.blocks[block];
      var occupied := current.occupied;
      if block == |file.blocks| - 1 && offset == occupied {
        occupied := occupied + 1;
      }
      file.blocks := file.blocks[block := Block(current.memory[offset := b], occupied, current.index)];
      file.Chunks := file.Chunks[block := Put(file.Chunks[block], offset, b)];
      ConcatLength(file.Chunks);
    }

    /**
     * go_to_next_block: advances the cursor one byte; at the end of a block
     * it moves to the next block, first appending an empty one when the
     * current block is the last.
     */
    method GoToNextBlock()
      requires file.Valid() && Valid() && Position() < file.Size()
      modifies this`block, this`offset, file`blocks, file`Chunks
      ensures file.Valid() && Valid() && Position() == old(Position()) + 1
      ensures file.Content() == old(file.Content()) && file.Size() == old(file.Size())
      ensures old(|file.blocks|) <= |file.blocks|
      ensures |file.blocks| != old(|file.blocks|) <==> old(offset) + 1 == BlockSize && old(block) + 1 == old(|file.blocks|)
      ensures file.blocks == old(file.blocks) + if |file.blocks| == old(|file.blocks|) then [] else [EmptyBlock(block)]
    {
      offset := offset + 1;
      if offset == BlockSize {
        if block + 1 == |file.blocks| {
          StoreGrow(file.blocks, file.Chunks);
          file.blocks := file.blocks + [EmptyBlock(block + 1)];
          file.Chunks := file.Chunks + [[]];
        }
        block := block + 1;
        offset := 0;
      }
    }

    /** One turn of write_to_file's loop: write_byte, then go_to_next_block. */
    method WriteAndAdvance(b: bv8)
      requires file.Valid() && Valid()
      modifies this`block, this`offset, file`blocks, file`Chunks
      ensures file.Valid() && Valid() && Position() == old(Position()) + 1
      ensures old(Position()) <= |old(file.Content())| && file.Content() == Put(old(file.Content()), old(Position()), b)
      ensures old(file.Size()) <= file.Size() && old(|file.blocks|) <= |file.blocks|
    {
      WriteByte(b);
      GoToNextBlock();
    }

    /**
     * write_to_file: refuses with -1, changing nothing, when the write would
     * take the cursor past MaxFileSize; otherwise writes buf byte by byte at
     * the cursor, overwriting and then extending the content, and returns |buf|.
     */
    method WriteToFile(buf: seq<bv8>) returns (r: int)
      requires file.Valid() && Valid()
      modifies this`block, this`offset, file`blocks, file`Chunks
      ensures file.Valid() && Valid()
      ensures old(file.Size()) <= file.Size() && old(|file.blocks|) <= |file.blocks|
      ensures r == -1 <==> old(Position()) + |buf| > MaxFileSize
      ensures r == -1 ==> file.Content() == old(file.Content()) && Position() == old(Position()) && unchanged(this, file)
      ensures r != -1 ==> r == |buf| && Position() == old(Position()) + |buf|
      ensures r != -1 ==> old(Position()) <= |old(file.Content())|
      ensures r != -1 ==> file.Content() == Splice(old(file.Content()), old(Position()), buf)
    {
      var newSize := Position() + |buf|;
      if newSize > MaxFileSize {
        return -1;
      }
      CopyIn(buf);
      return |buf|;
    }

    /** write_to_file's loop: write_byte and go_to_next_block for each byte of buf. */
    method CopyIn(buf: seq<bv8>)
      requires file.Valid() && Valid()
      modifies this`block, this`offset, file`blocks, file`Chunks
      ensures file.Valid() && Valid()
      ensures old(file.Size()) <= file.Size() && old(|file.blocks|) <= |file.blocks|
      ensures Position() == old(Position()) + |buf| && old(Position()) <= |old(file.Content())|
      ensures file.Content() == Splice(old(file.Content()), old(Position()), buf)
    {
      file.SizeIsLength();
      ghost var p := Position();
      ghost var c := file.Content();
      ghost var size := file.Size();
      ghost var count := |file.blocks|;
      var i := 0;
      while i < |buf|
        invariant 0 <= i <= |buf|
        invariant file.Valid() && Valid() && Position() == p + i
        invariant file.Content() == Splice(c, p, buf[..i])
        invariant size <= file.Size() && count <= |file.blocks|
      {
        WriteAndAdvance(buf[i]);
        CopyStep(c, p, buf, i);
        i := i + 1;
      }
      assert buf[..i] == buf;
    }

    /** One turn of read_from_file's loop: read_byte, then go_to_next_block. */
    method ReadAndAdvance() returns (x: bv8)
      requires file.Valid() && Valid() && Position() < file.Size()
      modifies this`block, this`offset, file`blocks, file`Chunks
      ensures file.Valid() && Valid() && Position() == old(Position()) + 1
      ensures file.Content() == old(file.Content()) && file.Size() == old(file.Size())
      ensures old(|file.blocks|) <= |file.blocks|
      ensures old(Position()) < |file.Content()| && x == file.Content()[old(Position())]
    {
      x := ReadByte();
      GoToNextBlock();
    }

    /**
     * read_from_file: copies min(size, file size - cursor) bytes from the
     * cursor into buf, advancing the cursor past them, and returns that count.
     */
    method ReadFromFile(buf: array<bv8>, size: int) returns (r: int)
      requires file.Valid() && Valid() && size <= buf.Length
      modifies this`block, this`offset, file`blocks, file`Chunks, buf
      ensures file.Valid() && Valid() && file.Content() == old(file.Content())
      ensures file.Size() == old(file.Size()) && old(|file.blocks|) <= |file.blocks|
      ensures r == Min(size, old(file.Size() - Position()))
      ensures Position() == old(Position()) + Max(r, 0)
      ensures old(Position()) + Max(r, 0) <= |file.Content()|
      ensures buf[..Max(r, 0)] == file.Content()[old(Position())..old(Position()) + Max(r, 0)]
      ensures buf[Max(r, 0)..] == old(buf[Max(r, 0)..])
    {
      r := Min(file.Size() - Position(), size);
      file.SizeIsLength();
      CopyOut(buf, Max(r, 0));
    }

    /** read_from_file's loop: read_byte and go_to_next_block n times, storing each byte in buf. */
    method CopyOut(buf: array<bv8>, n: int)
      requires file.Valid() && Valid() && 0 <= n <= buf.Length && Position() + n <= |file.Content()|
      modifies this`block, this`offset, file`blocks, file`Chunks, buf
      ensures file.Valid() && Valid() && file.Content() == old(file.Content())
      ensures file.Size() == old(file.Size()) && old(|file.blocks|) <= |file.blocks|
      ensures Position() == old(Position()) + n
      ensures forall j :: 0 <= j < n ==> buf[j] == file.Content()[old(Position()) + j]
      ensures forall j :: n <= j < buf.Length ==> buf[j] == old(buf[j])
    {
      ghost var p := Position();
      ghost var c := file.Content();
      ghost var size := file.Size();
      ghost var count := |file.blocks|;
      file.SizeIsLength();
      var i := 0;
      while i < n
        invariant 0 <= i <= n
        invariant file.Valid() && Valid() && Position() == p + i
        invariant file.Content() == c && file.Size() == size && count <= |file.blocks|
        invariant forall j :: 0 <= j < i ==> buf[j] == c[p + j]
        invariant forall j :: n <= j < buf.Length ==> buf[j] == old(buf[j])
      {
        buf[i] := ReadAndAdvance();
        i := i + 1;
      }
    }
  }

  /** A descriptor table grown to n slots: the old slots, then empty ones. */
  function Pad(s: seq<FileDesc?>, n: int): (t: seq<FileDesc?>)
    requires |s| <= n
    ensures |t| == n && t[..|s|] == s && forall j :: |s| <= j < n ==> t[j] == null
  {
    s + seq(n - |s|, _ => null)
  }

  /** The capacity add_descriptor leaves: 10 on first use, then doubled whenever the table is full. */
  function Grown(capacity: int, count: int): int
  {
    var c := if capacity == 0 then 10 else capacity;
    if count == c then 2 * c else c
  }

  /**
   * Table grown is table padded with empty slots to its new length, with d
   * stored in slot r, the lowest empty slot, and every other slot as it was.
   */
  predicate PlacedIn(table: seq<FileDesc?>, grown: seq<FileDesc?>, r: int, d: FileDesc?)
  {
    && |table| <= |grown| && 0 <= r < |grown|
    && Pad(table, |grown|)[r] == null
    && (forall j :: 0 <= j < r ==> Pad(table, |grown|)[j] != null)
    && grown == Pad(table, |grown|)[r := d]
  }

  /**
   * The global state of the file system: the file list, the descriptor table
   * with its count and capacity, and the error code of the last failure.
   */
  class FileSystem {
    /** file_list, head first. */
    var files: seq<File>
    var descriptors: array<FileDesc?>
    var descriptorCount: int
    var descriptorCapacity: int
    var errorCode: ErrorCode

    /** File names are distinct and every file's blocks hold its content. */
    ghost predicate FilesOk()
      reads this`files, files`blocks, files`Chunks
    {
      && Unique(files)
      && (forall f :: f in files ==> f.Valid())
    }

    /**
     * Each descriptor in table s sits in the slot its id names, is open on a
     * listed file, and has its cursor inside that file.
     */
    ghost predicate SlotsOk(s: seq<FileDesc?>)
      reads this`files, s`id, s`block, s`offset, files`blocks
    {
      forall i :: 0 <= i < |s| && s[i] != null ==> s[i].id == i && s[i].file in files && s[i].Valid()
    }

    /**
     * The table is as large as its capacity, its count is the number of taken
     * slots, and its descriptors sit in their slots.
     */
    ghost predicate TableOk()
      reads this`files, this`descriptors, this`descriptorCount, this`descriptorCapacity, descriptors, descriptors[..]`id, descriptors[..]`block, descriptors[..]`offset, files`blocks
    {
      && descriptors.Length == descriptorCapacity
      && descriptorCount == Used(descriptors[..])
      && SlotsOk(descriptors[..])
    }

    /** Each file's refs is the number of descriptors open on it. */
    ghost predicate RefsOk()
      reads this`files, this`descriptors, descriptors, files`refs
    {
      forall f :: f in files ==> f.refs == CountOn(descriptors[..], f)
    }

    ghost predicate Valid()
      reads this`files, this`descriptors, this`descriptorCount, this`descriptorCapacity, descriptors, descriptors[..]`id, descriptors[..]`block, descriptors[..]`offset, files`blocks, files`Chunks, files`refs
    {
      FilesOk() && TableOk() && RefsOk()
    }

    /** A descriptor placed in an empty slot of a grown table, with that slot as its id, sits in its slot. */
    lemma SlotsPlace(s: seq<FileDesc?>, n: int, r: int, fd: FileDesc)
      requires SlotsOk(s) && |s| <= n && 0 <= r < n && Pad(s, n)[r] == null
      requires fd.id == r && fd.file in files && fd.Valid()
      ensures SlotsOk(Pad(s, n)[r := fd])
    {
    }

    /** The state before any call: no files and an empty table of capacity 0. */
    constructor ()
      ensures Valid() && files == [] && descriptorCount == 0 && descriptorCapacity == 0 && errorCode == NoErr
      ensures fresh(descriptors)
    {
      files := [];
      descriptors := new FileDesc?[0];
      descriptorCount := 0;
      descriptorCapacity := 0;
      errorCode := NoErr;
    }

    /** get_file: walks the list from its head to the first file named name. */
    method GetFile(name: string) returns (r: File?)
      ensures r == FindFile(files, name)
    {
      var i := 0;
      while i < |files|
        invariant 0 <= i <= |files|
        invariant FindFile(files[i..], name) == FindFile(files, name)
      {
        if files[i].name == name {
          return files[i];
        }
        assert files[i..][1..] == files[i + 1..];
        i := i + 1;
      }
      return null;
    }

    /**
     * get_file_descriptor: no descriptor for an id outside the table or an
     * empty slot; otherwise the open descriptor with that id.
     */
    function DescriptorAt(id: int): (d: FileDesc?)
      requires Valid()
      reads this`files, this`descriptors, this`descriptorCount, this`descriptorCapacity, descriptors, descriptors[..]`id, descriptors[..]`block, descriptors[..]`offset, files`blocks, files`Chunks, files`refs
      ensures d == null <==> id < 0 || id >= descriptorCapacity || descriptors[id] == null
      ensures d != null ==> d.id == id && d.file in files && d.Valid() && d.file.Valid()
    {
      if id < 0 || id >= descriptorCapacity then null else descriptors[id]
    }

    /**
     * create_file, for a name no listed file has: a new file with one empty
     * block numbered 0 and no references, appended to the end of the list.
     */
    method CreateFile(name: string) returns (f: File)
      requires Valid() && FindFile(files, name) == null
      modifies this`files
      ensures Valid()
      ensures fresh(f)
      ensures f.name == name
      ensures f.refs == 0
      ensures f.blocks == [EmptyBlock(0)]
      ensures f.Content() == [] && files == old(files) + [f] && FindFile(files, name) == f
      ensures descriptors[..] == old(descriptors[..])
    {
      f := new File(name);
      UniqueAppend(files, f);
      files := files + [f];
      Created(f);
    }

    /** The state create_file leaves once it has appended the new file f to the list is valid. */
    twostate lemma Created(new f: File)
      requires old(Valid()) && !old(allocated(f)) && f.Valid() && f.refs == 0
      requires files == old(files) + [f] && Unique(files)
      requires unchanged(this`descriptors, this`descriptorCapacity, this`descriptorCount) && unchanged(old(descriptors))
      requires forall g :: g in old(files) ==> unchanged(g`blocks, g`Chunks, g`refs)
      requires forall i :: 0 <= i < descriptors.Length && old(descriptors[i]) != null ==> unchanged(old(descriptors[i]))
      ensures Valid()
    {
      assert descriptors[..] == old(descriptors[..]);
      NoneOn(descriptors[..], f);
      forall g | g in old(files)
        ensures g.Valid() && g.refs == CountOn(descriptors[..], g)
      {
        assert old(g.Valid() && g.refs == CountOn(descriptors[..], g));
      }
      forall i | 0 <= i < descriptors.Length && descriptors[i] != null
        ensures descriptors[i].id == i && descriptors[i].file in old(files) && descriptors[i].Valid()
      {
        assert old(descriptors[i].id == i && descriptors[i].file in files && descriptors[i].Valid());
      }
    }

    /**
     * ufs_open: NoFile and -1 when no file has the name and the flags lack
     * Create; otherwise the named file, created at the end of the list when
     * missing, gains a reference and a new descriptor with its cursor at the
     * start of the file, which takes the lowest free slot of the table (grown
     * as add_descriptor grows it); the slot's number is returned.
     */
    method Open(name: string, flags: bv32) returns (r: int)
      requires Valid()
      modifies this`files, this`descriptors, this`descriptorCapacity, this`descriptorCount, this`errorCode, descriptors, files`refs
      ensures Valid()
      ensures r == -1 <==> FindFile(old(files), name) == null && flags & Create == 0
      ensures r == -1 ==> errorCode == NoFile && files == old(files) && descriptorCount == old(descriptorCount)
      ensures r == -1 ==> descriptors == old(descriptors) && descriptors[..] == old(descriptors[..])
      ensures r != -1 ==> errorCode == old(errorCode) && descriptorCount == old(descriptorCount) + 1
      ensures r != -1 ==> descriptorCapacity == Grown(old(descriptorCapacity), old(descriptorCount))
      ensures r != -1 ==> 0 <= r < descriptors.Length && PlacedIn(old(descriptors[..]), descriptors[..], r, descriptors[r])
      ensures r != -1 ==> descriptors[r] != null && fresh(descriptors[r]) && descriptors[r].id == r
      ensures r != -1 ==> descriptors[r].file == FindFile(files, name) && descriptors[r].flags == flags && descriptors[r].Position() == 0
      ensures r != -1 && FindFile(old(files), name) != null ==>
                files == old(files) && descriptors[r].file.refs == old(FindFile(files, name).refs) + 1
      ensures r != -1 && FindFile(old(files), name) == null ==>
                files == old(files) + [descriptors[r].file] && fresh(descriptors[r].file)
                && descriptors[r].file.blocks == [EmptyBlock(0)] && descriptors[r].file.Content() == [] && descriptors[r].file.refs == 1
    {
      var file := GetFile(name);
      r := OpenOn(name, file, flags);
    }

    /**
     * ufs_open once get_file has answered file: NoFile and -1 when it is
     * missing and the flags lack Create; otherwise the file, created when
     * missing, gets a new descriptor, which takes the lowest free slot and
     * counts in the file's refs.
     */
    method OpenOn(name: string, file: File?, flags: bv32) returns (r: int)
      requires Valid() && file == FindFile(files, name)
      modifies this`files, this`descriptors, this`descriptorCapacity, this`descriptorCount, this`errorCode, descriptors, files`refs
      ensures Valid()
      ensures r == -1 <==> file == null && flags & Create == 0
      ensures r == -1 ==> errorCode == NoFile && files == old(files) && descriptorCount == old(descriptorCount)
      ensures r == -1 ==> descriptors == old(descriptors) && descriptors[..] == old(descriptors[..])
      ensures r != -1 ==> errorCode == old(errorCode) && descriptorCount == old(descriptorCount) + 1
      ensures r != -1 ==> descriptorCapacity == Grown(old(descriptorCapacity), old(descriptorCount))
      ensures r != -1 ==> 0 <= r < descriptors.Length && PlacedIn(old(descriptors[..]), descriptors[..], r, descriptors[r])
      ensures r != -1 ==> descriptors[r] != null && fresh(descriptors[r]) && descriptors[r].id == r
      ensures r != -1 ==> descriptors[r].file == FindFile(files, name) && descriptors[r].flags == flags && descriptors[r].Position() == 0
      ensures r != -1 && file != null ==> files == old(files) && file.refs == old(file.refs) + 1
      ensures r != -1 && file == null ==>
                files == old(files) + [descriptors[r].file] && fresh(descriptors[r].file)
                && descriptors[r].file.blocks == [EmptyBlock(0)] && descriptors[r].file.Content() == [] && descriptors[r].file.refs == 1
    {
      if flags & Create == 0 && file == null {
        SetError(NoFile);
        return -1;
      }
      var target := file;
      if target == null {
        target := CreateFile(name);
      }
      r := AttachValid(target, flags);
    }

    /** A new descriptor on a listed file, placed by add_descriptor, leaves the state valid. */
    method AttachValid(file: File, flags: bv32) returns (r: int)
      requires Valid() && file in files
      modifies this`descriptors, this`descriptorCapacity, this`descriptorCount, descriptors, file`refs
      ensures Valid() && descriptorCount == old(descriptorCount) + 1
      ensures descriptorCapacity == Grown(old(descriptorCapacity), old(descriptorCount))
      ensures 0 <= r < descriptors.Length && PlacedIn(old(descriptors[..]), descriptors[..], r, descriptors[r])
      ensures descriptors[r] != null && fresh(descriptors[r]) && descriptors[r].id == r
      ensures descriptors[r].file == file && descriptors[r].flags == flags && descriptors[r].Position() == 0
      ensures file.refs == old(file.refs) + 1
    {
      var fd;
      r, fd := Attach(file, flags);
      Attached(file, r);
    }

    /** ufs_open's state once add_descriptor has placed fd, with id r, in slot r of the grown table is valid. */
    twostate lemma Attached(file: File, new r: int)
      requires old(Valid()) && unchanged(this`files) && file in files
      requires 0 <= r < descriptors.Length && descriptors[r] != null && descriptors[r].file == file
      requires forall f :: f in files ==> unchanged(f`blocks, f`Chunks)
      requires forall f :: f in files && f != file ==> unchanged(f`refs)
      requires file.refs == old(file.refs) + 1
      requires forall i :: 0 <= i < old(descriptors.Length) && old(descriptors[i]) != null ==> unchanged(old(descriptors[i]))
      requires descriptors[r].Valid() && descriptors[r].id == r
      requires descriptors.Length == descriptorCapacity && PlacedIn(old(descriptors[..]), descriptors[..], r, descriptors[r])
      requires descriptorCount == Used(descriptors[..])
      ensures Valid()
    {
      ghost var table := old(descriptors[..]);
      forall f | f in files
        ensures f.Valid() && f.refs == CountOn(table, f) + (if f == file then 1 else 0)
      {
        assert old(f.Valid() && f.refs == CountOn(descriptors[..], f));
      }
      forall i | 0 <= i < |table| && table[i] != null
        ensures table[i].id == i && table[i].file in files && table[i].Valid()
      {
        assert old(descriptors[i].id == i && descriptors[i].file in files && descriptors[i].Valid());
      }
      Placed(table, r, descriptors[r]);
    }

    /**
     * ufs_open's second half: a new descriptor on file, with its cursor at the
     * start, is counted in the file's refs and placed by add_descriptor, and
     * learns its slot number as its id.
     */
    method Attach(file: File, flags: bv32) returns (r: int, fd: FileDesc)
      requires descriptors.Length == descriptorCapacity && descriptorCount == Used(descriptors[..]) && file.Valid()
      modifies this`descriptors, this`descriptorCapacity, this`descriptorCount, descriptors, file`refs
      ensures descriptorCount == old(descriptorCount) + 1 == Used(descriptors[..])
      ensures descriptorCapacity == Grown(old(descriptorCapacity), old(descriptorCount)) == descriptors.Length
      ensures 0 <= r < descriptorCapacity && PlacedIn(old(descriptors[..]), descriptors[..], r, fd)
      ensures fresh(fd) && fd.id == r && fd.flags == flags && fd.file == file && fd.Valid() && fd.Position() == 0
      ensures file.refs == old(file.refs) + 1
    {
      fd := new FileDesc(file, flags);
      file.refs := file.refs + 1;
      r := AddDescriptor(fd);
      fd.id := r;
    }

    /** The state ufs_open leaves once it has placed fd, with id r, in slot r of the grown table is valid. */
    lemma Placed(table: seq<FileDesc?>, r: int, fd: FileDesc)
      requires FilesOk() && SlotsOk(table) && fd.file in files && fd.Valid() && fd.id == r
      requires descriptors.Length == descriptorCapacity && PlacedIn(table, descriptors[..], r, fd)
      requires descriptorCount == Used(descriptors[..])
      requires forall f :: f in files ==> f.refs == CountOn(table, f) + (if f == fd.file then 1 else 0)
      ensures Valid()
    {
      SlotsPlace(table, descriptorCapacity, r, fd);
      RefsPlace(table, r, fd);
    }

    /** Counting fd, placed in slot r of the grown table, in its file's refs keeps refs equal to the count. */
    lemma RefsPlace(table: seq<FileDesc?>, r: int, fd: FileDesc)
      requires descriptors.Length == descriptorCapacity && PlacedIn(table, descriptors[..], r, fd)
      requires forall f :: f in files ==> f.refs == CountOn(table, f) + (if f == fd.file then 1 else 0)
      ensures RefsOk()
    {
      forall f | f in files
        ensures f.refs == CountOn(descriptors[..], f)
      {
        CountOnPlace(table, descriptorCapacity, r, fd, f);
      }
    }

    /**
     * remove_descriptor: -1 and no change for an id that names no open
     * descriptor; otherwise the descriptor's file loses a reference, its slot
     * is emptied and the count drops by one.
     */
    method RemoveDescriptor(id: int) returns (r: int)
      requires Valid()
      modifies this`descriptorCount, descriptors, files`refs
      ensures Valid()
      ensures r in {-1, 0} && (r == -1 <==> old(DescriptorAt(id)) == null)
      ensures r == -1 ==> descriptors[..] == old(descriptors[..]) && descriptorCount == old(descriptorCount)
      ensures r == -1 ==> forall k :: 0 <= k < |files| ==> files[k].refs == old(files[k].refs)
      ensures r == 0 ==> descriptors[..] == old(descriptors[..])[id := null] && descriptorCount == old(descriptorCount) - 1
      ensures r == 0 ==> forall k :: 0 <= k < |files| ==>
                files[k].refs == old(files[k].refs) - (if files[k] == old(descriptors[id]).file then 1 else 0)
    {
      var fd := DescriptorAt(id);
      if fd == null {
        return -1;
      }
      fd.file.refs := fd.file.refs - 1;
      descriptors[id] := null;
      descriptorCount := descriptorCount - 1;
      Detached(id, fd);
      return 0;
    }

    /** The state remove_descriptor leaves once it has emptied slot id, which held fd, is valid. */
    twostate lemma Detached(new id: int, fd: FileDesc)
      requires old(Valid()) && unchanged(this`files, this`descriptors, this`descriptorCapacity)
      requires 0 <= id < descriptors.Length && old(descriptors[id]) == fd
      requires forall f :: f in files ==> unchanged(f`blocks, f`Chunks)
      requires forall f :: f in files && f != fd.file ==> unchanged(f`refs)
      requires fd.file.refs == old(fd.file.refs) - 1
      requires forall i :: 0 <= i < descriptors.Length && old(descriptors[i]) != null ==> unchanged(old(descriptors[i]))
      requires descriptors[..] == old(descriptors[..])[id := null] && descriptorCount == old(descriptorCount) - 1
      ensures Valid()
    {
      ghost var table := old(descriptors[..]);
      UsedSet(table, id, null);
      forall f | f in files
        ensures f.Valid() && f.refs == CountOn(descriptors[..], f)
      {
        assert old(f.Valid() && f.refs == CountOn(descriptors[..], f));
        CountOnSet(table, id, null, f);
      }
      forall i | 0 <= i < descriptors.Length && descriptors[i] != null
        ensures descriptors[i].id == i && descriptors[i].file in files && descriptors[i].Valid()
      {
        assert old(descriptors[i].id == i && descriptors[i].file in files && descriptors[i].Valid());
      }
    }

    /**
     * delete_file: -1 and no change for no file or a file with descriptors
     * open on it; otherwise the file leaves the list, the others keeping
     * their order, and the result is 0.
     */
    method DeleteFile(f: File?) returns (r: int)
      requires Valid() && (f != null ==> f in files)
      modifies this`files
      ensures Valid()
      ensures r in {-1, 0} && (r == -1 <==> f == null || f.refs != 0)
      ensures r == -1 ==> files == old(files)
      ensures r == 0 ==> exists k :: 0 <= k < |old(files)| && old(files)[k] == f && files == old(files)[..k] + old(files)[k + 1..]
    {
      if f == null {
        return -1;
      }
      if f.refs != 0 {
        return -1;
      }
      var k :| 0 <= k < |files| && files[k] == f;
      NoneOn(descriptors[..], f);
      UniqueRemove(files, k);
      files := files[..k] + files[k + 1..];
      return 0;
    }

    /** What ufs_write and ufs_read may change: the descriptor with this id, and its file. */
    ghost function Touched(id: int): (t: set<object>)
      reads this`descriptors, descriptors
      ensures 0 <= id < descriptors.Length && descriptors[id] != null ==> descriptors[id] in t && descriptors[id].file in t
    {
      if 0 <= id < descriptors.Length && descriptors[id] != null then {descriptors[id], descriptors[id].file} else {}
    }

    /**
     * ufs_write: NoFile and -1 for an id naming no open descriptor,
     * NoPermission and -1 for a descriptor opened ReadOnly, each changing no
     * file; otherwise write_to_file's result, with NoMem when it refuses.
     */
    method Write(id: int, buf: seq<bv8>) returns (r: int)
      requires Valid()
      modifies this`errorCode, Touched(id)
      ensures Valid()
      ensures old(DescriptorAt(id)) == null ==> r == -1 && errorCode == NoFile
      ensures var d := old(DescriptorAt(id));
              d != null && d.flags & ReadOnly != 0 ==> r == -1 && errorCode == NoPermission && unchanged(d, d.file)
      ensures var d := old(DescriptorAt(id));
              d != null && d.flags & ReadOnly == 0 ==>
                && (r == -1 <==> old(d.Position()) + |buf| > MaxFileSize)
                && (r == -1 ==> errorCode == NoMem && d.file.Content() == old(d.file.Content()) && d.Position() == old(d.Position()))
                && (r == -1 ==> unchanged(d, d.file))
                && (r != -1 ==> r == |buf| && errorCode == old(errorCode) && d.Position() == old(d.Position()) + |buf|)
                && (r != -1 ==> old(d.Position()) <= |old(d.file.Content())|)
                && (r != -1 ==> d.file.Content() == Splice(old(d.file.Content()), old(d.Position()), buf))
    {
      var fd := DescriptorAt(id);
      if fd == null {
        SetError(NoFile);
        return -1;
      }
      if fd.flags & ReadOnly != 0 {
        SetError(NoPermission);
        return -1;
      }
      r := WriteThrough(fd, buf);
      if r == -1 {
        SetError(NoMem);
      }
    }

    /** write_to_file through an open descriptor keeps every descriptor on the file valid. */
    method WriteThrough(fd: FileDesc, buf: seq<bv8>) returns (r: int)
      requires Valid() && 0 <= fd.id < descriptors.Length && descriptors[fd.id] == fd
      modifies fd`block, fd`offset, fd.file`blocks, fd.file`Chunks
      ensures Valid()
      ensures r == -1 <==> old(fd.Position()) + |buf| > MaxFileSize
      ensures r == -1 ==> fd.file.Content() == old(fd.file.Content()) && fd.Position() == old(fd.Position()) && unchanged(fd, fd.file)
      ensures r != -1 ==> r == |buf| && fd.Position() == old(fd.Position()) + |buf|
      ensures r != -1 ==> old(fd.Position()) <= |old(fd.file.Content())|
      ensures r != -1 ==> fd.file.Content() == Splice(old(fd.file.Content()), old(fd.Position()), buf)
    {
      r := fd.WriteToFile(buf);
      CursorMoved(fd);
    }

    /**
     * Moving one descriptor's cursor while its file only grows, with the
     * file list, the table and every other file and descriptor untouched,
     * keeps the state valid.
     */
    twostate lemma CursorMoved(fd: FileDesc)
      requires old(Valid()) && old(fd.file in files)
      requires unchanged(this) && unchanged(descriptors)
      requires forall f :: f in files && f != fd.file ==> unchanged(f)
      requires forall i :: 0 <= i < descriptors.Length && descriptors[i] != null && descriptors[i] != fd ==> unchanged(descriptors[i])
      requires fd.id == old(fd.id) && fd.file.refs == old(fd.file.refs)
      requires fd.file.Valid() && fd.Valid()
      requires old(|fd.file.blocks|) <= |fd.file.blocks| && old(fd.file.Size()) <= fd.file.Size()
      ensures Valid()
    {
      assert descriptors[..] == old(descriptors[..]);
      forall f | f in files
        ensures f.Valid() && f.refs == CountOn(descriptors[..], f)
      {
        assert old(f.Valid() && f.refs == CountOn(descriptors[..], f));
      }
      forall i | 0 <= i < descriptors.Length && descriptors[i] != null
        ensures descriptors[i].id == i && descriptors[i].file in files && descriptors[i].Valid()
      {
        var d := descriptors[i];
        assert old(d.id == i && d.file in files && d.Valid());
      }
    }

    /**
     * ufs_read: NoFile and -1 for an id naming no open descriptor,
     * NoPermission and -1 for a descriptor opened WriteOnly, each changing
     * nothing; otherwise read_from_file's result: the bytes from the cursor
     * to the end of the file, at most size of them, copied into buf.
     */
    method Read(id: int, buf: array<bv8>, size: nat) returns (r: int)
      requires Valid() && size <= buf.Length && buf as object != descriptors
      modifies this`errorCode, Touched(id), buf
      ensures Valid()
      ensures old(DescriptorAt(id)) == null ==> r == -1 && errorCode == NoFile && unchanged(buf)
      ensures var d := old(DescriptorAt(id));
              d != null && d.flags & WriteOnly != 0 ==> r == -1 && errorCode == NoPermission && unchanged(d, d.file, buf)
      ensures var d := old(DescriptorAt(id));
              d != null && d.flags & WriteOnly == 0 ==>
                && errorCode == old(errorCode)
                && r == Min(size, old(d.file.Size() - d.Position())) && 0 <= r
                && d.Position() == old(d.Position()) + r && d.file.Content() == old(d.file.Content())
                && old(d.Position()) + r <= |d.file.Content()|
                && buf[..r] == d.file.Content()[old(d.Position())..old(d.Position()) + r]
                && buf[r..] == old(buf[r..])
    {
      var fd := DescriptorAt(id);
      if fd == null {
        SetError(NoFile);
        return -1;
      }
      if fd.flags & WriteOnly != 0 {
        SetError(NoPermission);
        return -1;
      }
      r := ReadThrough(fd, buf, size);
    }

    /** Records e as the error code of the last failure (ufs_error_code). */
    method SetError(e: ErrorCode)
      requires Valid()
      modifies this`errorCode
      ensures Valid() && errorCode == e
    {
      errorCode := e;
    }

    /** read_from_file through an open descriptor keeps every descriptor on the file valid. */
    method ReadThrough(fd: FileDesc, buf: array<bv8>, size: nat) returns (r: int)
      requires Valid() && 0 <= fd.id < descriptors.Length && descriptors[fd.id] == fd
      requires size <= buf.Length && buf as object != descriptors
      modifies fd`block, fd`offset, fd.file`blocks, fd.file`Chunks, buf
      ensures Valid()
      ensures r == Min(size, old(fd.file.Size() - fd.Position())) && 0 <= r
      ensures fd.Position() == old(fd.Position()) + r && fd.file.Content() == old(fd.file.Content())
      ensures old(fd.Position()) + r <= |fd.file.Content()|
      ensures buf[..r] == fd.file.Content()[old(fd.Position())..old(fd.Position()) + r]
      ensures buf[r..] == old(buf[r..])
    {
      r := fd.ReadFromFile(buf, size);
      CursorMoved(fd);
    }

    /** ufs_close: remove_descriptor. */
    method Close(id: int) returns (r: int)
      requires Valid()
      modifies this`descriptorCount, descriptors, files`refs
      ensures Valid() && files == old(files)
      ensures r in {-1, 0} && (r == -1 <==> old(DescriptorAt(id)) == null)
      ensures r == -1 ==> descriptors[..] == old(descriptors[..]) && descriptorCount == old(descriptorCount)
      ensures r == -1 ==> forall k :: 0 <= k < |files| ==> files[k].refs == old(files[k].refs)
      ensures r == 0 ==> descriptors[..] == old(descriptors[..])[id := null] && descriptorCount == old(descriptorCount) - 1
      ensures r == 0 ==> forall k :: 0 <= k < |files| ==>
                files[k].refs == old(files[k].refs) - (if files[k] == old(descriptors[id]).file then 1 else 0)
    {
      r := RemoveDescriptor(id);
    }

    /**
     * ufs_delete: NoFile and -1 when no file has the name; otherwise 0,
     * whether or not delete_file removed the file (it keeps a file with
     * descriptors open on it).
     */
    method Delete(name: string) returns (r: int)
      requires Valid()
      modifies this`files, this`errorCode
      ensures Valid()
      ensures r in {-1, 0} && (r == -1 <==> FindFile(old(files), name) == null)
      ensures r == -1 ==> errorCode == NoFile && files == old(files)
      ensures r == 0 && FindFile(old(files), name).refs != 0 ==> files == old(files) && errorCode == old(errorCode)
      ensures r == 0 && FindFile(old(files), name).refs == 0 ==>
                errorCode == old(errorCode)
                && exists k :: 0 <= k < |old(files)| && old(files)[k].name == name && files == old(files)[..k] + old(files)[k + 1..]
    {
      var file := GetFile(name);
      r := DeleteFound(name, file);
    }

    /** ufs_delete once get_file has answered file: NoFile and -1 for no file, otherwise delete_file and 0. */
    method DeleteFound(name: string, file: File?) returns (r: int)
      requires Valid() && file == FindFile(files, name)
      modifies this`files, this`errorCode
      ensures Valid()
      ensures r in {-1, 0} && (r == -1 <==> file == null)
      ensures r == -1 ==> errorCode == NoFile && files == old(files)
      ensures r == 0 && file.refs != 0 ==> files == old(files) && errorCode == old(errorCode)
      ensures r == 0 && file.refs == 0 ==>
                errorCode == old(errorCode)
                && exists k :: 0 <= k < |old(files)| && old(files)[k].name == name && files == old(files)[..k] + old(files)[k + 1..]
    {
      if file == null {
        SetError(NoFile);
        return -1;
      }
      var deleted := DeleteFile(file);
      if deleted == 0 {
        ghost var k :| 0 <= k < |old(files)| && old(files)[k] == file && files == old(files)[..k] + old(files)[k + 1..];
        assert old(files)[k].name == name;
      }
      return 0;
    }

    /**
     * add_descriptor: sets the capacity to 10 on first use and doubles it when
     * the table is full (the new slots empty), then stores fd in the lowest
     * empty slot and returns that slot.
     */
    method AddDescriptor(fd: FileDesc) returns (r: int)
      requires descriptors.Length == descriptorCapacity && descriptorCount == Used(descriptors[..])
      modifies this`descriptors, this`descriptorCapacity, this`descriptorCount, descriptors
      ensures descriptorCapacity == Grown(old(descriptorCapacity), old(descriptorCount))
      ensures descriptors.Length == descriptorCapacity && descriptorCount == old(descriptorCount) + 1
      ensures PlacedIn(old(descriptors[..]), descriptors[..], r, fd)
      ensures descriptorCount == Used(descriptors[..])
      ensures descriptors == old(descriptors) || fresh(descriptors)
    {
      MakeRoom();
      r := TakeFreeSlot(fd);
    }

    /** add_descriptor's first half: the table after the capacity checks has an empty slot. */
    method MakeRoom()
      requires descriptors.Length == descriptorCapacity && descriptorCount == Used(descriptors[..])
      modifies this`descriptors, this`descriptorCapacity
      ensures descriptorCapacity == Grown(old(descriptorCapacity), descriptorCount)
      ensures descriptors.Length == descriptorCapacity && descriptors[..] == Pad(old(descriptors[..]), descriptorCapacity)
      ensures descriptorCount == Used(descriptors[..]) < descriptorCapacity
      ensures descriptors == old(descriptors) || fresh(descriptors)
    {
      ghost var old0 := descriptors[..];
      if descriptorCapacity == 0 {
        descriptorCapacity := 10;
        descriptors := new FileDesc?[10](_ => null);
      }
      if descriptorCount == descriptorCapacity {
        descriptorCapacity := descriptorCapacity * 2;
        var grown := Pad(descriptors[..], descriptorCapacity);
        descriptors := new FileDesc?[descriptorCapacity](j requires 0 <= j < |grown| => grown[j]);
        assert descriptors[..] == grown;
      }
      assert descriptors[..] == Pad(old0, descriptorCapacity);
      UsedNulls(old0, descriptorCapacity - |old0|);
    }

    /** add_descriptor's scan: fd goes into the lowest empty slot, whose number is returned. */
    method TakeFreeSlot(fd: FileDesc) returns (r: int)
      requires descriptors.Length == descriptorCapacity && descriptorCount == Used(descriptors[..]) < descriptorCapacity
      modifies this`descriptorCount, descriptors
      ensures 0 <= r < descriptorCapacity && old(descriptors[r]) == null && descriptors[..] == old(descriptors[..])[r := fd]
      ensures forall j :: 0 <= j < r ==> old(descriptors[j]) != null
      ensures descriptorCount == old(descriptorCount) + 1 == Used(descriptors[..])
    {
      ghost var table := descriptors[..];
      FreeSlot(table);
      var i := 0;
      while descriptors[i] != null
        invariant 0 <= i < descriptors.Length
        invariant forall j :: 0 <= j < i ==> table[j] != null
        invariant exists j :: i <= j < |table| && table[j] == null
        decreases descriptors.Length - i
      {
        i := i + 1;
      }
      descriptors[i] := fd;
      descriptorCount := descriptorCount + 1;
      UsedSet(table, i, fd);
      return i;
    }
  }

  /** The first file in the list named name, or null when there is none (get_file). */
  function FindFile(files: seq<File>, name: string): (r: File?)
    ensures r == null <==> forall k :: 0 <= k < |files| ==> files[k].name != name
    ensures r != null ==> exists k :: 0 <= k < |files| && files[k] == r && r.name == name
                           && forall j :: 0 <= j < k ==> files[j].name != name
  {
    if files == [] then null
    else if files[0].name == name then files[0]
    else
      var r := FindFile(files[1..], name);
      assert forall k :: 1 <= k < |files| ==> files[k] == files[1..][k - 1];
      r
  }

  /** No two files in the list share a name. */
  ghost predicate Unique(files: seq<File>)
  {
    forall i, j :: 0 <= i < j < |files| ==> files[i].name != files[j].name
  }

  /** A file whose name is not yet listed can be appended without a clash, and is then found by its name. */
  lemma UniqueAppend(files: seq<File>, f: File)
    requires Unique(files) && FindFile(files, f.name) == null
    ensures Unique(files + [f]) && FindFile(files + [f], f.name) == f
  {
    var g := files + [f];
    assert g[|files|].name == f.name;
    var k :| 0 <= k < |g| && g[k] == FindFile(g, f.name) && g[k].name == f.name;
    assert k == |files|;
  }

  /** Taking file k out of the list keeps the names distinct and every other file listed. */
  lemma UniqueRemove(files: seq<File>, k: int)
    requires Unique(files) && 0 <= k < |files|
    ensures Unique(files[..k] + files[k + 1..])
    ensures forall f :: f in files && f != files[k] ==> f in files[..k] + files[k + 1..]
  {
    forall f | f in files && f != files[k]
      ensures f in files[..k] + files[k + 1..]
    {
      var j :| 0 <= j < |files| && files[j] == f;
      if j < k {
        assert (files[..k] + files[k + 1..])[j] == f;
      } else {
        assert (files[..k] + files[k + 1..])[j - 1] == f;
      }
    }
  }

  /** How many slots of a descriptor table are taken. */
  function Used(s: seq<FileDesc?>): (n: nat)
    ensures n <= |s|
  {
    if s == [] then 0 else Used(s[..|s| - 1]) + (if s[|s| - 1] != null then 1 else 0)
  }

  /** How many slots of a descriptor table hold a descriptor open on f. */
  function CountOn(s: seq<FileDesc?>, f: File): (n: nat)
    ensures n <= Used(s)
  {
    if s == [] then 0 else CountOn(s[..|s| - 1], f) + (if s[|s| - 1] != null && s[|s| - 1].file == f then 1 else 0)
  }

  /** Filling or emptying one slot changes the number of taken slots by one. */
  lemma {:induction false} UsedSet(s: seq<FileDesc?>, i: int, d: FileDesc?)
    requires 0 <= i < |s|
    ensures Used(s[i := d]) + (if s[i] != null then 1 else 0) == Used(s) + (if d != null then 1 else 0)
  {
    if i < |s| - 1 {
      assert s[i := d][..|s| - 1] == s[..|s| - 1][i := d];
      UsedSet(s[..|s| - 1], i, d);
    } else {
      assert s[i := d][..|s| - 1] == s[..|s| - 1];
    }
  }

  /** Putting d in slot i changes the number of descriptors open on f by one when d or the old slot is on f. */
  lemma {:induction false} CountOnSet(s: seq<FileDesc?>, i: int, d: FileDesc?, f: File)
    requires 0 <= i < |s|
    ensures CountOn(s[i := d], f) + (if s[i] != null && s[i].file == f then 1 else 0)
            == CountOn(s, f) + (if d != null && d.file == f then 1 else 0)
  {
    if i < |s| - 1 {
      assert s[i := d][..|s| - 1] == s[..|s| - 1][i := d];
      CountOnSet(s[..|s| - 1], i, d, f);
    } else {
      assert s[i := d][..|s| - 1] == s[..|s| - 1];
    }
  }

  /** Empty slots added at the end of a table take no slot. */
  lemma {:induction false} UsedNulls(s: seq<FileDesc?>, n: nat)
    ensures Used(s + seq(n, _ => null)) == Used(s)
  {
    if n > 0 {
      var t := s + seq(n, _ => null);
      assert t[..|t| - 1] == s + seq(n - 1, _ => null);
      assert t[|t| - 1] == null;
      UsedNulls(s, n - 1);
    } else {
      assert s + seq(n, _ => null) == s;
    }
  }

  /** Empty slots added at the end of a table open nothing on any file. */
  lemma {:induction false} CountOnNulls(s: seq<FileDesc?>, n: nat, f: File)
    ensures CountOn(s + seq(n, _ => null), f) == CountOn(s, f)
  {
    if n > 0 {
      var t := s + seq(n, _ => null);
      assert t[..|t| - 1] == s + seq(n - 1, _ => null);
      assert t[|t| - 1] == null;
      CountOnNulls(s, n - 1, f);
    } else {
      assert s + seq(n, _ => null) == s;
    }
  }

  /** A descriptor placed in an empty slot of a grown table adds one to the count of its file only. */
  lemma CountOnPlace(s: seq<FileDesc?>, n: int, r: int, fd: FileDesc, f: File)
    requires |s| <= n && 0 <= r < n && Pad(s, n)[r] == null
    ensures CountOn(Pad(s, n)[r := fd], f) == CountOn(s, f) + (if fd.file == f then 1 else 0)
  {
    CountOnNulls(s, n - |s|, f);
    CountOnSet(Pad(s, n), r, fd, f);
  }

  /** A table with fewer taken slots than slots has an empty slot. */
  lemma {:induction false} FreeSlot(s: seq<FileDesc?>)
    requires Used(s) < |s|
    ensures exists i :: 0 <= i < |s| && s[i] == null
  {
    if s[|s| - 1] != null {
      FreeSlot(s[..|s| - 1]);
      var i :| 0 <= i < |s| - 1 && s[..|s| - 1][i] == null;
      assert s[i] == null;
    }
  }

  /** No descriptors are open on f exactly when no slot holds a descriptor on f. */
  lemma {:induction false} NoneOn(s: seq<FileDesc?>, f: File)
    ensures CountOn(s, f) == 0 <==> forall i :: 0 <= i < |s| && s[i] != null ==> s[i].file != f
  {
    if s != [] {
      NoneOn(s[..|s| - 1], f);
      assert forall i :: 0 <= i < |s| - 1 ==> s[i] == s[..|s| - 1][i];
    }
  }

  function Min(a: int, b: int): int {
    if a < b then a else b
  }

  function Max(a: int, b: int): int {
    if a < b then b else a
  }
}
