/**
 * File content as the user file system stores it: a sequence of chunks, one
 * per 512-byte block, each the occupied prefix of its block's memory.  Every
 * block but the last is full, so byte k * BlockSize + o of the content is byte
 * o of block k.  Writing through a cursor is Put (overwrite or append one
 * byte) and a whole write is Splice.
 */
module BlockContent {

  const BlockSize: int := 512

  /** Overwrite-or-append one byte at position p of a byte string. */
  function Put(c: seq<bv8>, p: int, b: bv8): (r: seq<bv8>)
    requires 0 <= p <= |c|
    ensures |r| == if p < |c| then |c| else |c| + 1
    ensures r[p] == b && forall i :: 0 <= i < |c| && i != p ==> r[i] == c[i]
  {
    if p < |c| then c[p := b] else c + [b]
  }

  /**
   * The shape of the chunks a file's blocks hold (the occupied prefix of each
   * block's memory): at least one, none longer than a block, all but the last full.
   */
  ghost predicate Shape(chunks: seq<seq<bv8>>)
  {
    && 1 <= |chunks|
    && forall k :: 0 <= k < |chunks| ==>
         |chunks[k]| <= BlockSize && (k + 1 < |chunks| ==> |chunks[k]| == BlockSize)
  }

  /** The content of a file: its chunks, block after block. */
  ghost function Concat(chunks: seq<seq<bv8>>): seq<bv8>
    decreases |chunks|
  {
    if |chunks| == 0 then [] else Concat(chunks[..|chunks| - 1]) + chunks[|chunks| - 1]
  }

  /** The first k chunks of a well-shaped chain are full, so they hold k blocks' worth of bytes. */
  lemma {:induction false} ConcatFull(chunks: seq<seq<bv8>>, k: int)
    requires Shape(chunks) && 0 <= k < |chunks|
    ensures |Concat(chunks[..k])| == k * BlockSize
  {
    if k > 0 {
      assert chunks[..k][..k - 1] == chunks[..k - 1];
      ConcatFull(chunks, k - 1);
    }
  }

  /** A file of n blocks holds n - 1 full blocks plus what the last block holds. */
  lemma ConcatLength(chunks: seq<seq<bv8>>)
    requires Shape(chunks)
    ensures |Concat(chunks)| == (|chunks| - 1) * BlockSize + |chunks[|chunks| - 1]|
  {
    ConcatFull(chunks, |chunks| - 1);
  }

  /** Byte o of chunk k is byte k * BlockSize + o of the content. */
  lemma {:induction false} ConcatAt(chunks: seq<seq<bv8>>, k: int, o: int)
    requires Shape(chunks) && 0 <= k < |chunks| && 0 <= o < |chunks[k]|
    ensures k * BlockSize + o < |Concat(chunks)|
    ensures Concat(chunks)[k * BlockSize + o] == chunks[k][o]
  {
    var n := |chunks| - 1;
    ConcatFull(chunks, n);
    if k < n {
      assert Shape(chunks[..n]);
      ConcatAt(chunks[..n], k, o);
    }
  }

  /** Putting a byte inside the left part of a concatenation. */
  lemma PutLeft(a: seq<bv8>, t: seq<bv8>, p: int, b: bv8)
    requires 0 <= p < |a|
    ensures Put(a, p, b) + t == Put(a + t, p, b)
  {
  }

  /** Putting a byte into the right part of a concatenation. */
  lemma PutRight(a: seq<bv8>, t: seq<bv8>, o: int, b: bv8)
    requires 0 <= o <= |t|
    ensures a + Put(t, o, b) == Put(a + t, |a| + o, b)
  {
  }

  /**
   * Putting byte b at offset o of chunk k puts it at position k * BlockSize + o
   * of the content, provided the write stays within the chunk or appends to
   * the last one.
   */
  lemma {:induction false} ConcatPut(chunks: seq<seq<bv8>>, k: int, o: int, b: bv8)
    requires Shape(chunks) && 0 <= k < |chunks| && 0 <= o <= |chunks[k]| && o < BlockSize
    requires o == |chunks[k]| ==> k == |chunks| - 1
    ensures k * BlockSize + o <= |Concat(chunks)|
    ensures Concat(chunks[k := Put(chunks[k], o, b)]) == Put(Concat(chunks), k * BlockSize + o, b)
  {
    var n := |chunks| - 1;
    var chunks' := chunks[k := Put(chunks[k], o, b)];
    ConcatFull(chunks, n);
    assert Concat(chunks) == Concat(chunks[..n]) + chunks[n];
    assert Concat(chunks') == Concat(chunks'[..n]) + chunks'[n];
    if k < n {
      assert chunks'[..n] == chunks[..n][k := Put(chunks[k], o, b)];
      assert Shape(chunks[..n]);
      ConcatPut(chunks[..n], k, o, b);
      PutLeft(Concat(chunks[..n]), chunks[n], k * BlockSize + o, b);
    } else {
      assert chunks'[..n] == chunks[..n];
      PutRight(Concat(chunks[..n]), chunks[n], o, b);
    }
  }

  /** Putting a byte inside a block, or just past the end of the last one, keeps the shape. */
  lemma PutShape(chunks: seq<seq<bv8>>, k: int, o: int, b: bv8)
    requires Shape(chunks) && 0 <= k < |chunks| && 0 <= o <= |chunks[k]| && o < BlockSize
    requires o == |chunks[k]| ==> k == |chunks| - 1
    ensures Shape(chunks[k := Put(chunks[k], o, b)])
  {
  }

  /** Starting a new empty block keeps the content. */
  lemma ConcatGrow(chunks: seq<seq<bv8>>)
    ensures Concat(chunks + [[]]) == Concat(chunks)
  {
    assert (chunks + [[]])[..|chunks|] == chunks;
  }

  /** Overwrite the bytes from position p on with s, extending the content where s runs past its end. */
  function Splice(c: seq<bv8>, p: int, s: seq<bv8>): seq<bv8>
    requires 0 <= p <= |c|
  {
    c[..p] + s + (if p + |s| < |c| then c[p + |s|..] else [])
  }

  /** Splicing one more byte is putting it right after what was spliced so far. */
  lemma SpliceStep(c: seq<bv8>, p: int, s: seq<bv8>, x: bv8)
    requires 0 <= p <= |c|
    ensures |Splice(c, p, s)| == if p + |s| < |c| then |c| else p + |s|
    ensures Splice(c, p, s + [x]) == Put(Splice(c, p, s), p + |s|, x)
  {
  }

  /** Writing byte b at offset o of a block memory whose first occ bytes are in use, counting it when o == occ. */
  lemma MemoryPut(m: seq<bv8>, occ: int, o: int, b: bv8)
    requires 0 <= o <= occ && o < |m| && occ <= |m|
    ensures (m[o := b])[..if o == occ then occ + 1 else occ] == Put(m[..occ], o, b)
  {
  }

  /** What a splice holds: the old bytes before p, then s, then the old bytes past p + |s|. */
  lemma SpliceContents(c: seq<bv8>, p: int, s: seq<bv8>)
    requires 0 <= p <= |c|
    ensures |Splice(c, p, s)| == if p + |s| < |c| then |c| else p + |s|
    ensures forall i :: 0 <= i < p ==> Splice(c, p, s)[i] == c[i]
    ensures forall j :: 0 <= j < |s| ==> Splice(c, p, s)[p + j] == s[j]
    ensures forall i :: p + |s| <= i < |c| ==> Splice(c, p, s)[i] == c[i]
  {
  }

  /** Reading back the bytes just written at p yields what was written. */
  lemma SpliceReadBack(c: seq<bv8>, p: int, s: seq<bv8>)
    requires 0 <= p <= |c|
    ensures p + |s| <= |Splice(c, p, s)| && Splice(c, p, s)[p..p + |s|] == s
  {
  }
}
