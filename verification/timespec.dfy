/**
 * Integer arithmetic on (seconds, nanoseconds) pairs, used by the thread
 * pool to build the absolute deadline of a timed join.  A pair is normal
 * when its nanosecond part lies in [0, one second); every operation returns
 * a normal pair with the expected total number of nanoseconds.
 */
module TimeSpec {

  const NsecPerSec: int := 1_000_000_000
  const NsecPerMsec: int := 1_000_000
  const NsecPerUsec: int := 1000
  const MsecPerSec: int := 1000

  /** struct timespec: seconds and nanoseconds, both signed. */
  datatype TimeSpec = TimeSpec(sec: int, nsec: int)

  /** struct timeval: seconds and microseconds. */
  datatype TimeVal = TimeVal(sec: int, usec: int)

  /** The instant a pair denotes, in nanoseconds. */
  function Total(ts: TimeSpec): int {
    ts.sec * NsecPerSec + ts.nsec
  }

  predicate IsNormal(ts: TimeSpec) {
    0 <= ts.nsec < NsecPerSec
  }

  /** The normal pair with the same total: seconds absorb whole seconds of the nanosecond part. */
  function Normalised(ts: TimeSpec): (r: TimeSpec)
    ensures IsNormal(r) && Total(r) == Total(ts)
  {
    TimeSpec(ts.sec + ts.nsec / NsecPerSec, ts.nsec % NsecPerSec)
  }

  /** Two normal pairs with the same total are equal: the normal form is unique. */
  lemma NormalUnique(a: TimeSpec, b: TimeSpec)
    requires IsNormal(a) && IsNormal(b) && Total(a) == Total(b)
    ensures a == b
  {
  }

  /**
   * timespec_normalise: carries whole seconds out of the nanosecond part one
   * at a time, then borrows one second for a negative remainder.
   */
  method Normalise(ts: TimeSpec) returns (r: TimeSpec)
    ensures IsNormal(r) && Total(r) == Total(ts)
    ensures r == Normalised(ts)
  {
    r := ts;
    while r.nsec >= NsecPerSec
      invariant Total(r) == Total(ts)
      decreases r.nsec
    {
      r := TimeSpec(r.sec + 1, r.nsec - NsecPerSec);
    }
    while r.nsec <= -NsecPerSec
      invariant Total(r) == Total(ts)
      invariant r.nsec < NsecPerSec
      decreases -r.nsec
    {
      r := TimeSpec(r.sec - 1, r.nsec + NsecPerSec);
    }
    if r.nsec < 0 {
      r := TimeSpec(r.sec - 1, NsecPerSec + r.nsec);
    }
    NormalUnique(r, Normalised(ts));
  }

  /** timespec_add: the normal pair whose total is the sum of the two totals. */
  function Add(a: TimeSpec, b: TimeSpec): (r: TimeSpec)
    ensures IsNormal(r) && Total(r) == Total(a) + Total(b)
  {
    var x := Normalised(a);
    var y := Normalised(b);
    Normalised(TimeSpec(x.sec + y.sec, x.nsec + y.nsec))
  }

  /** C's `/` on long: the quotient truncated toward zero. */
  function CDiv(a: int, b: int): int
    requires b > 0
  {
    if a >= 0 then a / b else -((-a) / b)
  }

  /** C's `%` on long: what is left after the truncated quotient. */
  function CRem(a: int, b: int): int
    requires b > 0
  {
    a - CDiv(a, b) * b
  }

  /** Dividing milliseconds by 1000 the C way: the remainder takes the sign of the dividend. */
  lemma CDivisionMs(ms: int)
    ensures ms == CDiv(ms, MsecPerSec) * MsecPerSec + CRem(ms, MsecPerSec)
    ensures ms >= 0 ==> 0 <= CRem(ms, MsecPerSec) < MsecPerSec
    ensures ms < 0 ==> -MsecPerSec < CRem(ms, MsecPerSec) <= 0
  {
  }

  /**
   * timespec_from_ms: whole seconds by truncating division, the remainder
   * scaled to nanoseconds, then normalised; exact for negative inputs too.
   */
  function FromMs(ms: int): (r: TimeSpec)
    ensures IsNormal(r) && Total(r) == ms * NsecPerMsec
  {
    Normalised(TimeSpec(CDiv(ms, MsecPerSec), CRem(ms, MsecPerSec) * NsecPerMsec))
  }

  /** timespec_from_timeval: microseconds scaled to nanoseconds, then normalised. */
  function FromTimeVal(tv: TimeVal): (r: TimeSpec)
    ensures IsNormal(r) && Total(r) == tv.sec * NsecPerSec + tv.usec * NsecPerUsec
  {
    Normalised(TimeSpec(tv.sec, tv.usec * NsecPerUsec))
  }

  /** A negative millisecond count borrows from the seconds: -1500 ms is -2 s plus 0.5 s. */
  lemma FromMsNegative()
    ensures FromMs(-1500) == TimeSpec(-2, 500_000_000)
  {
    NormalUnique(FromMs(-1500), TimeSpec(-2, 500_000_000));
  }
}
