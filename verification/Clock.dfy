/** src/include/zpmod_clock.h: elapsed nanoseconds in 64-bit arithmetic. */
module Clock {
  import opened CTypes
  import opened Text

  const NS_PER_SEC: int64 := 1_000_000_000

  /** A timespec. */
  datatype Stamp = Stamp(sec: int64, ns: int64) {
    predicate InRange() {
      sec >= 0 && 0 <= ns < NS_PER_SEC
    }

    /** The instant in nanoseconds, free of any width. */
    function Instant(): int {
      sec as int * 1_000_000_000 + ns as int
    }
  }

  /** What the conversion promises: the exact distance of two in-range, ordered stamps, as long as
      an unsigned 64-bit integer can hold it. */
  function Elapsed(start: Stamp, end: Stamp): Option<nat> {
    if start.InRange() && end.InRange() && start.Instant() <= end.Instant() <= start.Instant() + ULONG_MAX as int
    then Some(end.Instant() - start.Instant())
    else None
  }

  /** zp_elapsed_ns. The borrow never underflows and the overflow test is exact: the newtypes check
      every intermediate value, and `elapsed` is left alone on failure. */
  method ElapsedNs(start: Stamp, end: Stamp, elapsed0: uint64) returns (ok: bool, elapsed: uint64)
    ensures ok <==> Elapsed(start, end).Some?
    ensures ok <==>
              var ns := (end.sec as int - start.sec as int) * 1_000_000_000 + end.ns as int - start.ns as int;
              && start.sec >= 0 && 0 <= start.ns < 1_000_000_000 && end.sec >= 0 && 0 <= end.ns < 1_000_000_000
              && 0 <= ns < 0x1_0000_0000_0000_0000
    ensures elapsed as int == if ok then Elapsed(start, end).value else elapsed0 as int
    ensures ok ==>
              elapsed as int == (end.sec as int - start.sec as int) * 1_000_000_000 + end.ns as int - start.ns as int
  {
    if start.sec < 0 || end.sec < start.sec || start.ns < 0 || start.ns >= NS_PER_SEC
       || end.ns < 0 || end.ns >= NS_PER_SEC || (end.sec == start.sec && end.ns < start.ns) {
      return false, elapsed0;
    }
    var seconds := end.sec as uint64 - start.sec as uint64;
    var nanos := end.ns - start.ns;
    if nanos < 0 {
      seconds := seconds - 1;
      nanos := nanos + NS_PER_SEC;
    }
    if seconds > (ULONG_MAX - nanos as uint64) / 1_000_000_000 {
      return false, elapsed0;
    }
    return true, seconds * 1_000_000_000 + nanos as uint64;
  }

  /** Adjacent intervals add up, and a measurable interval has measurable parts. */
  lemma ElapsedAdditive(a: Stamp, b: Stamp, c: Stamp)
    requires a.Instant() <= b.Instant() <= c.Instant() && b.InRange()
    ensures Elapsed(a, c).Some? ==>
              && Elapsed(a, b).Some? && Elapsed(b, c).Some?
              && Elapsed(a, c).value == Elapsed(a, b).value + Elapsed(b, c).value
  {
  }
}
