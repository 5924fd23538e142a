/** Splitting and comparing times: my_pthread.h and `CMP_NUM` of my_global.h */
module Timespecs {
  import opened Bits
  import opened Endian

  const NANOS: nat := 1_000_000_000

  /** `CMP_NUM` */
  function CmpNum(a: int, b: int): int {
    if a < b then -1 else if a == b then 0 else 1
  }

  datatype Time = Time(sec: int, nsec: int)

  predicate Normalised(t: Time) {
    0 <= t.nsec < NANOS
  }

  function Nanos(t: Time): int {
    t.sec * NANOS + t.nsec
  }

  /** `cmp_timespec` */
  function CmpTimespec(t: Time, u: Time): int {
    if t.sec > u.sec || (t.sec == u.sec && t.nsec > u.nsec) then 1
    else if t.sec < u.sec || (t.sec == u.sec && t.nsec < u.nsec) then -1
    else 0
  }

  /** `struct timespec`, with a `time_t` of so many bits */
  class Timespec {
    const timeBits: nat
    var sec: int
    var nsec: int

    constructor (timeBits: nat)
      ensures this.timeBits == timeBits
    {
      this.timeBits := timeBits;
    }

    function Value(): Time
      reads this
    {
      Time(sec, nsec)
    }

    /**
      `set_timespec_time_nsec`: the count is cut to 64 bits and split into seconds and
      nanoseconds; the seconds are the one number of the host's `time_t` congruent to those
      of the count. The result is exact if and only if they fit.
     */
    method SetTimeNsec(nanos: int)
      requires timeBits > 0
      modifies this
      ensures Value() == Split(timeBits, Unsigned(64, nanos)) && Normalised(Value())
      ensures nsec == nanos % Pow2(64) % 1_000_000_000
      ensures -(Pow2(timeBits - 1) as int) <= sec < Pow2(timeBits - 1)
      ensures sec % Pow2(timeBits) == nanos % Pow2(64) / 1_000_000_000 % Pow2(timeBits)
      ensures sec * 1_000_000_000 + nsec == nanos % Pow2(64)
              <==> nanos % Pow2(64) / 1_000_000_000 < Pow2(timeBits - 1)
    {
      var now := Unsigned(64, nanos);
      sec := Signed(timeBits, Unsigned(timeBits, now / NANOS));
      nsec := now % NANOS;
      SplitExact(timeBits, now);
      SignedUnique(timeBits, now / NANOS, 0);
    }
  }

  /** The count of `s` seconds and `n` nanoseconds is split into just these, whenever the seconds fit. */
  lemma SplitOfCount(timeBits: nat, s: nat, n: nat)
    requires timeBits > 0 && s < Pow2(timeBits - 1) && n < 1_000_000_000
    ensures Split(timeBits, s * 1_000_000_000 + n) == Time(s, n)
  {
    QuotientUnique(s * NANOS + n, NANOS, s, n);
    ModSmall(s, Pow2(timeBits));
  }

  /** The seconds, cut to the host's `time_t`, and the nanoseconds of a count */
  function Split(timeBits: nat, nanos: nat): Time
    requires timeBits > 0
  {
    Time(Signed(timeBits, Unsigned(timeBits, nanos / NANOS)), nanos % NANOS)
  }

  lemma SplitExact(timeBits: nat, nanos: nat)
    requires timeBits > 0
    ensures Nanos(Split(timeBits, nanos)) == nanos <==> nanos / NANOS < Pow2(timeBits - 1)
  {
    var s, t := nanos / NANOS, Split(timeBits, nanos);
    assert nanos == s * NANOS + nanos % NANOS;
    if s < Pow2(timeBits - 1) {
      ModSmall(s, Pow2(timeBits));
    } else {
      assert t.sec < Pow2(timeBits - 1);
      assert t.sec < s;
    }
  }

  /** On normalised times the comparison is that of the nanosecond counts. */
  lemma CmpIsNumeric(t: Time, u: Time)
    requires Normalised(t) && Normalised(u)
    ensures CmpTimespec(t, u) == CmpNum(Nanos(t), Nanos(u))
    ensures CmpTimespec(t, u) == -1 <==> t.sec * 1_000_000_000 + t.nsec < u.sec * 1_000_000_000 + u.nsec
    ensures CmpTimespec(t, u) == 1 <==> t.sec * 1_000_000_000 + t.nsec > u.sec * 1_000_000_000 + u.nsec
  {
    if t.sec < u.sec {
      assert (t.sec + 1) * NANOS <= u.sec * NANOS;
    } else if u.sec < t.sec {
      assert (u.sec + 1) * NANOS <= t.sec * NANOS;
    }
  }

  /** Comparing split times is comparing the counts, for all counts below `bound`. */
  ghost predicate OrderKept(timeBits: nat, bound: nat)
    requires timeBits > 0
  {
    forall a: nat, b: nat :: a < bound && b < bound ==>
      CmpTimespec(Split(timeBits, a), Split(timeBits, b)) == CmpNum(a, b)
  }

  /** The least count whose seconds do not fit */
  function Limit(timeBits: nat): nat
    requires timeBits > 0
  {
    Pow2(timeBits - 1) * NANOS
  }

  /** The order of all counts below a bound is kept if and only if the seconds of all of them fit. */
  lemma OrderIffFits(timeBits: nat, bound: nat)
    requires timeBits > 0
    ensures OrderKept(timeBits, bound) <==> bound <= Pow2(timeBits - 1) * 1_000_000_000
  {
    if bound <= Limit(timeBits) {
      forall a: nat, b: nat | a < bound && b < bound
        ensures CmpTimespec(Split(timeBits, a), Split(timeBits, b)) == CmpNum(a, b)
      {
        BelowLimit(timeBits, a);
        BelowLimit(timeBits, b);
        CmpIsNumeric(Split(timeBits, a), Split(timeBits, b));
      }
    } else {
      AtLimit(timeBits);
      assert CmpTimespec(Split(timeBits, Limit(timeBits)), Split(timeBits, 0)) == -1;
    }
  }

  lemma BelowLimit(timeBits: nat, nanos: nat)
    requires timeBits > 0 && nanos < Limit(timeBits)
    ensures Nanos(Split(timeBits, nanos)) == nanos
  {
    QuotientBound(nanos, NANOS, Pow2(timeBits - 1));
    SplitExact(timeBits, nanos);
  }

  /** The first count that does not fit compares before zero. */
  lemma AtLimit(timeBits: nat)
    requires timeBits > 0
    ensures CmpTimespec(Split(timeBits, Limit(timeBits)), Split(timeBits, 0)) == -1 < CmpNum(Limit(timeBits), 0)
  {
    var half := Pow2(timeBits - 1);
    QuotientUnique(Limit(timeBits), NANOS, half, 0);
    ModSmall(half, Pow2(timeBits));
    ModSmall(0, Pow2(timeBits));
    assert Split(timeBits, Limit(timeBits)).sec == half - Pow2(timeBits);
    assert Split(timeBits, 0).sec == 0;
  }

  /** So a 64-bit `time_t` orders all 64-bit counts, and splitting loses nothing. */
  lemma SplitKeepsOrder(a: nat, b: nat)
    requires a < Pow2(64) && b < Pow2(64)
    ensures CmpTimespec(Split(64, a), Split(64, b)) == CmpNum(a, b)
    ensures Nanos(Split(64, a)) == a
  {
    assert Pow2(64) == 2 * Pow2(63) <= Limit(64);
    OrderIffFits(64, Pow2(64));
    BelowLimit(64, a);
  }

  /** A 32-bit `time_t` orders the counts below 2^31 seconds, and no larger range of counts. */
  lemma Overflow2038(bound: nat)
    ensures OrderKept(32, bound) <==> bound <= 0x8000_0000 * 1_000_000_000
    ensures 0x8000_0000 * 1_000_000_000 < Pow2(64)
    ensures CmpTimespec(Split(32, 0x8000_0000 * 1_000_000_000), Split(32, 0)) == -1
  {
    Pow2Table();
    Pow2Add(32, 32);
    OrderIffFits(32, bound);
    AtLimit(32);
  }

  /** The comparison is a total order: antisymmetric, transitive, and zero only on equal times. */
  lemma TotalOrder(t: Time, u: Time, v: Time)
    ensures CmpTimespec(t, u) == -CmpTimespec(u, t)
    ensures CmpTimespec(t, u) == 0 <==> t == u
    ensures CmpTimespec(t, u) <= 0 && CmpTimespec(u, v) <= 0 ==> CmpTimespec(t, v) <= 0
  {
  }
}
