/**
  The alignment macros of my_global.h, in `w`-bit unsigned arithmetic. The alignment is a
  power of two, given by its exponent. The mask `~(L - 1)` has the type of `L`; the lemmas
  about a narrow mask treat an `A` of a wider type.
 */
module Align {
  import opened Bits

  /** `MY_ALIGN_DOWN(A, L)`; `w` is the width of `L`, so of the mask */
  function AlignDown(w: nat, a: nat, l: nat): nat
    requires 0 < l <= Pow2(w)
  {
    BitAnd(a, Complement(w, l - 1))
  }

  /** `MY_ALIGN(A, L)`; the sum wraps around */
  function AlignUp(w: nat, a: nat, l: nat): nat
    requires 0 < l <= Pow2(w)
  {
    AlignUpMixed(w, w, a, l)
  }

  /** `MY_ALIGN(A, L)` with an `aw`-bit `A` and a `w`-bit `L`, whose mask is widened with zeros */
  function AlignUpMixed(aw: nat, w: nat, a: nat, l: nat): nat
    requires 0 < l <= Pow2(w)
  {
    BitAnd(Unsigned(aw, a + l - 1), Complement(w, l - 1))
  }

  /** `ALIGN_SIZE(A)`: to the size of a double */
  function AlignSize(w: nat, a: nat): nat
    requires 8 <= Pow2(w)
  {
    AlignUp(w, a, 8)
  }

  /** `r` is the greatest multiple of `l` not above `a`. */
  ghost predicate GreatestBelow(r: nat, a: nat, l: nat)
    requires l > 0
  {
    r % l == 0 && r <= a && forall m: nat :: m % l == 0 && m <= a ==> m <= r
  }

  /** `r` is the least multiple of `l` not below `a`. */
  ghost predicate LeastAbove(r: nat, a: nat, l: nat)
    requires l > 0
  {
    r % l == 0 && a <= r && forall m: nat :: m % l == 0 && a <= m ==> r <= m
  }

  lemma RoundDown(a: nat, l: nat)
    requires l > 0
    ensures 0 <= a - a % l && GreatestBelow(a - a % l, a, l)
  {
    var q, r := DivMod(a, l);
    var d := a - r;
    assert d == q * l;
    ModAddMultiple(0, q, l);
    ModSmall(0, l);
    forall m: nat | m % l == 0 && m <= a
      ensures m <= d
    {
      var q', _ := DivMod(m, l);
      MulSucc(q, l);
      if q' > q {
        MulMonotone(q + 1, q', l);
        assert false;
      }
      MulMonotone(q', q, l);
    }
  }

  /** Rounding `a + l - 1` down is rounding `a` up. */
  lemma RoundUp(r: nat, a: nat, l: nat)
    requires l > 0 && GreatestBelow(r, a + l - 1, l)
    ensures LeastAbove(r, a, l)
  {
    RoundDown(a + l - 1, l);
    forall m: nat | m % l == 0 && a <= m
      ensures r <= m
    {
      if m < r {
        var q, _ := DivMod(r, l);
        MultiplesApart(m, l, q);
        assert false;
      }
    }
  }

  /** The mask form rounds down. */
  lemma DownIsGreatest(w: nat, a: nat, k: nat)
    requires k <= w && a < Pow2(w)
    ensures Pow2(k) <= Pow2(w) && GreatestBelow(AlignDown(w, a, Pow2(k)), a, Pow2(k))
  {
    ClearLowBits(w, a, k);
    RoundDown(a, Pow2(k));
  }

  /** The mask form rounds up exactly when the sum does not overflow; when it does, it gives zero. */
  lemma UpIsLeast(w: nat, a: nat, k: nat)
    requires k <= w && a < Pow2(w)
    ensures Pow2(k) <= Pow2(w)
    ensures LeastAbove(AlignUp(w, a, Pow2(k)), a, Pow2(k)) <==> a + Pow2(k) - 1 < Pow2(w)
    ensures a + Pow2(k) - 1 >= Pow2(w) ==> AlignUp(w, a, Pow2(k)) == 0
  {
    Pow2Monotone(k, w);
    var l, sum := Pow2(k), a + Pow2(k) - 1;
    if sum < Pow2(w) {
      UpIsDownOfSum(w, a, k);
      DownIsGreatest(w, sum, k);
      RoundUp(AlignUp(w, a, l), a, l);
    } else {
      var over := sum - Pow2(w);
      QuotientUnique(sum, Pow2(w), 1, over);
      ClearLowBits(w, over, k);
      ModSmall(over, l);
    }
  }

  /** Without overflow, rounding up is rounding the sum down. */
  lemma UpIsDownOfSum(w: nat, a: nat, k: nat)
    requires k <= w && a + Pow2(k) - 1 < Pow2(w)
    ensures Pow2(k) <= Pow2(w)
    ensures AlignUp(w, a, Pow2(k)) == AlignDown(w, a + Pow2(k) - 1, Pow2(k))
  {
    Pow2Monotone(k, w);
    ModSmall(a + Pow2(k) - 1, Pow2(w));
  }

  /** Aligning twice is aligning once, both ways and also after an overflow. */
  lemma Idempotent(w: nat, a: nat, k: nat)
    requires k <= w && a < Pow2(w)
    ensures Pow2(k) <= Pow2(w)
    ensures AlignUp(w, AlignUp(w, a, Pow2(k)), Pow2(k)) == AlignUp(w, a, Pow2(k))
    ensures AlignDown(w, AlignDown(w, a, Pow2(k)), Pow2(k)) == AlignDown(w, a, Pow2(k))
  {
    var l := Pow2(k);
    DownIsGreatest(w, a, k);
    DownIsGreatest(w, AlignDown(w, a, l), k);
    UpIsLeast(w, a, k);
    if a + l - 1 < Pow2(w) {
      UpIsDownOfSum(w, a, k);
      DownIsGreatest(w, a + l - 1, k);
    } else {
      ModSmall(0, l);
    }
    UpStays(w, AlignUp(w, a, l), k);
  }

  lemma UpStays(w: nat, r: nat, k: nat)
    requires k <= w && r % Pow2(k) == 0 && r < Pow2(w)
    ensures Pow2(k) <= Pow2(w) && AlignUp(w, r, Pow2(k)) == r
  {
    TopMultiple(w, k, r);
    UpIsLeast(w, r, k);
  }

  /** Two different multiples are a whole unit apart. */
  lemma MultiplesApart(r: nat, l: nat, q: nat)
    requires l > 0 && r % l == 0 && r < q * l
    ensures r + l <= q * l
  {
    var p, _ := DivMod(r, l);
    if p >= q {
      MulMonotone(q, p, l);
    }
    MulMonotone(p + 1, q, l);
    MulSucc(p, l);
  }

  /** Both roundings keep the order, rounding up as long as the larger sum does not overflow. */
  lemma Monotone(w: nat, a: nat, b: nat, k: nat)
    requires k <= w && a <= b < Pow2(w)
    ensures Pow2(k) <= Pow2(w)
    ensures AlignDown(w, a, Pow2(k)) <= AlignDown(w, b, Pow2(k))
    ensures b + Pow2(k) - 1 < Pow2(w) ==> AlignUp(w, a, Pow2(k)) <= AlignUp(w, b, Pow2(k))
  {
    UpIsLeast(w, a, k);
    UpIsLeast(w, b, k);
    DownIsGreatest(w, a, k);
    DownIsGreatest(w, b, k);
  }

  // ---- an alignment of a narrower type ----

  /** A `w`-bit mask drops everything above bit `w`, so only the low `w` bits are rounded. */
  lemma NarrowMask(w: nat, a: nat, k: nat)
    requires k <= w
    ensures Pow2(k) <= Pow2(w)
    ensures AlignDown(w, a, Pow2(k)) == AlignDown(w, a % Pow2(w), Pow2(k)) < Pow2(w)
    ensures GreatestBelow(AlignDown(w, a, Pow2(k)), a % Pow2(w), Pow2(k))
  {
    var _, low := DivMod(a, Pow2(w));
    DownIsGreatest(w, low, k);
    AndMod(a, Complement(w, Pow2(k) - 1), w);
  }

  /** With a narrow mask rounding down is right if and only if the number fits the mask's width. */
  lemma NarrowDown(w: nat, a: nat, k: nat)
    requires k <= w
    ensures Pow2(k) <= Pow2(w)
    ensures GreatestBelow(AlignDown(w, a, Pow2(k)), a, Pow2(k)) <==> a < Pow2(w)
  {
    NarrowMask(w, a, k);
    if a < Pow2(w) {
      ModSmall(a, Pow2(w));
    } else {
      Pow2Multiple(w, k);
    }
  }

  lemma Pow2Multiple(w: nat, k: nat)
    requires k <= w
    ensures Pow2(w) % Pow2(k) == 0
  {
    Pow2Add(w - k, k);
    ModAddMultiple(0, Pow2(w - k), Pow2(k));
    ModSmall(0, Pow2(k));
  }

  /** And rounding up if and only if the sum fits it. */
  lemma NarrowUp(aw: nat, w: nat, a: nat, k: nat)
    requires k <= w <= aw && a < Pow2(aw)
    ensures Pow2(k) <= Pow2(w)
    ensures LeastAbove(AlignUpMixed(aw, w, a, Pow2(k)), a, Pow2(k)) <==> a + Pow2(k) - 1 < Pow2(w)
  {
    var l, sum := Pow2(k), a + Pow2(k) - 1;
    NarrowMask(w, Unsigned(aw, sum), k);
    var r := AlignDown(w, Unsigned(aw, sum), l);
    assert AlignUpMixed(aw, w, a, l) == r;
    if sum < Pow2(w) {
      Pow2Monotone(w, aw);
      ModSmall(sum, Pow2(aw));
      DownIsGreatest(w, sum, k);
      RoundUp(r, a, l);
    } else {
      TopMultiple(w, k, r);
    }
  }

  /** A multiple that fits `w` bits is at least one unit below 2^w. */
  lemma TopMultiple(w: nat, k: nat, r: nat)
    requires k <= w && r < Pow2(w) && r % Pow2(k) == 0
    ensures r + Pow2(k) <= Pow2(w)
  {
    Pow2Add(w - k, k);
    MultiplesApart(r, Pow2(k), Pow2(w - k));
  }

  /** Sizes are rounded to the next multiple of eight. */
  lemma AlignSizeToEight(w: nat, a: nat)
    requires w >= 3 && a + 7 < Pow2(w)
    ensures 8 <= Pow2(w) && LeastAbove(AlignSize(w, a), a, 8)
  {
    assert Pow2(3) == 8;
    UpIsLeast(w, a, 3);
  }
}
