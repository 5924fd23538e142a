/** `my_uuid2str` of my_sys.h: printing a 16-byte identifier, with or without separators */
module Uuid {
  import opened Bits
  import opened Endian
  import opened Memory

  const UUID_SIZE: nat := 16

  datatype Option<T> = None | Some(value: T)

  /** The part of the table `_dig_vec_lower` the printer can reach */
  function Digit(x: nat): char
    requires x < 16
  {
    if x < 10 then '0' + x as char else 'a' + (x - 10) as char
  }

  // ---- the text, as RFC 4122 lays it out ----

  /** Two digits a byte, high half first */
  function Hex(b: seq<byte>): (t: string)
    ensures |t| == 2 * |b|
  {
    if b == [] then "" else Hex(b[..|b| - 1]) + Pair(b[|b| - 1])
  }

  function Pair(x: byte): (t: string)
    ensures |t| == 2
  {
    [Digit(x / 16), Digit(x % 16)]
  }

  /** A group of digits and the dash that follows it */
  function Group(front: string, b: seq<byte>): string {
    front + Hex(b) + "-"
  }

  /** Groups of 8, 4, 4, 4 and 12 digits (section 3 of RFC 4122) */
  function Canonical(id: seq<byte>): string
    requires |id| == UUID_SIZE
  {
    Group(Group(Group(Group("", id[0..4]), id[4..6]), id[6..8]), id[8..10]) + Hex(id[10..16])
  }

  // ---- the printer ----

  predicate DashAfter(i: nat) {
    i == 3 || i == 5 || i == 7 || i == 9
  }

  /** What the printer has written after `n` bytes */
  function Printed(id: seq<byte>, n: nat, separators: bool): string
    requires n <= |id|
  {
    if n == 0 then ""
    else
      Printed(id, n - 1, separators) + Pair(id[n - 1]) + Dash(separators && DashAfter(n - 1))
  }

  function Dash(b: bool): string {
    if b then "-" else ""
  }

  /** The mask the printer starts with: one bit for each byte a dash follows */
  function InitialMask(separators: bool): nat {
    if separators then BitOr(BitOr(BitOr(Shl(32, 1, 3), Shl(32, 1, 5)), Shl(32, 1, 7)), Shl(32, 1, 9)) else 0
  }

  /**
    Writes exactly the characters of the canonical or the plain form, and nothing else.
    The mask at step `i` is the initial mask shifted right `i` times.
   */
  method Uuid2Str(id: seq<byte>, s: array<char>, at: nat, separators: bool)
    requires |id| == UUID_SIZE && at + (if separators then 36 else 32) <= s.Length
    modifies s
    ensures |Canonical(id)| == 36
    ensures s[..] == Splice(old(s[..]), at, if separators then Canonical(id) else Hex(id))
  {
    PrintBytes(id, s, at, separators);
    PrintedWhole(id);
  }

  /** The loop */
  method PrintBytes(id: seq<byte>, s: array<char>, at: nat, separators: bool)
    requires |id| == UUID_SIZE && at + Width(UUID_SIZE, separators) <= s.Length
    modifies s
    ensures SoFar(s[..], old(s[..]), at, id, UUID_SIZE, separators, at + Width(UUID_SIZE, separators))
  {
    ghost var was := s[..];
    var mask, i, p := InitialMask(separators), 0, at;
    assert mask == Shr(mask, 0);
    while i < UUID_SIZE
      invariant 0 <= i <= UUID_SIZE
      invariant mask == Shr(InitialMask(separators), i)
      invariant SoFar(s[..], was, at, id, i, separators, p)
    {
      MaskStep(separators, i, mask);
      p := Step(id, i, separators, s, p, BitAnd(mask, 1) != 0, was, at);
      i, mask := i + 1, Shr(mask, 1);
    }
  }

  /** After `i` bytes the buffer holds what is printed so far and `p` is right behind it. */
  ghost predicate SoFar(s: string, was: string, at: nat, id: seq<byte>, i: nat, separators: bool, p: nat) {
    && i <= UUID_SIZE == |id| && at + Width(UUID_SIZE, separators) <= |was|
    && |Printed(id, i, separators)| == Width(i, separators) <= Width(UUID_SIZE, separators)
    && p == at + Width(i, separators) && s == Splice(was, at, Printed(id, i, separators))
  }

  /** The body of the loop */
  method Step(id: seq<byte>, i: nat, ghost separators: bool, s: array<char>, p: nat, dash: bool,
              ghost was: string, ghost at: nat)
    returns (q: nat)
    requires i < UUID_SIZE && SoFar(s[..], was, at, id, i, separators, p) && (dash <==> separators && DashAfter(i))
    modifies s
    ensures SoFar(s[..], was, at, id, i + 1, separators, q)
  {
    WidthStep(i, separators);
    PrintedFits(id, i + 1, separators);
    ghost var out;
    q, out := PutByte(s, p, id[i], dash, was, at, Printed(id, i, separators));
  }

  /** Two digits, and a dash when the mask says so */
  method PutByte(s: array<char>, p: nat, x: byte, dash: bool, ghost was: string, ghost at: nat, ghost out: string)
    returns (q: nat, ghost more: string)
    requires p == at + |out| && p + (if dash then 3 else 2) <= s.Length == |was| && s[..] == Splice(was, at, out)
    modifies s
    ensures more == out + Pair(x) + Dash(dash) && q == at + |more| <= s.Length && s[..] == Splice(was, at, more)
  {
    HalfDigit(x);
    q, more := Put(s, p, Digit(Shr(x, 4)), was, at, out);
    q, more := Put(s, q, Digit(BitAnd(x, 15)), was, at, more);
    assert more == out + Pair(x);
    if dash {
      q, more := Put(s, q, '-', was, at, more);
    }
  }

  /** `*s++ = c` */
  method Put(s: array<char>, p: nat, c: char, ghost was: string, ghost at: nat, ghost out: string)
    returns (q: nat, ghost more: string)
    requires p == at + |out| < s.Length == |was| && s[..] == Splice(was, at, out)
    modifies s
    ensures q == p + 1 && more == out + [c] && s[..] == Splice(was, at, more)
  {
    s[p] := c;
    q, more := p + 1, out + [c];
  }

  lemma HalfDigit(x: byte)
    ensures Shr(x, 4) == x / 16 && BitAnd(x, 15) == x % 16
  {
    assert Pow2(4) == 16;
    var high, low := x / 16, x % 16;
    AndLow(high, low, 15, 4);
    AndOnes(low, 4);
    ShiftUpIsMul(high, 4);
  }

  /** The step of the loop: the low bit is used and shifted out. */
  lemma MaskStep(separators: bool, i: nat, mask: int)
    requires mask == Shr(InitialMask(separators), i)
    ensures mask >= 0 && (BitAnd(mask, 1) != 0 <==> separators && DashAfter(i))
    ensures Shr(mask, 1) == Shr(InitialMask(separators), i + 1)
  {
    MaskBit(separators, i);
    ShrShr(InitialMask(separators), i, 1);
  }

  /** The low bit of the shifted mask says where the dashes go. */
  lemma MaskBit(separators: bool, i: nat)
    ensures var mask := Shr(InitialMask(separators), i);
            mask >= 0 && (BitAnd(mask, 1) != 0 <==> separators && DashAfter(i))
  {
    var m := InitialMask(separators);
    var mask := m / Pow2(i);
    assert mask >= 0 by { var q, r := DivMod(m, Pow2(i)); }
    assert BitAnd(mask, 1) == mask % 2 by { AndZero(mask / 2); }
    if separators {
      assert Pow2(3) == 8 && Pow2(5) == 32 && Pow2(7) == 128 && Pow2(9) == 512 && Pow2(10) == 1024;
      Pow2Monotone(10, 32);
      assert Shl(32, 1, 3) == 8 && Shl(32, 1, 5) == 32 && Shl(32, 1, 7) == 128 && Shl(32, 1, 9) == 512 by {
        ShiftUpIsMul(1, 3);
        ShiftUpIsMul(1, 5);
        ShiftUpIsMul(1, 7);
        ShiftUpIsMul(1, 9);
        ModSmall(8, Pow2(32));
        ModSmall(32, Pow2(32));
        ModSmall(128, Pow2(32));
        ModSmall(512, Pow2(32));
      }
      OrBit(8, 32, i);
      OrBit(BitOr(8, 32), 128, i);
      OrBit(BitOr(BitOr(8, 32), 128), 512, i);
      BitOfPow2(3, i);
      BitOfPow2(5, i);
      BitOfPow2(7, i);
      BitOfPow2(9, i);
    } else {
      QuotientUnique(0, Pow2(i), 0, 0);
    }
  }

  /** The number of characters written after `n` bytes */
  function Width(n: nat, separators: bool): nat {
    2 * n + if !separators || n <= 3 then 0 else if n <= 5 then 1 else if n <= 7 then 2 else if n <= 9 then 3 else 4
  }

  lemma WidthStep(i: nat, separators: bool)
    requires i < UUID_SIZE
    ensures Width(i + 1, separators) == Width(i, separators) + if separators && DashAfter(i) then 3 else 2
    ensures Width(i + 1, separators) <= Width(UUID_SIZE, separators)
  {
  }

  lemma {:induction false} PrintedFits(id: seq<byte>, n: nat, separators: bool)
    requires n <= UUID_SIZE == |id|
    ensures |Printed(id, n, separators)| == Width(n, separators)
  {
    if n > 0 {
      PrintedFits(id, n - 1, separators);
    }
  }

  /** A stretch without a dash */
  lemma {:induction false} PrintedStretch(id: seq<byte>, k: nat, n: nat, separators: bool)
    requires k <= n <= |id| && (separators ==> forall i :: k <= i < n ==> !DashAfter(i))
    ensures Printed(id, n, separators) == Printed(id, k, separators) + Hex(id[k..n])
  {
    if k < n {
      PrintedStretch(id, k, n - 1, separators);
      HexSnoc(id, k, n);
      Regroup(Printed(id, k, separators), Hex(id[k..n - 1]), Pair(id[n - 1]), "");
    } else {
      assert Hex(id[k..n]) == "";
    }
  }

  lemma HexSnoc(id: seq<byte>, k: nat, n: nat)
    requires k < n <= |id|
    ensures Hex(id[k..n]) == Hex(id[k..n - 1]) + Pair(id[n - 1])
  {
    assert id[k..n][..n - k - 1] == id[k..n - 1];
  }

  /** A stretch that ends with a dash */
  lemma PrintedGroup(id: seq<byte>, k: nat, n: nat)
    requires k < n <= |id| && DashAfter(n - 1) && forall i :: k <= i < n - 1 ==> !DashAfter(i)
    ensures Printed(id, n, true) == Group(Printed(id, k, true), id[k..n])
  {
    PrintedStretch(id, k, n - 1, true);
    HexSnoc(id, k, n);
    Regroup(Printed(id, k, true), Hex(id[k..n - 1]), Pair(id[n - 1]), "-");
  }

  lemma Regroup(front: string, mid: string, last: string, end: string)
    ensures front + mid + last + end == front + (mid + last) + end
  {
  }

  lemma PrintedWhole(id: seq<byte>)
    requires |id| == UUID_SIZE
    ensures Printed(id, 16, true) == Canonical(id) && |Canonical(id)| == 36
    ensures Printed(id, 16, false) == Hex(id)
  {
    PrintedStretch(id, 0, 16, false);
    assert id[0..16] == id;
    PrintedGroup(id, 0, 4);
    PrintedGroup(id, 4, 6);
    PrintedGroup(id, 6, 8);
    PrintedGroup(id, 8, 10);
    PrintedStretch(id, 10, 16, true);
    PrintedFits(id, 16, true);
  }

  // ---- where each character goes ----

  lemma DigitTable(x: nat)
    requires x < 16
    ensures Digit(x) == "0123456789abcdef"[x]
  {
    var table := "0123456789abcdef";
    assert table[0] == '0' && table[1] == '1' && table[2] == '2' && table[3] == '3';
    assert table[4] == '4' && table[5] == '5' && table[6] == '6' && table[7] == '7';
    assert table[8] == '8' && table[9] == '9' && table[10] == 'a' && table[11] == 'b';
    assert table[12] == 'c' && table[13] == 'd' && table[14] == 'e' && table[15] == 'f';
  }

  /** The two digits of byte `i`, high half first, in what is printed for `n` bytes */
  lemma {:induction false} PrintedAt(id: seq<byte>, n: nat, separators: bool, i: nat)
    requires i < n <= UUID_SIZE == |id|
    ensures Width(i, separators) + 2 <= |Printed(id, n, separators)|
    ensures Printed(id, n, separators)[Width(i, separators)] == Digit(id[i] / 16)
    ensures Printed(id, n, separators)[Width(i, separators) + 1] == Digit(id[i] % 16)
  {
    PrintedFits(id, n - 1, separators);
    var front, last := Printed(id, n - 1, separators), Pair(id[n - 1]);
    assert Printed(id, n, separators) == front + last + Dash(separators && DashAfter(n - 1));
    if i < n - 1 {
      PrintedAt(id, n - 1, separators, i);
    } else {
      assert last == [Digit(id[i] / 16), Digit(id[i] % 16)];
    }
  }

  /**
    Byte `i` of the identifier is printed as two lowercase hexadecimal digits, high half
    first: at 2i without separators, and with them past the dashes at 8, 13, 18 and 23.
   */
  lemma TextPositions(id: seq<byte>, i: nat)
    requires |id| == UUID_SIZE && i < 16
    ensures |Hex(id)| == 32
    ensures Hex(id)[2 * i] == "0123456789abcdef"[id[i] / 16]
    ensures Hex(id)[2 * i + 1] == "0123456789abcdef"[id[i] % 16]
    ensures |Canonical(id)| == 36
    ensures var p := 2 * i + if i < 4 then 0 else if i < 6 then 1 else if i < 8 then 2 else if i < 10 then 3 else 4;
            && Canonical(id)[p] == "0123456789abcdef"[id[i] / 16]
            && Canonical(id)[p + 1] == "0123456789abcdef"[id[i] % 16]
    ensures Canonical(id)[8] == Canonical(id)[13] == Canonical(id)[18] == Canonical(id)[23] == '-'
  {
    PrintedWhole(id);
    PrintedShape(id, 16);
    PrintedAt(id, 16, false, i);
    PrintedAt(id, 16, true, i);
    DigitTable(id[i] / 16);
    DigitTable(id[i] % 16);
  }

  // ---- inverse ----

  predicate IsDigit(c: char) {
    '0' <= c <= '9' || 'a' <= c <= 'f'
  }

  function DigitValue(c: char): (v: nat)
    requires IsDigit(c)
    ensures v < 16 && Digit(v) == c
  {
    if c <= '9' then c as int - '0' as int else 10 + (c as int - 'a' as int)
  }

  predicate AllDigits(t: string) {
    forall i :: 0 <= i < |t| ==> IsDigit(t[i])
  }

  function ByteOf(c: char, d: char): (x: byte)
    requires IsDigit(c) && IsDigit(d)
    ensures Pair(x) == [c, d]
  {
    var hi, lo := DigitValue(c), DigitValue(d);
    assert (16 * hi + lo) / 16 == hi && (16 * hi + lo) % 16 == lo;
    16 * hi + lo
  }

  /** The bytes of a string of digits */
  function Unhex(t: string): (b: seq<byte>)
    requires |t| % 2 == 0 && AllDigits(t)
    ensures 2 * |b| == |t|
  {
    seq(|t| / 2, i requires 0 <= i < |t| / 2 => ByteOf(t[2 * i], t[2 * i + 1]))
  }

  /** Where the digits of a byte are */
  lemma {:induction false} HexAt(b: seq<byte>, i: nat)
    requires i < |b|
    ensures Hex(b)[2 * i] == Pair(b[i])[0] && Hex(b)[2 * i + 1] == Pair(b[i])[1]
  {
    if i < |b| - 1 {
      HexAt(b[..|b| - 1], i);
    }
  }

  lemma HexDigits(b: seq<byte>)
    ensures AllDigits(Hex(b))
  {
    forall j | 0 <= j < |Hex(b)|
      ensures IsDigit(Hex(b)[j])
    {
      HexAt(b, j / 2);
    }
  }

  lemma UnhexHex(b: seq<byte>)
    ensures AllDigits(Hex(b)) && Unhex(Hex(b)) == b
  {
    HexDigits(b);
    forall i | 0 <= i < |b|
      ensures Unhex(Hex(b))[i] == b[i]
    {
      HexAt(b, i);
      PairInjective(Unhex(Hex(b))[i], b[i]);
    }
  }

  lemma PairInjective(x: byte, y: byte)
    requires Pair(x)[0] == Pair(y)[0] && Pair(x)[1] == Pair(y)[1]
    ensures x == y
  {
    assert DigitValue(Pair(x)[0]) == x / 16 && DigitValue(Pair(x)[1]) == x % 16;
    assert DigitValue(Pair(y)[0]) == y / 16 && DigitValue(Pair(y)[1]) == y % 16;
  }

  lemma HexUnhex(t: string)
    requires |t| % 2 == 0 && AllDigits(t)
    ensures Hex(Unhex(t)) == t
  {
    forall j | 0 <= j < |t|
      ensures Hex(Unhex(t))[j] == t[j]
    {
      HexAt(Unhex(t), j / 2);
      assert j == 2 * (j / 2) || j == 2 * (j / 2) + 1;
    }
  }

  /** The text without its dashes */
  function Strip(t: string): string {
    if t == "" then "" else Strip(t[..|t| - 1]) + if t[|t| - 1] == '-' then "" else [t[|t| - 1]]
  }

  lemma {:induction false} StripConcat(x: string, y: string)
    ensures Strip(x + y) == Strip(x) + Strip(y)
  {
    if y == "" {
      assert x + y == x;
    } else {
      var n := |y| - 1;
      StripConcat(x, y[..n]);
      assert (x + y)[..|x| + n] == x + y[..n];
    }
  }

  lemma {:induction false} StripDigits(t: string)
    requires AllDigits(t)
    ensures Strip(t) == t
  {
    if t != "" {
      StripDigits(t[..|t| - 1]);
      assert t == t[..|t| - 1] + [t[|t| - 1]];
    }
  }

  lemma StripStep(front: string, d: string, dash: bool)
    requires AllDigits(d)
    ensures Strip(front + d + Dash(dash)) == Strip(front) + d
  {
    StripConcat(front + d, Dash(dash));
    assert Strip("-") == "";
    StripConcat(front, d);
    StripDigits(d);
  }

  lemma HexPrefix(id: seq<byte>, n: nat)
    requires 0 < n <= |id|
    ensures Hex(id[..n]) == Hex(id[..n - 1]) + Pair(id[n - 1])
  {
    assert id[..n][..n - 1] == id[..n - 1];
  }

  /** The printed text without its dashes is the text printed without dashes. */
  lemma {:induction false} StripPrinted(id: seq<byte>, n: nat)
    requires n <= |id|
    ensures Strip(Printed(id, n, true)) == Hex(id[..n])
  {
    if n > 0 {
      StripPrinted(id, n - 1);
      StripStep(Printed(id, n - 1, true), Pair(id[n - 1]), DashAfter(n - 1));
      HexPrefix(id, n);
    }
  }

  /** Deleting the dashes of the separated form gives the plain form. */
  lemma StripCanonical(id: seq<byte>)
    requires |id| == UUID_SIZE
    ensures Strip(Canonical(id)) == Hex(id)
  {
    PrintedWhole(id);
    StripPrinted(id, 16);
    assert id[..16] == id;
  }

  /** Reads either form back */
  function Parse(t: string): Option<seq<byte>> {
    var digits := Strip(t);
    if |digits| == 32 && AllDigits(digits) then Some(Unhex(digits)) else None
  }

  /** Both forms can be read back. */
  lemma ParseRoundTrip(id: seq<byte>)
    requires |id| == UUID_SIZE
    ensures Parse(Canonical(id)) == Some(id) && Parse(Hex(id)) == Some(id)
  {
    UnhexHex(id);
    StripCanonical(id);
    StripDigits(Hex(id));
  }

  /** So the printer never gives two identifiers the same text, in either form. */
  lemma TextInjective(x: seq<byte>, y: seq<byte>)
    requires |x| == |y| == UUID_SIZE
    requires Canonical(x) == Canonical(y) || Hex(x) == Hex(y)
    ensures x == y
  {
    ParseRoundTrip(x);
    ParseRoundTrip(y);
  }

  // ---- layout ----

  predicate IsDash(i: nat) {
    i == 8 || i == 13 || i == 18 || i == 23
  }

  /** The first `n` characters have dashes at 8, 13, 18 and 23 and digits everywhere else. */
  predicate Shape(t: string, n: nat) {
    |t| == n && forall i :: 0 <= i < n ==> if IsDash(i) then t[i] == '-' else IsDigit(t[i])
  }

  lemma {:induction false} PrintedShape(id: seq<byte>, n: nat)
    requires n <= UUID_SIZE == |id|
    ensures Shape(Printed(id, n, true), Width(n, true))
  {
    if n > 0 {
      PrintedShape(id, n - 1);
    }
  }

  /** The last byte's part of a text of the right shape */
  lemma ShapeStep(t: string, n: nat) returns (front: string, d: string)
    requires 0 < n <= UUID_SIZE && Shape(t, Width(n, true))
    ensures t == front + d + Dash(DashAfter(n - 1)) && Shape(front, Width(n - 1, true))
    ensures |d| == 2 && AllDigits(d) && Strip(t) == Strip(front) + d
  {
    var w := Width(n - 1, true);
    front, d := t[..w], t[w..w + 2];
    if DashAfter(n - 1) {
      assert t == front + d + "-";
    } else {
      assert t == front + d + "";
    }
    StripStep(front, d, DashAfter(n - 1));
  }

  lemma SplitEqual(a: string, x: string, b: string, y: string)
    requires |x| == |y| && a + x == b + y
    ensures a == b && x == y
  {
    assert |a| == |b|;
    assert a == (a + x)[..|a|] && x == (a + x)[|a|..];
    assert b == (b + y)[..|b|] && y == (b + y)[|b|..];
  }

  /** A text of the right shape is printed for the identifier its digits spell. */
  lemma {:induction false} ShapePrinted(t: string, id: seq<byte>, n: nat)
    requires n <= UUID_SIZE == |id| && Shape(t, Width(n, true)) && Strip(t) == Hex(id[..n])
    ensures t == Printed(id, n, true)
    decreases n
  {
    if n > 0 {
      var front, d := ShapeStep(t, n);
      HexPrefix(id, n);
      SplitEqual(Strip(front), d, Hex(id[..n - 1]), Pair(id[n - 1]));
      ShapePrinted(front, id, n - 1);
    }
  }

  lemma {:induction false} StripLength(t: string, n: nat)
    requires n <= UUID_SIZE && Shape(t, Width(n, true))
    ensures |Strip(t)| == 2 * n && AllDigits(Strip(t))
    decreases n
  {
    if n > 0 {
      var front, d := ShapeStep(t, n);
      StripLength(front, n - 1);
    }
  }

  /** The texts with separators are exactly those of the canonical shape. */
  lemma ShapeIsImage(t: string)
    ensures Shape(t, 36) <==> exists id: seq<byte> :: |id| == UUID_SIZE && Canonical(id) == t
  {
    if Shape(t, 36) {
      StripLength(t, 16);
      var id := Unhex(Strip(t));
      HexUnhex(Strip(t));
      assert id[..16] == id;
      ShapePrinted(t, id, 16);
      PrintedWhole(id);
    }
    forall id: seq<byte> | |id| == UUID_SIZE && Canonical(id) == t
      ensures Shape(t, 36)
    {
      PrintedWhole(id);
      PrintedShape(id, 16);
    }
  }
}
