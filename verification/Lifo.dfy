/**
  The two last-in-first-out buffers of private/sql_lifo_buffer.h, which live side by side in
  one piece of memory and hand unused space from one to the other. Pointers are offsets
  into that memory.
 */
module Lifo {
  import opened Bits
  import opened Endian
  import opened Memory

  /** An element: one byte string, or a pair of them */
  datatype Item = Item(first: seq<byte>, second: seq<byte>)

  /** The elements in memory filled upwards, oldest first */
  function Stacked(b: seq<byte>, size1: nat, size2: nat): seq<Item>
    requires size1 + size2 > 0
  {
    var size := size1 + size2;
    if |b| < size then []
    else
      var n := |b| - size;
      Stacked(b[..n], size1, size2) + [Item(b[n..n + size1], b[n + size1..])]
  }

  /** The elements in memory filled downwards, oldest first */
  function Hanging(b: seq<byte>, size1: nat, size2: nat): seq<Item>
    requires size1 + size2 > 0
  {
    var size := size1 + size2;
    if |b| < size then [] else Hanging(b[size..], size1, size2) + [Item(b[..size1], b[size1..size])]
  }

  /** The bytes `n` elements take */
  function Bytes(n: nat, size: nat): nat {
    if n == 0 then 0 else Bytes(n - 1, size) + size
  }

  lemma {:induction false} BytesIsMul(n: nat, size: nat)
    ensures Bytes(n, size) == n * size
  {
    if n > 0 {
      BytesIsMul(n - 1, size);
      MulSucc(n - 1, size);
    }
  }

  lemma {:induction false} StackedCount(b: seq<byte>, size1: nat, size2: nat)
    requires size1 + size2 > 0
    ensures Bytes(|Stacked(b, size1, size2)|, size1 + size2) <= |b|
            < Bytes(|Stacked(b, size1, size2)|, size1 + size2) + (size1 + size2)
  {
    if |b| >= size1 + size2 {
      StackedCount(b[..|b| - (size1 + size2)], size1, size2);
    }
  }

  lemma {:induction false} HangingCount(b: seq<byte>, size1: nat, size2: nat)
    requires size1 + size2 > 0
    ensures Bytes(|Hanging(b, size1, size2)|, size1 + size2) <= |b|
            < Bytes(|Hanging(b, size1, size2)|, size1 + size2) + (size1 + size2)
  {
    if |b| >= size1 + size2 {
      HangingCount(b[size1 + size2..], size1, size2);
    }
  }

  /** A number of bytes is that of whole elements exactly when it is a multiple of their size. */
  lemma WholeIffMultiple(used: nat, n: nat, size: nat)
    requires size > 0 && Bytes(n, size) <= used < Bytes(n, size) + size
    ensures used == Bytes(n, size) <==> used % size == 0
  {
    BytesIsMul(n, size);
    QuotientUnique(used, size, n, used - n * size);
  }

  /** Writing only the first part of a pair right below whole elements does not put the pair on top. */
  lemma HangingPart(s: seq<byte>, pos: nat, end: nat, x: Item)
    requires pos + |x.first| <= end <= |s| && x.second != []
    requires var b := s[pos + |x.first|..end];
             |b| == Bytes(|Hanging(b, |x.first|, |x.second|)|, |x.first| + |x.second|)
    ensures Hanging(Splice(s, pos, x.first)[pos..end], |x.first|, |x.second|)
            != Hanging(s[pos + |x.first|..end], |x.first|, |x.second|) + [x]
  {
    HangingCount(Splice(s, pos, x.first)[pos..end], |x.first|, |x.second|);
  }

  /** Writing an element right above the used memory `s[start..pos]` puts it on top. */
  lemma StackedPush(s: seq<byte>, start: nat, pos: nat, x: Item)
    requires start <= pos && pos + |x.first + x.second| <= |s| && |x.first + x.second| > 0
    ensures Stacked(Splice(s, pos, x.first + x.second)[start..pos + |x.first + x.second|], |x.first|, |x.second|)
            == Stacked(s[start..pos], |x.first|, |x.second|) + [x]
  {
    var b := s[start..pos];
    var c := Splice(s, pos, x.first + x.second)[start..pos + |x.first + x.second|];
    assert c == b + (x.first + x.second);
    assert c[..|b|] == b && c[|b|..|b| + |x.first|] == x.first && c[|b| + |x.first|..] == x.second;
  }

  /** Writing an element right below the used memory puts it on top. */
  lemma HangingPush(s: seq<byte>, pos: nat, end: nat, x: Item)
    requires pos + |x.first + x.second| <= end <= |s| && |x.first + x.second| > 0
    ensures Hanging(Splice(s, pos, x.first + x.second)[pos..end], |x.first|, |x.second|)
            == Hanging(s[pos + |x.first + x.second|..end], |x.first|, |x.second|) + [x]
  {
    var b, size := s[pos + |x.first + x.second|..end], |x.first + x.second|;
    SpliceTail(s, pos, x.first + x.second, end);
    var c := x.first + x.second + b;
    assert c[size..] == b && c[..|x.first|] == x.first && c[|x.first|..size] == x.second;
  }

  lemma StackedNone(b: seq<byte>, size1: nat, size2: nat)
    requires |b| < size1 + size2
    ensures Stacked(b, size1, size2) == []
  {
  }

  /** The top of a stack that grows upwards */
  lemma StackedTop(s: seq<byte>, start: nat, pos: nat, size1: nat, size2: nat)
    requires start + (size1 + size2) <= pos <= |s| && size1 + size2 > 0
    ensures var top := pos - (size1 + size2);
            Stacked(s[start..pos], size1, size2)
            == Stacked(s[start..top], size1, size2) + [Item(s[top..top + size1], s[top + size1..pos])]
  {
    var b, n := s[start..pos], pos - (size1 + size2) - start;
    SliceOfSlice(s, start, pos, 0, n);
    SliceOfSlice(s, start, pos, n, size1);
    SliceOfSlice(s, start, pos, n + size1, size2);
    assert b[n + size1..] == b[n + size1..n + size1 + size2];
  }

  /** The same, for pointers to the two parts of the top */
  lemma StackedAt(s: seq<byte>, start: nat, pos: nat, ptr1: nat, ptr2: nat, size1: nat, size2: nat)
    requires start <= ptr1 && ptr1 + size1 == ptr2 && ptr2 + size2 == pos <= |s| && size1 + size2 > 0
    ensures Stacked(s[start..pos], size1, size2)
            == Stacked(s[start..ptr1], size1, size2) + [Item(s[ptr1..ptr1 + size1], s[ptr2..ptr2 + size2])]
  {
    StackedTop(s, start, pos, size1, size2);
  }

  /** The top of a stack that grows downwards */
  lemma HangingTop(s: seq<byte>, pos: nat, end: nat, size1: nat, size2: nat)
    requires pos + (size1 + size2) <= end <= |s| && size1 + size2 > 0
    ensures Hanging(s[pos..end], size1, size2)
            == Hanging(s[pos + (size1 + size2)..end], size1, size2)
               + [Item(s[pos..pos + size1], s[pos + size1..pos + (size1 + size2)])]
  {
    var b, size := s[pos..end], size1 + size2;
    SliceOfSlice(s, pos, end, 0, size1);
    SliceOfSlice(s, pos, end, size1, size2);
    SliceOfSlice(s, pos, end, size, end - pos - size);
    assert b[size..] == b[size..size + (end - pos - size)];
  }

  /** The same, for pointers to the second part of the top and behind it */
  lemma HangingAt(s: seq<byte>, pos: nat, end: nat, above: nat, ptr2: nat, size1: nat, size2: nat)
    requires pos + size1 == ptr2 && ptr2 + size2 == above <= end <= |s| && size1 + size2 > 0
    ensures Hanging(s[pos..end], size1, size2)
            == Hanging(s[above..end], size1, size2) + [Item(s[pos..pos + size1], s[ptr2..ptr2 + size2])]
  {
    HangingTop(s, pos, end, size1, size2);
  }

  /** `Forward_lifo_buffer`: used memory at the start, growing towards the end */
  class Forward {
    const mem: array<byte>
    const size1: nat
    const size2: nat
    var start: nat
    var end: nat
    var pos: nat

    ghost predicate Valid()
      reads this
    {
      start <= pos <= end <= mem.Length && size1 + size2 > 0
    }

    /** The stack, oldest element first */
    ghost function Items(): seq<Item>
      requires Valid()
      reads this, mem
    {
      Stacked(mem[..][start..pos], size1, size2)
    }

    /** The used memory holds whole elements and nothing else. */
    ghost predicate Whole()
      requires Valid()
      reads this, mem
    {
      pos - start == Bytes(|Items()|, size1 + size2)
    }

    /** `set_buffer_space`, with the element sizes of `setup_writing` */
    constructor (mem: array<byte>, start: nat, end: nat, size1: nat, size2: nat)
      requires start <= end <= mem.Length && size1 + size2 > 0
      ensures this.mem == mem && this.start == start && this.end == end && this.size1 == size1 && this.size2 == size2
      ensures Valid() && Items() == [] && Whole()
    {
      this.mem, this.start, this.end, this.size1, this.size2 := mem, start, end, size1, size2;
      pos := start;
    }

    /** `have_space_for`; the comparison is strict, so the last byte is never used */
    predicate HaveSpaceFor(bytes: nat)
      reads this
    {
      pos + bytes < end
    }

    /** `write`: an element on top, and no byte touched outside the space it takes */
    method Write(x: Item)
      requires Valid() && |x.first| == size1 && |x.second| == size2 && HaveSpaceFor(size1 + size2)
      modifies this`pos, mem
      ensures Valid() && pos == old(pos) + size1 + size2 < end
      ensures Items() == old(Items()) + [x] && (old(Whole()) ==> Whole())
      ensures mem[..] == Splice(old(mem[..]), old(pos), x.first + x.second)
    {
      WriteParts(x);
      StackedPush(old(mem[..]), start, old(pos), x);
    }

    /** The two parts, one above the other */
    method WriteParts(x: Item)
      requires Valid() && |x.first| == size1 && |x.second| == size2 && HaveSpaceFor(size1 + size2)
      modifies this`pos, mem
      ensures Valid() && pos == old(pos) + |x.first + x.second| < end
      ensures mem[..] == Splice(old(mem[..]), old(pos), x.first + x.second)
    {
      ghost var was, p := mem[..], pos;
      WriteBytes(x.first);
      if size2 != 0 {
        WriteBytes(x.second);
        SpliceAdjacent(was, p, x.first, x.second);
      } else {
        assert x.first + x.second == x.first;
      }
    }

    /** `write_bytes` */
    method WriteBytes(data: seq<byte>)
      requires Valid() && HaveSpaceFor(|data|)
      modifies this`pos, mem
      ensures Valid() && pos == old(pos) + |data| && mem[..] == Splice(old(mem[..]), old(pos), data)
    {
      CopyBytes(mem, pos, data);
      pos := pos + |data|;
    }

    /** `read` at a position: where the element that ends there lies, and the position below it */
    method ReadAt(position: nat) returns (eof: bool, below: nat, ptr1: nat, ptr2: nat)
      requires Valid() && start <= position <= pos
      ensures eof <==> position - start < size1 + size2
      ensures eof ==> below == position
      ensures !eof ==> start <= below == ptr1 && ptr1 + size1 == ptr2 && ptr2 + size2 == position
    {
      if position - start < size1 + size2 {
        return true, position, 0, 0;
      }
      below := position;
      ptr2 := below;
      if size2 != 0 {
        below := below - size2;
        ptr2 := below;
      }
      below := below - size1;
      return false, below, below, ptr2;
    }

    /** `read`: the newest element is found in place and taken off; `true` when there is none */
    method Read() returns (eof: bool, ptr1: nat, ptr2: nat)
      requires Valid()
      modifies this`pos
      ensures Valid() && (eof <==> old(Items()) == []) && pos == old(pos) - (if eof then 0 else size1 + size2)
      ensures old(Whole()) ==> Whole()
      ensures !eof ==> ptr1 + size1 <= mem.Length && ptr2 + size2 <= mem.Length
                       && old(Items()) == Items() + [Item(mem[..][ptr1..ptr1 + size1], mem[..][ptr2..ptr2 + size2])]
    {
      var below;
      eof, below, ptr1, ptr2 := ReadAt(pos);
      if eof {
        StackedNone(mem[..][start..pos], size1, size2);
      } else {
        StackedAt(mem[..], start, pos, ptr1, ptr2, size1, size2);
      }
      pos := below;
    }

    /** `grow`: adjacent memory added at the end */
    method Grow(unusedStart: nat, unusedEnd: nat)
      requires Valid() && end == unusedStart <= unusedEnd <= mem.Length
      modifies this`end
      ensures Valid() && end == unusedEnd && Items() == old(Items())
    {
      end := unusedEnd;
    }
  }

  /** `Backward_lifo_buffer`: used memory at the end, growing towards the start */
  class Backward {
    const mem: array<byte>
    const size1: nat
    const size2: nat
    var start: nat
    var end: nat
    var pos: nat

    ghost predicate Valid()
      reads this
    {
      start <= pos <= end <= mem.Length && size1 + size2 > 0
    }

    /** The stack, oldest element first */
    ghost function Items(): seq<Item>
      requires Valid()
      reads this, mem
    {
      Hanging(mem[..][pos..end], size1, size2)
    }

    /** The used memory holds whole elements and nothing else. */
    ghost predicate Whole()
      requires Valid()
      reads this, mem
    {
      end - pos == Bytes(|Items()|, size1 + size2)
    }

    constructor (mem: array<byte>, start: nat, end: nat, size1: nat, size2: nat)
      requires start <= end <= mem.Length && size1 + size2 > 0
      ensures this.mem == mem && this.start == start && this.end == end && this.size1 == size1 && this.size2 == size2
      ensures Valid() && Items() == [] && Whole()
    {
      this.mem, this.start, this.end, this.size1, this.size2 := mem, start, end, size1, size2;
      pos := end;
    }

    /** `have_space_for`; here the whole space can be used */
    predicate HaveSpaceFor(bytes: nat)
      reads this
    {
      pos - bytes >= start
    }

    /**
      `write`. It asks whether a second pointer is set, not whether the second size is
      non-zero. On whole elements it puts the element on top if and only if a second pointer
      is set or not needed; otherwise only the first part is written.
     */
    method Write(x: Item, secondSet: bool)
      requires Valid() && |x.first| == size1 && |x.second| == size2 && HaveSpaceFor(size1 + size2)
      modifies this`pos, mem
      ensures Valid() && pos == old(pos) - |Written(x, secondSet)|
      ensures mem[..] == Splice(old(mem[..]), pos, Written(x, secondSet))
      ensures (size2 > 0 ==> secondSet) ==> Items() == old(Items()) + [x] && (old(Whole()) ==> Whole())
      ensures old(Whole()) ==> (Items() == old(Items()) + [x] <==> (size2 > 0 ==> secondSet))
    {
      WriteParts(x, secondSet);
      if size2 == 0 || secondSet {
        assert Written(x, secondSet) == x.first + x.second;
        HangingPush(old(mem[..]), pos, end, x);
      } else if old(Whole()) {
        HangingPart(old(mem[..]), pos, end, x);
      }
    }

    /** The bytes `write` puts below the used memory */
    static function Written(x: Item, secondSet: bool): seq<byte> {
      if secondSet then x.first + x.second else x.first
    }

    /** The two parts, the second one first because the buffer grows downwards */
    method WriteParts(x: Item, secondSet: bool)
      requires Valid() && |x.first| == size1 && |x.second| == size2 && HaveSpaceFor(size1 + size2)
      modifies this`pos, mem
      ensures Valid() && pos == old(pos) - |Written(x, secondSet)|
      ensures mem[..] == Splice(old(mem[..]), pos, Written(x, secondSet))
    {
      ghost var was := mem[..];
      if secondSet {
        WriteBytes(x.second);
        SpliceBelow(was, pos - size1, x.first, x.second);
      }
      WriteBytes(x.first);
    }

    /** `write_bytes` */
    method WriteBytes(data: seq<byte>)
      requires Valid() && HaveSpaceFor(|data|)
      modifies this`pos, mem
      ensures Valid() && pos == old(pos) - |data| && mem[..] == Splice(old(mem[..]), pos, data)
    {
      pos := pos - |data|;
      CopyBytes(mem, pos, data);
    }

    /** `read` at a position: where the element that starts there lies, and the position above it */
    method ReadAt(position: nat) returns (eof: bool, above: nat, ptr1: nat, ptr2: nat)
      requires Valid() && pos <= position <= end
      ensures eof <==> end - position < size1 + size2
      ensures eof ==> above == position
      ensures !eof ==> ptr1 == position && ptr1 + size1 == ptr2 && ptr2 + size2 == above <= end
    {
      if end - position < size1 + size2 {
        return true, position, 0, 0;
      }
      ptr1 := position;
      above := position + size1;
      ptr2 := above;
      if size2 != 0 {
        above := above + size2;
      }
      return false, above, ptr1, ptr2;
    }

    /** `read` */
    method Read() returns (eof: bool, ptr1: nat, ptr2: nat)
      requires Valid()
      modifies this`pos
      ensures Valid() && (eof <==> old(Items()) == []) && pos == old(pos) + (if eof then 0 else size1 + size2)
      ensures old(Whole()) ==> Whole()
      ensures !eof ==> ptr1 + size1 <= mem.Length && ptr2 + size2 <= mem.Length
                       && old(Items()) == Items() + [Item(mem[..][ptr1..ptr1 + size1], mem[..][ptr2..ptr2 + size2])]
    {
      var above;
      eof, above, ptr1, ptr2 := ReadAt(pos);
      if !eof {
        HangingAt(mem[..], pos, end, above, ptr2, size1, size2);
      }
      pos := above;
    }

    /** `remove_unused_space`: the memory below the used part is given away */
    method RemoveUnusedSpace() returns (unusedStart: nat, unusedEnd: nat)
      requires Valid()
      modifies this`start
      ensures Valid() && unusedStart == old(start) && unusedEnd == start == pos && Items() == old(Items())
    {
      unusedStart, unusedEnd := start, pos;
      start := pos;
    }
  }
}
