/** Packing several fields into one record buffer with the stores of the codec */
module Record {
  import opened Bits
  import opened Endian
  import opened Memory
  import opened Hosts
  import opened Codec

  /** A number to be kept in `width` bytes of a record, from offset `at` on */
  datatype Field = Field(at: nat, width: nat, value: int)

  predicate Disjoint(f: Field, g: Field) {
    f.at + f.width <= g.at || g.at + g.width <= f.at
  }

  predicate Covers(f: Field, i: nat) {
    f.at <= i < f.at + f.width
  }

  ghost predicate InRecord(fs: seq<Field>, len: nat) {
    forall i :: 0 <= i < |fs| ==> IsWidth(fs[i].width) && fs[i].at + fs[i].width <= len
  }

  /** The fields lie inside a record of `len` bytes and do not overlap. */
  ghost predicate Layout(fs: seq<Field>, len: nat) {
    && InRecord(fs, len)
    && forall i, j :: 0 <= i < j < |fs| ==> Disjoint(fs[i], fs[j])
  }

  /** The record after the stores, first field first */
  ghost function Packed(s: seq<byte>, fs: seq<Field>): (r: seq<byte>)
    requires InRecord(fs, |s|)
    ensures |r| == |s|
  {
    if fs == [] then s
    else
      var f := fs[|fs| - 1];
      Splice(Packed(s, fs[..|fs| - 1]), f.at, LeBytes(f.value, f.width))
  }

  /** Stores the fields one after another; overlapping fields are allowed and the last one wins. */
  method Pack(h: Host, t: array<byte>, fs: seq<Field>)
    requires InRecord(fs, t.Length)
    modifies t
    ensures t[..] == Packed(old(t[..]), fs)
  {
    var i := 0;
    while i < |fs|
      invariant 0 <= i <= |fs|
      invariant t[..] == Packed(old(t[..]), fs[..i])
    {
      Store(h, fs[i].width, t, fs[i].at, fs[i].value);
      i := i + 1;
      assert fs[..i][..i - 1] == fs[..i - 1];
    }
    assert fs[..i] == fs;
  }

  lemma SpliceAt(s: seq<byte>, at: nat, b: seq<byte>, i: nat)
    requires at + |b| <= |s| && i < |s|
    ensures Splice(s, at, b)[i] == if at <= i < at + |b| then b[i - at] else s[i]
  {
  }

  /** A byte of a field is the field's own. */
  lemma {:induction false} PackedInside(s: seq<byte>, fs: seq<Field>, k: nat, i: nat)
    requires Layout(fs, |s|) && k < |fs| && Covers(fs[k], i)
    ensures Packed(s, fs)[i] == LeBytes(fs[k].value, fs[k].width)[i - fs[k].at]
  {
    var last := fs[|fs| - 1];
    SpliceAt(Packed(s, fs[..|fs| - 1]), last.at, LeBytes(last.value, last.width), i);
    if k < |fs| - 1 {
      assert Disjoint(fs[k], last);
      PackedInside(s, fs[..|fs| - 1], k, i);
    }
  }

  /** A byte of no field is the old one. */
  lemma {:induction false} PackedOutside(s: seq<byte>, fs: seq<Field>, i: nat)
    requires InRecord(fs, |s|) && i < |s|
    requires forall k :: 0 <= k < |fs| ==> !Covers(fs[k], i)
    ensures Packed(s, fs)[i] == s[i]
  {
    if fs != [] {
      var last := fs[|fs| - 1];
      PackedOutside(s, fs[..|fs| - 1], i);
      SpliceAt(Packed(s, fs[..|fs| - 1]), last.at, LeBytes(last.value, last.width), i);
      assert !Covers(last, i);
    }
  }

  /** Every field of a packed record decodes, on any host, to its value modulo 256^width. */
  lemma PackedDecodes(h: Host, s: seq<byte>, fs: seq<Field>, k: nat)
    requires Layout(fs, |s|) && k < |fs|
    ensures LoadUnsigned(h, fs[k].width, Packed(s, fs)[fs[k].at..]) == fs[k].value % Pow2(8 * fs[k].width)
  {
    var f := fs[k];
    var b := LeBytes(f.value, f.width);
    var found := Packed(s, fs)[f.at..];
    forall j | 0 <= j < f.width
      ensures found[j] == b[j]
    {
      PackedInside(s, fs, k, f.at + j);
    }
    assert found[..f.width] == b;
    LeLoadStore(f.value, f.width);
  }

  lemma {:induction false} DistinctMultiplicity(fs: seq<Field>, f: Field)
    requires forall i, j :: 0 <= i < j < |fs| ==> fs[i] != fs[j]
    ensures multiset(fs)[f] <= 1
  {
    if fs != [] {
      var rest, last := fs[..|fs| - 1], fs[|fs| - 1];
      DistinctMultiplicity(rest, f);
      assert fs == rest + [last];
      assert last !in rest;
      assert last !in multiset(rest);
    }
  }

  /** A permutation of a layout is a layout. */
  lemma PermutedLayout(fs: seq<Field>, gs: seq<Field>, len: nat)
    requires Layout(fs, len) && multiset(fs) == multiset(gs)
    ensures Layout(gs, len)
  {
    forall f | f in gs
      ensures f in fs
    {
      assert f in multiset(gs);
    }
    assert forall i :: 0 <= i < |gs| ==> gs[i] in gs;
    forall i, j | 0 <= i < j < |gs|
      ensures Disjoint(gs[i], gs[j])
    {
      if gs[i] == gs[j] {
        assert gs == gs[..j] + gs[j..];
        assert gs[i] in gs[..j] && gs[j] in gs[j..];
        assert multiset(gs)[gs[i]] >= 2;
        DistinctMultiplicity(fs, gs[i]);
        assert false;
      } else {
        assert gs[i] in fs && gs[j] in fs;
      }
    }
  }

  /** The order of the stores does not matter: every permutation gives the same record. */
  lemma OrderIrrelevant(s: seq<byte>, fs: seq<Field>, gs: seq<Field>)
    requires Layout(fs, |s|) && multiset(fs) == multiset(gs)
    ensures Layout(gs, |s|) && Packed(s, fs) == Packed(s, gs)
  {
    PermutedLayout(fs, gs, |s|);
    forall i | 0 <= i < |s|
      ensures Packed(s, fs)[i] == Packed(s, gs)[i]
    {
      if k :| 0 <= k < |fs| && Covers(fs[k], i) {
        assert fs[k] in multiset(gs);
        var l :| 0 <= l < |gs| && gs[l] == fs[k];
        PackedInside(s, fs, k, i);
        PackedInside(s, gs, l, i);
      } else {
        forall k | 0 <= k < |gs|
          ensures !Covers(gs[k], i)
        {
          assert gs[k] in multiset(fs);
          assert gs[k] in fs;
        }
        PackedOutside(s, fs, i);
        PackedOutside(s, gs, i);
      }
    }
  }
}
