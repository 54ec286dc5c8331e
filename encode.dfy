/**
 * The encode strategies of stob-read.go: each field kind lays its value into the
 * buffer window that starts at `off` and returns how many bytes it produced.
 * `Enc` is the specification of a field's bytes as a patch; the methods write the
 * array in place exactly as the Go strategies do.
 */
module Encode {
  import opened Wire
  import opened ByteOrder
  import opened Strings
  import opened Schema

  /** The canonical byte of a bool. */
  function BoolByte(v: bool): (b: byte)
    ensures b == 1 <==> v
    ensures b == 0 <==> !v
  {
    if v then 1 else 0
  }

  function BoolsBytes(vs: seq<bool>): (r: seq<byte>)
    ensures |r| == |vs|
    ensures forall i :: 0 <= i < |vs| ==> r[i] == BoolByte(vs[i])
  {
    seq(|vs|, i requires 0 <= i < |vs| => BoolByte(vs[i]))
  }

  /** Go's `int64(u)` applied to every element. */
  function Signed(us: seq<uint64>): (r: seq<int64>)
    ensures |r| == |us|
    ensures forall i :: 0 <= i < |us| ==> r[i] == ToInt64(us[i])
  {
    seq(|us|, i requires 0 <= i < |us| => ToInt64(us[i]))
  }

  /** The elements of an integer slice laid end to end, l bytes each. */
  function IntsPatch(xs: seq<int64>, l: nat, e: Endian): Patch
  {
    if xs == [] then [] else ItobPatch(xs[0], l, e) + IntsPatch(xs[1..], l, e)
  }

  /** The elements of a string slice laid end to end, each as putString lays it. */
  function StrsPatch(ss: seq<seq<byte>>, l: nat): Patch
  {
    if ss == [] then [] else Lift(StringBytes(ss[0], l)) + StrsPatch(ss[1..], l)
  }

  /** The bytes a field's read strategy produces. */
  function Enc(f: Field): Patch
    requires Valid(f)
  {
    match f.kind
    case Int(x) => ItobPatch(x, f.l, f.e)
    case Uint(u) => ItobPatch(ToInt64(u), f.l, f.e)
    case Byte(b) => Lift([b])
    case Bool(v) => Lift([BoolByte(v)])
    case Bytes(bs, _) => Lift(bs[..f.l])
    case Str(s) => Lift(StringBytes(s, f.l))
    case SliceInt(xs) => IntsPatch(xs, f.l, f.e)
    case SliceUint(us) => IntsPatch(Signed(us), f.l, f.e)
    case SliceBool(vs) => Lift(BoolsBytes(vs))
    case SliceStr(ss) => StrsPatch(ss, f.l)
    case Nested(fs) => EncSeq(fs)
  }

  /** The fields' bytes one after the other, with nothing in between. */
  function EncSeq(fs: seq<Field>): Patch
    requires forall i :: 0 <= i < |fs| ==> Valid(fs[i])
  {
    if fs == [] then [] else Enc(fs[0]) + EncSeq(fs[1..])
  }

  lemma IntsPatchUnfold(xs: seq<int64>, i: nat, l: nat, e: Endian)
    requires i < |xs|
    ensures IntsPatch(xs[i..], l, e) == ItobPatch(xs[i], l, e) + IntsPatch(xs[i + 1..], l, e)
  {
    assert xs[i..][1..] == xs[i + 1..];
  }

  lemma StrsPatchUnfold(ss: seq<seq<byte>>, i: nat, l: nat)
    requires i < |ss|
    ensures StrsPatch(ss[i..], l) == Lift(StringBytes(ss[i], l)) + StrsPatch(ss[i + 1..], l)
  {
    assert ss[i..][1..] == ss[i + 1..];
  }

  lemma EncSeqUnfold(fs: seq<Field>, i: nat)
    requires forall j :: 0 <= j < |fs| ==> Valid(fs[j])
    requires i < |fs|
    ensures EncSeq(fs[i..]) == Enc(fs[i]) + EncSeq(fs[i + 1..])
  {
    assert fs[i..][1..] == fs[i + 1..];
  }

  // ---------------------------------------------------------------------------
  // The strategies

  /** Int (stob-read.go): Itob over `p[:f.l]`. */
  method PutInt(p: array<byte>, off: nat, x: int64, l: nat, e: Endian) returns (n: nat)
    requires off + l <= p.Length
    modifies p
    ensures n == l
    ensures p[..] == Overlay(old(p[..]), off, ItobPatch(x, l, e))
  {
    Itob(p, off, l, x, e);
    n := l;
  }

  /** Uint (stob-read.go): the value as `int64(u)`, through Itob over `p[:f.l]`. */
  method PutUint(p: array<byte>, off: nat, u: uint64, l: nat, e: Endian) returns (n: nat)
    requires off + l <= p.Length
    modifies p
    ensures n == l
    ensures p[..] == Overlay(old(p[..]), off, ItobPatch(ToInt64(u), l, e))
  {
    Itob(p, off, l, ToInt64(u), e);
    n := l;
  }

  /** Byte (stob-read.go): one verbatim byte, whatever the tag says. */
  method PutByte(p: array<byte>, off: nat, b: byte) returns (n: nat)
    requires off < p.Length
    modifies p
    ensures n == 1
    ensures p[..] == Overlay(old(p[..]), off, Lift([b]))
  {
    ghost var before := p[..];
    p[off] := b;
    OverlayLift(before, off, [b]);
    assert p[..] == before[..off] + [b] + before[off + 1..];
    n := 1;
  }

  /** Bool (stob-read.go): one canonical byte 0x01 or 0x00. */
  method PutBool(p: array<byte>, off: nat, v: bool) returns (n: nat)
    requires off < p.Length
    modifies p
    ensures n == 1
    ensures p[..] == Overlay(old(p[..]), off, Lift([BoolByte(v)]))
  {
    ghost var before := p[..];
    var b: byte;
    if v {
      b := 0x01;
    } else {
      b := 0x00;
    }
    p[off] := b;
    OverlayLift(before, off, [b]);
    assert p[..] == before[..off] + [b] + before[off + 1..];
    n := 1;
  }

  /** Bytes (stob-read.go): the first l elements of a byte slice or array, copied one by one. */
  method PutBytes(p: array<byte>, off: nat, bs: seq<byte>, l: nat) returns (n: nat)
    requires l <= |bs| && off + l <= p.Length
    modifies p
    ensures n == l
    ensures p[..] == Overlay(old(p[..]), off, Lift(bs[..l]))
  {
    ghost var w := bs[..l];
    ghost var before := p[..];
    var i := 0;
    while i < l
      invariant i <= l
      invariant p[..] == before[..off] + w[..i] + before[off + i..]
    {
      SpliceStep(before, off, w, i);
      p[off + i] := bs[i];
      i := i + 1;
    }
    SpliceDone(before, off, w);
    n := i;
  }

  /** SliceBool (stob-read.go): one canonical byte per element; the count is the element count, not f.l. */
  method PutSliceBool(p: array<byte>, off: nat, vs: seq<bool>) returns (n: nat)
    requires off + |vs| <= p.Length
    modifies p
    ensures n == |vs|
    ensures p[..] == Overlay(old(p[..]), off, Lift(BoolsBytes(vs)))
  {
    var count := |vs|;
    ghost var w := BoolsBytes(vs);
    ghost var before := p[..];
    for i := 0 to count
      invariant p[..] == before[..off] + w[..i] + before[off + i..]
    {
      SpliceStep(before, off, w, i);
      if vs[i] {
        p[off + i] := 0x01;
      } else {
        p[off + i] := 0x00;
      }
    }
    SpliceDone(before, off, w);
    n := count;
  }

  /** SliceInt (stob-read.go): element i through Itob over `p[n:n+f.l]`, n advancing by f.l. */
  method PutSliceInt(p: array<byte>, off: nat, xs: seq<int64>, l: nat, e: Endian) returns (n: nat)
    requires off + |IntsPatch(xs, l, e)| <= p.Length
    modifies p
    ensures n == |IntsPatch(xs, l, e)|
    ensures p[..] == Overlay(old(p[..]), off, IntsPatch(xs, l, e))
  {
    ghost var goal := Overlay(p[..], off, IntsPatch(xs, l, e));
    n := 0;
    var i := 0;
    assert xs[0..] == xs;
    while i < |xs|
      invariant i <= |xs|
      invariant n + |IntsPatch(xs[i..], l, e)| == |IntsPatch(xs, l, e)|
      invariant Overlay(p[..], off + n, IntsPatch(xs[i..], l, e)) == goal
    {
      n := PutIntAt(p, off, n, xs, i, l, e, goal);
      i := i + 1;
    }
    OverlayEmpty(p[..], off + n);
  }

  /** One pass of SliceInt's loop: element i through Itob over `p[n:n+f.l]`, then `n += f.l`. */
  method PutIntAt(p: array<byte>, off: nat, n: nat, xs: seq<int64>, i: nat, l: nat, e: Endian, ghost goal: seq<byte>) returns (n': nat)
    requires i < |xs| && off + |IntsPatch(xs, l, e)| <= p.Length
    requires n + |IntsPatch(xs[i..], l, e)| == |IntsPatch(xs, l, e)|
    requires Overlay(p[..], off + n, IntsPatch(xs[i..], l, e)) == goal
    modifies p
    ensures n' + |IntsPatch(xs[i + 1..], l, e)| == |IntsPatch(xs, l, e)|
    ensures Overlay(p[..], off + n', IntsPatch(xs[i + 1..], l, e)) == goal
  {
    IntsPatchUnfold(xs, i, l, e);
    ghost var mid := p[..];
    Itob(p, off + n, l, xs[i], e);
    n' := n + l;
    OverlayNext(mid, p[..], off, n, n', IntsPatch(xs[i..], l, e), ItobPatch(xs[i], l, e), IntsPatch(xs[i + 1..], l, e), |IntsPatch(xs, l, e)|, goal);
  }

  /** SliceUint (stob-read.go): as SliceInt, each element passed as `int64(u)`. */
  method PutSliceUint(p: array<byte>, off: nat, us: seq<uint64>, l: nat, e: Endian) returns (n: nat)
    requires off + |IntsPatch(Signed(us), l, e)| <= p.Length
    modifies p
    ensures n == |IntsPatch(Signed(us), l, e)|
    ensures p[..] == Overlay(old(p[..]), off, IntsPatch(Signed(us), l, e))
  {
    ghost var xs := Signed(us);
    ghost var goal := Overlay(p[..], off, IntsPatch(xs, l, e));
    n := 0;
    var i := 0;
    assert xs[0..] == xs;
    while i < |us|
      invariant i <= |us|
      invariant n + |IntsPatch(xs[i..], l, e)| == |IntsPatch(xs, l, e)|
      invariant Overlay(p[..], off + n, IntsPatch(xs[i..], l, e)) == goal
    {
      n := PutUintAt(p, off, n, us, i, l, e, goal);
      i := i + 1;
    }
    OverlayEmpty(p[..], off + n);
  }

  /** One pass of SliceUint's loop: element i as `int64(u)` through Itob over `p[n:n+f.l]`, then `n += f.l`. */
  method PutUintAt(p: array<byte>, off: nat, n: nat, us: seq<uint64>, i: nat, l: nat, e: Endian, ghost goal: seq<byte>) returns (n': nat)
    requires i < |us| && off + |IntsPatch(Signed(us), l, e)| <= p.Length
    requires n + |IntsPatch(Signed(us)[i..], l, e)| == |IntsPatch(Signed(us), l, e)|
    requires Overlay(p[..], off + n, IntsPatch(Signed(us)[i..], l, e)) == goal
    modifies p
    ensures n' + |IntsPatch(Signed(us)[i + 1..], l, e)| == |IntsPatch(Signed(us), l, e)|
    ensures Overlay(p[..], off + n', IntsPatch(Signed(us)[i + 1..], l, e)) == goal
  {
    ghost var xs := Signed(us);
    IntsPatchUnfold(xs, i, l, e);
    assert xs[i] == ToInt64(us[i]);
    ghost var mid := p[..];
    Itob(p, off + n, l, ToInt64(us[i]), e);
    n' := n + l;
    OverlayNext(mid, p[..], off, n, n', IntsPatch(xs[i..], l, e), ItobPatch(xs[i], l, e), IntsPatch(xs[i + 1..], l, e), |IntsPatch(xs, l, e)|, goal);
  }

  /** SliceString (stob-read.go): putString per element into `p[n:]`, n advancing by each count. */
  method PutSliceStr(p: array<byte>, off: nat, ss: seq<seq<byte>>, l: nat) returns (n: nat)
    requires off + |StrsPatch(ss, l)| <= p.Length
    modifies p
    ensures n == |StrsPatch(ss, l)|
    ensures p[..] == Overlay(old(p[..]), off, StrsPatch(ss, l))
  {
    ghost var goal := Overlay(p[..], off, StrsPatch(ss, l));
    n := 0;
    var i := 0;
    assert ss[0..] == ss;
    while i < |ss|
      invariant i <= |ss|
      invariant n + |StrsPatch(ss[i..], l)| == |StrsPatch(ss, l)|
      invariant Overlay(p[..], off + n, StrsPatch(ss[i..], l)) == goal
    {
      n := PutStrAt(p, off, n, ss, i, l, goal);
      i := i + 1;
    }
    OverlayEmpty(p[..], off + n);
  }

  /** One pass of SliceString's loop: putString of element i into `p[n:]`, then n advances by its count. */
  method PutStrAt(p: array<byte>, off: nat, n: nat, ss: seq<seq<byte>>, i: nat, l: nat, ghost goal: seq<byte>) returns (n': nat)
    requires i < |ss| && off + |StrsPatch(ss, l)| <= p.Length
    requires n + |StrsPatch(ss[i..], l)| == |StrsPatch(ss, l)|
    requires Overlay(p[..], off + n, StrsPatch(ss[i..], l)) == goal
    modifies p
    ensures n' + |StrsPatch(ss[i + 1..], l)| == |StrsPatch(ss, l)|
    ensures Overlay(p[..], off + n', StrsPatch(ss[i + 1..], l)) == goal
  {
    StrsPatchUnfold(ss, i, l);
    ghost var mid := p[..];
    var k := PutString(p, off + n, ss[i], l);
    n' := n + k;
    OverlayNext(mid, p[..], off, n, n', StrsPatch(ss[i..], l), Lift(StringBytes(ss[i], l)), StrsPatch(ss[i + 1..], l), |StrsPatch(ss, l)|, goal);
  }

  /** The reader setReader binds for the field's kind, applied to the window at off. */
  method PutField(p: array<byte>, off: nat, f: Field) returns (n: nat)
    requires Valid(f) && off + |Enc(f)| <= p.Length
    modifies p
    ensures n == |Enc(f)|
    ensures p[..] == Overlay(old(p[..]), off, Enc(f))
    decreases f, 1
  {
    match f.kind
    case Int(x) => n := PutInt(p, off, x, f.l, f.e);
    case Uint(u) => n := PutUint(p, off, u, f.l, f.e);
    case Byte(b) => n := PutByte(p, off, b);
    case Bool(v) => n := PutBool(p, off, v);
    case Bytes(bs, _) => n := PutBytes(p, off, bs, f.l);
    case Str(s) => n := PutString(p, off, s, f.l);
    case SliceInt(xs) => n := PutSliceInt(p, off, xs, f.l, f.e);
    case SliceUint(us) => n := PutSliceUint(p, off, us, f.l, f.e);
    case SliceBool(vs) => n := PutSliceBool(p, off, vs);
    case SliceStr(ss) => n := PutSliceStr(p, off, ss, f.l);
    case Nested(fs) => n := PutStruct(p, off, fs);
  }

  /** Struct (stob-read.go): each sub-field into `p[n:]`, with no bounds check and no marker. */
  method PutStruct(p: array<byte>, off: nat, fs: seq<Field>) returns (n: nat)
    requires forall i :: 0 <= i < |fs| ==> Valid(fs[i])
    requires off + |EncSeq(fs)| <= p.Length
    modifies p
    ensures n == |EncSeq(fs)|
    ensures p[..] == Overlay(old(p[..]), off, EncSeq(fs))
    decreases fs, 0
  {
    ghost var goal := Overlay(p[..], off, EncSeq(fs));
    n := 0;
    var i := 0;
    assert fs[0..] == fs;
    while i < |fs|
      invariant i <= |fs|
      invariant n + |EncSeq(fs[i..])| == |EncSeq(fs)|
      invariant Overlay(p[..], off + n, EncSeq(fs[i..])) == goal
    {
      EncSeqUnfold(fs, i);
      ghost var mid := p[..];
      var k := PutField(p, off + n, fs[i]);
      var n', i' := n + k, i + 1;
      OverlayNext(mid, p[..], off, n, n', EncSeq(fs[i..]), Enc(fs[i]), EncSeq(fs[i'..]), |EncSeq(fs)|, goal);
      n, i := n', i';
    }
    OverlayEmpty(p[..], off + n);
  }

  // ---------------------------------------------------------------------------
  // Properties

  /** Integer slices: element i's l bytes follow the i·l bytes of the elements before it. */
  lemma IntsLayout(xs: seq<int64>, l: nat, e: Endian, i: nat)
    requires i < |xs|
    ensures IntsPatch(xs, l, e) == IntsPatch(xs[..i], l, e) + ItobPatch(xs[i], l, e) + IntsPatch(xs[i + 1..], l, e)
    ensures |IntsPatch(xs[..i], l, e)| == i * l
  {
    IntsLength(xs[..i], l, e);
    IntsSplit(xs, l, e, i);
    IntsPatchUnfold(xs, i, l, e);
  }

  lemma {:induction false} IntsSplit(xs: seq<int64>, l: nat, e: Endian, i: nat)
    requires i <= |xs|
    ensures IntsPatch(xs, l, e) == IntsPatch(xs[..i], l, e) + IntsPatch(xs[i..], l, e)
  {
    if i == 0 {
      assert xs[..0] == [] && xs[0..] == xs;
    } else {
      IntsSplit(xs[1..], l, e, i - 1);
      assert xs[..i][0] == xs[0] && xs[..i][1..] == xs[1..][..i - 1];
      assert xs[1..][i - 1..] == xs[i..];
      AppendAssoc(ItobPatch(xs[0], l, e), IntsPatch(xs[1..][..i - 1], l, e), IntsPatch(xs[i..], l, e));
    }
  }

  lemma {:induction false} IntsLength(xs: seq<int64>, l: nat, e: Endian)
    ensures |IntsPatch(xs, l, e)| == |xs| * l
  {
    if xs != [] {
      IntsLength(xs[1..], l, e);
      assert |xs| * l == l + (|xs| - 1) * l;
    }
  }

  /** String slices: element i's bytes follow those of the elements before it, i·l of them in fixed mode. */
  lemma StrsLayout(ss: seq<seq<byte>>, l: nat, i: nat)
    requires i < |ss|
    ensures StrsPatch(ss, l) == StrsPatch(ss[..i], l) + Lift(StringBytes(ss[i], l)) + StrsPatch(ss[i + 1..], l)
    ensures l > 0 ==> |StrsPatch(ss[..i], l)| == i * l
  {
    if l > 0 {
      StrsLength(ss[..i], l);
    }
    StrsSplit(ss, l, i);
    StrsPatchUnfold(ss, i, l);
  }

  lemma {:induction false} StrsSplit(ss: seq<seq<byte>>, l: nat, i: nat)
    requires i <= |ss|
    ensures StrsPatch(ss, l) == StrsPatch(ss[..i], l) + StrsPatch(ss[i..], l)
  {
    if i == 0 {
      assert ss[..0] == [] && ss[0..] == ss;
    } else {
      StrsSplit(ss[1..], l, i - 1);
      assert ss[..i][0] == ss[0] && ss[..i][1..] == ss[1..][..i - 1];
      assert ss[1..][i - 1..] == ss[i..];
      AppendAssoc(Lift(StringBytes(ss[0], l)), StrsPatch(ss[1..][..i - 1], l), StrsPatch(ss[i..], l));
    }
  }

  lemma {:induction false} StrsLength(ss: seq<seq<byte>>, l: nat)
    requires l > 0
    ensures |StrsPatch(ss, l)| == |ss| * l
  {
    if ss != [] {
      StrsLength(ss[1..], l);
      assert |ss| * l == l + (|ss| - 1) * l;
    }
  }

  /** The count each read strategy returns. */
  lemma EncWidth(f: Field)
    requires Valid(f)
    ensures (f.kind.Int? || f.kind.Uint? || f.kind.Bytes?) ==> |Enc(f)| == f.l
    ensures (f.kind.Byte? || f.kind.Bool?) ==> |Enc(f)| == 1
    ensures f.kind.Str? ==> |Enc(f)| == if f.l == 0 then |f.kind.s| + 1 else f.l
    ensures f.kind.SliceInt? ==> |Enc(f)| == |f.kind.xs| * f.l
    ensures f.kind.SliceUint? ==> |Enc(f)| == |f.kind.us| * f.l
    ensures f.kind.SliceBool? ==> |Enc(f)| == |f.kind.vs|
    ensures f.kind.SliceStr? && f.l > 0 ==> |Enc(f)| == |f.kind.ss| * f.l
  {
    match f.kind
    case SliceInt(xs) => IntsLength(xs, f.l, f.e);
    case SliceUint(us) => IntsLength(Signed(us), f.l, f.e);
    case SliceStr(ss) => if f.l > 0 { StrsLength(ss, f.l); }
    case _ =>
  }

  /** Fields are laid end to end: the bytes of a field list split at any field boundary. */
  lemma {:induction false} EncSeqSplit(fs: seq<Field>, k: nat)
    requires forall i :: 0 <= i < |fs| ==> Valid(fs[i])
    requires k <= |fs|
    ensures EncSeq(fs) == EncSeq(fs[..k]) + EncSeq(fs[k..])
  {
    if k == 0 {
      assert fs[..0] == [] && fs[0..] == fs;
    } else {
      EncSeqSplit(fs[1..], k - 1);
      assert fs[..k][0] == fs[0] && fs[..k][1..] == fs[1..][..k - 1];
      assert fs[1..][k - 1..] == fs[k..];
      AppendAssoc(Enc(fs[0]), EncSeq(fs[1..][..k - 1]), EncSeq(fs[k..]));
    }
  }

  /** Where field k starts: the total count of the fields before it. */
  function Offset(fs: seq<Field>, k: nat): nat
    requires forall i :: 0 <= i < |fs| ==> Valid(fs[i])
    requires k <= |fs|
  {
    |EncSeq(fs[..k])|
  }

  /**
   * The nested Struct strategy and the traversal place field k's bytes right after
   * those of the fields before it, with no marker in between.
   */
  lemma FieldPlacement(fs: seq<Field>, k: nat)
    requires forall i :: 0 <= i < |fs| ==> Valid(fs[i])
    requires k < |fs|
    ensures Offset(fs, k) + |Enc(fs[k])| <= |EncSeq(fs)|
    ensures EncSeq(fs)[Offset(fs, k)..Offset(fs, k) + |Enc(fs[k])|] == Enc(fs[k])
    ensures Offset(fs, k + 1) == Offset(fs, k) + |Enc(fs[k])|
  {
    EncSeqSplit(fs, k);
    EncSeqUnfold(fs, k);
    PrefixGrows(fs, k);
    Middle(EncSeq(fs), EncSeq(fs[..k]), Enc(fs[k]), EncSeq(fs[k + 1..]));
  }

  /** The encoded prefix grows by one field. */
  lemma PrefixGrows(fs: seq<Field>, k: nat)
    requires forall i :: 0 <= i < |fs| ==> Valid(fs[i])
    requires k < |fs|
    ensures EncSeq(fs[..k + 1]) == EncSeq(fs[..k]) + Enc(fs[k])
  {
    var pre := fs[..k + 1];
    EncSeqSplit(pre, k);
    assert pre[..k] == fs[..k];
    assert pre[k..] == [fs[k]];
    assert EncSeq([fs[k]]) == Enc(fs[k]) + EncSeq([]);
  }

  /** The middle part of three patches laid end to end. */
  lemma Middle(whole: Patch, a: Patch, b: Patch, c: Patch)
    requires whole == a + (b + c)
    ensures |a| + |b| <= |whole| && whole[|a|..|a| + |b|] == b
  {
  }
}
