/**
 * Decoding what was encoded. A struct whose fields all hold values their tags can
 * carry, serialised by Struct.Read and parsed back by Struct.Write into a struct of
 * the same type, comes back field for field, with the same count and status.
 */
module RoundTrip {
  import opened Wire
  import opened ByteOrder
  import opened Strings
  import opened Schema
  import opened Encode
  import opened Decode
  import opened Stob

  /**
   * The values the wire format carries without loss: an integer that fits its tag
   * width in a known byte order, a byte slice exactly as long as its tag, a byte
   * array at least as long as its tag,
   * a string without 0x00 that is variable width or exactly one byte shorter than
   * its tag (so its terminator is the last byte), and a struct of such fields. The
   * slice kinds have no decoder.
   */
  predicate Restorable(f: Field)
  {
    match f.kind
    case Int(x) => KnownEndian(f.e) && (f.l >= 8 || 0 <= x < Pow256(f.l))
    case Uint(u) => KnownEndian(f.e) && (f.l >= 8 || u < Pow256(f.l))
    case Byte(_) => true
    case Bool(_) => true
    case Bytes(bs, isArray) => if isArray then f.l <= |bs| else f.l == |bs|
    case Str(s) => ZeroFree(s) && (f.l == 0 || |s| == f.l - 1)
    case Nested(fs) => forall i :: 0 <= i < |fs| ==> Restorable(fs[i])
    case _ => false
  }

  /**
   * t is a field of the same type as f that is decoded into: same tag width, byte
   * order and kind, a byte array of the same length that already holds f's elements
   * past the tag (SetBytes keeps them), and a bool that is not already true when f's
   * is false (SetBool never stores false).
   */
  predicate Template(t: Field, f: Field)
  {
    t.l == f.l && t.e == f.e &&
    match f.kind
    case Int(_) => t.kind.Int?
    case Uint(_) => t.kind.Uint?
    case Byte(_) => t.kind.Byte?
    case Bool(v) => t.kind.Bool? && (t.kind.v ==> v)
    case Bytes(bs, isArray) => t.kind.Bytes? && t.kind.isArray == isArray && (isArray ==> |t.kind.bs| == |bs| && f.l <= |bs| && t.kind.bs[f.l..] == bs[f.l..])
    case Str(_) => t.kind.Str?
    case Nested(fs) =>
      t.kind.Nested? && |t.kind.fields| == |fs| &&
      forall i :: 0 <= i < |fs| ==> Template(t.kind.fields[i], fs[i])
    case _ => false
  }

  /** A restorable field is well formed and its encoder writes every byte it covers. */
  lemma {:induction false} RestorableFull(f: Field)
    requires Restorable(f)
    ensures Valid(f) && Full(Enc(f))
    decreases f, 1
  {
    match f.kind
    case Nested(fs) => RestorableFullSeq(fs);
    case _ =>
  }

  lemma {:induction false} RestorableFullSeq(fs: seq<Field>)
    requires forall i :: 0 <= i < |fs| ==> Restorable(fs[i])
    ensures forall i :: 0 <= i < |fs| ==> Valid(fs[i])
    ensures Full(EncSeq(fs))
    decreases fs, 0
  {
    forall i | 0 <= i < |fs|
      ensures Valid(fs[i])
    {
      RestorableFull(fs[i]);
    }
    if fs != [] {
      RestorableFull(fs[0]);
      RestorableFullSeq(fs[1..]);
      FullConcat(Enc(fs[0]), EncSeq(fs[1..]));
    }
  }

  /**
   * Decoding a window that starts with f's encoding into a template of f gives back
   * f and consumes exactly the bytes f's encoder wrote.
   */
  lemma {:induction false} FieldRoundTrip(t: Field, f: Field, w: seq<byte>)
    requires Restorable(f) && Template(t, f) && Valid(f)
    requires |Enc(f)| <= |w| && Lift(w[..|Enc(f)|]) == Enc(f)
    ensures Dec(t, w) == Some(Decoded(f, |Enc(f)|))
    decreases f, 1
  {
    match f.kind
    case Int(x) =>
      LiftInjective(w[..f.l], IntBytes(x, f.l, f.e));
      IntRoundTrip(t, f, w);
    case Uint(u) =>
      LiftInjective(w[..f.l], IntBytes(ToInt64(u), f.l, f.e));
      UintRoundTrip(t, f, w);
    case Byte(b) =>
      LiftInjective(w[..1], [b]);
    case Bool(v) =>
      LiftInjective(w[..1], [BoolByte(v)]);
      BoolRoundTrip(t, f, w);
    case Bytes(bs, isArray) =>
      LiftInjective(w[..f.l], bs[..f.l]);
      BytesRoundTrip(t, f, w);
    case Str(s) =>
      LiftInjective(w[..|StringBytes(s, f.l)|], StringBytes(s, f.l));
      StrRoundTrip(t, f, w);
    case Nested(fs) =>
      assert w[0..][..|EncSeq(fs)|] == w[..|EncSeq(fs)|];
      DecSeqRoundTrip(t.kind.fields, fs, w, 0);
      NestedRoundTrip(t, f, w);
  }

  lemma IntRoundTrip(t: Field, f: Field, w: seq<byte>)
    requires f.kind.Int? && Restorable(f) && Template(t, f)
    requires f.l <= |w| && w[..f.l] == IntBytes(f.kind.x, f.l, f.e)
    ensures Dec(t, w) == Some(Decoded(f, f.l))
  {
    var x := f.kind.x;
    BtoiItob(x, f.l, f.e);
    if f.l < 8 {
      DivModUnique(x, Pow256(f.l), 0, x);
    }
    var v := BtoiValue(w[..f.l], f.e);
    assert v == x;
    assert t.(kind := Int(v)) == f;
  }

  lemma UintRoundTrip(t: Field, f: Field, w: seq<byte>)
    requires f.kind.Uint? && Restorable(f) && Template(t, f)
    requires f.l <= |w| && w[..f.l] == IntBytes(ToInt64(f.kind.u), f.l, f.e)
    ensures Dec(t, w) == Some(Decoded(f, f.l))
  {
    var u := f.kind.u;
    BtoiItobUnsigned(u, f.l, f.e);
    if f.l < 8 {
      DivModUnique(u, Pow256(f.l), 0, u);
    }
    var v := ToUint64(BtoiValue(w[..f.l], f.e));
    assert v == u;
    assert t.(kind := Uint(v)) == f;
  }

  lemma BoolRoundTrip(t: Field, f: Field, w: seq<byte>)
    requires f.kind.Bool? && Template(t, f)
    requires 1 <= |w| && w[..1] == [BoolByte(f.kind.v)]
    ensures Dec(t, w) == Some(Decoded(f, 1))
  {
    assert w[0] == w[..1][0];
  }

  lemma BytesRoundTrip(t: Field, f: Field, w: seq<byte>)
    requires f.kind.Bytes? && Restorable(f) && Template(t, f)
    requires f.l <= |w| && w[..f.l] == f.kind.bs[..f.l]
    ensures Dec(t, w) == Some(Decoded(f, f.l))
  {
    var bs := f.kind.bs;
    if f.kind.isArray {
      assert w[..f.l] + t.kind.bs[f.l..] == bs;
      assert t.(kind := Bytes(bs, true)) == f;
    } else {
      assert bs[..f.l] == bs;
      assert t.(kind := Bytes(bs, false)) == f;
    }
  }

  lemma StrRoundTrip(t: Field, f: Field, w: seq<byte>)
    requires f.kind.Str? && Restorable(f) && Template(t, f)
    requires |StringBytes(f.kind.s, f.l)| <= |w| && w[..|StringBytes(f.kind.s, f.l)|] == StringBytes(f.kind.s, f.l)
    ensures Dec(t, w) == Some(Decoded(f, |f.kind.s| + 1))
  {
    var s := f.kind.s;
    var sb := StringBytes(s, f.l);
    assert sb == s + [0] by {
      if f.l > 0 {
        assert Zeros(1) == [0];
      }
    }
    if f.l == 0 {
      assert w == sb + w[|sb|..];
      BtosVariable(s, w[|sb|..]);
    } else {
      assert sb + [] == sb;
      BtosVariable(s, []);
    }
  }

  lemma NestedRoundTrip(t: Field, f: Field, w: seq<byte>)
    requires f.kind.Nested? && Template(t, f) && Valid(f)
    requires DecSeq(t.kind.fields, w, 0) == Some((f.kind.fields, |EncSeq(f.kind.fields)|))
    ensures Dec(t, w) == Some(Decoded(f, |Enc(f)|))
  {
  }

  /** t is a template for f, and f's value survives the wire. */
  predicate Restores(t: Field, f: Field)
  {
    Restorable(f) && Template(t, f) && Valid(f)
  }

  /** Field by field, ts are templates for fs. */
  predicate AllRestore(ts: seq<Field>, fs: seq<Field>)
  {
    |ts| == |fs| && forall i :: 0 <= i < |fs| ==> Restores(ts[i], fs[i])
  }

  lemma AllRestoreTail(ts: seq<Field>, fs: seq<Field>)
    requires fs != [] && AllRestore(ts, fs)
    ensures Restores(ts[0], fs[0]) && AllRestore(ts[1..], fs[1..])
  {
    forall i | 0 <= i < |fs| - 1
      ensures Restores(ts[1..][i], fs[1..][i])
    {
      assert ts[1..][i] == ts[i + 1] && fs[1..][i] == fs[i + 1];
    }
  }

  /** A window holding two patches end to end holds each of them in turn. */
  lemma WindowSplit(w: seq<byte>, n: nat, p: Patch, a: Patch, b: Patch)
    requires p == a + b && n + |p| <= |w| && Lift(w[n..][..|p|]) == p
    ensures n + |a| + |b| <= |w| && Lift(w[n..][..|a|]) == a && Lift(w[n + |a|..][..|b|]) == b
  {
    var win := w[n..][..|p|];
    LiftSplit(win, a, b);
    assert win[..|a|] == w[n..][..|a|];
    assert win[|a|..] == w[n + |a|..][..|b|];
  }

  lemma DecSeqCons(ts: seq<Field>, w: seq<byte>, n: nat, g: Field, c: nat, m: nat, tail: (seq<Field>, nat))
    requires ts != [] && n <= |w| && Dec(ts[0], w[n..]) == Some(Decoded(g, c))
    requires m == n + c && DecSeq(ts[1..], w, m) == Some(tail)
    ensures DecSeq(ts, w, n) == Some(([g] + tail.0, tail.1))
  {
  }

  lemma ReadCons(fs: seq<Field>, n: nat, size: nat)
    requires fs != [] && ReadSafe(fs, n, size) && !Stops(fs[0], n, size)
    ensures Valid(fs[0]) && ReadSafe(fs[1..], n + |Enc(fs[0])|, size)
    ensures ReadRun(fs, n, size) == ReadRun(fs[1..], n + |Enc(fs[0])|, size)
    ensures ReadPatch(fs, n, size) == Enc(fs[0]) + ReadPatch(fs[1..], n + |Enc(fs[0])|, size)
  {
  }

  lemma WriteCons(ts: seq<Field>, r: seq<byte>, n: nat, g: Field, c: nat, m: nat, tail: (seq<Field>, nat, Status))
    requires ts != [] && !Stops(ts[0], n, |r|) && Dec(ts[0], r[n..]) == Some(Decoded(g, c))
    requires m == n + c && WriteRun(ts[1..], r, m) == Some(tail)
    ensures WriteRun(ts, r, n) == Some(([g] + tail.0, tail.1, tail.2))
  {
  }

  /** The sequence form, as the nested Struct strategy walks it from count n. */
  lemma {:induction false} DecSeqRoundTrip(ts: seq<Field>, fs: seq<Field>, w: seq<byte>, n: nat)
    requires AllRestore(ts, fs)
    requires (forall i :: 0 <= i < |fs| ==> Valid(fs[i])) && n + |EncSeq(fs)| <= |w|
    requires Lift(w[n..][..|EncSeq(fs)|]) == EncSeq(fs)
    ensures DecSeq(ts, w, n) == Some((fs, n + |EncSeq(fs)|))
    decreases fs, 1
  {
    if fs != [] {
      var c := RestoreHead(ts, fs, w, n);
      var m := n + c;
      DecSeqRoundTrip(ts[1..], fs[1..], w, m);
      DecSeqJoin(ts, fs, w, n, c, m, m + |EncSeq(fs[1..])|);
    }
  }

  /** The first field's bytes in the window, and the rest of the window. */
  lemma RestoreHead(ts: seq<Field>, fs: seq<Field>, w: seq<byte>, n: nat) returns (c: nat)
    requires AllRestore(ts, fs) && fs != []
    requires (forall i :: 0 <= i < |fs| ==> Valid(fs[i])) && n + |EncSeq(fs)| <= |w|
    requires Lift(w[n..][..|EncSeq(fs)|]) == EncSeq(fs)
    ensures AllRestore(ts[1..], fs[1..]) && forall i :: 0 <= i < |fs[1..]| ==> Valid(fs[1..][i])
    ensures n + c + |EncSeq(fs[1..])| <= |w| && Lift(w[n + c..][..|EncSeq(fs[1..])|]) == EncSeq(fs[1..])
    ensures |EncSeq(fs)| == c + |EncSeq(fs[1..])|
    ensures Restores(ts[0], fs[0]) && Valid(fs[0]) && n <= |w| && c == |Enc(fs[0])| && c <= |w[n..]| && Lift(w[n..][..c]) == Enc(fs[0])
  {
    AllRestoreTail(ts, fs);
    var first, rest := Enc(fs[0]), EncSeq(fs[1..]);
    WindowSplit(w, n, EncSeq(fs), first, rest);
    c := |first|;
  }

  /**
   * The nested walk restores the first field from its bytes and then the rest,
   * so it restores them all.
   */
  lemma DecSeqJoin(ts: seq<Field>, fs: seq<Field>, w: seq<byte>, n: nat, c: nat, m: nat, total: nat)
    requires |ts| == |fs| && fs != [] && Restores(ts[0], fs[0]) && Valid(fs[0])
    requires n <= |w| && c == |Enc(fs[0])| && c <= |w[n..]| && Lift(w[n..][..c]) == Enc(fs[0])
    requires m == n + c && DecSeq(ts[1..], w, m) == Some((fs[1..], total))
    ensures DecSeq(ts, w, n) == Some((fs, total))
    decreases fs, 0
  {
    FieldRoundTrip(ts[0], fs[0], w[n..]);
    DecSeqCons(ts, w, n, fs[0], c, m, (fs[1..], total));
    assert [fs[0]] + fs[1..] == fs;
  }

  /** A patch the encoding walk writes for restorable fields writes every byte it covers. */
  lemma {:induction false} ReadPatchFull(ts: seq<Field>, fs: seq<Field>, n: nat, size: nat)
    requires AllRestore(ts, fs) && ReadSafe(fs, n, size)
    ensures Full(ReadPatch(fs, n, size))
  {
    if fs != [] && !Stops(fs[0], n, size) {
      AllRestoreTail(ts, fs);
      RestorableFull(fs[0]);
      ReadPatchFull(ts[1..], fs[1..], n + |Enc(fs[0])|, size);
      FullConcat(Enc(fs[0]), ReadPatch(fs[1..], n + |Enc(fs[0])|, size));
    }
  }

  /** The first field of the encoding walk, its bytes in the window, and the rest of the walk. */
  lemma WalkHead(fs: seq<Field>, r: seq<byte>, n: nat) returns (c: nat)
    requires ReadSafe(fs, n, |r|) && fs != [] && !Stops(fs[0], n, |r|)
    requires n + |ReadPatch(fs, n, |r|)| <= |r|
    requires Lift(r[n..][..|ReadPatch(fs, n, |r|)|]) == ReadPatch(fs, n, |r|)
    ensures c == |Enc(fs[0])| && c <= |r[n..]| && Lift(r[n..][..c]) == Enc(fs[0])
    ensures ReadSafe(fs[1..], n + c, |r|) && n + c + |ReadPatch(fs[1..], n + c, |r|)| <= |r|
    ensures Lift(r[n + c..][..|ReadPatch(fs[1..], n + c, |r|)|]) == ReadPatch(fs[1..], n + c, |r|)
    ensures ReadRun(fs, n, |r|) == ReadRun(fs[1..], n + c, |r|)
  {
    c := |Enc(fs[0])|;
    ReadCons(fs, n, |r|);
    WindowSplit(r, n, ReadPatch(fs, n, |r|), Enc(fs[0]), ReadPatch(fs[1..], n + c, |r|));
  }

  /** The first field the encoding walk writes decodes back, and the rest of the walk starts after it. */
  lemma WalkStep(ts: seq<Field>, fs: seq<Field>, r: seq<byte>, n: nat) returns (c: nat)
    requires AllRestore(ts, fs) && ReadSafe(fs, n, |r|) && fs != [] && !Stops(fs[0], n, |r|)
    requires n + |ReadPatch(fs, n, |r|)| <= |r|
    requires Lift(r[n..][..|ReadPatch(fs, n, |r|)|]) == ReadPatch(fs, n, |r|)
    ensures AllRestore(ts[1..], fs[1..]) && ReadSafe(fs[1..], n + c, |r|)
    ensures n + c + |ReadPatch(fs[1..], n + c, |r|)| <= |r|
    ensures Lift(r[n + c..][..|ReadPatch(fs[1..], n + c, |r|)|]) == ReadPatch(fs[1..], n + c, |r|)
    ensures ReadRun(fs, n, |r|) == ReadRun(fs[1..], n + c, |r|)
    ensures ts != [] && !Stops(ts[0], n, |r|) && Dec(ts[0], r[n..]) == Some(Decoded(fs[0], c))
  {
    AllRestoreTail(ts, fs);
    c := WalkHead(fs, r, n);
    FieldRoundTrip(ts[0], fs[0], r[n..]);
  }

  /** The rest of the decoding walk, behind the first field it restored. */
  lemma WalkCons(ts: seq<Field>, fs: seq<Field>, r: seq<byte>, n: nat, c: nat, m: nat)
    requires fs != [] && ts != [] && m == n + c && !Stops(ts[0], n, |r|)
    requires Dec(ts[0], r[n..]) == Some(Decoded(fs[0], c))
    requires ReadSafe(fs, n, |r|) && ReadSafe(fs[1..], m, |r|) && ReadRun(fs, n, |r|) == ReadRun(fs[1..], m, |r|)
    requires WriteRun(ts[1..], r, m).Some?
    requires WriteRun(ts[1..], r, m).value.1 == ReadRun(fs[1..], m, |r|).0
    requires WriteRun(ts[1..], r, m).value.2 == ReadRun(fs[1..], m, |r|).1
    requires ReadRun(fs[1..], m, |r|).1 == Ok ==> WriteRun(ts[1..], r, m).value.0 == fs[1..]
    ensures WriteRun(ts, r, n).Some?
    ensures WriteRun(ts, r, n).value.1 == ReadRun(fs, n, |r|).0
    ensures WriteRun(ts, r, n).value.2 == ReadRun(fs, n, |r|).1
    ensures ReadRun(fs, n, |r|).1 == Ok ==> WriteRun(ts, r, n).value.0 == fs
  {
    WriteCons(ts, r, n, fs[0], c, m, WriteRun(ts[1..], r, m).value);
    assert [fs[0]] + fs[1..] == fs;
  }

  /**
   * The traversal form: decoding into templates the bytes the encoding walk wrote
   * from count n on stops at the same field with the same count and status, and
   * when the walk got through every field, restores them all.
   */
  lemma {:induction false} WriteAfterRead(ts: seq<Field>, fs: seq<Field>, r: seq<byte>, n: nat)
    requires AllRestore(ts, fs) && ReadSafe(fs, n, |r|)
    requires n + |ReadPatch(fs, n, |r|)| <= |r|
    requires Lift(r[n..][..|ReadPatch(fs, n, |r|)|]) == ReadPatch(fs, n, |r|)
    ensures WriteRun(ts, r, n).Some?
    ensures WriteRun(ts, r, n).value.1 == ReadRun(fs, n, |r|).0
    ensures WriteRun(ts, r, n).value.2 == ReadRun(fs, n, |r|).1
    ensures ReadRun(fs, n, |r|).1 == Ok ==> WriteRun(ts, r, n).value.0 == fs
  {
    if fs != [] {
      if !Stops(fs[0], n, |r|) {
        var c := WalkStep(ts, fs, r, n);
        var m := n + c;
        WriteAfterRead(ts[1..], fs[1..], r, m);
        WalkCons(ts, fs, r, n, c, m);
      } else {
        AllRestoreTail(ts, fs);
        assert Stops(ts[0], n, |r|);
      }
    }
  }

  /**
   * The round trip of the test suite: Struct.Read into any buffer, then Struct.Write
   * of that buffer into a struct of the same type. Both return the same count and
   * status, and when Read succeeded every field comes back.
   */
  lemma StructRoundTrip(ts: seq<Field>, fs: seq<Field>, q: seq<byte>)
    requires AllRestore(ts, fs) && ReadSafe(fs, 0, |q|)
    ensures var r := Overlay(q, 0, ReadPatch(fs, 0, |q|));
      WriteRun(ts, r, 0).Some? &&
      (WriteRun(ts, r, 0).value.1, WriteRun(ts, r, 0).value.2) == ReadRun(fs, 0, |q|)
    ensures ReadRun(fs, 0, |q|).1 == Ok ==>
      WriteRun(ts, Overlay(q, 0, ReadPatch(fs, 0, |q|)), 0) == Some((fs, ReadRun(fs, 0, |q|).0, Ok))
  {
    var p := ReadPatch(fs, 0, |q|);
    ReadPatchFull(ts, fs, 0, |q|);
    var r := Overlay(q, 0, p);
    OverlayWindow(q, 0, p);
    assert r[0..][..|p|] == r[0..|p|];
    WriteAfterRead(ts, fs, r, 0);
  }

  // ---------------------------------------------------------------------------
  // Fields longer than their tags

  /**
   * t is a field of f's type that f's bytes are decoded into, and the decoder honours
   * f's tag even where part of f is lost: as Restores, but a byte slice may be longer
   * than its tag and a byte array need not agree with t past the tag.
   */
  predicate Recoverable(t: Field, f: Field)
  {
    t.l == f.l && t.e == f.e &&
    match f.kind
    case Int(_) => t.kind.Int? && Restorable(f)
    case Uint(_) => t.kind.Uint? && Restorable(f)
    case Byte(_) => t.kind.Byte?
    case Bool(v) => t.kind.Bool? && (t.kind.v ==> v)
    case Bytes(bs, isArray) => t.kind.Bytes? && t.kind.isArray == isArray && f.l <= |bs| && (isArray ==> |t.kind.bs| == |bs|)
    case Str(_) => t.kind.Str? && Restorable(f)
    case Nested(fs) =>
      t.kind.Nested? && |t.kind.fields| == |fs| &&
      forall i :: 0 <= i < |fs| ==> Recoverable(t.kind.fields[i], fs[i])
    case _ => false
  }

  /**
   * What decoding f's bytes into t leaves behind: a byte slice cut to its tag, a byte
   * array whose first f.l elements are f's and the rest t's, nested fields recovered
   * one by one, and any other value unchanged.
   */
  function Recovered(t: Field, f: Field): Field
    requires Recoverable(t, f)
    decreases f, 1
  {
    match f.kind
    case Bytes(bs, isArray) =>
      if isArray then f.(kind := Bytes(bs[..f.l] + t.kind.bs[f.l..], true))
      else f.(kind := Bytes(bs[..f.l], false))
    case Nested(fs) => f.(kind := Nested(RecoveredSeq(t.kind.fields, fs)))
    case _ => f
  }

  function RecoveredSeq(ts: seq<Field>, fs: seq<Field>): (gs: seq<Field>)
    requires |ts| == |fs| && forall i :: 0 <= i < |fs| ==> Recoverable(ts[i], fs[i])
    ensures |gs| == |fs|
    decreases fs, 0
  {
    if fs == [] then [] else [Recovered(ts[0], fs[0])] + RecoveredSeq(ts[1..], fs[1..])
  }

  /** Field by field, fs are well formed and recoverable into ts. */
  predicate AllRecover(ts: seq<Field>, fs: seq<Field>)
  {
    |ts| == |fs| && forall i :: 0 <= i < |fs| ==> Recoverable(ts[i], fs[i]) && Valid(fs[i])
  }

  lemma AllRecoverTail(ts: seq<Field>, fs: seq<Field>)
    requires fs != [] && AllRecover(ts, fs)
    ensures Recoverable(ts[0], fs[0]) && Valid(fs[0]) && AllRecover(ts[1..], fs[1..])
  {
    forall i | 0 <= i < |fs| - 1
      ensures Recoverable(ts[1..][i], fs[1..][i]) && Valid(fs[1..][i])
    {
      assert ts[1..][i] == ts[i + 1] && fs[1..][i] == fs[i + 1];
    }
  }

  /**
   * The recovered value is one the wire carries without loss into t, with f's tag and
   * f's encoding: the encoder only ever writes what the decoder keeps.
   */
  lemma {:induction false} RecoveredRestores(t: Field, f: Field)
    requires Recoverable(t, f) && Valid(f)
    ensures Restores(t, Recovered(t, f))
    ensures Recovered(t, f).l == f.l && Enc(Recovered(t, f)) == Enc(f)
    decreases f, 1
  {
    match f.kind
    case Bytes(bs, isArray) =>
      var g := Recovered(t, f);
      assert g.kind.bs[..f.l] == bs[..f.l];
    case Nested(fs) =>
      RecoveredRestoresSeq(t.kind.fields, fs);
    case _ =>
  }

  lemma {:induction false} RecoveredRestoresSeq(ts: seq<Field>, fs: seq<Field>)
    requires AllRecover(ts, fs)
    ensures AllRestore(ts, RecoveredSeq(ts, fs))
    ensures forall i :: 0 <= i < |fs| ==> RecoveredSeq(ts, fs)[i].l == fs[i].l
    ensures EncSeq(RecoveredSeq(ts, fs)) == EncSeq(fs)
    decreases fs, 0
  {
    if fs != [] {
      var gs := RecoveredSeq(ts, fs);
      AllRecoverTail(ts, fs);
      RecoveredRestores(ts[0], fs[0]);
      RecoveredRestoresSeq(ts[1..], fs[1..]);
      assert gs[0] == Recovered(ts[0], fs[0]) && gs[1..] == RecoveredSeq(ts[1..], fs[1..]);
      forall i | 0 < i < |fs|
        ensures Restores(ts[i], gs[i]) && gs[i].l == fs[i].l
      {
        assert gs[i] == gs[1..][i - 1] && ts[i] == ts[1..][i - 1] && fs[i] == fs[1..][i - 1];
      }
    }
  }

  /** A field the wire carries without loss is its own recovery. */
  lemma {:induction false} RecoveredExact(t: Field, f: Field)
    requires Recoverable(t, f) && Restores(t, f)
    ensures Recovered(t, f) == f
    decreases f, 1
  {
    match f.kind
    case Bytes(bs, isArray) =>
      if isArray {
        assert bs[..f.l] + t.kind.bs[f.l..] == bs;
      } else {
        assert bs[..f.l] == bs;
      }
    case Nested(fs) =>
      RecoveredExactSeq(t.kind.fields, fs);
    case _ =>
  }

  lemma {:induction false} RecoveredExactSeq(ts: seq<Field>, fs: seq<Field>)
    requires |ts| == |fs| && forall i :: 0 <= i < |fs| ==> Recoverable(ts[i], fs[i]) && Restores(ts[i], fs[i])
    ensures RecoveredSeq(ts, fs) == fs
    decreases fs, 0
  {
    if fs != [] {
      RecoveredExact(ts[0], fs[0]);
      forall i | 0 <= i < |fs| - 1
        ensures Recoverable(ts[1..][i], fs[1..][i]) && Restores(ts[1..][i], fs[1..][i])
      {
        assert ts[1..][i] == ts[i + 1] && fs[1..][i] == fs[i + 1];
      }
      RecoveredExactSeq(ts[1..], fs[1..]);
      assert [fs[0]] + fs[1..] == fs;
    }
  }
  /** The encoding walk over the recovered fields is the walk over the fields themselves. */
  lemma {:induction false} RecoveredWalk(ts: seq<Field>, fs: seq<Field>, n: nat, size: nat)
    requires AllRecover(ts, fs) && ReadSafe(fs, n, size)
    ensures ReadSafe(RecoveredSeq(ts, fs), n, size)
    ensures ReadRun(RecoveredSeq(ts, fs), n, size) == ReadRun(fs, n, size)
    ensures ReadPatch(RecoveredSeq(ts, fs), n, size) == ReadPatch(fs, n, size)
  {
    if fs != [] {
      var gs := RecoveredSeq(ts, fs);
      AllRecoverTail(ts, fs);
      RecoveredRestores(ts[0], fs[0]);
      assert gs[0] == Recovered(ts[0], fs[0]) && gs[1..] == RecoveredSeq(ts[1..], fs[1..]);
      if !Stops(fs[0], n, size) {
        RecoveredWalk(ts[1..], fs[1..], n + |Enc(fs[0])|, size);
      }
    }
  }

  /**
   * The round trip for any struct of recoverable fields, such as a byte slice longer
   * than its tag: Struct.Write of what Struct.Read wrote returns the same count and
   * status, and when Read succeeded every field comes back as Recovered says.
   */
  lemma StructRecovers(ts: seq<Field>, fs: seq<Field>, q: seq<byte>)
    requires AllRecover(ts, fs) && ReadSafe(fs, 0, |q|)
    ensures var r := Overlay(q, 0, ReadPatch(fs, 0, |q|));
      WriteRun(ts, r, 0).Some? &&
      (WriteRun(ts, r, 0).value.1, WriteRun(ts, r, 0).value.2) == ReadRun(fs, 0, |q|)
    ensures ReadRun(fs, 0, |q|).1 == Ok ==>
      WriteRun(ts, Overlay(q, 0, ReadPatch(fs, 0, |q|)), 0) == Some((RecoveredSeq(ts, fs), ReadRun(fs, 0, |q|).0, Ok))
  {
    RecoveredRestoresSeq(ts, fs);
    RecoveredWalk(ts, fs, 0, |q|);
    StructRoundTrip(ts, RecoveredSeq(ts, fs), q);
  }
}
