/**
 * The two traversals of stob-read.go and stob-write.go. `Struct.Read` serialises
 * the struct's fields into p and `Struct.Write` fills them from p (the names follow
 * io.Reader and io.Writer as seen from the struct). Both walk the fields in order,
 * check each field's tag width against what is left of p before calling its
 * strategy, and stop with io.ErrUnexpectedEOF when the check fails.
 */
module Stob {
  import opened Wire
  import opened ByteOrder
  import opened Strings
  import opened Schema
  import opened Encode
  import opened Decode

  datatype Status = Ok | UnexpectedEOF

  // ---------------------------------------------------------------------------
  // Encoding: (*Struct).Read

  /** The check `f.l + n >= len(p)` of either traversal. */
  predicate Stops(f: Field, n: nat, size: nat)
  {
    f.l + n >= size
  }

  /**
   * Go panics inside a strategy when it writes past the end of p; the bounds check
   * only looks at f.l, which does not bound what variable-width strings, slices
   * and nested structs write. This is what the source demands of its callers: every
   * field the check lets through is well formed and fits in what is left of p.
   */
  predicate ReadSafe(fs: seq<Field>, n: nat, size: nat)
  {
    fs == [] || Stops(fs[0], n, size) ||
    (Valid(fs[0]) && n + |Enc(fs[0])| <= size && ReadSafe(fs[1..], n + |Enc(fs[0])|, size))
  }

  /** Where the encoding walk ends from count n on: the count it returns and its status. */
  function ReadRun(fs: seq<Field>, n: nat, size: nat): (nat, Status)
    requires ReadSafe(fs, n, size)
  {
    if fs == [] then (n, Ok)
    else if Stops(fs[0], n, size) then (n, UnexpectedEOF)
    else ReadRun(fs[1..], n + |Enc(fs[0])|, size)
  }

  /** The bytes the encoding walk writes from offset n on. */
  function ReadPatch(fs: seq<Field>, n: nat, size: nat): (r: Patch)
    requires ReadSafe(fs, n, size)
    ensures n + |r| == ReadRun(fs, n, size).0
    ensures n <= size ==> n + |r| <= size
  {
    if fs == [] || Stops(fs[0], n, size) then []
    else Enc(fs[0]) + ReadPatch(fs[1..], n + |Enc(fs[0])|, size)
  }

  // ---------------------------------------------------------------------------
  // Decoding: (*Struct).Write

  /**
   * The decoding walk from count n on: the fields as it leaves them (those from the
   * failing one on untouched), the count it returns and its status; `None` when a
   * strategy panics.
   */
  function WriteRun(fs: seq<Field>, p: seq<byte>, n: nat): Option<(seq<Field>, nat, Status)>
  {
    if fs == [] then Some(([], n, Ok))
    else if Stops(fs[0], n, |p|) then Some((fs, n, UnexpectedEOF))
    else
      match Dec(fs[0], p[n..])
      case None => None
      case Some(d) =>
        match WriteRun(fs[1..], p, n + d.n)
        case None => None
        case Some(r) => Some(([d.f] + r.0, r.1, r.2))
  }

  class Struct {
    var fields: seq<Field>

    constructor (fs: seq<Field>)
      ensures fields == fs
    {
      fields := fs;
    }

    /** (*Struct).Read (stob-read.go): serialise the fields into p, in order. */
    method Read(p: array<byte>) returns (n: nat, err: Status)
      requires ReadSafe(fields, 0, p.Length)
      modifies p
      ensures (n, err) == ReadRun(fields, 0, p.Length)
      ensures p[..] == Overlay(old(p[..]), 0, ReadPatch(fields, 0, p.Length))
    {
      var fs := fields;
      var size := p.Length;
      ghost var run := ReadRun(fs, 0, size);
      ghost var goal := Overlay(p[..], 0, ReadPatch(fs, 0, size));
      n := 0;
      var i := 0;
      assert fs[0..] == fs;
      while i < |fs|
        invariant i <= |fs| && n <= size
        invariant ReadSafe(fs[i..], n, size)
        invariant ReadRun(fs[i..], n, size) == run
        invariant Overlay(p[..], n, ReadPatch(fs[i..], n, size)) == goal
      {
        var f := fs[i];
        if f.l + n >= size {
          ReadStops(fs, i, n, size);
          OverlayEmpty(p[..], n);
          return n, UnexpectedEOF;
        }
        ReadFits(fs, i, n, size);
        ghost var mid := p[..];
        var k := PutField(p, n, f);
        var n', i' := n + k, i + 1;
        ReadStep(fs, i, i', n, n', size, mid, p[..], run, goal);
        n, i := n', i';
      }
      OverlayEmpty(p[..], n);
      err := Ok;
    }

    /** (*Struct).Write (stob-write.go): fill the fields from p, in order. */
    method Write(p: seq<byte>) returns (n: nat, err: Status)
      requires WriteRun(fields, p, 0).Some?
      modifies this
      ensures WriteRun(old(fields), p, 0) == Some((fields, n, err))
    {
      ghost var fs := fields;
      ghost var total := WriteRun(fs, p, 0).value;
      n := 0;
      var i := 0;
      WriteStart(fs, p, total);
      while i < |fields|
        invariant |fields| == |fs| && i <= |fs| && fields[i..] == fs[i..]
        invariant WriteRun(fs[i..], p, n).Some?
        invariant fields[..i] + WriteRun(fs[i..], p, n).value.0 == total.0
        invariant WriteRun(fs[i..], p, n).value.1 == total.1 && WriteRun(fs[i..], p, n).value.2 == total.2
      {
        var f := fields[i];
        if n + f.l >= |p| {
          WriteStops(fs, fields, p, i, n, total);
          return n, UnexpectedEOF;
        }
        WriteFits(fs, fields, p, i, n);
        var g, k := SetField(f, p[n..]);
        ghost var before := fields;
        fields := fields[i := g];
        var n', i' := n + k, i + 1;
        WriteStep(fs, before, fields, p, i, i', n, n', g, k, total);
        n, i := n', i';
      }
      WriteDone(fs, fields, p, i, n, total);
      err := Ok;
    }
  }

  lemma ReadStops(fs: seq<Field>, i: nat, n: nat, size: nat)
    requires i < |fs| && ReadSafe(fs[i..], n, size) && Stops(fs[i], n, size)
    ensures ReadRun(fs[i..], n, size) == (n, UnexpectedEOF) && ReadPatch(fs[i..], n, size) == []
  {
  }

  /** A field the check lets through fits: the preconditions of its strategy. */
  lemma ReadFits(fs: seq<Field>, i: nat, n: nat, size: nat)
    requires i < |fs| && ReadSafe(fs[i..], n, size) && !Stops(fs[i], n, size)
    ensures Valid(fs[i]) && n + |Enc(fs[i])| <= size
  {
  }

  /** One field written: the remaining walk shrinks by that field. */
  lemma ReadStep(fs: seq<Field>, i: nat, i': nat, n: nat, n': nat, size: nat,
                 mid: seq<byte>, cur: seq<byte>, run: (nat, Status), goal: seq<byte>)
    requires i < |fs| && i' == i + 1 && ReadSafe(fs[i..], n, size) && !Stops(fs[i], n, size)
    requires size == |mid| && n' == n + |Enc(fs[i])| && n' <= size
    requires cur == Overlay(mid, n, Enc(fs[i]))
    requires ReadRun(fs[i..], n, size) == run
    requires Overlay(mid, n, ReadPatch(fs[i..], n, size)) == goal
    ensures i' <= |fs| && ReadSafe(fs[i'..], n', size) && ReadRun(fs[i'..], n', size) == run
    ensures Overlay(cur, n', ReadPatch(fs[i'..], n', size)) == goal
  {
    var here, f := fs[i..], fs[i];
    assert here[0] == f && here[1..] == fs[i'..];
    var first, rest := Enc(f), ReadPatch(fs[i'..], n', size);
    assert ReadPatch(here, n, size) == first + rest;
    OverlayStep(mid, cur, 0, n, n', first, rest, goal);
  }

  lemma WriteUnfold(fs: seq<Field>, p: seq<byte>, i: nat, n: nat)
    requires i < |fs|
    ensures fs[i..][1..] == fs[i + 1..]
    ensures WriteRun(fs[i..], p, n) ==
      if Stops(fs[i], n, |p|) then Some((fs[i..], n, UnexpectedEOF))
      else match Dec(fs[i], p[n..])
        case None => None
        case Some(d) =>
          match WriteRun(fs[i + 1..], p, n + d.n)
          case None => None
          case Some(r) => Some(([d.f] + r.0, r.1, r.2))
  {
    assert fs[i..][1..] == fs[i + 1..];
  }

  /** Before the first field: nothing stored yet, and the whole walk remains. */
  lemma WriteStart(fs: seq<Field>, p: seq<byte>, total: (seq<Field>, nat, Status))
    requires WriteRun(fs, p, 0).Some? && total == WriteRun(fs, p, 0).value
    ensures fs[0..] == fs && WriteRun(fs[0..], p, 0).Some?
    ensures fs[..0] + WriteRun(fs[0..], p, 0).value.0 == total.0
    ensures WriteRun(fs[0..], p, 0).value.1 == total.1 && WriteRun(fs[0..], p, 0).value.2 == total.2
  {
    assert fs[0..] == fs;
  }

  /** The bounds check stops the walk at field i: the fields stored so far and the rest untouched. */
  lemma WriteStops(fs: seq<Field>, cur: seq<Field>, p: seq<byte>, i: nat, n: nat, total: (seq<Field>, nat, Status))
    requires WriteRun(fs, p, 0).Some? && total == WriteRun(fs, p, 0).value
    requires |cur| == |fs| && i < |fs| && cur[i..] == fs[i..]
    requires WriteRun(fs[i..], p, n).Some?
    requires cur[..i] + WriteRun(fs[i..], p, n).value.0 == total.0
    requires WriteRun(fs[i..], p, n).value.1 == total.1 && WriteRun(fs[i..], p, n).value.2 == total.2
    requires n + cur[i].l >= |p|
    ensures WriteRun(fs, p, 0) == Some((cur, n, UnexpectedEOF))
  {
    assert cur[i] == fs[i..][0] == fs[i];
    WriteUnfold(fs, p, i, n);
    assert cur[..i] + cur[i..] == cur;
  }

  /** A field the bounds check lets through has a strategy that does not panic. */
  lemma WriteFits(fs: seq<Field>, cur: seq<Field>, p: seq<byte>, i: nat, n: nat)
    requires |cur| == |fs| && i < |fs| && cur[i..] == fs[i..]
    requires WriteRun(fs[i..], p, n).Some? && n + cur[i].l < |p|
    ensures n <= |p| && Dec(cur[i], p[n..]).Some?
  {
    assert cur[i] == fs[i..][0] == fs[i];
    WriteUnfold(fs, p, i, n);
  }

  /** One field decoded and stored: the remaining work shrinks by that field. */
  lemma WriteStep(fs: seq<Field>, before: seq<Field>, after: seq<Field>, p: seq<byte>,
                  i: nat, i': nat, n: nat, n': nat, g: Field, k: nat, total: (seq<Field>, nat, Status))
    requires i < |fs| && i' == i + 1 && |before| == |fs| && before[i..] == fs[i..]
    requires after == before[i := g]
    requires WriteRun(fs[i..], p, n).Some?
    requires before[..i] + WriteRun(fs[i..], p, n).value.0 == total.0
    requires WriteRun(fs[i..], p, n).value.1 == total.1 && WriteRun(fs[i..], p, n).value.2 == total.2
    requires n + before[i].l < |p| && n' == n + k && Dec(before[i], p[n..]) == Some(Decoded(g, k))
    ensures |after| == |fs| && i' <= |fs| && after[i'..] == fs[i'..]
    ensures WriteRun(fs[i'..], p, n').Some?
    ensures after[..i'] + WriteRun(fs[i'..], p, n').value.0 == total.0
    ensures WriteRun(fs[i'..], p, n').value.1 == total.1 && WriteRun(fs[i'..], p, n').value.2 == total.2
  {
    StoreStep(fs, before, after, i, i', g);
    WriteAt(fs, p, i, i', n, n', g, k);
    var rest := WriteRun(fs[i'..], p, n').value.0;
    assert (before[..i] + [g]) + rest == before[..i] + ([g] + rest);
  }

  /** Storing g at i extends the stored prefix by g and leaves the rest as it was. */
  lemma StoreStep(fs: seq<Field>, before: seq<Field>, after: seq<Field>, i: nat, i': nat, g: Field)
    requires i < |fs| && i' == i + 1 && |before| == |fs| && before[i..] == fs[i..]
    requires after == before[i := g]
    ensures before[i] == fs[i] && |after| == |fs| && i' <= |fs|
    ensures after[..i'] == before[..i] + [g] && after[i'..] == fs[i'..]
  {
    assert before[i] == fs[i..][0] == fs[i];
    assert after[i'..] == before[i'..];
    assert before[i'..] == before[i..][1..] == fs[i..][1..];
    assert fs[i..][1..] == fs[i'..];
  }

  /** The decoding walk at field i, when its strategy gives (g, k), is g followed by the walk from n + k. */
  lemma WriteAt(fs: seq<Field>, p: seq<byte>, i: nat, i': nat, n: nat, n': nat, g: Field, k: nat)
    requires i < |fs| && i' == i + 1 && n + fs[i].l < |p| && n' == n + k
    requires Dec(fs[i], p[n..]) == Some(Decoded(g, k)) && WriteRun(fs[i..], p, n).Some?
    ensures WriteRun(fs[i'..], p, n').Some?
    ensures WriteRun(fs[i..], p, n).value.0 == [g] + WriteRun(fs[i'..], p, n').value.0
    ensures WriteRun(fs[i..], p, n).value.1 == WriteRun(fs[i'..], p, n').value.1
    ensures WriteRun(fs[i..], p, n).value.2 == WriteRun(fs[i'..], p, n').value.2
  {
    assert fs[i..][0] == fs[i] && fs[i..][1..] == fs[i'..];
  }

  /** Every field decoded: the stored fields are the walk's result and the status is Ok. */
  lemma WriteDone(fs: seq<Field>, cur: seq<Field>, p: seq<byte>, i: nat, n: nat, total: (seq<Field>, nat, Status))
    requires WriteRun(fs, p, 0).Some? && total == WriteRun(fs, p, 0).value
    requires |cur| == |fs| && |cur| <= i <= |fs|
    requires WriteRun(fs[i..], p, n).Some?
    requires cur[..i] + WriteRun(fs[i..], p, n).value.0 == total.0
    requires WriteRun(fs[i..], p, n).value.1 == total.1 && WriteRun(fs[i..], p, n).value.2 == total.2
    ensures WriteRun(fs, p, 0) == Some((cur, n, Ok))
  {
    assert fs[i..] == [];
    assert cur[..i] + [] == cur;
  }

  // ---------------------------------------------------------------------------
  // Properties of the encoding walk

  /**
   * The first k fields pass the bounds check, each field j checked at the count the
   * walk reaches it with: n plus the widths of the fields before it.
   */
  predicate Passes(fs: seq<Field>, n: nat, size: nat, k: nat)
  {
    k <= |fs| && (forall j :: 0 <= j < k ==> Valid(fs[j])) &&
    forall j :: 0 <= j < k ==> !Stops(fs[j], n + |EncSeq(fs[..j])|, size)
  }

  /** The encoded prefix grows by one field at a time. */
  lemma PrefixShift(fs: seq<Field>, j: nat)
    requires j < |fs| && forall i :: 0 <= i <= j ==> Valid(fs[i])
    ensures EncSeq(fs[..j + 1]) == Enc(fs[0]) + EncSeq(fs[1..][..j])
  {
    assert fs[..j + 1][0] == fs[0];
    assert fs[..j + 1][1..] == fs[1..][..j];
  }

  /** What the prefix condition says about the walk after the first field. */
  lemma PassesTail(fs: seq<Field>, n: nat, size: nat, k: nat)
    requires 0 < k && Passes(fs, n, size, k)
    ensures Valid(fs[0]) && !Stops(fs[0], n, size)
    ensures Passes(fs[1..], n + |Enc(fs[0])|, size, k - 1)
  {
    assert fs[..0] == [];
    var m := n + |Enc(fs[0])|;
    forall j | 0 <= j < k - 1
      ensures !Stops(fs[1..][j], m + |EncSeq(fs[1..][..j])|, size)
    {
      PrefixShift(fs, j + 1 - 1);
      assert !Stops(fs[j + 1], n + |EncSeq(fs[..j + 1])|, size);
    }
  }

  /** The converse: a first field that passes and a tail whose prefix passes. */
  lemma PassesCons(fs: seq<Field>, n: nat, size: nat, k: nat)
    requires fs != [] && Valid(fs[0]) && !Stops(fs[0], n, size)
    requires Passes(fs[1..], n + |Enc(fs[0])|, size, k)
    ensures Passes(fs, n, size, k + 1)
  {
    assert fs[..0] == [];
    forall j | 0 < j < k + 1
      ensures !Stops(fs[j], n + |EncSeq(fs[..j])|, size)
    {
      PrefixShift(fs, j - 1);
      assert fs[..j - 1 + 1] == fs[..j];
      assert fs[1..][j - 1] == fs[j];
    }
  }

  /**
   * If the first k fields pass the check and field k is the first that fails (or
   * there is none), Read returns the total width of those k fields, with
   * ErrUnexpectedEOF exactly when some field failed, and has written their bytes,
   * laid end to end, and nothing else.
   */
  lemma {:induction false} ReadOutcome(fs: seq<Field>, n: nat, size: nat, k: nat)
    requires ReadSafe(fs, n, size)
    requires Passes(fs, n, size, k)
    requires k == |fs| || Stops(fs[k], n + |EncSeq(fs[..k])|, size)
    ensures ReadRun(fs, n, size) == (n + |EncSeq(fs[..k])|, if k == |fs| then Ok else UnexpectedEOF)
    ensures ReadPatch(fs, n, size) == EncSeq(fs[..k])
  {
    if k == 0 {
      assert fs[..0] == [];
    } else {
      PassesTail(fs, n, size, k);
      var m := n + |Enc(fs[0])|;
      PrefixShift(fs, k - 1);
      assert fs[1..][k - 1..] == fs[k..];
      if k < |fs| {
        assert fs[1..][k - 1] == fs[k];
      }
      ReadOutcome(fs[1..], m, size, k - 1);
    }
  }

  /** Field k is where the walk stops: the fields before it pass and it fails, or it is past the last. */
  predicate StopsAt(fs: seq<Field>, n: nat, size: nat, k: nat)
  {
    Passes(fs, n, size, k) && (k == |fs| || Stops(fs[k], n + |EncSeq(fs[..k])|, size))
  }

  /** Every walk the precondition allows stops somewhere: at a failing field or after the last. */
  lemma {:induction false} FirstStopExists(fs: seq<Field>, n: nat, size: nat)
    requires ReadSafe(fs, n, size)
    ensures exists k: nat :: StopsAt(fs, n, size, k)
  {
    if fs == [] || Stops(fs[0], n, size) {
      assert fs[..0] == [];
      assert StopsAt(fs, n, size, 0);
    } else {
      var m := n + |Enc(fs[0])|;
      FirstStopExists(fs[1..], m, size);
      var k: nat :| StopsAt(fs[1..], m, size, k);
      PassesCons(fs, n, size, k);
      if k < |fs| - 1 {
        PrefixShift(fs, k);
        assert fs[1..][k] == fs[k + 1];
      }
      assert StopsAt(fs, n, size, k + 1);
    }
  }

  /**
   * Read succeeds exactly when every field passes the check at the count the walk
   * reaches it with; it then returns n plus the encoded width of the whole struct
   * and has written exactly what the nested Struct strategy writes for it.
   */
  lemma {:induction false} ReadOk(fs: seq<Field>, n: nat, size: nat)
    requires ReadSafe(fs, n, size)
    ensures ReadRun(fs, n, size).1 == Ok <==> Passes(fs, n, size, |fs|)
    ensures ReadRun(fs, n, size).1 == Ok ==>
      ReadRun(fs, n, size).0 == n + |EncSeq(fs)| && ReadPatch(fs, n, size) == EncSeq(fs)
  {
    if fs != [] && !Stops(fs[0], n, size) {
      ReadOk(fs[1..], n + |Enc(fs[0])|, size);
      if ReadRun(fs, n, size).1 == Ok {
        PassesCons(fs, n, size, |fs| - 1);
      }
    }
    if Passes(fs, n, size, |fs|) {
      assert fs[..|fs|] == fs;
      ReadOutcome(fs, n, size, |fs|);
    }
  }

  /**
   * The check uses the tag width alone: a field that ends exactly at the end of p
   * still fails it, so a struct encodes into a buffer only when at least one byte
   * is left over.
   */
  lemma ExactFitFails(fs: seq<Field>, size: nat)
    requires fs != [] && Valid(fs[0]) && (fs[0].kind.Int? || fs[0].kind.Uint? || fs[0].kind.Bytes?)
    requires |Enc(fs[0])| == size
    ensures ReadSafe(fs, 0, size) && ReadRun(fs, 0, size) == (0, UnexpectedEOF)
  {
    EncWidth(fs[0]);
  }

  /**
   * Nor does it bound the width of a variable-mode string: "abc" with l == 0 passes
   * the check in a two-byte buffer, and putString then writes past its end.
   */
  lemma CheckMissesVariableWidth()
    ensures var f := Field(Str([0x61, 0x62, 0x63]), 0, LittleEndian);
      !Stops(f, 0, 2) && !ReadSafe([f], 0, 2)
  {
    var f := Field(Str([0x61, 0x62, 0x63]), 0, LittleEndian);
    assert |Enc(f)| == 4;
  }

  // ---------------------------------------------------------------------------
  // Properties of the decoding walk

  /**
   * When every check passes, the top-level walk decodes exactly as the nested
   * Struct strategy (SetStruct) does over the same bytes.
   */
  lemma {:induction false} WriteOkIsNested(fs: seq<Field>, p: seq<byte>, n: nat)
    requires WriteRun(fs, p, n).Some? && WriteRun(fs, p, n).value.2 == Ok
    ensures DecSeq(fs, p, n) == Some((WriteRun(fs, p, n).value.0, WriteRun(fs, p, n).value.1))
  {
    if fs != [] {
      var d := Dec(fs[0], p[n..]).value;
      WriteOkIsNested(fs[1..], p, n + d.n);
    }
  }

  /**
   * Write returns as many fields as it was given, in the same shapes, and a count
   * no smaller than where it started.
   */
  lemma {:induction false} WriteKeepsShape(fs: seq<Field>, p: seq<byte>, n: nat)
    requires WriteRun(fs, p, n).Some?
    ensures |WriteRun(fs, p, n).value.0| == |fs|
    ensures forall i :: 0 <= i < |fs| ==> SameShape(fs[i], WriteRun(fs, p, n).value.0[i])
    ensures WriteRun(fs, p, n).value.1 >= n
  {
    if fs != [] {
      if Stops(fs[0], n, |p|) {
        SameShapeRefl(fs);
      } else {
        var d := Dec(fs[0], p[n..]).value;
        DecKeepsShape(fs[0], p[n..]);
        WriteKeepsShape(fs[1..], p, n + d.n);
      }
    }
  }

  /**
   * On ErrUnexpectedEOF the walk stopped at a field boundary: some field k failed
   * the check at the returned count, and it and every field after it are returned
   * unchanged.
   */
  lemma {:induction false} WriteStopsAtField(fs: seq<Field>, p: seq<byte>, n: nat)
    requires WriteRun(fs, p, n).Some? && WriteRun(fs, p, n).value.2 == UnexpectedEOF
    ensures |WriteRun(fs, p, n).value.0| == |fs|
    ensures exists k :: (0 <= k < |fs| && WriteRun(fs, p, n).value.0[k..] == fs[k..] &&
      Stops(fs[k], WriteRun(fs, p, n).value.1, |p|))
  {
    WriteKeepsShape(fs, p, n);
    if Stops(fs[0], n, |p|) {
      assert fs[0..] == fs;
    } else {
      var g, m, r := WriteNext(fs, p, n);
      WriteStopsAtField(fs[1..], p, m);
      var k :| 0 <= k < |fs| - 1 && r.0[k..] == fs[1..][k..] && Stops(fs[1..][k], r.1, |p|);
      StopShift(fs, WriteRun(fs, p, n).value.0, g, r.0, k, r.1, |p|);
    }
  }

  /** A field the check lets through, as the decoding walk sees it: its new value, then the rest of the walk. */
  lemma WriteNext(fs: seq<Field>, p: seq<byte>, n: nat) returns (g: Field, m: nat, r: (seq<Field>, nat, Status))
    requires fs != [] && !Stops(fs[0], n, |p|) && WriteRun(fs, p, n).Some?
    ensures WriteRun(fs[1..], p, m) == Some(r)
    ensures WriteRun(fs, p, n).value.0 == [g] + r.0
    ensures WriteRun(fs, p, n).value.1 == r.1 && WriteRun(fs, p, n).value.2 == r.2
  {
    var d := Dec(fs[0], p[n..]).value;
    g, m := d.f, n + d.n;
    r := WriteRun(fs[1..], p, m).value;
  }

  /** A stop at field k of the rest of the walk is a stop at field k + 1 of the whole walk. */
  lemma StopShift(fs: seq<Field>, out: seq<Field>, g: Field, rest: seq<Field>, k: nat, at: nat, size: nat)
    requires fs != [] && out == [g] + rest && k < |fs| - 1
    requires k <= |rest| && rest[k..] == fs[1..][k..] && Stops(fs[1..][k], at, size)
    ensures k + 1 < |fs| && out[k + 1..] == fs[k + 1..] && Stops(fs[k + 1], at, size)
  {
    assert out[k + 1..] == rest[k..];
    assert fs[1..][k..] == fs[k + 1..];
  }

  lemma SameShapeRefl(fs: seq<Field>)
    ensures forall i :: 0 <= i < |fs| ==> SameShape(fs[i], fs[i])
  {
    forall i | 0 <= i < |fs|
      ensures SameShape(fs[i], fs[i])
    {
      SameShapeSelf(fs[i]);
    }
  }

  lemma {:induction false} SameShapeSelf(f: Field)
    ensures SameShape(f, f)
  {
    match f.kind
    case Nested(gs) =>
      forall i | 0 <= i < |gs|
        ensures SameShape(gs[i], gs[i])
      {
        SameShapeSelf(gs[i]);
      }
    case _ =>
  }

  /**
   * Write's count is not bounded by len(p): a variable-mode string with no 0x00 in
   * the rest of p is read to the end and counted one past it, and as the last field
   * it returns that count with a nil error.
   */
  lemma WriteCountPastEnd()
    ensures var f := Field(Str([]), 0, LittleEndian);
      WriteRun([f], [0x61, 0x62], 0) == Some(([Field(Str([0x61, 0x62]), 0, LittleEndian)], 3, Ok))
  {
    var f, g := Field(Str([]), 0, LittleEndian), Field(Str([0x61, 0x62]), 0, LittleEndian);
    var p: seq<byte> := [0x61, 0x62];
    assert p[0..] == p && p[1..] == [0x62] && p[1..][1..] == [];
    assert UntilZero(p[1..]) == [0x62];
    assert UntilZero(p) == [0x61, 0x62];
    assert Dec(f, p[0..]) == Some(Decoded(g, 3));
    assert [f][1..] == [] && [g] + [] == [g];
  }
}
