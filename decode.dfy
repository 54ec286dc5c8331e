/**
 * The decode strategies of stob-write.go: each one reads its field's value out of
 * the window that starts at the current count, stores it in the field and returns
 * how many bytes it consumed. `Dec` is the specification; the Set methods compute
 * the same thing the way the Go strategies do.
 */
module Decode {
  import opened Wire
  import opened ByteOrder
  import opened Strings
  import opened Schema

  /** A field with its newly stored value, and the count the strategy returned. */
  datatype Decoded = Decoded(f: Field, n: nat)

  /**
   * What the strategy setWriter binds for t's kind does with the window w. `None`
   * stands for a Go panic (an index or slice beyond the window or beyond a byte
   * array), or for a kind setWriter binds no strategy to.
   */
  function Dec(t: Field, w: seq<byte>): Option<Decoded>
    decreases t, 1
  {
    match t.kind
    case Int(_) => DecInt(t, w)
    case Uint(_) => DecUint(t, w)
    case Byte(_) => DecByte(t, w)
    case Bool(v) => DecBool(t, v, w)
    case Bytes(bs, isArray) => DecBytes(t, bs, isArray, w)
    case Str(_) => DecStr(t, w)
    case Nested(fs) =>
      (match DecSeq(fs, w, 0)
       case None => None
       case Some(r) => Some(Decoded(t.(kind := Nested(r.0)), r.1)))
    case _ => None
  }

  /** SetInt: Btoi over the first t.l bytes. */
  function DecInt(t: Field, w: seq<byte>): Option<Decoded>
  {
    if t.l <= |w| then Some(Decoded(t.(kind := Int(BtoiValue(w[..t.l], t.e))), t.l)) else None
  }

  /** SetUint: Btoi over the first t.l bytes, stored as `uint64(x)`. */
  function DecUint(t: Field, w: seq<byte>): Option<Decoded>
  {
    if t.l <= |w| then Some(Decoded(t.(kind := Uint(ToUint64(BtoiValue(w[..t.l], t.e)))), t.l)) else None
  }

  /** SetByte: the first byte, whatever the tag says. */
  function DecByte(t: Field, w: seq<byte>): Option<Decoded>
  {
    if 1 <= |w| then Some(Decoded(t.(kind := Byte(w[0])), 1)) else None
  }

  /** SetBool: a non-zero first byte sets the field; a zero byte leaves the old value v. */
  function DecBool(t: Field, v: bool, w: seq<byte>): Option<Decoded>
  {
    if 1 <= |w| then Some(Decoded(t.(kind := Bool(if w[0] != 0 then true else v)), 1)) else None
  }

  /** SetBytes: a slice becomes the first t.l bytes; an array has its first t.l elements replaced. */
  function DecBytes(t: Field, bs: seq<byte>, isArray: bool, w: seq<byte>): Option<Decoded>
  {
    if t.l > |w| then None
    else if !isArray then Some(Decoded(t.(kind := Bytes(w[..t.l], false)), t.l))
    else if t.l <= |bs| then Some(Decoded(t.(kind := Bytes(w[..t.l] + bs[t.l..], true)), t.l))
    else None
  }

  /** SetString: readString over the whole window (length 0) or over its first t.l bytes. */
  function DecStr(t: Field, w: seq<byte>): Option<Decoded>
  {
    if t.l == 0 then
      var s := UntilZero(w);
      Some(Decoded(t.(kind := Str(s)), |s| + 1))
    else if t.l <= |w| then
      var s := UntilZero(w[..t.l]);
      Some(Decoded(t.(kind := Str(s)), |s| + 1))
    else None
  }

  /**
   * The sub-fields decoded one after the other from `w[n:]` on, as SetStruct does:
   * the new fields and the final count.
   */
  function DecSeq(fs: seq<Field>, w: seq<byte>, n: nat): Option<(seq<Field>, nat)>
    decreases fs, 0
  {
    if fs == [] then Some(([], n))
    else if n > |w| then None
    else
      match Dec(fs[0], w[n..])
      case None => None
      case Some(d) =>
        match DecSeq(fs[1..], w, n + d.n)
        case None => None
        case Some(r) => Some(([d.f] + r.0, r.1))
  }

  /**
   * Every field the decoder accepts is one setWriter binds a strategy for: a slice of
   * integers, bools or strings, at any depth, makes the decoding fail.
   */
  lemma {:induction false} DecWritable(t: Field, w: seq<byte>)
    requires Dec(t, w).Some?
    ensures Writable(t)
    decreases t, 1
  {
    match t.kind
    case Nested(fs) => DecSeqWritable(fs, w, 0);
    case _ =>
  }

  lemma {:induction false} DecSeqWritable(fs: seq<Field>, w: seq<byte>, n: nat)
    requires DecSeq(fs, w, n).Some?
    ensures forall i :: 0 <= i < |fs| ==> Writable(fs[i])
    decreases fs, 0
  {
    if fs != [] {
      var d := Dec(fs[0], w[n..]).value;
      DecWritable(fs[0], w[n..]);
      DecSeqWritable(fs[1..], w, n + d.n);
      forall i | 0 < i < |fs|
        ensures Writable(fs[i])
      {
        assert fs[i] == fs[1..][i - 1];
      }
    }
  }

  // ---------------------------------------------------------------------------
  // The strategies

  /** SetInt (stob-write.go): Btoi over `p[:f.l]`. */
  method SetInt(t: Field, w: seq<byte>) returns (g: Field, n: nat)
    requires t.kind.Int? && t.l <= |w|
    ensures g == t.(kind := Int(BtoiValue(w[..t.l], t.e))) && n == t.l
    ensures Dec(t, w) == Some(Decoded(g, n))
  {
    var x := Btoi(w[..t.l], t.e);
    g := t.(kind := Int(x));
    n := t.l;
  }

  /** SetUint (stob-write.go): Btoi over `p[:f.l]`, stored as `uint64(x)`. */
  method SetUint(t: Field, w: seq<byte>) returns (g: Field, n: nat)
    requires t.kind.Uint? && t.l <= |w|
    ensures g == t.(kind := Uint(ToUint64(BtoiValue(w[..t.l], t.e)))) && n == t.l
    ensures Dec(t, w) == Some(Decoded(g, n))
  {
    var x := Btoi(w[..t.l], t.e);
    g := t.(kind := Uint(ToUint64(x)));
    n := t.l;
  }

  /** SetByte (stob-write.go): the first byte, one byte consumed. */
  method SetByte(t: Field, w: seq<byte>) returns (g: Field, n: nat)
    requires t.kind.Byte? && 1 <= |w|
    ensures g == t.(kind := Byte(w[0])) && n == 1
    ensures Dec(t, w) == Some(Decoded(g, n))
  {
    g := t.(kind := Byte(w[0]));
    n := 1;
  }

  /** SetSliceByte (stob-write.go): the slice becomes `p[:f.l]`. */
  method SetSliceByte(t: Field, w: seq<byte>) returns (g: Field, n: nat)
    requires t.kind.Bytes? && !t.kind.isArray && t.l <= |w|
    ensures g == t.(kind := Bytes(w[..t.l], false)) && n == t.l
    ensures Dec(t, w) == Some(Decoded(g, n))
  {
    g := t.(kind := Bytes(w[..t.l], false));
    n := t.l;
  }

  /** SetArrayByte (stob-write.go): elements 0 to f.l-1 of the array are set one by one from p. */
  method SetArrayByte(t: Field, w: seq<byte>) returns (g: Field, n: nat)
    requires t.kind.Bytes? && t.kind.isArray && t.l <= |t.kind.bs| && t.l <= |w|
    ensures g == t.(kind := Bytes(w[..t.l] + t.kind.bs[t.l..], true)) && n == t.l
    ensures Dec(t, w) == Some(Decoded(g, n))
  {
    var a := t.kind.bs;
    for i := 0 to t.l
      invariant |a| == |t.kind.bs|
      invariant a == w[..i] + t.kind.bs[i..]
    {
      assert w[..i + 1] == w[..i] + [w[i]];
      a := a[i := w[i]];
    }
    g := t.(kind := Bytes(a, true));
    n := t.l;
  }

  /** SetBool (stob-write.go): any nonzero byte sets true; a zero byte leaves the field as it was. */
  method SetBool(t: Field, w: seq<byte>) returns (g: Field, n: nat)
    requires t.kind.Bool? && 1 <= |w|
    ensures w[0] != 0 ==> g == t.(kind := Bool(true))
    ensures w[0] == 0 ==> g == t
    ensures n == 1
    ensures Dec(t, w) == Some(Decoded(g, n))
  {
    g := t;
    if w[0] != 0x00 {
      g := t.(kind := Bool(true));
    }
    n := 1;
  }

  /** SetString (stob-write.go): Btos over `p[:f.l]` in fixed mode, over all of p in variable mode. */
  method SetString(t: Field, w: seq<byte>) returns (g: Field, n: nat)
    requires t.kind.Str? && (t.l != 0 ==> t.l <= |w|)
    ensures t.l != 0 ==> g == t.(kind := Str(UntilZero(w[..t.l])))
    ensures t.l == 0 ==> g == t.(kind := Str(UntilZero(w)))
    ensures n == |g.kind.s| + 1
    ensures Dec(t, w) == Some(Decoded(g, n))
  {
    if t.l != 0 {
      var s, k := Btos(w[..t.l]);
      g := t.(kind := Str(s));
      return g, k;
    }
    var s, k := Btos(w);
    g := t.(kind := Str(s));
    n := k;
  }

  /** The writer setWriter binds for the field's kind, applied to the window w. */
  method SetField(t: Field, w: seq<byte>) returns (g: Field, n: nat)
    requires Dec(t, w).Some?
    ensures Dec(t, w) == Some(Decoded(g, n))
    decreases t, 1
  {
    match t.kind
    case Int(_) => g, n := SetInt(t, w);
    case Uint(_) => g, n := SetUint(t, w);
    case Byte(_) => g, n := SetByte(t, w);
    case Bool(_) => g, n := SetBool(t, w);
    case Bytes(_, isArray) =>
      if isArray {
        g, n := SetArrayByte(t, w);
      } else {
        g, n := SetSliceByte(t, w);
      }
    case Str(_) => g, n := SetString(t, w);
    case Nested(fs) =>
      var gs;
      gs, n := SetStruct(fs, w);
      g := t.(kind := Nested(gs));
    case _ => assert false;
  }

  /** SetStruct (stob-write.go): each sub-field from `p[n:]`, with no bounds check, counts summed in order. */
  method SetStruct(fs: seq<Field>, w: seq<byte>) returns (gs: seq<Field>, n: nat)
    requires DecSeq(fs, w, 0).Some?
    ensures DecSeq(fs, w, 0) == Some((gs, n))
    decreases fs, 0
  {
    ghost var total := DecSeq(fs, w, 0).value;
    gs, n := [], 0;
    var i := 0;
    assert fs[0..] == fs;
    assert [] + total.0 == total.0;
    while i < |fs|
      invariant i <= |fs|
      invariant DecSeq(fs[i..], w, n).Some?
      invariant total == (gs + DecSeq(fs[i..], w, n).value.0, DecSeq(fs[i..], w, n).value.1)
    {
      DecSeqUnfold(fs, w, i, n);
      var g, k := SetField(fs[i], w[n..]);
      var gs', n', i' := gs + [g], n + k, i + 1;
      DecSeqStep(fs, w, i, i', n, n', gs, gs', g, total);
      gs, n, i := gs', n', i';
    }
    assert gs + [] == gs;
  }

  /** One sub-field decoded: the remaining work shrinks by that field. */
  lemma DecSeqStep(fs: seq<Field>, w: seq<byte>, i: nat, i': nat, n: nat, n': nat,
                   gs: seq<Field>, gs': seq<Field>, g: Field, total: (seq<Field>, nat))
    requires i < |fs| && i' == i + 1
    requires DecSeq(fs[i..], w, n).Some?
    requires total == (gs + DecSeq(fs[i..], w, n).value.0, DecSeq(fs[i..], w, n).value.1)
    requires n' >= n && n <= |w| && Dec(fs[i], w[n..]) == Some(Decoded(g, n' - n))
    requires gs' == gs + [g]
    ensures DecSeq(fs[i'..], w, n').Some?
    ensures total == (gs' + DecSeq(fs[i'..], w, n').value.0, DecSeq(fs[i'..], w, n').value.1)
  {
    DecSeqUnfold(fs, w, i, n);
    var rest := DecSeq(fs[i'..], w, n').value;
    assert (gs + [g]) + rest.0 == gs + ([g] + rest.0);
  }

  lemma DecSeqUnfold(fs: seq<Field>, w: seq<byte>, i: nat, n: nat)
    requires i < |fs|
    ensures DecSeq(fs[i..], w, n) ==
      if n > |w| then None
      else match Dec(fs[i], w[n..])
        case None => None
        case Some(d) =>
          match DecSeq(fs[i + 1..], w, n + d.n)
          case None => None
          case Some(r) => Some(([d.f] + r.0, r.1))
  {
    assert fs[i..][1..] == fs[i + 1..];
  }

  // ---------------------------------------------------------------------------
  // Properties

  /**
   * The fixed-count decoders (SetInt, SetUint, SetSliceByte, SetArrayByte) succeed
   * exactly when the window, and for an array the array, holds f.l bytes; they then
   * consume f.l bytes and keep the field's tag width and byte order.
   */
  lemma FixedCount(t: Field, w: seq<byte>)
    requires t.kind.Int? || t.kind.Uint? || t.kind.Bytes?
    ensures Dec(t, w).Some? <==> t.l <= |w| && (t.kind.Bytes? && t.kind.isArray ==> t.l <= |t.kind.bs|)
    ensures Dec(t, w).Some? ==>
      Dec(t, w).value.n == t.l && Dec(t, w).value.f.l == t.l && Dec(t, w).value.f.e == t.e
  {
  }

  /** Those decoders, and SetString in fixed mode, look only at `p[:f.l]`. */
  lemma WindowOnly(t: Field, w: seq<byte>)
    requires t.kind.Int? || t.kind.Uint? || t.kind.Bytes? || (t.kind.Str? && t.l > 0)
    requires t.l <= |w|
    ensures Dec(t, w) == Dec(t, w[..t.l])
  {
    assert w[..t.l][..t.l] == w[..t.l];
  }

  /** SetByte and SetBool look only at the first byte and always consume one. */
  lemma FirstByteOnly(t: Field, w: seq<byte>)
    requires t.kind.Byte? || t.kind.Bool?
    requires 1 <= |w|
    ensures Dec(t, w) == Dec(t, w[..1])
    ensures Dec(t, w).Some? && Dec(t, w).value.n == 1
  {
  }

  /**
   * SetBool never stores false: a nonzero byte stores true and a zero byte leaves
   * the old value, so a field holding true still holds true after reading 0x00.
   */
  lemma SetBoolNeverFalse(t: Field, w: seq<byte>)
    requires t.kind.Bool? && 1 <= |w|
    ensures Dec(t, w).Some?
    ensures Dec(t, w).value.f.kind.v == (w[0] != 0 || t.kind.v)
    ensures t.kind.v ==> Dec(t, w).value.f.kind.v
  {
  }

  /**
   * Fixed-mode SetString returns the Btos count, not f.l: it is f.l exactly when the
   * first zero byte of the window is its last byte, and f.l + 1 when there is none.
   */
  lemma FixedStringCount(t: Field, w: seq<byte>)
    requires t.kind.Str? && 0 < t.l <= |w|
    ensures Dec(t, w).Some?
    ensures Dec(t, w).value.n <= t.l + 1
    ensures Dec(t, w).value.n == t.l <==> ZeroFree(w[..t.l - 1]) && w[t.l - 1] == 0
    ensures Dec(t, w).value.n == t.l + 1 <==> ZeroFree(w[..t.l])
  {
    var win := w[..t.l];
    var s := UntilZero(win);
    assert Dec(t, w) == Some(Decoded(t.(kind := Str(s)), |s| + 1));
    assert win[..t.l - 1] == w[..t.l - 1] && win[t.l - 1] == w[t.l - 1];
    WindowCount(win);
  }

  /** How far UntilZero reaches in a non-empty window: to its last byte, or through all of it. */
  lemma WindowCount(win: seq<byte>)
    requires |win| > 0
    ensures var s := UntilZero(win);
      (|s| == |win| - 1 <==> ZeroFree(win[..|win| - 1]) && win[|win| - 1] == 0) &&
      (|s| == |win| <==> ZeroFree(win))
  {
    var l := |win|;
    var s := UntilZero(win);
    if ZeroFree(win[..l - 1]) && win[l - 1] == 0 {
      UntilZeroUnique(win, win[..l - 1]);
    }
    if |s| == l - 1 {
      assert win[..l - 1] == s;
    }
    if ZeroFree(win) {
      assert win[..l] == win;
      UntilZeroUnique(win, win);
    }
    if |s| == l {
      assert s == win;
    }
  }

  /** Variable-mode SetString consumes the string and its terminator, or len(p) + 1 when p has no zero byte. */
  lemma VariableStringCount(t: Field, w: seq<byte>)
    requires t.kind.Str? && t.l == 0
    ensures Dec(t, w).Some?
    ensures Dec(t, w).value.n <= |w| + 1
    ensures Dec(t, w).value.n == |w| + 1 <==> ZeroFree(w)
  {
    var s := UntilZero(w);
    if ZeroFree(w) {
      UntilZeroUnique(w, w);
    }
    if |s| == |w| {
      assert s == w[..|w|] == w;
    }
  }

  /** A decoded field keeps its kind, width and byte order; only the value changes. */
  lemma {:induction false} DecKeepsShape(t: Field, w: seq<byte>)
    requires Dec(t, w).Some?
    ensures SameShape(t, Dec(t, w).value.f)
    decreases t, 1
  {
    match t.kind
    case Nested(fs) => DecSeqKeepsShape(fs, w, 0);
    case _ =>
  }

  lemma {:induction false} DecSeqKeepsShape(fs: seq<Field>, w: seq<byte>, n: nat)
    requires DecSeq(fs, w, n).Some?
    ensures |DecSeq(fs, w, n).value.0| == |fs|
    ensures forall i :: 0 <= i < |fs| ==> SameShape(fs[i], DecSeq(fs, w, n).value.0[i])
    ensures DecSeq(fs, w, n).value.1 >= n
    decreases fs, 0
  {
    if fs != [] {
      var d := Dec(fs[0], w[n..]).value;
      DecKeepsShape(fs[0], w[n..]);
      DecSeqKeepsShape(fs[1..], w, n + d.n);
    }
  }

  /** Same kind constructor, width and byte order (a nested struct: the same shape, field by field). */
  predicate SameShape(a: Field, b: Field)
  {
    a.l == b.l && a.e == b.e &&
    match a.kind
    case Int(_) => b.kind.Int?
    case Uint(_) => b.kind.Uint?
    case Byte(_) => b.kind.Byte?
    case Bool(_) => b.kind.Bool?
    case Bytes(bs, isArray) => b.kind.Bytes? && b.kind.isArray == isArray && (isArray ==> |b.kind.bs| == |bs|)
    case Str(_) => b.kind.Str?
    case SliceInt(_) => b.kind.SliceInt?
    case SliceUint(_) => b.kind.SliceUint?
    case SliceBool(_) => b.kind.SliceBool?
    case SliceStr(_) => b.kind.SliceStr?
    case Nested(fs) =>
      b.kind.Nested? && |b.kind.fields| == |fs| &&
      forall i :: 0 <= i < |fs| ==> SameShape(fs[i], b.kind.fields[i])
  }
}
