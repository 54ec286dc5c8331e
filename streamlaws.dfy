/**
 * What the stream codec promises and where it does not: Read takes back what
 * Write put on the stream for fields whose tags agree on both sides, Write stops
 * only at a signed integer with an unknown byte order, and the places where Write
 * and Read lay a field out differently.
 */
module StreamLaws {
  import opened Wire
  import opened ByteOrder
  import opened Strings
  import opened Tag
  import opened Stream
  import Schema
  import Decode

  // ---------------------------------------------------------------------------
  // Integer widths

  /** Wrap leaves a value the field's type can hold alone, also after reduction mod 256^size. */
  lemma WrapKeeps(x: int, size: nat)
    requires size >= 1 && -Half(size) <= x < Half(size)
    ensures Wrap(x, size) == x
    ensures Wrap(x % Pow256(size), size) == x
  {
    HalfOf(size);
    var p := Pow256(size);
    var y := if x >= 0 then x else x + p;
    DivModUnique(x, p, if x >= 0 then 0 else -1, y);
    DivModUnique(y, p, 0, y);
  }

  /** Byte k < 8 of x does not see a multiple of 2^64 added to x. */
  lemma ByteAtShift(x: int, k: nat)
    requires k < 8
    ensures ByteAt(x + Two64, k) == ByteAt(x, k)
  {
    var pk := Pow256(k);
    Pow256Add(k, 8 - k);
    Pow256Eight();
    var rest := Pow256(8 - k);
    assert Two64 == pk * rest;
    assert rest == 256 * Pow256(7 - k);
    var q, r := x / pk, x % pk;
    assert x + Two64 == (q + rest) * pk + r;
    DivModUnique(x + Two64, pk, q + rest, r);
    ModAddMultiple(q, Pow256(7 - k), 256);
  }

  lemma IntBytesShift(x: int, l: nat, e: Endian)
    requires KnownEndian(e) && l <= 8
    ensures IntBytes(x + Two64, l, e) == IntBytes(x, l, e)
  {
    forall k | 0 <= k < l
      ensures ByteAt(x + Two64, k) == ByteAt(x, k)
    {
      ByteAtShift(x, k);
    }
    if e == BigEndian {
      assert BeBytes(x + Two64, l) == BeBytes(x, l);
    } else {
      assert LeBytes(x + Two64, l) == LeBytes(x, l);
    }
  }

  /** readInt then SetUint gives back an unsigned value binary.Write laid out in the same order. */
  lemma UintReadBack(u: int, size: nat, e: Endian)
    requires KnownEndian(e) && (size == 2 || size == 4 || size == 8) && 0 <= u < Pow256(size)
    ensures ToUint64(BtoiValue(IntBytes(u, size, e), e)) % Pow256(size) == u
  {
    Pow256Eight();
    if size == 8 {
      var y := ToInt64(u);
      BtoiItobUnsigned(u, 8, e);
      if u >= Two63 {
        IntBytesShift(y, 8, e);
        assert y + Two64 == u;
      }
      DivModUnique(u, Pow256(8), 0, u);
    } else {
      Pow256Mono(size, 7);
      assert Pow256(7) < Two63;
      BtoiItob(u, size, e);
      DivModUnique(u, Pow256(size), 0, u);
    }
  }

  // ---------------------------------------------------------------------------
  // One field

  /** The field survives Write then Read: its layout carries the whole value. */
  predicate Restorable(v: Value, tl: int, e: Endian)
  {
    WriteSafe(v, tl) &&
    match v
    case Int(_, _) => KnownEndian(e)
    case Uint(_, _) => KnownEndian(e)
    case Word(_) => false
    case Byte(_) => KnownEndian(e)
    case Str(s) => ZeroFree(s)
    case ByteSlice(bs) => tl == |bs| > 0
    case Bool(_) => true
    case ByteArray(bs) => Length(v, tl) == |bs|
  }

  /** t is the field Read fills in: the same Go type, an array of the same length. */
  predicate Template(t: Value, v: Value)
  {
    match t
    case Int(_, size) => v.Int? && v.size == size
    case Uint(_, size) => v.Uint? && v.size == size
    case Word(_) => false
    case Byte(_) => v.Byte?
    case Str(_) => v.Str?
    case ByteSlice(_) => v.ByteSlice?
    case Bool(_) => v.Bool?
    case ByteArray(bs) => v.ByteArray? && |bs| == |v.bs|
  }

  /** The stream holds the k bytes at pos, so Read's buffer is filled from it. */
  lemma FillWhole(data: seq<byte>, pos: nat, k: nat)
    requires pos + k <= |data|
    ensures Avail(data, pos, k) == k && Fill(data, pos, k) == data[pos..pos + k]
  {
    FillSpec(data, pos, k);
    assert Fill(data, pos, k)[..k] == Fill(data, pos, k);
  }

  lemma TakeEmitInt(t: Value, v: Value, tl: int, e: Endian, data: seq<byte>, pos: nat)
    requires v.Int? && Restorable(v, tl, e) && Template(t, v) && TakeSafe(t, tl)
    requires pos + v.size <= |data| && data[pos..pos + v.size] == Emit(v, tl, e).0
    ensures Take(t, tl, e, data, pos) == (v, pos + |Emit(v, tl, e).0|)
  {
    var size := v.size;
    FillWhole(data, pos, size);
    HalfOf(size);
    Pow256Mono(size, 8);
    Pow256Eight();
    BtoiItob(v.x, size, e);
    WrapKeeps(v.x, size);
    if size >= 8 {
      assert size == 8;
      DivModUnique(v.x, Pow256(8), if v.x >= 0 then 0 else -1, if v.x >= 0 then v.x else v.x + Two64);
    }
  }

  lemma TakeEmitUint(t: Value, v: Value, tl: int, e: Endian, data: seq<byte>, pos: nat)
    requires v.Uint? && Restorable(v, tl, e) && Template(t, v) && TakeSafe(t, tl)
    requires pos + v.size <= |data| && data[pos..pos + v.size] == Emit(v, tl, e).0
    ensures Take(t, tl, e, data, pos) == (v, pos + |Emit(v, tl, e).0|)
  {
    FillWhole(data, pos, v.size);
    UintReadBack(v.u, v.size, e);
  }

  lemma TakeEmitByte(t: Value, v: Value, tl: int, e: Endian, data: seq<byte>, pos: nat)
    requires v.Byte? && Restorable(v, tl, e) && Template(t, v) && TakeSafe(t, tl)
    requires pos + 1 <= |data| && data[pos..pos + 1] == Emit(v, tl, e).0
    ensures Take(t, tl, e, data, pos) == (v, pos + |Emit(v, tl, e).0|)
  {
    FillWhole(data, pos, 1);
    ShortSums([v.b], 1);
    ShortSums([v.b], 0);
    assert BtoiValue([v.b], e) == v.b;
    DivModUnique(v.b, 256, 0, v.b);
  }

  lemma TakeEmitStr(t: Value, v: Value, tl: int, e: Endian, data: seq<byte>, pos: nat)
    requires v.Str? && Restorable(v, tl, e) && Template(t, v) && TakeSafe(t, tl)
    requires pos + |Emit(v, tl, e).0| <= |data| && data[pos..pos + |Emit(v, tl, e).0|] == Emit(v, tl, e).0
    ensures Take(t, tl, e, data, pos) == (v, pos + |Emit(v, tl, e).0|)
  {
    var n := |v.s| + 1;
    assert data[pos..] == StringBytes(v.s, 0) + data[pos + n..] by {
      assert data[pos..] == data[pos..pos + n] + data[pos + n..];
    }
    BtosVariable(v.s, data[pos + n..]);
  }

  lemma TakeEmitBytes(t: Value, v: Value, tl: int, e: Endian, data: seq<byte>, pos: nat)
    requires (v.ByteSlice? || v.ByteArray?) && Restorable(v, tl, e) && Template(t, v) && TakeSafe(t, tl)
    requires pos + |v.bs| <= |data| && data[pos..pos + |v.bs|] == Emit(v, tl, e).0
    ensures Take(t, tl, e, data, pos) == (v, pos + |Emit(v, tl, e).0|)
  {
    var l := |v.bs|;
    FillWhole(data, pos, l);
    assert Length(t, tl) == l;
    assert v.bs[..l] == v.bs;
    if v.ByteArray? {
      assert t.bs[l..] == [] && v.bs + [] == v.bs;
    }
  }

  /** The width of one field on the stream. */
  lemma EmitWidth(v: Value, tl: int, e: Endian)
    requires Restorable(v, tl, e)
    ensures !Emit(v, tl, e).1
    ensures |Emit(v, tl, e).0| == match v
      case Int(_, size) => size
      case Uint(_, size) => size
      case Str(s) => |s| + 1
      case ByteSlice(bs) => |bs|
      case ByteArray(bs) => |bs|
      case _ => 1
  {
    if v.ByteSlice? || v.ByteArray? {
      assert v.bs[..|v.bs|] == v.bs;
    }
  }

  /** Read takes back the field Write put at pos, and moves past exactly its bytes. */
  lemma TakeEmit(t: Value, v: Value, tl: int, e: Endian, data: seq<byte>, pos: nat)
    requires Restorable(v, tl, e) && Template(t, v) && TakeSafe(t, tl)
    requires pos + |Emit(v, tl, e).0| <= |data| && data[pos..pos + |Emit(v, tl, e).0|] == Emit(v, tl, e).0
    ensures Take(t, tl, e, data, pos) == (v, pos + |Emit(v, tl, e).0|)
  {
    EmitWidth(v, tl, e);
    match v
    case Int(_, _) => TakeEmitInt(t, v, tl, e, data, pos);
    case Uint(_, _) => TakeEmitUint(t, v, tl, e, data, pos);
    case Byte(_) => TakeEmitByte(t, v, tl, e, data, pos);
    case Str(_) => TakeEmitStr(t, v, tl, e, data, pos);
    case Bool(b) => FillWhole(data, pos, 1);
    case ByteSlice(_) => TakeEmitBytes(t, v, tl, e, data, pos);
    case ByteArray(_) => TakeEmitBytes(t, v, tl, e, data, pos);
  }

  // ---------------------------------------------------------------------------
  // A whole struct

  /** Field m can be read back into field t: same tag, a matching type, and a layout that carries the value. */
  predicate Restores(t: Slot, m: Slot)
  {
    t.tl == m.tl && t.e == m.e && Restorable(m.v, m.tl, m.e) && Template(t.v, m.v) && TakeSafe(t.v, m.tl)
  }

  predicate AllRestore(ts: seq<Slot>, ms: seq<Slot>)
  {
    |ts| == |ms| && forall k :: 0 <= k < |ms| ==> Restores(ts[k], ms[k])
  }

  lemma AllRestoreSafe(ts: seq<Slot>, ms: seq<Slot>)
    requires AllRestore(ts, ms)
    ensures AllWriteSafe(ms) && AllTakeSafe(ts)
  {
    forall k | 0 <= k < |ts|
      ensures TakeSafe(ts[k].v, ts[k].tl)
    {
      assert Restores(ts[k], ms[k]);
    }
  }

  lemma AllRestoreTail(ts: seq<Slot>, ms: seq<Slot>)
    requires AllRestore(ts, ms) && ms != []
    ensures Restores(ts[0], ms[0]) && AllRestore(ts[1..], ms[1..])
  {
    forall k | 0 <= k < |ms| - 1
      ensures Restores(ts[1..][k], ms[1..][k])
    {
      assert ts[1..][k] == ts[k + 1] && ms[1..][k] == ms[k + 1];
    }
  }

  /** The first field of Read's result, and where the rest starts. */
  lemma ReadHead(t: Slot, m: Slot, data: seq<byte>, pos: nat)
    requires Restores(t, m)
    requires pos + |EmitSlot(m).0| <= |data| && data[pos..pos + |EmitSlot(m).0|] == EmitSlot(m).0
    ensures TakeSlot(t, data, pos) == (m, pos + |EmitSlot(m).0|)
  {
    EmitWidth(m.v, m.tl, m.e);
    TakeEmit(t.v, m.v, m.tl, m.e, data, pos);
  }

  /** The stream holds w from position pos on. */
  predicate Holds(data: seq<byte>, pos: nat, w: seq<byte>)
    decreases |w|
  {
    pos <= |data| && (w != [] ==> pos < |data| && data[pos] == w[0] && Holds(data, pos + 1, w[1..]))
  }

  lemma {:induction false} HoldsIff(data: seq<byte>, pos: nat, w: seq<byte>)
    ensures Holds(data, pos, w) <==> pos + |w| <= |data| && data[pos..pos + |w|] == w
    decreases |w|
  {
    if w != [] {
      HoldsIff(data, pos + 1, w[1..]);
      if pos + |w| <= |data| {
        assert data[pos..pos + |w|] == [data[pos]] + data[pos + 1..pos + 1 + |w[1..]|];
        assert w == [w[0]] + w[1..];
      }
    }
  }

  /** A stream holding a + b holds a and then b. */
  lemma {:induction false} HoldsSplit(data: seq<byte>, pos: nat, a: seq<byte>, b: seq<byte>)
    requires Holds(data, pos, a + b)
    ensures Holds(data, pos, a) && pos + |a| <= |data| && Holds(data, pos + |a|, b)
    decreases |a|
  {
    if a == [] {
      assert a + b == b;
    } else {
      assert (a + b)[1..] == a[1..] + b;
      HoldsSplit(data, pos + 1, a[1..], b);
    }
  }

  /** Write never fails on fields that can be read back. */
  lemma {:induction false} WriteSucceeds(ts: seq<Slot>, ms: seq<Slot>)
    requires AllRestore(ts, ms)
    ensures AllWriteSafe(ms) && AllTakeSafe(ts) && !WriteSpec(ms).1
  {
    AllRestoreSafe(ts, ms);
    if ms != [] {
      AllRestoreTail(ts, ms);
      WriteSucceeds(ts[1..], ms[1..]);
      EmitWidth(ms[0].v, ms[0].tl, ms[0].e);
    }
  }

  lemma WriteCons(ms: seq<Slot>)
    requires ms != [] && AllWriteSafe(ms) && AllWriteSafe(ms[1..]) && !EmitSlot(ms[0]).1
    ensures WriteSpec(ms) == (EmitSlot(ms[0]).0 + WriteSpec(ms[1..]).0, WriteSpec(ms[1..]).1)
  {
  }

  /** The first field's bytes and the rest's, as Write lays them out. */
  lemma Unfold(ts: seq<Slot>, ms: seq<Slot>, out: seq<byte>) returns (head: seq<byte>, tail: seq<byte>)
    requires AllRestore(ts, ms) && ms != [] && AllWriteSafe(ms) && WriteSpec(ms) == (out, false)
    ensures AllRestore(ts[1..], ms[1..]) && AllTakeSafe(ts)
    ensures ts != [] && Restores(ts[0], ms[0]) && WriteSafe(ms[0].v, ms[0].tl)
    ensures head == EmitSlot(ms[0]).0 && AllWriteSafe(ms[1..]) && WriteSpec(ms[1..]) == (tail, false) && out == head + tail
  {
    AllRestoreTail(ts, ms);
    AllRestoreSafe(ts, ms);
    WriteSucceeds(ts[1..], ms[1..]);
    EmitWidth(ms[0].v, ms[0].tl, ms[0].e);
    WriteCons(ms);
    head := EmitSlot(ms[0]).0;
    tail := WriteSpec(ms[1..]).0;
  }

  /** Read takes back the first field from the bytes Write gave it. */
  lemma ReadFirst(t: Slot, m: Slot, data: seq<byte>, pos: nat, head: seq<byte>)
    requires Restores(t, m) && head == EmitSlot(m).0 && Holds(data, pos, head)
    ensures pos + |head| <= |data| && TakeSlot(t, data, pos) == (m, pos + |head|)
  {
    HoldsIff(data, pos, head);
    ReadHead(t, m, data, pos);
  }

  /** One field of the round trip: its bytes, read back, and the rest of the stream. */
  lemma Step(ts: seq<Slot>, ms: seq<Slot>, data: seq<byte>, pos: nat, out: seq<byte>) returns (head: seq<byte>, tail: seq<byte>)
    requires AllRestore(ts, ms) && ms != [] && AllWriteSafe(ms) && WriteSpec(ms) == (out, false) && Holds(data, pos, out)
    ensures AllRestore(ts[1..], ms[1..]) && AllWriteSafe(ms[1..]) && WriteSpec(ms[1..]) == (tail, false)
    ensures pos + |head| <= |data| && Holds(data, pos + |head|, tail)
    ensures ts != [] && AllTakeSafe(ts) && out == head + tail
    ensures TakeSlot(ts[0], data, pos).0 == ms[0] && TakeSlot(ts[0], data, pos).1 == pos + |head|
  {
    head, tail := Unfold(ts, ms, out);
    HoldsSplit(data, pos, head, tail);
    ReadFirst(ts[0], ms[0], data, pos, head);
  }

  lemma ReadCons(ts: seq<Slot>, ms: seq<Slot>, data: seq<byte>, pos: nat, mid: nat, last: nat)
    requires ts != [] && ms != [] && AllTakeSafe(ts) && AllTakeSafe(ts[1..]) && pos <= mid <= |data|
    requires TakeSlot(ts[0], data, pos).0 == ms[0] && TakeSlot(ts[0], data, pos).1 == mid
    requires ReadSpec(ts[1..], data, mid).0 == ms[1..] && ReadSpec(ts[1..], data, mid).1 == last
    ensures ReadSpec(ts, data, pos).0 == ms && ReadSpec(ts, data, pos).1 == last
  {
    assert [ms[0]] + ms[1..] == ms;
  }

  lemma ReadNone(ts: seq<Slot>, ms: seq<Slot>, data: seq<byte>, pos: nat, out: seq<byte>)
    requires AllRestore(ts, ms) && AllWriteSafe(ms) && WriteSpec(ms) == (out, false) && ms == [] && pos <= |data|
    ensures AllTakeSafe(ts) && ReadSpec(ts, data, pos) == (ms, pos + |out|)
  {
    assert ts == [];
  }

  /**
   * Read takes back what Write put on the stream: the fields, and a position just
   * past their bytes, whatever follows them.
   */
  lemma {:induction false} ReadAfterWrite(ts: seq<Slot>, ms: seq<Slot>, data: seq<byte>, pos: nat, out: seq<byte>)
    requires AllRestore(ts, ms) && AllWriteSafe(ms) && WriteSpec(ms) == (out, false) && pos <= |data| && Holds(data, pos, out)
    ensures AllTakeSafe(ts) && ReadSpec(ts, data, pos).0 == ms && ReadSpec(ts, data, pos).1 == pos + |out|
  {
    if ms == [] {
      ReadNone(ts, ms, data, pos, out);
    } else {
      var head, tail := Step(ts, ms, data, pos, out);
      var mid := pos + |head|;
      ReadAfterWrite(ts[1..], ms[1..], data, mid, tail);
      ReadCons(ts, ms, data, pos, mid, mid + |tail|);
    }
  }

  /** The stream round trip from the start of an in-memory stream. */
  lemma StreamRoundTrip(ts: seq<Slot>, ms: seq<Slot>, rest: seq<byte>)
    requires AllRestore(ts, ms)
    ensures AllWriteSafe(ms) && AllTakeSafe(ts)
    ensures !WriteSpec(ms).1
    ensures ReadSpec(ts, WriteSpec(ms).0 + rest, 0) == (ms, |WriteSpec(ms).0|)
  {
    WriteSucceeds(ts, ms);
    var out := WriteSpec(ms).0;
    assert (out + rest)[0..|out|] == out;
    HoldsIff(out + rest, 0, out);
    ReadAfterWrite(ts, ms, out + rest, 0, out);
  }

  // ---------------------------------------------------------------------------
  // When Write fails

  /** A signed integer field whose tag names neither "le" nor "be". */
  predicate BadInt(s: Slot)
  {
    s.v.Int? && !KnownEndian(s.e)
  }

  /** Write returns an error exactly when some field is a signed integer with an unknown byte order. */
  lemma {:induction false} WriteErrorIff(ms: seq<Slot>)
    requires AllWriteSafe(ms)
    ensures WriteSpec(ms).1 <==> exists k :: 0 <= k < |ms| && BadInt(ms[k])
  {
    if ms != [] {
      WriteSafeSuffix(ms, 1);
      WriteErrorIff(ms[1..]);
      if exists k :: 0 <= k < |ms[1..]| && BadInt(ms[1..][k]) {
        var k :| 0 <= k < |ms[1..]| && BadInt(ms[1..][k]);
        assert ms[1..][k] == ms[k + 1];
      }
      if exists k :: 0 <= k < |ms| && BadInt(ms[k]) {
        var k :| 0 <= k < |ms| && BadInt(ms[k]);
        if k > 0 {
          assert ms[1..][k - 1] == ms[k];
        }
      }
    }
  }

  /** On that error the stream holds the bytes of the fields before the bad one, and nothing of it. */
  lemma {:induction false} WriteErrorPrefix(ms: seq<Slot>, k: nat)
    requires AllWriteSafe(ms) && k < |ms| && BadInt(ms[k])
    requires forall j :: 0 <= j < k ==> !BadInt(ms[j])
    ensures AllWriteSafe(ms[..k])
    ensures WriteSpec(ms) == (WriteSpec(ms[..k]).0, true)
  {
    assert AllWriteSafe(ms[..k]) by {
      forall j | 0 <= j < k
        ensures WriteSafe(ms[..k][j].v, ms[..k][j].tl)
      {
        assert ms[..k][j] == ms[j];
      }
    }
    WriteSafeSuffix(ms, 1);
    if k > 0 {
      forall j | 0 <= j < k - 1
        ensures !BadInt(ms[1..][j])
      {
        assert ms[1..][j] == ms[j + 1];
      }
      WriteErrorPrefix(ms[1..], k - 1);
      assert ms[1..][..k - 1] == ms[..k][1..];
      assert ms[..k][0] == ms[0];
      assert !BadInt(ms[0]);
    } else {
      assert ms[..0] == [];
    }
  }

  // ---------------------------------------------------------------------------
  // Where Write and Read disagree

  /**
   * With an unknown byte order a signed integer ends Write with an error, an
   * unsigned one is dropped without one, and a byte is written all the same, but
   * Read turns it into 0 because readInt goes through Btoi.
   */
  lemma UnknownEndian(e: Endian, tl: int, data: seq<byte>, pos: nat, x: int, xsize: nat, u: int, usize: nat, b: byte)
    requires !KnownEndian(e) && pos < |data|
    requires Typed(Int(x, xsize)) && Typed(Uint(u, usize))
    ensures Emit(Int(x, xsize), tl, e) == ([], true)
    ensures Emit(Uint(u, usize), tl, e) == ([], false)
    ensures Emit(Byte(b), tl, e) == ([b], false)
    ensures Take(Byte(b), tl, e, data, pos) == (Byte(0), pos + 1)
  {
    BtoiUnknownEndian(Fill(data, pos, 1), e);
  }

  /** A uint field never reaches the stream and Read leaves it and the stream position alone. */
  lemma WordNotCarried(w: uint64, tl: int, e: Endian, data: seq<byte>, pos: nat)
    requires pos <= |data|
    ensures Emit(Word(w), tl, e) == ([], false)
    ensures Take(Word(w), tl, e, data, pos) == (Word(w), pos)
  {
  }

  /**
   * An untagged []byte is written whole (its length stands in for the missing tag),
   * but Read cannot take it back: its tag length 0 makes Read panic.
   */
  lemma UntaggedSliceRefused(bs: seq<byte>, t: seq<byte>)
    ensures ReadTag("") == (0, DefaultEndian)
    ensures WriteSafe(ByteSlice(bs), 0) && Emit(ByteSlice(bs), 0, DefaultEndian) == (bs, false)
    ensures !TakeSafe(ByteSlice(t), 0)
  {
    assert bs[..|bs|] == bs;
  }

  /**
   * An array of length 0 without a tag length makes Write panic, while Read skips
   * it and leaves the stream where it was.
   */
  lemma EmptyArray(e: Endian, data: seq<byte>, pos: nat)
    requires pos <= |data|
    ensures !WriteSafe(ByteArray([]), 0)
    ensures TakeSafe(ByteArray([]), 0) && Take(ByteArray([]), 0, e, data, pos) == (ByteArray([]), pos)
  {
  }

  /**
   * The stream codec reads a bool as true only from 0x01, where SetBool of the
   * buffer codec takes any non-zero byte: 0x02 is false here and true there.
   */
  lemma BoolCodecsDisagree()
    ensures Take(Bool(false), 0, DefaultEndian, [0x02], 0) == (Bool(false), 1)
    ensures Decode.Dec(Schema.Field(Schema.Bool(false), 0, DefaultEndian), [0x02]) ==
      Some(Decode.Decoded(Schema.Field(Schema.Bool(true), 0, DefaultEndian), 1))
  {
    assert Fill([0x02], 0, 1) == [0x02];
  }

  /** At the end of the stream readInt's buffer keeps its zeros: 01 alone reads as a 4-byte 1. */
  lemma ShortStream()
    ensures Take(Int(0, 4), 0, LittleEndian, [0x01], 0) == (Int(1, 4), 1)
  {
    var b := Fill([0x01], 0, 4);
    assert Pow256(1) == 256 && Pow256(2) == 65536 && Pow256(3) == 16777216;
    assert ByteAt(1, 0) == 1 && ByteAt(1, 1) == 0 && ByteAt(1, 2) == 0 && ByteAt(1, 3) == 0;
    assert b == [0x01, 0, 0, 0] == IntBytes(1, 4, LittleEndian);
    BtoiItob(1, 4, LittleEndian);
    DivModUnique(1, Pow256(4), 0, 1);
    WrapKeeps(1, 4);
    HalfOf(4);
  }

  /** A one-byte int takes its sign back through SetInt's truncation: FF reads as -1. */
  lemma Int8Sign()
    ensures Take(Int(0, 1), 0, LittleEndian, [0xFF], 0) == (Int(-1, 1), 1)
  {
    var b := Fill([0xFF], 0, 1);
    assert b == [0xFF];
    ShortSums(b, 1);
    ShortSums(b, 0);
    assert Pow256(1) == 256;
    DivModUnique(-1, 256, -1, 255);
    WrapKeeps(-1, 1);
  }
}
