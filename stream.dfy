/**
 * The stream codec of stob.go: `Write` puts a struct's fields on an io.Writer one
 * after the other and `Read` takes them back off an io.Reader, each field's layout
 * chosen by its Go type and its `stob:"len,endian"` tag. The writer is the sequence
 * of bytes written so far; the reader is a byte sequence and a position in it, and
 * each `r.Read(b)` copies as many of the remaining bytes as fit in b, leaving the
 * rest of b at its zero value, as an in-memory reader does.
 */
module Stream {
  import opened Wire
  import opened ByteOrder
  import opened Strings
  import opened Tag

  /** The field types the type switches of Write and Read name, with the field's value. */
  datatype Value =
    | Int(x: int, size: nat)       // int and int64 (8 bytes), int8 (1), int16 (2), int32 (4)
    | Uint(u: int, size: nat)      // uint16 (2), uint32 (4), uint64 (8)
    | Word(w: uint64)              // Go's platform-sized uint
    | Byte(b: byte)                // byte, which is uint8
    | Str(s: seq<byte>)
    | ByteSlice(bs: seq<byte>)     // []byte
    | Bool(v: bool)
    | ByteArray(bs: seq<byte>)     // [N]byte, which the default case handles

  /** One struct field: its value and the text of its `stob` tag ("" when it has none). */
  datatype Member = Member(v: Value, tag: string)

  /** A field with its tag read by readTag: its value, the tag length and the byte order. */
  datatype Slot = Slot(v: Value, tl: int, e: Endian)

  function SlotOf(m: Member): (s: Slot)
    ensures s.v == m.v && (s.tl, s.e) == ReadTag(m.tag)
  {
    var t := ReadTag(m.tag);
    Slot(m.v, t.0, t.1)
  }

  /** The fields of a struct, each with its tag read. */
  function Slots(ms: seq<Member>): (ss: seq<Slot>)
    ensures |ss| == |ms| && forall k :: 0 <= k < |ms| ==> ss[k] == SlotOf(ms[k])
  {
    seq(|ms|, k requires 0 <= k < |ms| => SlotOf(ms[k]))
  }

  function Half(size: nat): int
  {
    Pow256(size) / 2
  }

  /** The value is one Go can hold in the field's type. */
  predicate Typed(v: Value)
  {
    match v
    case Int(x, size) => (size == 1 || size == 2 || size == 4 || size == 8) && -Half(size) <= x < Half(size)
    case Uint(u, size) => (size == 2 || size == 4 || size == 8) && 0 <= u < Pow256(size)
    case _ => true
  }

  /**
   * The `l` of Write and Read for a field whose tag length is tl: tl, or for an
   * untagged array or slice its length.
   */
  function Length(v: Value, tl: int): int
  {
    if tl == 0 && (v.ByteSlice? || v.ByteArray?) then |v.bs| else tl
  }

  // ---------------------------------------------------------------------------
  // Write

  /**
   * The panics of Write. getBytes panics unless 0 <= l <= len: make refuses a
   * negative length, Index one past the end. An array with l == 0 reaches the
   * warning of the default case, whose argument `f.Type().Field(i)` asks an array
   * type for a struct field, which reflect refuses with a panic.
   */
  predicate WriteSafe(v: Value, tl: int)
  {
    Typed(v)
    && (v.ByteSlice? ==> 0 <= Length(v, tl) <= |v.bs|)
    && (v.ByteArray? ==> 0 < Length(v, tl) <= |v.bs|)
  }

  predicate AllWriteSafe(ss: seq<Slot>)
  {
    forall k :: 0 <= k < |ss| ==> WriteSafe(ss[k].v, ss[k].tl)
  }

  /**
   * The bytes one field puts on the stream for tag length tl and byte order e, and
   * whether it ends Write with an error. Only the signed integers keep writeInt's
   * error; the unsigned ones drop it, so an unknown byte order writes nothing for
   * them and Write goes on. binary.Write refuses Go's platform-sized uint, so a uint
   * field writes nothing either.
   */
  function Emit(v: Value, tl: int, e: Endian): (seq<byte>, bool)
    requires WriteSafe(v, tl)
  {
    match v
    case Int(x, size) => if KnownEndian(e) then (IntBytes(x, size, e), false) else ([], true)
    case Uint(u, size) => (if KnownEndian(e) then IntBytes(u, size, e) else [], false)
    case Word(_) => ([], false)
    case Byte(b) => ([b], false)
    case Str(s) => (s + [0], false)
    case ByteSlice(bs) => (bs[..Length(v, tl)], false)
    case Bool(b) => ([if b then 1 else 0], false)
    case ByteArray(bs) => (bs[..Length(v, tl)], false)
  }

  /** Emit for a field with its tag read. */
  function EmitSlot(s: Slot): (seq<byte>, bool)
    requires WriteSafe(s.v, s.tl)
  {
    Emit(s.v, s.tl, s.e)
  }

  /** Write's result: the bytes written, and whether it returned an error. */
  function WriteSpec(ss: seq<Slot>): (r: (seq<byte>, bool))
    requires AllWriteSafe(ss)
  {
    if ss == [] then ([], false)
    else
      var em := EmitSlot(ss[0]);
      if em.1 then (em.0, true)
      else
        var rest := WriteSpec(ss[1..]);
        (em.0 + rest.0, rest.1)
  }

  /** writeInt (stob.go): binary.Write in the named byte order, or an error and nothing written. */
  method WriteInt(x: int, size: nat, e: Endian) returns (b: seq<byte>, err: bool)
    ensures err <==> !KnownEndian(e)
    ensures !err ==> b == IntBytes(x, size, e)
    ensures err ==> b == []
  {
    if e == BigEndian {
      b, err := BeBytes(x, size), false;
    } else if e == LittleEndian {
      b, err := LeBytes(x, size), false;
    } else {
      b, err := [], true;
    }
  }

  /** getBytes (stob.go): a fresh l-byte slice holding the first l elements. */
  method GetBytes(bs: seq<byte>, l: int) returns (data: seq<byte>)
    requires 0 <= l <= |bs|
    ensures data == bs[..l]
  {
    var a := new byte[l](_ => 0);
    for i := 0 to l
      invariant a[..i] == bs[..i]
    {
      a[i] := bs[i];
    }
    data := a[..];
  }

  /** The type switch of Write's loop, for a field whose tag gave tl and e. */
  method WriteValue(v: Value, tl: int, e: Endian) returns (b: seq<byte>, err: bool)
    requires WriteSafe(v, tl)
    ensures (b, err) == Emit(v, tl, e)
  {
    var l := tl;
    if l == 0 && (v.ByteSlice? || v.ByteArray?) {
      l := |v.bs|;
    }
    b, err := [], false;
    match v {
      case Int(x, size) =>
        b, err := WriteInt(x, size, e);
      case Uint(u, size) =>
        var ignored;
        b, ignored := WriteInt(u, size, e);
      case Word(_) =>
      case Byte(x) =>
        b := [x];
      case Str(s) =>
        b := s + [0];
      case ByteSlice(bs) =>
        b := GetBytes(bs, l);
      case Bool(x) =>
        b := if x then [1] else [0];
      case ByteArray(bs) =>
        b := GetBytes(bs, l);
    }
  }

  lemma WriteSafeSuffix(ss: seq<Slot>, i: nat)
    requires i <= |ss| && AllWriteSafe(ss)
    ensures AllWriteSafe(ss[i..])
  {
    forall k | 0 <= k < |ss[i..]|
      ensures WriteSafe(ss[i..][k].v, ss[i..][k].tl)
    {
      assert ss[i..][k] == ss[i + k];
    }
  }

  /** One field of Write: the result so far, goal, is the bytes of this field and then the rest. */
  lemma WriteStep(here: seq<Slot>, out: seq<byte>, b: seq<byte>, failed: bool, goal: (seq<byte>, bool))
    requires here != [] && AllWriteSafe(here) && AllWriteSafe(here[1..])
    requires goal == (out + WriteSpec(here).0, WriteSpec(here).1)
    requires (b, failed) == EmitSlot(here[0])
    ensures failed ==> goal == (out + b, true)
    ensures !failed ==> goal == ((out + b) + WriteSpec(here[1..]).0, WriteSpec(here[1..]).1)
  {
    assert out + (b + WriteSpec(here[1..]).0) == (out + b) + WriteSpec(here[1..]).0;
  }

  /** Write (stob.go) on a stream that accepts every byte. */
  method Write(ms: seq<Member>) returns (out: seq<byte>, err: bool)
    requires AllWriteSafe(Slots(ms))
    ensures (out, err) == WriteSpec(Slots(ms))
  {
    out, err := [], false;
    ghost var ss := Slots(ms);
    ghost var goal := WriteSpec(ss);
    var i := 0;
    assert ss[0..] == ss;
    assert [] + WriteSpec(ss).0 == WriteSpec(ss).0;
    while i < |ms|
      invariant i <= |ms| && AllWriteSafe(ss[i..])
      invariant goal == (out + WriteSpec(ss[i..]).0, WriteSpec(ss[i..]).1)
    {
      var tag := ReadTag(ms[i].tag);
      var b, failed := WriteValue(ms[i].v, tag.0, tag.1);
      ghost var here := ss[i..];
      assert here[0] == ss[i] == Slot(ms[i].v, tag.0, tag.1) && here[1..] == ss[i + 1..];
      WriteSafeSuffix(ss, i + 1);
      WriteStep(here, out, b, failed, goal);
      out := out + b;
      if failed {
        err := true;
        return;
      }
      i := i + 1;
    }
    assert ss[i..] == [];
    assert out + [] == out;
  }

  // ---------------------------------------------------------------------------
  // Read

  /** How many of k wanted bytes the stream still has. */
  function Avail(data: seq<byte>, pos: nat, k: nat): nat
    requires pos <= |data|
  {
    Min(k, |data| - pos)
  }

  /** r.Read into a fresh k-byte buffer: the bytes the stream still has, up to k; the rest stay 0. */
  function Fill(data: seq<byte>, pos: nat, k: nat): (b: seq<byte>)
    requires pos <= |data|
    ensures |b| == k
  {
    var n := Avail(data, pos, k);
    data[pos..pos + n] + Zeros(k - n)
  }

  /** The buffer starts with the bytes the stream still has and is zero after them. */
  lemma FillSpec(data: seq<byte>, pos: nat, k: nat)
    requires pos <= |data|
    ensures var b, n := Fill(data, pos, k), Avail(data, pos, k);
      b[..n] == data[pos..pos + n] && forall j :: n <= j < k ==> b[j] == 0
  {
    var n := Avail(data, pos, k);
    assert Fill(data, pos, k)[..n] == data[pos..pos + n];
  }

  lemma HalfOf(size: nat)
    requires size >= 1
    ensures Half(size) * 2 == Pow256(size) && Half(size) > 0
  {
    assert Pow256(size) == 256 * Pow256(size - 1);
  }

  /** SetInt on a size-byte int field keeps the low 8*size bits, read as two's complement. */
  function Wrap(x: int, size: nat): (r: int)
    requires size >= 1
  {
    var p := Pow256(size);
    var m := x % p;
    if m >= Half(size) then m - p else m
  }

  /** Wrap gives a value the field's type can hold, equal to x modulo 256^size. */
  lemma WrapSpec(x: int, size: nat)
    requires size >= 1
    ensures -Half(size) <= Wrap(x, size) < Half(size)
    ensures (Wrap(x, size) - x) % Pow256(size) == 0
  {
    HalfOf(size);
    WrapFacts(x, Pow256(size), Half(size));
  }

  lemma WrapFacts(x: int, p: int, h: int)
    requires h > 0 && p == h * 2
    ensures var m := x % p;
      (m >= h ==> -h <= m - p < h && (m - p - x) % p == 0) && (m < h ==> -h <= m < h && (m - x) % p == 0)
  {
    var q, m := x / p, x % p;
    assert x == q * p + m;
    DivModUnique(m - x, p, -q, 0);
    DivModUnique(m - p - x, p, -q - 1, 0);
  }

  /**
   * The panics of Read: make of a negative tag length, Index past an array's end,
   * and a []byte field whose tag gives length 0, for which the warning's argument
   * `f.Type().Field(i)` asks the slice type for a struct field, which reflect
   * refuses with a panic. (The default case names the field through the struct's
   * own type, so an array with l == 0 is skipped.)
   */
  predicate TakeSafe(v: Value, tl: int)
  {
    Typed(v)
    && (v.ByteSlice? ==> tl > 0)
    && (v.ByteArray? ==> 0 <= Length(v, tl) <= |v.bs|)
  }

  predicate AllTakeSafe(ss: seq<Slot>)
  {
    forall k :: 0 <= k < |ss| ==> TakeSafe(ss[k].v, ss[k].tl)
  }

  /**
   * The type switch of Read's loop, for a field whose tag gave tl and e: the
   * field's new value and the new stream position. A []byte field uses the tag
   * length alone (Read reads the tag again, without the untagged fallback); there is
   * no case for uint, which the default case skips, as it skips an array with l == 0.
   */
  function Take(v: Value, tl: int, e: Endian, data: seq<byte>, pos: nat): (r: (Value, nat))
    requires pos <= |data| && TakeSafe(v, tl)
    ensures pos <= r.1 <= |data|
  {
    match v
    case Int(_, size) => TakeInt(size, e, data, pos)
    case Uint(_, size) => TakeUint(size, e, data, pos)
    case Word(_) => (v, pos)
    case Byte(_) => TakeByte(e, data, pos)
    case Str(_) => TakeStr(data, pos)
    case ByteSlice(_) => TakeSlice(tl, data, pos)
    case Bool(_) => TakeBool(data, pos)
    case ByteArray(bs) =>
      var l := Length(v, tl);
      if l == 0 then (v, pos) else TakeArray(bs, l, data, pos)
  }

  /** An int field of size bytes: readInt, then SetInt's truncation to the field's width. */
  function TakeInt(size: nat, e: Endian, data: seq<byte>, pos: nat): (r: (Value, nat))
    requires pos <= |data| && size >= 1
    ensures pos <= r.1 <= |data|
  {
    (Int(Wrap(BtoiValue(Fill(data, pos, size), e), size), size), pos + Avail(data, pos, size))
  }

  /** A uint field of size bytes: readInt, converted to uint64 and truncated by SetUint. */
  function TakeUint(size: nat, e: Endian, data: seq<byte>, pos: nat): (r: (Value, nat))
    requires pos <= |data|
    ensures pos <= r.1 <= |data|
  {
    (Uint(ToUint64(BtoiValue(Fill(data, pos, size), e)) % Pow256(size), size), pos + Avail(data, pos, size))
  }

  /** A byte field: readInt of one byte. */
  function TakeByte(e: Endian, data: seq<byte>, pos: nat): (r: (Value, nat))
    requires pos <= |data|
    ensures pos <= r.1 <= |data|
  {
    (Byte(ToUint64(BtoiValue(Fill(data, pos, 1), e)) % 256), pos + Avail(data, pos, 1))
  }

  /** A string field: readString, up to and over the first 0x00 byte. */
  function TakeStr(data: seq<byte>, pos: nat): (r: (Value, nat))
    requires pos <= |data|
    ensures pos <= r.1 <= |data|
  {
    var s := UntilZero(data[pos..]);
    (Str(s), pos + Min(|s| + 1, |data| - pos))
  }

  /** A tagged []byte field: a fresh slice of l bytes off the stream. */
  function TakeSlice(l: nat, data: seq<byte>, pos: nat): (r: (Value, nat))
    requires pos <= |data|
    ensures pos <= r.1 <= |data|
  {
    (ByteSlice(Fill(data, pos, l)), pos + Avail(data, pos, l))
  }

  /** A bool field: one byte, true exactly when it is 1. */
  function TakeBool(data: seq<byte>, pos: nat): (r: (Value, nat))
    requires pos <= |data|
    ensures pos <= r.1 <= |data|
  {
    (Bool(Fill(data, pos, 1)[0] == 1), pos + Avail(data, pos, 1))
  }

  /** An array field: its first l elements set from l bytes off the stream. */
  function TakeArray(bs: seq<byte>, l: nat, data: seq<byte>, pos: nat): (r: (Value, nat))
    requires pos <= |data| && l <= |bs|
    ensures pos <= r.1 <= |data|
  {
    (ByteArray(Fill(data, pos, l) + bs[l..]), pos + Avail(data, pos, l))
  }

  /** Take for a field with its tag read: the tag stays as it was. */
  function TakeSlot(s: Slot, data: seq<byte>, pos: nat): (r: (Slot, nat))
    requires pos <= |data| && TakeSafe(s.v, s.tl)
    ensures pos <= r.1 <= |data| && r.0.tl == s.tl && r.0.e == s.e
  {
    var r := Take(s.v, s.tl, s.e, data, pos);
    (s.(v := r.0), r.1)
  }

  /** Read's result: every field's new value and where it left the stream. */
  function ReadSpec(ss: seq<Slot>, data: seq<byte>, pos: nat): (r: (seq<Slot>, nat))
    requires pos <= |data| && AllTakeSafe(ss)
    ensures |r.0| == |ss| && pos <= r.1 <= |data|
  {
    if ss == [] then ([], pos)
    else
      var t := TakeSlot(ss[0], data, pos);
      var rest := ReadSpec(ss[1..], data, t.1);
      ([t.0] + rest.0, rest.1)
  }

  /** readInt (stob.go): size bytes off the stream through Btoi. */
  method ReadInt(data: seq<byte>, pos: nat, size: nat, e: Endian) returns (x: int64, next: nat)
    requires pos <= |data|
    ensures x == BtoiValue(Fill(data, pos, size), e)
    ensures next == pos + Avail(data, pos, size)
  {
    var b := Fill(data, pos, size);
    x := Btoi(b, e);
    next := pos + Avail(data, pos, size);
  }

  /**
   * readString (stob.go): one byte at a time up to the first 0x00, which is
   * consumed, or to the end of the stream.
   */
  method ReadString(data: seq<byte>, pos: nat) returns (s: seq<byte>, next: nat)
    requires pos <= |data|
    ensures s == UntilZero(data[pos..])
    ensures next == pos + Min(|s| + 1, |data| - pos)
  {
    s, next := [], pos;
    ghost var p := data[pos..];
    while next < |data| && data[next] != 0
      invariant pos <= next <= |data| && |s| == next - pos && s == p[..|s|] && ZeroFree(s)
    {
      assert p[|s|] == data[next];
      assert p[..|s| + 1] == s + [data[next]];
      s := s + [data[next]];
      next := next + 1;
    }
    assert |s| < |p| ==> p[|s|] == data[next];
    UntilZeroUnique(p, s);
    if next < |data| {
      next := next + 1;
    }
  }

  /** `for i, b := range bs { f.Index(i).Set(b) }`: the array's first |bs| elements replaced. */
  method SetElements(arr: seq<byte>, bs: seq<byte>) returns (r: seq<byte>)
    requires |bs| <= |arr|
    ensures |r| == |arr|
    ensures r[..|bs|] == bs && r[|bs|..] == arr[|bs|..]
  {
    r := arr;
    for i := 0 to |bs|
      invariant |r| == |arr| && r[..i] == bs[..i] && r[i..] == arr[i..]
    {
      var r' := r[i := bs[i]];
      assert r'[..i] == r[..i];
      assert r'[..i + 1] == r'[..i] + [bs[i]];
      assert bs[..i + 1] == bs[..i] + [bs[i]];
      assert r'[i + 1..] == r[i + 1..] == arr[i + 1..];
      r := r';
    }
  }

  /** Read's case for an int field: readInt, then SetInt's truncation. */
  method ReadIntField(size: nat, e: Endian, data: seq<byte>, pos: nat) returns (r: Value, next: nat)
    requires pos <= |data| && size >= 1
    ensures (r, next) == TakeInt(size, e, data, pos)
  {
    var x;
    x, next := ReadInt(data, pos, size, e);
    r := Int(Wrap(x, size), size);
  }

  /** Read's case for a uint field: readInt, converted to uint64, then SetUint's truncation. */
  method ReadUintField(size: nat, e: Endian, data: seq<byte>, pos: nat) returns (r: Value, next: nat)
    requires pos <= |data|
    ensures (r, next) == TakeUint(size, e, data, pos)
  {
    var x;
    x, next := ReadInt(data, pos, size, e);
    r := Uint(ToUint64(x) % Pow256(size), size);
  }

  /** Read's case for a byte field: readInt of one byte. */
  method ReadByteField(e: Endian, data: seq<byte>, pos: nat) returns (r: Value, next: nat)
    requires pos <= |data|
    ensures (r, next) == TakeByte(e, data, pos)
  {
    var x;
    x, next := ReadInt(data, pos, 1, e);
    r := Byte(ToUint64(x) % 256);
  }

  /** Read's case for a string field: readString. */
  method ReadStrField(data: seq<byte>, pos: nat) returns (r: Value, next: nat)
    requires pos <= |data|
    ensures (r, next) == TakeStr(data, pos)
  {
    var s;
    s, next := ReadString(data, pos);
    r := Str(s);
  }

  /** Read's case for an array field with l > 0: getBytes, then the first l elements set. */
  method ReadArrayField(arr: seq<byte>, l: nat, data: seq<byte>, pos: nat) returns (r: Value, next: nat)
    requires pos <= |data| && l <= |arr|
    ensures (r, next) == TakeArray(arr, l, data, pos)
  {
    var bs := Fill(data, pos, l);
    var arr' := SetElements(arr, bs);
    assert arr' == bs + arr[l..];
    r, next := ByteArray(arr'), pos + Avail(data, pos, l);
  }

  /** The type switch of Read's loop, for a field whose tag gave tl and e. */
  method ReadValue(v: Value, tl: int, e: Endian, data: seq<byte>, pos: nat) returns (r: Value, next: nat)
    requires pos <= |data| && TakeSafe(v, tl)
    ensures (r, next) == Take(v, tl, e, data, pos)
  {
    var l := tl;
    if l == 0 && (v.ByteSlice? || v.ByteArray?) {
      l := |v.bs|;
    }
    r, next := v, pos;
    match v {
      case Int(_, size) =>
        r, next := ReadIntField(size, e, data, pos);
      case Uint(_, size) =>
        r, next := ReadUintField(size, e, data, pos);
      case Word(_) =>
      case Byte(_) =>
        r, next := ReadByteField(e, data, pos);
      case Str(_) =>
        r, next := ReadStrField(data, pos);
      case ByteSlice(_) =>
        r, next := ByteSlice(Fill(data, pos, tl)), pos + Avail(data, pos, tl);
      case Bool(_) =>
        var b := Fill(data, pos, 1);
        r, next := Bool(b[0] == 1), pos + Avail(data, pos, 1);
      case ByteArray(arr) =>
        if l != 0 {
          r, next := ReadArrayField(arr, l, data, pos);
        }
    }
  }

  lemma TakeSafeSuffix(ss: seq<Slot>, i: nat)
    requires i <= |ss| && AllTakeSafe(ss)
    ensures AllTakeSafe(ss[i..])
  {
    forall k | 0 <= k < |ss[i..]|
      ensures TakeSafe(ss[i..][k].v, ss[i..][k].tl)
    {
      assert ss[i..][k] == ss[i + k];
    }
  }

  /** Field i's slot, as Read's loop sees it: its value with the tag it reads. */
  lemma SlotAt(ms: seq<Member>, ss: seq<Slot>, i: nat)
    requires ss == Slots(ms) && i < |ms| && AllTakeSafe(ss[i..])
    ensures ss[i..][0] == Slot(ms[i].v, ReadTag(ms[i].tag).0, ReadTag(ms[i].tag).1)
    ensures TakeSafe(ms[i].v, ReadTag(ms[i].tag).0)
  {
    assert ss[i..][0] == ss[i];
  }

  /** Read's result from field i on: that field's new slot, then the rest from the new position. */
  lemma ReadSpecAt(ss: seq<Slot>, i: nat, i': nat, data: seq<byte>, pos: nat, s: Slot, next: nat)
    requires i < |ss| && i' == i + 1 && pos <= |data| && AllTakeSafe(ss[i..])
    requires TakeSlot(ss[i..][0], data, pos).0 == s && TakeSlot(ss[i..][0], data, pos).1 == next
    ensures AllTakeSafe(ss[i'..])
    ensures ReadSpec(ss[i..], data, pos).0 == [s] + ReadSpec(ss[i'..], data, next).0
    ensures ReadSpec(ss[i..], data, pos).1 == ReadSpec(ss[i'..], data, next).1
  {
    assert ss[i..][1..] == ss[i'..];
    TakeSafeSuffix(ss[i..], 1);
  }

  /** The slot of a member whose value Read's type switch replaced. */
  lemma TakeMember(m: Member, s: Slot, r: Member, v: Value, data: seq<byte>, pos: nat, next: nat)
    requires pos <= |data| && s == Slot(m.v, ReadTag(m.tag).0, ReadTag(m.tag).1) && TakeSafe(m.v, ReadTag(m.tag).0)
    requires (v, next) == Take(m.v, ReadTag(m.tag).0, ReadTag(m.tag).1, data, pos) && r == m.(v := v)
    ensures TakeSlot(s, data, pos).0 == SlotOf(r) && TakeSlot(s, data, pos).1 == next
  {
  }

  /** The tags of the fields read so far are those of the struct's first fields. */
  lemma TagsStep(ms: seq<Member>, rs: seq<Member>, rs': seq<Member>, r: Member, i: nat, i': nat)
    requires i < |ms| && i' == i + 1 && |rs| == i && forall k :: 0 <= k < i ==> rs[k].tag == ms[k].tag
    requires r.tag == ms[i].tag && rs' == rs + [r]
    ensures |rs'| == i' && forall k :: 0 <= k < i' ==> rs'[k].tag == ms[k].tag
  {
  }

  /** Read's result with field i read: the slots so far grow by r's, and the rest starts at next. */
  lemma SpecStep(ss: seq<Slot>, i: nat, i': nat, rs: seq<Member>, rs': seq<Member>, r: Member,
                 data: seq<byte>, pos: nat, next: nat, goal: (seq<Slot>, nat))
    requires i < |ss| && i' == i + 1 && pos <= |data| && AllTakeSafe(ss[i..])
    requires TakeSlot(ss[i..][0], data, pos).0 == SlotOf(r) && TakeSlot(ss[i..][0], data, pos).1 == next
    requires Slots(rs) + ReadSpec(ss[i..], data, pos).0 == goal.0 && ReadSpec(ss[i..], data, pos).1 == goal.1
    requires rs' == rs + [r]
    ensures next <= |data| && AllTakeSafe(ss[i'..])
    ensures Slots(rs') + ReadSpec(ss[i'..], data, next).0 == goal.0 && ReadSpec(ss[i'..], data, next).1 == goal.1
  {
    ReadSpecAt(ss, i, i', data, pos, SlotOf(r), next);
    var rest := ReadSpec(ss[i'..], data, next).0;
    assert Slots(rs') == Slots(rs) + [SlotOf(r)];
    assert Slots(rs) + ([SlotOf(r)] + rest) == (Slots(rs) + [SlotOf(r)]) + rest;
  }

  /** One pass of Read's loop: field i's tag, its type switch, and the field with its new value. */
  method ReadMember(ms: seq<Member>, ghost ss: seq<Slot>, i: nat, rs: seq<Member>, data: seq<byte>, pos: nat,
                    ghost goal: (seq<Slot>, nat)) returns (rs': seq<Member>, next: nat)
    requires ss == Slots(ms) && i < |ms| && pos <= |data| && AllTakeSafe(ss[i..])
    requires |rs| == i && forall k :: 0 <= k < i ==> rs[k].tag == ms[k].tag
    requires Slots(rs) + ReadSpec(ss[i..], data, pos).0 == goal.0 && ReadSpec(ss[i..], data, pos).1 == goal.1
    ensures next <= |data| && AllTakeSafe(ss[i + 1..])
    ensures |rs'| == i + 1 && forall k :: 0 <= k < i + 1 ==> rs'[k].tag == ms[k].tag
    ensures Slots(rs') + ReadSpec(ss[i + 1..], data, next).0 == goal.0 && ReadSpec(ss[i + 1..], data, next).1 == goal.1
  {
    var tag := ReadTag(ms[i].tag);
    SlotAt(ms, ss, i);
    var v;
    v, next := ReadValue(ms[i].v, tag.0, tag.1, data, pos);
    var r := ms[i].(v := v);
    TakeMember(ms[i], ss[i..][0], r, v, data, pos, next);
    rs' := rs + [r];
    TagsStep(ms, rs, rs', r, i, i + 1);
    SpecStep(ss, i, i + 1, rs, rs', r, data, pos, next, goal);
  }

  /** Before the first field: nothing read yet, and Read's whole result remains. */
  lemma ReadStart(ss: seq<Slot>, data: seq<byte>, goal: (seq<Slot>, nat))
    requires AllTakeSafe(ss) && goal == ReadSpec(ss, data, 0)
    ensures ss[0..] == ss && AllTakeSafe(ss[0..])
    ensures Slots([]) + ReadSpec(ss[0..], data, 0).0 == goal.0 && ReadSpec(ss[0..], data, 0).1 == goal.1
  {
    assert ss[0..] == ss;
    assert Slots([]) + goal.0 == goal.0;
  }

  /** After the last field: the fields read are Read's result. */
  lemma ReadDone(ss: seq<Slot>, rs: seq<Member>, i: nat, data: seq<byte>, pos: nat, goal: (seq<Slot>, nat))
    requires i == |ss| && pos <= |data| && AllTakeSafe(ss[i..])
    requires Slots(rs) + ReadSpec(ss[i..], data, pos).0 == goal.0 && ReadSpec(ss[i..], data, pos).1 == goal.1
    ensures (Slots(rs), pos) == goal
  {
    assert ss[i..] == [];
    assert Slots(rs) + [] == Slots(rs);
  }

  /**
   * Read (stob.go), with the struct's fields given in and given back with their new
   * values; the tags stay as they were.
   */
  method Read(data: seq<byte>, ms: seq<Member>) returns (rs: seq<Member>, pos: nat)
    requires AllTakeSafe(Slots(ms))
    ensures (Slots(rs), pos) == ReadSpec(Slots(ms), data, 0)
    ensures |rs| == |ms| && forall k :: 0 <= k < |ms| ==> rs[k].tag == ms[k].tag
  {
    rs, pos := [], 0;
    ghost var ss := Slots(ms);
    ghost var goal := ReadSpec(ss, data, 0);
    var i := 0;
    ReadStart(ss, data, goal);
    while i < |ms|
      invariant i <= |ms| && pos <= |data| && AllTakeSafe(ss[i..])
      invariant |rs| == i && forall k :: 0 <= k < i ==> rs[k].tag == ms[k].tag
      invariant Slots(rs) + ReadSpec(ss[i..], data, pos).0 == goal.0 && ReadSpec(ss[i..], data, pos).1 == goal.1
    {
      rs, pos := ReadMember(ms, ss, i, rs, data, pos, goal);
      i := i + 1;
    }
    ReadDone(ss, rs, i, data, pos, goal);
  }
}
