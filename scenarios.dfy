/**
 * Concrete layouts: small structs and the exact bytes the model gives for them.
 */
module Scenarios {
  import opened Wire
  import opened ByteOrder
  import opened Schema
  import opened Encode
  import opened Decode
  import opened Stob
  import opened RoundTrip

  /** { id uint16 = 0x1234 (le, size 2); flag bool = true; name string = "ab" (size 4) } */
  function Record(e: Endian): seq<Field>
  {
    [Field(Uint(0x1234), 2, e), Field(Bool(true), 0, e), Field(Str([0x61, 0x62]), 4, e)]
  }

  /**
   * The record lays out as 34 12 | 01 | 61 62 00 00: the integer in its tag width,
   * the bool as one byte, the string zero padded to its size.
   */
  lemma RecordLayout()
    ensures EncSeq(Record(LittleEndian)) == Lift([0x34, 0x12, 0x01, 0x61, 0x62, 0x00, 0x00])
  {
    var fs := Record(LittleEndian);
    assert LeBytes(0x1234, 2) == [0x34, 0x12];
    assert EncSeq(fs[2..]) == Lift([0x61, 0x62, 0x00, 0x00]) + EncSeq([]);
    assert EncSeq(fs[1..]) == Lift([0x01]) + EncSeq(fs[2..]);
  }

  /** Big-endian, the same integer lays out as 12 34. */
  lemma RecordBigEndian()
    ensures Enc(Record(BigEndian)[0]) == Lift([0x12, 0x34])
  {
    assert Pow256(1) == 256;
    assert ByteAt(0x1234, 1) == 0x12 && ByteAt(0x1234, 0) == 0x34;
    assert BeBytes(0x1234, 2) == [0x12, 0x34];
  }

  /**
   * Into a seven-byte buffer, exactly the record's width, Read stops at the string:
   * 4 + 3 >= 7 fails the bounds check after three bytes. With one byte to spare it
   * writes all seven bytes.
   */
  lemma RecordBufferSizes()
    ensures ReadSafe(Record(LittleEndian), 0, 7) && ReadRun(Record(LittleEndian), 0, 7) == (3, UnexpectedEOF)
    ensures ReadSafe(Record(LittleEndian), 0, 8) && ReadRun(Record(LittleEndian), 0, 8) == (7, Ok)
  {
    var fs := Record(LittleEndian);
    assert fs[1..][1..] == [fs[2]] && [fs[2]][1..] == [];
  }

  /** A nested struct { a uint8 = 1; b uint8 = 2 } adds nothing on the wire: 01 02. */
  lemma NestedLayout()
    ensures var sub := [Field(Byte(1), 0, LittleEndian), Field(Byte(2), 0, LittleEndian)];
      EncSeq([Field(Nested(sub), 0, LittleEndian)]) == Lift([0x01, 0x02])
  {
    var sub := [Field(Byte(1), 0, LittleEndian), Field(Byte(2), 0, LittleEndian)];
    assert sub[1..] == [sub[1]] && [sub[1]][1..] == [];
    assert EncSeq(sub[1..]) == Lift([0x02]) + EncSeq([]);
    assert EncSeq(sub) == Lift([0x01]) + Lift([0x02]);
    assert Lift([0x01]) + Lift([0x02]) == Lift([0x01, 0x02]);
    var top := [Field(Nested(sub), 0, LittleEndian)];
    assert top[1..] == [];
  }

  /**
   * The variable-width string "hi" lays out as 68 69 00, and reading 68 69 00 FF
   * gives back "hi" with a count of three.
   */
  lemma VariableString()
    ensures Enc(Field(Str([0x68, 0x69]), 0, LittleEndian)) == Lift([0x68, 0x69, 0x00])
    ensures Dec(Field(Str([]), 0, LittleEndian), [0x68, 0x69, 0x00, 0xFF]) ==
      Some(Decoded(Field(Str([0x68, 0x69]), 0, LittleEndian), 3))
  {
    var w: seq<byte> := [0x68, 0x69, 0x00, 0xFF];
    assert w[1..] == [0x69, 0x00, 0xFF] && w[1..][1..] == [0x00, 0xFF];
    assert Strings.UntilZero(w) == [0x68, 0x69];
  }

  /**
   * Reading the record back: the string's 0x00 padding ends its content after two
   * bytes, so SetString counts three bytes, not its size of four, and Write returns
   * 6 where Read returned 7.
   */
  lemma RecordReadBack()
    ensures var ts := [Field(Uint(0), 2, LittleEndian), Field(Bool(false), 0, LittleEndian), Field(Str([]), 4, LittleEndian)];
      WriteRun(ts, [0x34, 0x12, 0x01, 0x61, 0x62, 0x00, 0x00, 0x00], 0) == Some((Record(LittleEndian), 6, Ok))
  {
    var ts := [Field(Uint(0), 2, LittleEndian), Field(Bool(false), 0, LittleEndian), Field(Str([]), 4, LittleEndian)];
    var fs := Record(LittleEndian);
    var r: seq<byte> := [0x34, 0x12, 0x01, 0x61, 0x62, 0x00, 0x00, 0x00];
    ReadBackId(ts[0], r);
    ReadBackName(ts[2], r);
    assert Dec(ts[1], r[2..]) == Some(Decoded(fs[1], 1));
    assert ts[1..][1..] == [ts[2]] && [ts[2]][1..] == [] && [fs[2]] + [] == [fs[2]];
    assert WriteRun([ts[2]], r, 3) == Some(([fs[2]], 6, Ok));
    assert ts[1..][0] == ts[1];
    WriteCons(ts[1..], r, 2, fs[1], 1, 3, ([fs[2]], 6, Ok));
    WriteCons(ts, r, 0, fs[0], 2, 2, ([fs[1]] + [fs[2]], 6, Ok));
    assert [fs[0]] + ([fs[1]] + [fs[2]]) == fs;
  }

  lemma ReadBackId(t: Field, r: seq<byte>)
    requires t == Field(Uint(0), 2, LittleEndian) && r == [0x34, 0x12, 0x01, 0x61, 0x62, 0x00, 0x00, 0x00]
    ensures Dec(t, r[0..]) == Some(Decoded(Record(LittleEndian)[0], 2))
  {
    assert Pow256(1) == 256 && Pow256(2) == 65536;
    assert LeBytes(0x1234, 2) == [0x34, 0x12] == r[0..][..2];
    BtoiItobUnsigned(0x1234, 2, LittleEndian);
  }

  lemma ReadBackName(t: Field, r: seq<byte>)
    requires t == Field(Str([]), 4, LittleEndian) && r == [0x34, 0x12, 0x01, 0x61, 0x62, 0x00, 0x00, 0x00]
    ensures Dec(t, r[3..]) == Some(Decoded(Record(LittleEndian)[2], 3))
  {
    var win := r[3..][..4];
    assert win == [0x61, 0x62, 0x00, 0x00] && win[1..] == [0x62, 0x00, 0x00] && win[1..][1..] == [0x00, 0x00];
    assert Strings.UntilZero(win[1..][1..]) == [];
    assert Strings.UntilZero(win) == [0x61, 0x62];
  }

  /**
   * A byte slice longer than its tag, as in the test suite's record: Read writes the
   * first two of its three bytes and Write gives back exactly those two, with the same
   * count.
   */
  lemma SliceCutToTag(q: seq<byte>)
    requires |q| == 4
    ensures var fs := [Field(Bytes([1, 2, 3], false), 2, LittleEndian)];
      var ts := [Field(Bytes([], false), 2, LittleEndian)];
      WriteRun(ts, Overlay(q, 0, ReadPatch(fs, 0, |q|)), 0) == Some(([Field(Bytes([1, 2], false), 2, LittleEndian)], 2, Ok))
  {
    var fs := [Field(Bytes([1, 2, 3], false), 2, LittleEndian)];
    var ts := [Field(Bytes([], false), 2, LittleEndian)];
    assert [1, 2, 3][..2] == [1, 2] && |Enc(fs[0])| == 2 && fs[1..] == [] && ts[1..] == [];
    assert ReadRun(fs, 0, 4) == (2, Ok);
    assert RecoveredSeq(ts, fs) == [Field(Bytes([1, 2], false), 2, LittleEndian)];
    StructRecovers(ts, fs, q);
  }
}
