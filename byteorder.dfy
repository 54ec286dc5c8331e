/**
 * The byte-order integer codec: `Itob` (stob-read.go) writes the low bytes of an
 * int64 into a window of the buffer, `Btoi` (stob-write.go, and its copy in stob.go)
 * reads such a window back.
 */
module ByteOrder {
  import opened Wire

  /** Go's `type Endian string`: any text can reach the codec; only two values mean anything. */
  type Endian = string

  const LittleEndian: Endian := "le"
  const BigEndian: Endian := "be"
  const DefaultEndian: Endian := "le"

  predicate KnownEndian(e: Endian)
  {
    e == LittleEndian || e == BigEndian
  }

  /**
   * Go's `byte(x >> (8*k))`: `>>` on a signed integer shifts arithmetically, which is
   * floor division by 2^(8k) (also for shifts of 64 or more), and `byte` keeps the low eight bits.
   */
  function ByteAt(x: int, k: nat): byte
  {
    (x / Pow256(k)) % 256
  }

  /** Little-endian: byte i carries weight 256^i. */
  function LeBytes(x: int, l: nat): (r: seq<byte>)
    ensures |r| == l
  {
    seq(l, i requires 0 <= i < l => ByteAt(x, i))
  }

  /** Big-endian: byte i carries weight 256^(l-1-i). */
  function BeBytes(x: int, l: nat): (r: seq<byte>)
    ensures |r| == l
  {
    seq(l, i requires 0 <= i < l => ByteAt(x, l - 1 - i))
  }

  /** The l bytes x is laid out as in a known byte order. */
  function IntBytes(x: int, l: nat, e: Endian): (r: seq<byte>)
    requires KnownEndian(e)
    ensures |r| == l
  {
    if e == BigEndian then BeBytes(x, l) else LeBytes(x, l)
  }

  /** What `Itob` does to an l-byte window: lay out x, or leave the window alone for any other endian. */
  function ItobPatch(x: int, l: nat, e: Endian): (r: Patch)
    ensures |r| == l
  {
    if KnownEndian(e) then Lift(IntBytes(x, l, e)) else Untouched(l)
  }

  /**
   * Itob (stob-read.go): the Go slice `p` is the window `p[off..off+l]` of the array.
   * Exactly those l bytes are written, and only for a known byte order.
   */
  method Itob(p: array<byte>, off: nat, l: nat, x: int64, e: Endian)
    requires off + l <= p.Length
    modifies p
    ensures p[..] == Overlay(old(p[..]), off, ItobPatch(x, l, e))
  {
    if e == BigEndian {
      ItobBig(p, off, l, x);
    } else if e == LittleEndian {
      ItobLittle(p, off, l, x);
    } else {
      OverlayUntouched(p[..], off, l);
    }
  }

  /** Itob's big-endian loop: byte i of the window is `byte(x >> (8*(l-i-1)))`. */
  method ItobBig(p: array<byte>, off: nat, l: nat, x: int64)
    requires off + l <= p.Length
    modifies p
    ensures p[..] == Overlay(old(p[..]), off, Lift(BeBytes(x, l)))
  {
    ghost var before := p[..];
    for i := 0 to l
      invariant p[..] == before[..off] + BeBytes(x, l)[..i] + before[off + i..]
    {
      SpliceStep(before, off, BeBytes(x, l), i);
      p[off + i] := ByteAt(x, l - i - 1);
    }
    SpliceDone(before, off, BeBytes(x, l));
  }

  /** Itob's little-endian loop: byte i of the window is `byte(x >> (8*i))`. */
  method ItobLittle(p: array<byte>, off: nat, l: nat, x: int64)
    requires off + l <= p.Length
    modifies p
    ensures p[..] == Overlay(old(p[..]), off, Lift(LeBytes(x, l)))
  {
    ghost var before := p[..];
    for i := 0 to l
      invariant p[..] == before[..off] + LeBytes(x, l)[..i] + before[off + i..]
    {
      SpliceStep(before, off, LeBytes(x, l), i);
      p[off + i] := ByteAt(x, i);
    }
    SpliceDone(before, off, LeBytes(x, l));
  }

  /**
   * The window Itob wrote holds x laid out in the byte order: big-endian puts the
   * most significant kept byte first, little-endian the least significant one.
   */
  lemma ItobWindow(buf: seq<byte>, off: nat, x: int, l: nat, e: Endian)
    requires off + l <= |buf| && KnownEndian(e)
    ensures e == BigEndian ==> Overlay(buf, off, ItobPatch(x, l, e))[off..off + l] == BeBytes(x, l)
    ensures e == LittleEndian ==> Overlay(buf, off, ItobPatch(x, l, e))[off..off + l] == LeBytes(x, l)
  {
    OverlayWindow(buf, off, Lift(IntBytes(x, l, e)));
  }

  /** Go's `int64(b) << (8*w)` read as a 64-bit pattern: a shift of 64 or more leaves 0. */
  function Shifted(b: byte, w: nat): nat
  {
    if w < 8 then b * Pow256(w) else 0
  }

  /** A base-256 digit added below the next power does not reach it. */
  lemma AddDigit(s: int, b: byte, pw: nat)
    requires 0 <= s < pw
    ensures s + b * pw < 256 * pw
  {
    assert b * pw <= 255 * pw;
  }

  lemma AddDigitBelow(s: int, b: byte, pw: nat, top: nat)
    requires 0 <= s && s + 256 * pw <= top
    ensures s + b * pw + pw <= top
  {
    assert b * pw + pw <= 256 * pw;
  }

  /** Σ_{i<k} p[i]·256^i, each term cut off at 64 bits. */
  function LeSum(p: seq<byte>, k: nat): (r: nat)
    requires k <= |p|
    ensures r < Pow256(Min(k, 8))
  {
    if k == 0 then 0
    else
      var s := LeSum(p, k - 1);
      if k - 1 < 8 then
        AddDigit(s, p[k - 1], Pow256(k - 1));
        s + Shifted(p[k - 1], k - 1)
      else
        s + Shifted(p[k - 1], k - 1)
  }

  /** Σ_{i<k} p[i]·256^(|p|-1-i), each term cut off at 64 bits. */
  function BeSum(p: seq<byte>, k: nat): (r: nat)
    requires k <= |p|
    ensures r + Pow256(Min(|p| - k, 8)) <= Pow256(Min(|p|, 8))
  {
    if k == 0 then 0
    else
      var s := BeSum(p, k - 1);
      if |p| - k < 8 then
        AddDigitBelow(s, p[k - 1], Pow256(|p| - k), Pow256(Min(|p|, 8)));
        s + Shifted(p[k - 1], |p| - k)
      else
        s + Shifted(p[k - 1], |p| - k)
  }

  lemma SumsFit(p: seq<byte>)
    ensures LeSum(p, |p|) < Two64 && BeSum(p, |p|) < Two64
  {
    Pow256Mono(Min(|p|, 8), 8);
    Pow256Eight();
  }

  /** The value Btoi yields: the 64-bit pattern read as an int64; 0 for an unknown byte order. */
  function BtoiValue(p: seq<byte>, e: Endian): int64
  {
    SumsFit(p);
    if e == BigEndian then ToInt64(BeSum(p, |p|))
    else if e == LittleEndian then ToInt64(LeSum(p, |p|))
    else 0
  }

  /**
   * Btoi (stob-write.go, identical in stob.go): `x |= int64(p[i]) << shift` per byte.
   * Every byte lands in its own eight bits, so the OR is the sum of the shifted bytes.
   */
  method Btoi(p: seq<byte>, e: Endian) returns (x: int64)
    ensures x == BtoiValue(p, e)
  {
    var l := |p|;
    var acc: nat := 0;
    if e == BigEndian {
      for i := 0 to l
        invariant acc == BeSum(p, i)
      {
        acc := acc + Shifted(p[i], l - i - 1);
      }
    } else if e == LittleEndian {
      for i := 0 to l
        invariant acc == LeSum(p, i)
      {
        acc := acc + Shifted(p[i], i);
      }
    }
    SumsFit(p);
    x := ToInt64(acc);
  }

  // ---------------------------------------------------------------------------
  // Properties

  /** Below eight bytes nothing is cut off: Btoi is the plain weighted sum, never negative. */
  lemma {:induction false} ShortSums(p: seq<byte>, k: nat)
    requires k <= |p| < 8
    ensures LeSum(p, k) == if k == 0 then 0 else LeSum(p, k - 1) + p[k - 1] * Pow256(k - 1)
    ensures BeSum(p, k) == if k == 0 then 0 else BeSum(p, k - 1) + p[k - 1] * Pow256(|p| - k)
    ensures 0 <= BtoiValue(p, LittleEndian) == LeSum(p, |p|) < Pow256(|p|)
    ensures 0 <= BtoiValue(p, BigEndian) == BeSum(p, |p|) < Pow256(|p|)
  {
    Pow256Mono(|p|, 7);
    assert Pow256(7) < Two63;
  }

  /** Any other endian string turns every window into 0. */
  lemma BtoiUnknownEndian(p: seq<byte>, e: Endian)
    requires !KnownEndian(e)
    ensures BtoiValue(p, e) == 0
  {
  }

  lemma ToUint64IsMod(x: int64)
    ensures ToUint64(x) == x % Two64
  {
    if x >= 0 {
      DivModUnique(x, Two64, 0, x);
    } else {
      DivModUnique(x, Two64, -1, x + Two64);
    }
  }

  /** Byte w of x, shifted back into place below 64 bits, is digit w of x times its weight. */
  lemma ShiftedDigit(x: int, w: nat)
    requires w < 8
    ensures Shifted(ByteAt(x, w), w) == Pow256(w) * ((x / Pow256(w)) % 256)
  {
    var d := (x / Pow256(w)) % 256;
    assert Shifted(ByteAt(x, w), w) == d * Pow256(w);
  }

  lemma {:induction false} LeSumOfLeBytes(x: int, l: nat, k: nat)
    requires k <= l
    ensures LeSum(LeBytes(x, l), k) == x % Pow256(Min(k, 8))
  {
    if k > 0 {
      LeSumOfLeBytes(x, l, k - 1);
      var w := k - 1;
      var b := LeBytes(x, l);
      assert b[w] == ByteAt(x, w);
      assert LeSum(b, k) == LeSum(b, w) + Shifted(b[w], w);
      if w < 8 {
        var pw := Pow256(w);
        assert Min(k, 8) == w + 1 && Min(w, 8) == w;
        assert Pow256(w + 1) == pw * 256;
        ModNextDigit(x, pw);
        ShiftedDigit(x, w);
      } else {
        assert Min(k, 8) == 8 == Min(w, 8);
      }
    }
  }

  lemma {:induction false} BeSumOfBeBytes(x: int, l: nat, k: nat)
    requires k <= l
    ensures BeSum(BeBytes(x, l), k) == x % Pow256(Min(l, 8)) - x % Pow256(Min(l - k, 8))
  {
    if k > 0 {
      BeSumOfBeBytes(x, l, k - 1);
      var w := l - k;
      var b := BeBytes(x, l);
      assert b[k - 1] == ByteAt(x, w);
      assert BeSum(b, k) == BeSum(b, k - 1) + Shifted(b[k - 1], w);
      if w < 8 {
        var pw := Pow256(w);
        assert Min(l - (k - 1), 8) == w + 1 && Min(l - k, 8) == w;
        assert Pow256(w + 1) == pw * 256;
        ModNextDigit(x, pw);
        ShiftedDigit(x, w);
      }
    }
  }

  /** Reading back what Itob laid out, before the int64 reinterpretation: x mod 256^min(l,8). */
  lemma PatternOfIntBytes(x: int, l: nat, e: Endian)
    requires KnownEndian(e)
    ensures e == LittleEndian ==> LeSum(IntBytes(x, l, e), l) == x % Pow256(Min(l, 8))
    ensures e == BigEndian ==> BeSum(IntBytes(x, l, e), l) == x % Pow256(Min(l, 8))
  {
    if e == LittleEndian {
      LeSumOfLeBytes(x, l, l);
    } else {
      BeSumOfBeBytes(x, l, l);
    }
  }

  /**
   * Btoi is the inverse of Itob for the same byte order: exact from eight bytes on,
   * and x mod 256^l for narrower windows.
   */
  lemma BtoiItob(x: int64, l: nat, e: Endian)
    requires KnownEndian(e)
    ensures BtoiValue(IntBytes(x, l, e), e) == if l >= 8 then x else x % Pow256(l)
  {
    PatternOfIntBytes(x, l, e);
    if l >= 8 {
      Pow256Eight();
      ToUint64IsMod(x);
    } else {
      Pow256Mono(l, 7);
      assert Pow256(7) < Two63;
    }
  }

  /**
   * The same inverse law for a 64-bit pattern passed through `int64(u)` and read back
   * through `uint64(...)`, as the unsigned and bit-pattern fields do.
   */
  lemma BtoiItobUnsigned(u: uint64, l: nat, e: Endian)
    requires KnownEndian(e)
    ensures ToUint64(BtoiValue(IntBytes(ToInt64(u), l, e), e)) == if l >= 8 then u else u % Pow256(l)
  {
    var y := ToInt64(u);
    BtoiItob(y, l, e);
    if l >= 8 {
      ToUint64IsMod(y);
    } else {
      Pow256Add(l, 8 - l);
      Pow256Eight();
      ModOfModMultiple(y, Pow256(l), Pow256(8 - l));
      var v := y % Pow256(l);
      assert v == u % Pow256(l);
      ToUint64IsMod(v);
      Pow256Mono(l, 8);
      DivModUnique(v, Two64, 0, v);
    }
  }

  /** stob_test.go: 255 in four bytes is 00 00 00 ff big-endian and ff 00 00 00 little-endian. */
  lemma ItobTestVectors()
    ensures BeBytes(255, 4) == [0, 0, 0, 0xff]
    ensures LeBytes(255, 4) == [0xff, 0, 0, 0]
  {
    assert ByteAt(255, 1) == 0 && ByteAt(255, 2) == 0 && ByteAt(255, 3) == 0;
  }

  /** stob_test.go: the bit pattern of the float64 1.32 survives an 8-byte big-endian round trip. */
  lemma FloatBitsRoundTrip()
    ensures ToUint64(BtoiValue(BeBytes(ToInt64(0x3FF5_1EB8_51EB_851F), 8), BigEndian)) == 0x3FF5_1EB8_51EB_851F
  {
    BtoiItobUnsigned(0x3FF5_1EB8_51EB_851F, 8, BigEndian);
  }
}
