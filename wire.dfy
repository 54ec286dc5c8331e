/** Bytes, Go's fixed-width integers, and partial writes into a byte buffer. */
module Wire {

  /** Go's `byte`. */
  type byte = x: int | 0 <= x < 256

  const Two63: int := 0x8000_0000_0000_0000
  const Two64: int := 0x1_0000_0000_0000_0000

  /** Go's `int64` and `uint64`. */
  type int64 = x: int | -Two63 <= x < Two63
  type uint64 = x: int | 0 <= x < Two64

  function Pow256(k: nat): (r: nat)
    ensures r > 0
  {
    if k == 0 then 1 else 256 * Pow256(k - 1)
  }

  function Min(a: nat, b: nat): nat { if a < b then a else b }

  /** Go's conversion `int64(u)` of a 64-bit pattern (two's complement). */
  function ToInt64(u: uint64): (x: int64)
    ensures x % Two64 == u
  {
    if u < Two63 then u else DivModUnique(u - Two64, Two64, -1, u); u - Two64
  }

  /** Go's conversion `uint64(x)` of an int64 (two's complement). */
  function ToUint64(x: int64): (u: uint64)
    ensures ToInt64(u) == x
  {
    if x >= 0 then x else x + Two64
  }

  datatype Option<+T> = None | Some(value: T)

  /** What a strategy does to the bytes of its window: `Some(b)` writes b, `None` leaves the byte alone. */
  type Patch = seq<Option<byte>>

  /** A patch that writes every byte of `s`. */
  function Lift(s: seq<byte>): (r: Patch)
    ensures |r| == |s|
    ensures forall i :: 0 <= i < |s| ==> r[i] == Some(s[i])
  {
    seq(|s|, i requires 0 <= i < |s| => Some(s[i]))
  }

  /** The patch that writes nothing on `l` bytes. */
  function Untouched(l: nat): (r: Patch)
    ensures |r| == l
    ensures forall i :: 0 <= i < l ==> r[i] == None
  {
    seq(l, _ => None)
  }

  /** True when the patch writes every byte it covers. */
  predicate Full(p: Patch)
  {
    forall i :: 0 <= i < |p| ==> p[i].Some?
  }

  /** The bytes a full patch writes. */
  function Values(p: Patch): (s: seq<byte>)
    requires Full(p)
    ensures |s| == |p|
    ensures Lift(s) == p
  {
    seq(|p|, i requires 0 <= i < |p| => p[i].value)
  }

  /** The buffer `buf` after the patch has been applied at offset `off`. */
  function Overlay(buf: seq<byte>, off: nat, patch: Patch): (r: seq<byte>)
    requires off + |patch| <= |buf|
    ensures |r| == |buf|
    ensures forall i {:trigger r[i]} :: 0 <= i < |buf| ==>
      r[i] == if off <= i < off + |patch| && patch[i - off].Some? then patch[i - off].value else buf[i]
  {
    seq(|buf|, i requires 0 <= i < |buf| =>
      if off <= i < off + |patch| && patch[i - off].Some? then patch[i - off].value else buf[i])
  }

  lemma AppendAssoc(a: Patch, b: Patch, c: Patch)
    ensures a + (b + c) == (a + b) + c
  {
  }

  /** Two patches applied one after the other, end to end, are the concatenated patch. */
  lemma OverlayConcat(buf: seq<byte>, off: nat, p1: Patch, p2: Patch)
    requires off + |p1| + |p2| <= |buf|
    ensures Overlay(Overlay(buf, off, p1), off + |p1|, p2) == Overlay(buf, off, p1 + p2)
  {
    var a := Overlay(Overlay(buf, off, p1), off + |p1|, p2);
    var b := Overlay(buf, off, p1 + p2);
    forall i | 0 <= i < |buf| ensures a[i] == b[i] {
      if off <= i < off + |p1| {
        assert (p1 + p2)[i - off] == p1[i - off];
      } else if off + |p1| <= i < off + |p1| + |p2| {
        assert (p1 + p2)[i - off] == p2[i - off - |p1|];
      }
    }
  }

  /**
   * One more patch written at the front of the remaining work: if the rest, applied
   * after the patch just written, was to give `goal`, then applying it to the
   * current buffer at the advanced count `n'` gives `goal`.
   */
  lemma OverlayStep(mid: seq<byte>, cur: seq<byte>, off: nat, n: nat, n': nat, first: Patch, rest: Patch, goal: seq<byte>)
    requires n' == n + |first|
    requires off + n + |first| + |rest| <= |mid|
    requires cur == Overlay(mid, off + n, first)
    requires Overlay(mid, off + n, first + rest) == goal
    ensures off + n' + |rest| <= |cur|
    ensures Overlay(cur, off + n', rest) == goal
  {
    OverlayConcat(mid, off + n, first, rest);
  }

  /**
   * One step of a walk that lays a patch out piece by piece: with `whole` still to
   * write at n and its first piece now written, `rest` is left to write at n'.
   */
  lemma OverlayNext(mid: seq<byte>, cur: seq<byte>, off: nat, n: nat, n': nat, whole: Patch, first: Patch, rest: Patch, total: nat, goal: seq<byte>)
    requires whole == first + rest && n' == n + |first|
    requires n + |whole| == total && off + total <= |mid|
    requires Overlay(mid, off + n, whole) == goal
    requires cur == Overlay(mid, off + n, first)
    ensures n' + |rest| == total && off + total <= |cur|
    ensures Overlay(cur, off + n', rest) == goal
  {
    OverlayConcat(mid, off + n, first, rest);
  }

  /** Lift loses nothing: equal patches come from equal bytes. */
  lemma LiftInjective(a: seq<byte>, b: seq<byte>)
    requires Lift(a) == Lift(b)
    ensures a == b
  {
    assert |a| == |Lift(a)| == |b|;
    forall i | 0 <= i < |a|
      ensures a[i] == b[i]
    {
      assert Lift(a)[i] == Some(a[i]) && Lift(b)[i] == Some(b[i]);
    }
  }

  /** Bytes that lift to two patches end to end split where the patches do. */
  lemma LiftSplit(w: seq<byte>, a: Patch, b: Patch)
    requires Lift(w) == a + b
    ensures Lift(w[..|a|]) == a && Lift(w[|a|..]) == b
  {
    assert |w| == |a| + |b|;
    forall i | 0 <= i < |a|
      ensures Lift(w[..|a|])[i] == a[i]
    {
      assert Lift(w)[i] == (a + b)[i];
    }
    forall i | 0 <= i < |b|
      ensures Lift(w[|a|..])[i] == b[i]
    {
      assert Lift(w)[|a| + i] == (a + b)[|a| + i];
    }
  }

  /** Concatenated full patches are full. */
  lemma FullConcat(a: Patch, b: Patch)
    requires Full(a) && Full(b)
    ensures Full(a + b)
  {
    forall i | 0 <= i < |a + b|
      ensures (a + b)[i].Some?
    {
      if i >= |a| {
        assert (a + b)[i] == b[i - |a|];
      }
    }
  }

  /** The empty patch changes nothing. */
  lemma OverlayEmpty(buf: seq<byte>, off: nat)
    requires off <= |buf|
    ensures Overlay(buf, off, []) == buf
  {
  }

  /** A full patch splices its bytes into the buffer. */
  lemma OverlayLift(buf: seq<byte>, off: nat, s: seq<byte>)
    requires off + |s| <= |buf|
    ensures Overlay(buf, off, Lift(s)) == buf[..off] + s + buf[off + |s|..]
  {
  }

  /** Writing byte i of `s` into its place grows the spliced prefix by one byte. */
  lemma SpliceStep(buf: seq<byte>, off: nat, s: seq<byte>, i: nat)
    requires off + |s| <= |buf| && i < |s|
    ensures (buf[..off] + s[..i] + buf[off + i..])[off + i := s[i]] == buf[..off] + s[..i + 1] + buf[off + i + 1..]
  {
    var a := (buf[..off] + s[..i] + buf[off + i..])[off + i := s[i]];
    var b := buf[..off] + s[..i + 1] + buf[off + i + 1..];
    assert |a| == |b|;
    forall j | 0 <= j < |a| ensures a[j] == b[j] {
      if j < off {} else if j < off + i {} else if j == off + i {} else {}
    }
  }

  /** Once every byte of s is written, the spliced buffer is the overlay of s. */
  lemma SpliceDone(buf: seq<byte>, off: nat, s: seq<byte>)
    requires off + |s| <= |buf|
    ensures buf[..off] + s[..|s|] + buf[off + |s|..] == Overlay(buf, off, Lift(s))
  {
    assert s[..|s|] == s;
    OverlayLift(buf, off, s);
  }

  /** A patch that writes nothing leaves the buffer as it was. */
  lemma OverlayUntouched(buf: seq<byte>, off: nat, l: nat)
    requires off + l <= |buf|
    ensures Overlay(buf, off, Untouched(l)) == buf
  {
  }

  /** Reading back the window a full patch wrote yields exactly the patch's bytes. */
  lemma OverlayWindow(buf: seq<byte>, off: nat, p: Patch)
    requires off + |p| <= |buf| && Full(p)
    ensures Overlay(buf, off, p)[off..off + |p|] == Values(p)
  {
  }

  // ---------------------------------------------------------------------------
  // Arithmetic facts the byte-order proofs rest on.

  lemma MulAtLeast(k: int, d: int)
    requires d > 0 && k >= 1
    ensures k * d >= d
  {
  }

  /** Euclidean division is determined by quotient and remainder. */
  lemma DivModUnique(x: int, d: int, q: int, r: int)
    requires d > 0 && 0 <= r < d && x == q * d + r
    ensures x / d == q && x % d == r
  {
    var q', r' := x / d, x % d;
    assert (q - q') * d == r' - r;
    if q > q' {
      MulAtLeast(q - q', d);
    } else if q < q' {
      MulAtLeast(q' - q, d);
    }
  }

  /** x mod 256a is x mod a plus a times the next base-256 digit. */
  lemma ModNextDigit(x: int, a: int)
    requires a > 0
    ensures x % (a * 256) == x % a + a * ((x / a) % 256)
  {
    var q, r := x / a, x % a;
    var q2, r2 := q / 256, q % 256;
    var d := a * 256;
    assert x == a * q + r;
    NextDigitSplit(a, q, q2, r2);
    DigitBelow(a, r, r2);
    DivModUnique(x, d, q2, a * r2 + r);
  }

  /** With q = 256q2 + r2, a·q = (256a)·q2 + a·r2. */
  lemma NextDigitSplit(a: int, q: int, q2: int, r2: int)
    requires q == 256 * q2 + r2
    ensures a * q == (a * 256) * q2 + a * r2
  {
    assert a * q == a * (256 * q2) + a * r2;
    assert a * (256 * q2) == (a * 256) * q2;
  }

  /** A remainder below a plus a times a digit stays below 256a. */
  lemma DigitBelow(a: int, r: int, r2: int)
    requires a > 0 && 0 <= r < a && 0 <= r2 < 256
    ensures 0 <= a * r2 + r < a * 256
  {
    assert a * r2 <= a * 255;
  }

  lemma Pow256Add(j: nat, k: nat)
    ensures Pow256(j + k) == Pow256(j) * Pow256(k)
  {
    if k > 0 {
      Pow256Add(j, k - 1);
      assert Pow256(j + k) == 256 * Pow256(j + k - 1);
    }
  }

  lemma Pow256Mono(j: nat, k: nat)
    requires j <= k
    ensures Pow256(j) <= Pow256(k)
  {
    if j < k {
      Pow256Mono(j, k - 1);
    }
  }

  lemma Pow256Eight()
    ensures Pow256(8) == Two64
  {
  }

  /** Reducing modulo a multiple and then modulo the factor is reducing modulo the factor. */
  lemma ModOfModMultiple(x: int, a: int, b: int)
    requires a > 0 && b > 0
    ensures (x % (a * b)) % a == x % a
  {
    var q, r := x / (a * b), x % (a * b);
    assert x == a * (b * q) + r;
    var q2, r2 := r / a, r % a;
    assert x == a * (b * q + q2) + r2;
    DivModUnique(x, a, b * q + q2, r2);
  }

  /** Adding a multiple of the modulus does not change the remainder. */
  lemma ModAddMultiple(x: int, k: int, d: int)
    requires d > 0
    ensures (x + k * d) % d == x % d
  {
    var q, r := x / d, x % d;
    assert x + k * d == (q + k) * d + r;
    DivModUnique(x + k * d, d, q + k, r);
  }
}
