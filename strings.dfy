/**
 * The string codecs: `putString` (stob-read.go) lays a string out in variable mode
 * (content and a 0x00 terminator) or fixed mode (exactly l bytes, zero padded or cut),
 * and `Btos` (stob-write.go) reads the bytes before the first 0x00.
 */
module Strings {
  import opened Wire

  /** No byte of s is the 0x00 terminator. */
  predicate ZeroFree(s: seq<byte>)
  {
    forall i :: 0 <= i < |s| ==> s[i] != 0
  }

  function Zeros(n: nat): (r: seq<byte>)
    ensures |r| == n
    ensures forall i :: 0 <= i < n ==> r[i] == 0
  {
    seq(n, _ => 0)
  }

  /** The bytes putString lays down for the content s; l == 0 selects variable mode. */
  function StringBytes(s: seq<byte>, l: nat): seq<byte>
  {
    if l == 0 then s + [0]
    else if |s| < l then s + Zeros(l - |s|)
    else s[..l]
  }

  /**
   * putString (stob-read.go). Go panics when the window is too short for what is
   * written; that is the precondition here.
   */
  method PutString(p: array<byte>, off: nat, s: seq<byte>, l: nat) returns (n: nat)
    requires off + |StringBytes(s, l)| <= p.Length
    modifies p
    ensures n == |StringBytes(s, l)|
    ensures p[..] == Overlay(old(p[..]), off, Lift(StringBytes(s, l)))
  {
    ghost var sb := StringBytes(s, l);
    var t, m := s, l;
    if m == 0 {
      t := t + [0];
      m := |t|;
    } else if |t| < m {
      t := t + Zeros(m - |t|);
    }
    assert t[..m] == sb;
    CopyBytes(p, off, t, m);
    n := m;
  }

  /** putString's copy loop: the first m bytes of t into p from off on. */
  method CopyBytes(p: array<byte>, off: nat, t: seq<byte>, m: nat)
    requires m <= |t| && off + m <= p.Length
    modifies p
    ensures p[..] == Overlay(old(p[..]), off, Lift(t[..m]))
  {
    ghost var sb := t[..m];
    ghost var before := p[..];
    for i := 0 to m
      invariant p[..] == before[..off] + sb[..i] + before[off + i..]
    {
      SpliceStep(before, off, sb, i);
      p[off + i] := t[i];
    }
    SpliceDone(before, off, sb);
  }

  /** The bytes before the first 0x00 of p, or all of p when there is none. */
  function UntilZero(p: seq<byte>): (s: seq<byte>)
    ensures |s| <= |p| && s == p[..|s|] && ZeroFree(s)
    ensures |s| < |p| ==> p[|s|] == 0
  {
    if p == [] || p[0] == 0 then []
    else
      var rest := UntilZero(p[1..]);
      assert [p[0]] + rest == p[..|rest| + 1];
      [p[0]] + rest
  }

  /** The prefix conditions pin the prefix down: any zero-free prefix that stops at a 0x00 or at the end is UntilZero. */
  lemma {:induction false} UntilZeroUnique(p: seq<byte>, s: seq<byte>)
    requires |s| <= |p| && s == p[..|s|] && ZeroFree(s)
    requires |s| < |p| ==> p[|s|] == 0
    ensures s == UntilZero(p)
  {
    if s != [] {
      assert s[0] == p[0] != 0;
      UntilZeroUnique(p[1..], s[1..]);
    }
  }

  /**
   * Btos (stob-write.go): the bytes before the first 0x00 and a count of that length
   * plus one for the terminator, also when p holds no 0x00 at all.
   */
  method Btos(p: seq<byte>) returns (s: seq<byte>, n: nat)
    ensures |s| <= |p| && s == p[..|s|] && ZeroFree(s)
    ensures |s| < |p| ==> p[|s|] == 0
    ensures n == |s| + 1
    ensures s == UntilZero(p)
  {
    s := [];
    var i := 0;
    while i < |p| && p[i] != 0
      invariant i <= |p| && s == p[..i] && ZeroFree(s)
    {
      assert p[..i + 1] == p[..i] + [p[i]];
      s := s + [p[i]];
      i := i + 1;
    }
    UntilZeroUnique(p, s);
    n := |s| + 1;
  }

  // ---------------------------------------------------------------------------
  // Properties

  /** Variable mode: the content, then one 0x00; |s| + 1 bytes. */
  lemma PutStringVariable(s: seq<byte>)
    ensures StringBytes(s, 0) == s + [0] && |StringBytes(s, 0)| == |s| + 1
  {
  }

  /** Fixed mode: exactly l bytes, the content's first l bytes and zeros after it. */
  lemma PutStringFixed(s: seq<byte>, l: nat)
    requires l > 0
    ensures |StringBytes(s, l)| == l
    ensures forall i :: 0 <= i < l ==> StringBytes(s, l)[i] == if i < |s| then s[i] else 0
  {
  }

  /** Btos reads a variable-mode string back, whatever follows it, consuming |s| + 1 bytes. */
  lemma BtosVariable(s: seq<byte>, rest: seq<byte>)
    requires ZeroFree(s)
    ensures UntilZero(StringBytes(s, 0) + rest) == s
  {
    var p := StringBytes(s, 0) + rest;
    assert p[..|s|] == s && p[|s|] == 0;
    UntilZeroUnique(p, s);
  }

  /**
   * Btos over a fixed-mode window gives back the content, cut at l; its count is
   * min(|s|, l) + 1, which is l only when the content is l - 1 bytes long.
   */
  lemma BtosFixed(s: seq<byte>, l: nat)
    requires ZeroFree(s) && l > 0
    ensures UntilZero(StringBytes(s, l)) == s[..Min(|s|, l)]
    ensures |UntilZero(StringBytes(s, l))| + 1 == l <==> |s| == l - 1
  {
    var p := StringBytes(s, l);
    var m := Min(|s|, l);
    assert p[..m] == s[..m];
    UntilZeroUnique(p, s[..m]);
  }
}
