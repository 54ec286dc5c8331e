/**
 * readTag (stob.go): a field's `stob:"len,endian"` tag. The tag is split at commas
 * (Go's strings.Split), the first piece is parsed with Go's strconv.Atoi, whose
 * error is ignored, and the second piece, when there is one, is the byte order.
 */
module Tag {
  import opened Wire
  import opened ByteOrder

  // ---------------------------------------------------------------------------
  // strings.Split(s, ",")

  /** The position of the first comma of s, or |s| when there is none. */
  function CommaIndex(s: string): (i: nat)
    ensures i <= |s|
  {
    if s == [] || s[0] == ',' then 0 else 1 + CommaIndex(s[1..])
  }

  lemma {:induction false} CommaIndexSpec(s: string)
    ensures CommaIndex(s) < |s| ==> s[CommaIndex(s)] == ','
    ensures ',' !in s[..CommaIndex(s)]
    ensures CommaIndex(s) == |s| <==> ',' !in s
  {
    if s != [] && s[0] != ',' {
      CommaIndexSpec(s[1..]);
      assert s[..CommaIndex(s)] == [s[0]] + s[1..][..CommaIndex(s[1..])];
      if ',' in s {
        var j :| 0 <= j < |s| && s[j] == ',';
        assert s[1..][j - 1] == ',';
      }
    }
  }

  /** Go's strings.Split with a one-character separator: never empty. */
  function Split(s: string): (r: seq<string>)
    ensures |r| >= 1
    decreases |s|
  {
    var i := CommaIndex(s);
    if i == |s| then [s] else [s[..i]] + Split(s[i + 1..])
  }

  /** strings.Join(r, ","), the inverse of Split. */
  function Join(r: seq<string>): string
    requires |r| >= 1
  {
    if |r| == 1 then r[0] else r[0] + "," + Join(r[1..])
  }

  lemma {:induction false} JoinSplit(s: string)
    ensures Join(Split(s)) == s
    decreases |s|
  {
    var i := CommaIndex(s);
    if i < |s| {
      CommaIndexSpec(s);
      JoinSplit(s[i + 1..]);
      assert [s[..i]] + Split(s[i + 1..]) == Split(s);
      assert (Split(s))[1..] == Split(s[i + 1..]);
      assert s == s[..i] + "," + s[i + 1..];
    }
  }

  lemma {:induction false} SplitJoin(r: seq<string>)
    requires |r| >= 1 && forall k :: 0 <= k < |r| ==> ',' !in r[k]
    ensures Split(Join(r)) == r
  {
    if |r| > 1 {
      var s := Join(r);
      var rest := Join(r[1..]);
      assert s == r[0] + "," + rest;
      CommaAfter(r[0], rest);
      assert s[..|r[0]|] == r[0];
      assert s[|r[0]| + 1..] == rest;
      SplitJoin(r[1..]);
      assert r == [r[0]] + r[1..];
    } else {
      CommaIndexSpec(r[0]);
    }
  }

  /** In a + "," + b with no comma in a, the first comma is the one after a. */
  lemma {:induction false} CommaAfter(a: string, b: string)
    requires ',' !in a
    ensures CommaIndex(a + "," + b) == |a|
  {
    if a != [] {
      assert (a + "," + b)[1..] == a[1..] + "," + b;
      CommaAfter(a[1..], b);
    }
  }

  // ---------------------------------------------------------------------------
  // strconv.Atoi

  function DigitValue(c: char): nat
  {
    if '0' <= c <= '9' then (c as int) - ('0' as int) else 0
  }

  predicate AllDigits(s: string)
  {
    s == [] || (AllDigits(s[..|s| - 1]) && '0' <= s[|s| - 1] <= '9')
  }

  /** The number a string of decimal digits denotes. */
  function DigitsValue(ds: string): nat
  {
    if ds == [] then 0 else DigitsValue(ds[..|ds| - 1]) * 10 + DigitValue(ds[|ds| - 1])
  }

  /** How ParseUint's digit loop ends: with a value, a syntax error, or a range error. */
  datatype Scanned = Value(v: nat) | Syntax | Range

  /**
   * ParseUint's loop in base 10, from the value acc read so far: a character that is
   * not a decimal digit is a syntax error; a digit that takes the value past
   * 2^64 - 1 is a range error at once, whatever follows it.
   */
  function ScanDigits(s: string, acc: nat): Scanned
  {
    if s == [] then Value(acc)
    else if !('0' <= s[0] <= '9') then Syntax
    else
      var a := acc * 10 + DigitValue(s[0]);
      if a >= Two64 then Range else ScanDigits(s[1..], a)
  }

  /**
   * Go's strconv.Atoi on a 64-bit platform, with its error dropped as readTag drops
   * it: an optional sign, then ParseUint's scan. A syntax error reads 0; a range
   * error, or a value outside the int range, reads as the nearest bound. (Strings
   * shorter than 19 characters take a fast path that cannot overflow and agrees.)
   */
  function Atoi(s: string): (n: int64)
  {
    if s == [] then 0
    else
      var negative := s[0] == '-';
      var digits := if s[0] == '-' || s[0] == '+' then s[1..] else s;
      if digits == [] then 0
      else
        match ScanDigits(digits, 0)
        case Syntax => 0
        case Range => if negative then -Two63 else Two63 - 1
        case Value(v) =>
          if negative then (if v > Two63 then -Two63 else -(v as int))
          else (if v >= Two63 then Two63 - 1 else v)
  }

  /** 10^k. */
  function Pow10(k: nat): (r: nat)
    ensures r >= 1
  {
    if k == 0 then 1 else 10 * Pow10(k - 1)
  }

  lemma {:induction false} Pow10Mono(j: nat, k: nat)
    requires j <= k
    ensures Pow10(j) <= Pow10(k)
  {
    if j < k {
      Pow10Mono(j, k - 1);
    }
  }

  lemma Pow10At19()
    ensures Pow10(19) == 10_000_000_000_000_000_000
  {
    assert Pow10(4) == 10_000;
    assert Pow10(8) == 100_000_000;
    assert Pow10(12) == 1_000_000_000_000;
    assert Pow10(16) == 10_000_000_000_000_000;
  }

  /** The scan of a + b is the scan of a, continued over b when a ends without error. */
  lemma {:induction false} ScanAppend(a: string, b: string, acc: nat)
    ensures ScanDigits(a + b, acc) ==
      match ScanDigits(a, acc)
      case Value(v) => ScanDigits(b, v)
      case other => other
  {
    if a == [] {
      assert a + b == b;
    } else {
      assert (a + b)[0] == a[0] && (a + b)[1..] == a[1..] + b;
      if '0' <= a[0] <= '9' && acc * 10 + DigitValue(a[0]) < Two64 {
        ScanAppend(a[1..], b, acc * 10 + DigitValue(a[0]));
      }
    }
  }

  /** Decimal digits that denote a 64-bit value scan to that value. */
  lemma {:induction false} ScanValue(ds: string)
    requires AllDigits(ds) && DigitsValue(ds) < Two64
    ensures ScanDigits(ds, 0) == Value(DigitsValue(ds))
  {
    if ds != [] {
      var init, c := ds[..|ds| - 1], ds[|ds| - 1];
      assert ds == init + [c];
      ScanValue(init);
      ScanAppend(init, [c], 0);
      assert [c][1..] == [];
    }
  }

  /** Decimal digits that denote 2^64 or more end the scan with a range error, whatever follows them. */
  lemma {:induction false} ScanOverflow(ds: string, rest: string)
    requires AllDigits(ds) && DigitsValue(ds) >= Two64
    ensures ScanDigits(ds + rest, 0) == Range
  {
    if ds != [] {
      var init, c := ds[..|ds| - 1], ds[|ds| - 1];
      assert ds + rest == init + ([c] + rest) by {
        assert ds == init + [c];
      }
      if DigitsValue(init) >= Two64 {
        ScanOverflow(init, [c] + rest);
      } else {
        ScanValue(init);
        ScanAppend(init, [c] + rest, 0);
        assert ([c] + rest)[0] == c;
      }
    }
  }

  /**
   * After i digits the value is below 10^i; a non-digit k characters further on, with
   * i + k <= 19, is met before the value can reach 2^64, so the scan ends with a
   * syntax error.
   */
  lemma {:induction false} ScanSyntax(s: string, acc: nat, i: nat, k: nat)
    requires k < |s| && !('0' <= s[k] <= '9')
    requires acc < Pow10(i) && i + k <= 19
    ensures ScanDigits(s, acc) == Syntax
  {
    if '0' <= s[0] <= '9' {
      var a := acc * 10 + DigitValue(s[0]);
      assert a < Pow10(i + 1);
      Pow10Mono(i + 1, 19);
      Pow10At19();
      assert s[1..][k - 1] == s[k];
      ScanSyntax(s[1..], a, i + 1, k - 1);
    }
  }

  function Digit(d: nat): char
    requires d < 10
  {
    ('0' as int + d) as char
  }

  /** The decimal digits of n, without leading zeros. */
  function Digits(n: nat): (s: string)
    ensures |s| >= 1 && AllDigits(s)
  {
    if n < 10 then [Digit(n)] else Digits(n / 10) + [Digit(n % 10)]
  }

  /** strconv.Itoa: how a length is written in a tag. */
  function Decimal(n: int64): (s: string)
    ensures |s| >= 1
  {
    if n < 0 then "-" + Digits(-(n as int)) else Digits(n)
  }

  lemma {:induction false} AllDigitsChars(s: string)
    requires AllDigits(s)
    ensures forall k :: 0 <= k < |s| ==> '0' <= s[k] <= '9'
  {
    if s != [] {
      AllDigitsChars(s[..|s| - 1]);
      assert forall k :: 0 <= k < |s| - 1 ==> s[k] == s[..|s| - 1][k];
    }
  }

  /** A written length never holds a comma, so it stays one piece of the tag. */
  lemma DecimalNoComma(n: int64)
    ensures ',' !in Decimal(n)
  {
    var m: nat := if n < 0 then -(n as int) else n;
    var ds := Digits(m);
    AllDigitsChars(ds);
  }

  lemma {:induction false} DigitsValueOf(n: nat)
    ensures DigitsValue(Digits(n)) == n
  {
    if n >= 10 {
      var ds := Digits(n);
      assert ds[..|ds| - 1] == Digits(n / 10);
      DigitsValueOf(n / 10);
    }
  }

  /** Atoi reads back what Decimal writes. */
  lemma AtoiDecimal(n: int64)
    ensures Atoi(Decimal(n)) == n
  {
    var m: nat := if n < 0 then -(n as int) else n;
    var ds := Digits(m);
    DigitsValueOf(m);
    AllDigitsChars(ds);
    ScanValue(ds);
    if n < 0 {
      assert Decimal(n)[1..] == ds;
    }
  }

  // ---------------------------------------------------------------------------
  // readTag

  /** readTag (stob.go): the tag length and byte order of a field. */
  function ReadTag(tag: string): (r: (int64, Endian))
  {
    var ss := Split(tag);
    var length := Atoi(ss[0]);
    var endian := if |ss| > 1 then ss[1] else DefaultEndian;
    (length, endian)
  }

  /** A field without a stob tag (Tag.Get gives "") has length 0 and the default byte order. */
  lemma ReadTagEmpty()
    ensures ReadTag("") == (0, DefaultEndian)
  {
  }

  /** "n" alone gives length n in the default byte order, "le". */
  lemma ReadTagLength(n: int64)
    ensures ReadTag(Decimal(n)) == (n, DefaultEndian)
  {
    DecimalNoComma(n);
    CommaIndexSpec(Decimal(n));
    AtoiDecimal(n);
  }

  /** "n,e" gives length n and byte order e, whatever e is; a third piece is ignored. */
  lemma ReadTagLengthEndian(n: int64, e: string, more: seq<string>)
    requires ',' !in e && forall k :: 0 <= k < |more| ==> ',' !in more[k]
    ensures ReadTag(Join([Decimal(n), e] + more)) == (n, e)
  {
    var r := [Decimal(n), e] + more;
    DecimalNoComma(n);
    NoCommaPieces(Decimal(n), e, more);
    ReadTagOfPieces(Join(r), r);
    AtoiDecimal(n);
  }

  lemma NoCommaPieces(a: string, e: string, more: seq<string>)
    requires ',' !in a && ',' !in e && forall k :: 0 <= k < |more| ==> ',' !in more[k]
    ensures forall k :: 0 <= k < |[a, e] + more| ==> ',' !in ([a, e] + more)[k]
  {
    var r := [a, e] + more;
    forall k | 0 <= k < |r|
      ensures ',' !in r[k]
    {
      if k >= 2 { assert r[k] == more[k - 2]; }
    }
  }

  lemma ReadTagOfPieces(tag: string, r: seq<string>)
    requires |r| >= 2 && (forall k :: 0 <= k < |r| ==> ',' !in r[k]) && tag == Join(r)
    ensures ReadTag(tag) == (Atoi(r[0]), r[1])
  {
    SplitJoin(r);
  }

  /**
   * A first piece that does not start with a sign and has a non-digit among its first
   * twenty characters gives length 0: nineteen digits cannot reach 2^64, so the scan
   * meets the non-digit before any range error.
   */
  lemma ReadTagNotANumber(tag: string, k: nat)
    requires var first := Split(tag)[0];
      first == [] || (first[0] != '-' && first[0] != '+' && k <= 19 && k < |first| && !('0' <= first[k] <= '9'))
    ensures ReadTag(tag).0 == 0
  {
    var first := Split(tag)[0];
    if first != [] {
      ScanSyntax(first, 0, 0, k);
    }
  }

  /**
   * Digits past 2^64 - 1 give the largest length even when a non-digit follows
   * them: the scan stops at the first digit that overflows.
   */
  lemma ReadTagOverflow(ds: string, rest: string)
    requires AllDigits(ds) && DigitsValue(ds) >= Two64 && ',' !in ds && ',' !in rest
    ensures ReadTag(ds + rest) == (Two63 - 1, DefaultEndian)
  {
    var tag := ds + rest;
    assert ',' !in tag;
    CommaIndexSpec(tag);
    ScanOverflow(ds, rest);
    AllDigitsChars(ds);
    assert ds != [] && tag[0] == ds[0];
  }
}
