/**
 * String handling used by the scraper: cleaning a cell's text, ASCII
 * lower-casing, substring tests and integer parsing.
 */
module Text {
  import opened Wrappers

  /** The characters `clean_data` strips from both ends: space, newline, colon, hyphen. */
  predicate IsStripChar(c: char) {
    c == ' ' || c == '\n' || c == ':' || c == '-'
  }

  predicate AllStripChars(s: string) {
    forall k :: 0 <= k < |s| ==> IsStripChar(s[k])
  }

  /** Neither end of `s` is a strip character. */
  predicate IsStripped(s: string) {
    s == [] || (!IsStripChar(s[0]) && !IsStripChar(s[|s| - 1]))
  }

  /** `r` is what remains of `s` after removing a run of strip characters from each end. */
  ghost predicate TrimmedFrom(r: string, s: string) {
    exists i :: 0 <= i <= |s| - |r| && TrimmedAt(r, s, i)
  }

  ghost predicate TrimmedAt(r: string, s: string, i: int)
    requires 0 <= i <= |s| - |r|
  {
    s[i..i + |r|] == r && AllStripChars(s[..i]) && AllStripChars(s[i + |r|..])
  }

  function StripLeading(s: string): (r: string)
    ensures |r| <= |s| && r == s[|s| - |r|..]
    ensures AllStripChars(s[..|s| - |r|])
    ensures r == [] || !IsStripChar(r[0])
  {
    if s != [] && IsStripChar(s[0]) then StripLeading(s[1..]) else s
  }

  function StripTrailing(s: string): (r: string)
    ensures |r| <= |s| && r == s[..|r|]
    ensures AllStripChars(s[|r|..])
    ensures r == [] || !IsStripChar(r[|r| - 1])
  {
    if s != [] && IsStripChar(s[|s| - 1]) then StripTrailing(s[..|s| - 1]) else s
  }

  /** Python's `s.strip(" \n:-")`. */
  function Strip(s: string): (r: string)
    ensures IsStripped(r)
    ensures TrimmedFrom(r, s)
  {
    var t := StripLeading(s);
    var r := StripTrailing(t);
    StripEnds(s, t, r);
    r
  }

  /** A suffix `t` of `s` after strip characters, cut to a prefix `r` before strip characters, is trimmed from `s`. */
  lemma StripEnds(s: string, t: string, r: string)
    requires |t| <= |s| && t == s[|s| - |t|..] && AllStripChars(s[..|s| - |t|])
    requires t == [] || !IsStripChar(t[0])
    requires |r| <= |t| && r == t[..|r|] && AllStripChars(t[|r|..])
    requires r == [] || !IsStripChar(r[|r| - 1])
    ensures IsStripped(r)
    ensures TrimmedFrom(r, s)
  {
    var i := |s| - |t|;
    if r != [] {
      assert r[0] == t[0];
    }
    assert s[i..i + |r|] == r;
    assert s[i + |r|..] == t[|r|..];
    assert TrimmedAt(r, s, i);
  }

  /**
   * `clean_data`: the cell's text with strip characters removed from both
   * ends; a cell without a single text string (`None`) cleans to "".
   */
  function Clean(text: Option<string>): (r: string)
    ensures text.None? ==> r == ""
    ensures IsStripped(r)
    ensures text.Some? ==> TrimmedFrom(r, text.value)
  {
    match text
    case None => ""
    case Some(s) => Strip(s)
  }

  lemma {:induction false} StripLeadingPrefix(a: string, t: string)
    requires AllStripChars(a)
    ensures StripLeading(a + t) == StripLeading(t)
  {
    if a != [] {
      assert (a + t)[0] == a[0] && IsStripChar(a[0]);
      assert (a + t)[1..] == a[1..] + t;
      StripLeadingPrefix(a[1..], t);
    } else {
      assert a + t == t;
    }
  }

  lemma {:induction false} StripTrailingSuffix(t: string, b: string)
    requires AllStripChars(b)
    ensures StripTrailing(t + b) == StripTrailing(t)
  {
    if b != [] {
      assert (t + b)[|t + b| - 1] == b[|b| - 1] && IsStripChar(b[|b| - 1]);
      assert (t + b)[..|t + b| - 1] == t + b[..|b| - 1];
      StripTrailingSuffix(t, b[..|b| - 1]);
    } else {
      assert t + b == t;
    }
  }

  /**
   * Strip is determined by its two properties: any string that has no strip
   * character at either end and is obtained from `s` by removing strip
   * characters at both ends is `Strip(s)`.
   */
  lemma StripUnique(s: string, r: string)
    requires IsStripped(r) && TrimmedFrom(r, s)
    ensures Strip(s) == r
  {
    var i :| 0 <= i <= |s| - |r| && TrimmedAt(r, s, i);
    var a, b := s[..i], s[i + |r|..];
    assert s == a + (r + b);
    StripLeadingPrefix(a, r + b);
    if r == [] {
      assert r + b == [] + b;
      StripLeadingPrefix(b, []);
      assert b + [] == b;
    } else {
      StripTrailingSuffix(r, b);
    }
  }

  /** A text with no strip character at either end is left as it is by cleaning. */
  lemma CleanStable(s: string)
    requires IsStripped(s)
    ensures Clean(Some(s)) == s
  {
    assert TrimmedAt(s, s, 0) by {
      assert s[0..|s|] == s;
    }
    StripUnique(s, s);
  }

  /** Cleaning twice is cleaning once. */
  lemma CleanIdempotent(text: Option<string>)
    ensures Clean(Some(Clean(text))) == Clean(text)
  {
    var r := Clean(text);
    assert TrimmedAt(r, r, 0) by {
      assert r[0..|r|] == r;
    }
    StripUnique(r, r);
  }

  /** The example of the cleaning rule: surrounding blanks, colons and hyphens go. */
  lemma CleanExample()
    ensures Clean(Some("  :-Score-:  ")) == "Score"
  {
    var s := "  :-Score-:  ";
    assert TrimmedAt("Score", s, 4) by {
      assert s[4..9] == "Score";
      assert s[..4] == "  :-";
      assert s[9..] == "-:  ";
    }
    StripUnique(s, "Score");
  }

  /** Python's `str.lower()` on ASCII letters. */
  function LowerChar(c: char): char {
    if 'A' <= c <= 'Z' then (c as int + 32) as char else c
  }

  function Lower(s: string): (r: string)
    ensures |r| == |s| && forall k :: 0 <= k < |s| ==> r[k] == LowerChar(s[k])
  {
    if s == [] then [] else [LowerChar(s[0])] + Lower(s[1..])
  }

  /** `s.startswith(p)`. */
  predicate StartsWith(s: string, p: string) {
    |p| <= |s| && s[..|p|] == p
  }

  /** `p in s`: `p` occurs somewhere in `s`. */
  predicate Contains(s: string, p: string) {
    exists i | 0 <= i <= |s| :: StartsWith(s[i..], p)
  }

  predicate IsDigit(c: char) {
    '0' <= c <= '9'
  }

  /** A non-empty run of ASCII decimal digits. */
  predicate IsDigits(s: string) {
    |s| > 0 && forall k :: 0 <= k < |s| ==> IsDigit(s[k])
  }

  /** The number a string of decimal digits denotes, most significant digit first. */
  function DigitsValue(s: string): nat
    requires forall k :: 0 <= k < |s| ==> IsDigit(s[k])
  {
    if s == [] then 0
    else
      assert IsDigit(s[|s| - 1]);
      10 * DigitsValue(s[..|s| - 1]) + (s[|s| - 1] as int - '0' as int)
  }

  /**
   * Python's `int(s)` on a cleaned cell text: an optional `+` then decimal
   * digits; anything else is a parse failure (`None`).
   */
  function ParseInt(s: string): (r: Option<int>)
    ensures r.Some? <==> IsDigits(s) || (|s| > 0 && s[0] == '+' && IsDigits(s[1..]))
    ensures r.Some? ==> r.value >= 0
  {
    if IsDigits(s) then Some(DigitsValue(s))
    else if |s| > 0 && s[0] == '+' && IsDigits(s[1..]) then Some(DigitsValue(s[1..]))
    else None
  }

  function DigitChar(d: nat): char
    requires d < 10
  {
    ('0' as int + d) as char
  }

  /** `str(n)` for a non-negative integer. */
  function Decimal(n: nat): (r: string)
    ensures IsDigits(r)
  {
    if n < 10 then [DigitChar(n)] else Decimal(n / 10) + [DigitChar(n % 10)]
  }

  /** Parsing is the inverse of printing: `int(str(n)) == n`, with or without a `+`. */
  lemma {:induction false} ParseDecimal(n: nat)
    ensures ParseInt(Decimal(n)) == Some(n)
    ensures ParseInt("+" + Decimal(n)) == Some(n)
  {
    DecimalValue(n);
    var p := "+" + Decimal(n);
    assert p[0] == '+' && !IsDigit(p[0]);
    assert p[1..] == Decimal(n);
  }

  lemma {:induction false} DecimalValue(n: nat)
    ensures DigitsValue(Decimal(n)) == n
  {
    if n >= 10 {
      DecimalValue(n / 10);
      var s := Decimal(n);
      assert s[..|s| - 1] == Decimal(n / 10);
    }
  }

  /** A run of '0' characters, possibly empty. */
  predicate AllZeros(z: string) {
    forall k :: 0 <= k < |z| ==> z[k] == '0'
  }

  function Pow10(k: nat): nat {
    if k == 0 then 1 else 10 * Pow10(k - 1)
  }

  /** Leading zeros add nothing to a digit string's value. */
  lemma {:induction false} ZerosValue(z: string)
    requires AllZeros(z)
    ensures DigitsValue(z) == 0
  {
    if z != [] {
      ZerosValue(z[..|z| - 1]);
    }
  }

  /** The value of two digit strings written one after the other. */
  lemma {:induction false} DigitsValueConcat(a: string, b: string)
    requires forall k :: 0 <= k < |a| ==> IsDigit(a[k])
    requires forall k :: 0 <= k < |b| ==> IsDigit(b[k])
    ensures DigitsValue(a + b) == DigitsValue(a) * Pow10(|b|) + DigitsValue(b)
  {
    if b == [] {
      assert a + b == a;
    } else {
      var b' := b[..|b| - 1];
      var ab := a + b;
      assert ab[..|ab| - 1] == a + b';
      assert ab[|ab| - 1] == b[|b| - 1];
      DigitsValueConcat(a, b');
      var d := b[|b| - 1] as int - '0' as int;
      assert DigitsValue(ab) == 10 * DigitsValue(a + b') + d;
      assert DigitsValue(b) == 10 * DigitsValue(b') + d;
      ShiftDigit(DigitsValue(a), Pow10(|b'|), DigitsValue(b'), d);
    }
  }

  /** Appending a digit `d` to a number written as `x * p + y`. */
  lemma ShiftDigit(x: int, p: int, y: int, d: int)
    ensures 10 * (x * p + y) + d == x * (10 * p) + (10 * y + d)
  {
    assert 10 * (x * p) == x * (10 * p);
  }

  /** Writing a positive number followed by one more digit. */
  lemma DecimalAppend(v: nat, c: char)
    requires v >= 1 && IsDigit(c)
    ensures Decimal(10 * v + (c as int - '0' as int)) == Decimal(v) + [c]
  {
    var d := c as int - '0' as int;
    var w := 10 * v + d;
    assert w / 10 == v && w % 10 == d;
    assert DigitChar(d) == c;
  }

  /** Zeros followed by "0" are zeros. */
  lemma ZerosThenZero(z: string)
    requires AllZeros(z)
    ensures AllZeros(z + Decimal(0))
  {
    assert Decimal(0) == "0";
  }

  /** Every digit string is some leading zeros followed by the decimal writing of its value. */
  lemma {:induction false} DigitsCanonical(s: string)
    requires IsDigits(s)
    ensures exists z :: AllZeros(z) && s == z + Decimal(DigitsValue(s))
  {
    var n := |s| - 1;
    var p, c := s[..n], s[n];
    assert IsDigit(c) && s == p + [c];
    var d := c as int - '0' as int;
    var v := DigitsValue(s);
    assert v == 10 * DigitsValue(p) + d;
    if n == 0 {
      assert DigitChar(d) == c;
      assert s == "" + Decimal(v);
    } else {
      assert IsDigits(p);
      DigitsCanonical(p);
      var z' :| AllZeros(z') && p == z' + Decimal(DigitsValue(p));
      if DigitsValue(p) == 0 {
        ZerosThenZero(z');
        assert DigitChar(d) == c;
        assert s == p + Decimal(v);
      } else {
        DecimalAppend(DigitsValue(p), c);
        assert s == z' + Decimal(v);
      }
    }
  }

  /** An optional '+', leading zeros and a decimal writing of `n` parse to `n`. */
  lemma ParseIntPadded(p: string, z: string, n: nat)
    requires p == "" || p == "+"
    requires AllZeros(z)
    ensures ParseInt(p + z + Decimal(n)) == Some(n)
  {
    var t := z + Decimal(n);
    assert IsDigits(t) by {
      assert forall k :: 0 <= k < |t| ==> (k < |z| ==> t[k] == z[k]) && (k >= |z| ==> t[k] == Decimal(n)[k - |z|]);
    }
    ZerosValue(z);
    DigitsValueConcat(z, Decimal(n));
    DecimalValue(n);
    if p == "+" {
      var s := p + t;
      assert s[0] == '+' && !IsDigit(s[0]);
      assert s[1..] == t;
      assert p + z + Decimal(n) == s;
    } else {
      assert p + z + Decimal(n) == t;
    }
  }

  /**
   * What `int()` returns: `int(s) == n` exactly when `s` is an optional '+',
   * then any number of '0's, then the decimal writing of `n`.
   */
  lemma ParseIntValue(s: string, n: nat)
    ensures ParseInt(s) == Some(n) <==>
              exists p, z :: (p == "" || p == "+") && AllZeros(z) && s == p + z + Decimal(n)
  {
    if ParseInt(s) == Some(n) {
      ParseIntCanonical(s);
    }
    if exists p, z :: (p == "" || p == "+") && AllZeros(z) && s == p + z + Decimal(n) {
      var p, z :| (p == "" || p == "+") && AllZeros(z) && s == p + z + Decimal(n);
      ParseIntPadded(p, z, n);
    }
  }

  /** A string `int()` accepts is an optional '+', leading zeros and the decimal writing of its value. */
  lemma ParseIntCanonical(s: string)
    requires ParseInt(s).Some?
    ensures exists p, z :: (p == "" || p == "+") && AllZeros(z) && s == p + z + Decimal(ParseInt(s).value)
  {
    var n := ParseInt(s).value;
    if IsDigits(s) {
      DigitsCanonical(s);
      var z :| AllZeros(z) && s == z + Decimal(n);
      assert s == "" + z + Decimal(n);
    } else {
      var t := s[1..];
      assert n == DigitsValue(t);
      DigitsCanonical(t);
      var z :| AllZeros(z) && t == z + Decimal(n);
      assert s == [s[0]] + t;
      assert s == "+" + z + Decimal(n);
    }
  }

  /** Leading zeros do not change what `int()` reads: `int("007") == 7`. */
  lemma LeadingZeroExample()
    ensures ParseInt("007") == Some(7) && ParseInt("+00") == Some(0)
  {
    ParseIntPadded("", "00", 7);
    assert "" + "00" + Decimal(7) == "007";
    ParseIntPadded("+", "0", 0);
    assert "+" + "0" + Decimal(0) == "+00";
  }
}
