/** The JavaScript string operations the handlers use: `trim`,
    `toLowerCase`, `includes`, `charAt(0)`, `parseInt` and the decimal
    rendering of an integer. */
module Strings {
  import opened Types

  /** The characters `String.prototype.trim` removes: white space and line terminators. */
  const Whitespace: set<char> :=
    {' ', '\t', '\n', '\r', '\U{B}', '\U{C}', '\U{A0}', '\U{FEFF}', '\U{1680}',
     '\U{2000}', '\U{2001}', '\U{2002}', '\U{2003}', '\U{2004}', '\U{2005}', '\U{2006}',
     '\U{2007}', '\U{2008}', '\U{2009}', '\U{200A}',
     '\U{2028}', '\U{2029}', '\U{202F}', '\U{205F}', '\U{3000}'}

  predicate IsWhitespace(c: char)
  {
    c in Whitespace
  }

  predicate AllWhitespace(s: string)
  {
    forall k :: 0 <= k < |s| ==> IsWhitespace(s[k])
  }

  /** The first index at or after `b` that does not hold white space. */
  function SkipSpace(s: string, b: nat): (r: nat)
    requires b <= |s|
    ensures b <= r <= |s|
    decreases |s| - b
  {
    if b < |s| && IsWhitespace(s[b]) then SkipSpace(s, b + 1) else b
  }

  /** The end, not below `lo`, left after dropping the white space that
      ends `s[..e]`. */
  function BackSpace(s: string, lo: nat, e: nat): (r: nat)
    requires lo <= e <= |s|
    ensures lo <= r <= e
  {
    if lo < e && IsWhitespace(s[e - 1]) then BackSpace(s, lo, e - 1) else e
  }

  /** Everything skipped is white space, and the scan stops at the first
      other character. */
  lemma {:induction false} SkipSpaceRun(s: string, b: nat)
    requires b <= |s|
    ensures forall k :: b <= k < SkipSpace(s, b) ==> IsWhitespace(s[k])
    ensures SkipSpace(s, b) < |s| ==> !IsWhitespace(s[SkipSpace(s, b)])
    decreases |s| - b
  {
    if b < |s| && IsWhitespace(s[b]) {
      SkipSpaceRun(s, b + 1);
    }
  }

  /** Everything dropped from the end is white space, and the scan stops
      at the last other character above `lo`. */
  lemma {:induction false} BackSpaceRun(s: string, lo: nat, e: nat)
    requires lo <= e <= |s|
    ensures forall k :: BackSpace(s, lo, e) <= k < e ==> IsWhitespace(s[k])
    ensures lo < BackSpace(s, lo, e) ==> !IsWhitespace(s[BackSpace(s, lo, e) - 1])
  {
    if lo < e && IsWhitespace(s[e - 1]) {
      BackSpaceRun(s, lo, e - 1);
    }
  }

  /** `s.trimStart()`: `s` without its leading white space. */
  function TrimStart(s: string): (r: string)
    ensures |r| <= |s|
  {
    s[SkipSpace(s, 0)..]
  }

  /** `s.trim()`: `s` without its leading and its trailing white space. */
  function Trim(s: string): string
  {
    var i := SkipSpace(s, 0);
    s[i..BackSpace(s, i, |s|)]
  }

  /** Where `s.trim()` starts inside `s`. */
  function TrimOffset(s: string): nat
  {
    SkipSpace(s, 0)
  }

  /** `s.trim()` is the slice of `s` between its leading and trailing white
      space, and it neither starts nor ends with white space. */
  lemma TrimIsCore(s: string)
    ensures var t, i := Trim(s), TrimOffset(s);
            && i + |t| <= |s|
            && t == s[i..i + |t|]
            && AllWhitespace(s[..i]) && AllWhitespace(s[i + |t|..])
            && (t == [] || (!IsWhitespace(t[0]) && !IsWhitespace(t[|t| - 1])))
  {
    var i := SkipSpace(s, 0);
    var e := BackSpace(s, i, |s|);
    SkipSpaceRun(s, 0);
    BackSpaceRun(s, i, |s|);
    assert Trim(s) == s[i..e];
    assert forall k :: 0 <= k < i ==> s[..i][k] == s[k];
    assert forall k :: 0 <= k < |s| - e ==> s[e..][k] == s[e + k];
  }

  /** The trimmed string is empty exactly when the string is all white space
      (`!name.trim()` is the "blank name" test). */
  lemma TrimEmptyIffBlank(s: string)
    ensures Trim(s) == [] <==> AllWhitespace(s)
  {
    TrimIsCore(s);
    var i := TrimOffset(s);
    if Trim(s) == [] {
      assert s == s[..i] + s[i..];
    } else {
      assert s[i] == Trim(s)[0];
    }
  }

  /** Trimming twice is trimming once. */
  lemma TrimIdempotent(s: string)
    ensures Trim(Trim(s)) == Trim(s)
  {
    var t := Trim(s);
    TrimIsCore(s);
    assert SkipSpace(t, 0) == 0;
    assert BackSpace(t, 0, |t|) == |t|;
  }

  /** `toLowerCase` on one character (ASCII letters only). */
  function LowerChar(c: char): (r: char)
    ensures 'A' <= c <= 'Z' ==> 'a' <= r <= 'z'
    ensures !('A' <= c <= 'Z') ==> r == c
  {
    if 'A' <= c <= 'Z' then (c as int - 'A' as int + 'a' as int) as char else c
  }

  /** `s.toLowerCase()`. */
  function ToLower(s: string): (r: string)
    ensures |r| == |s|
    ensures forall k :: 0 <= k < |s| ==> r[k] == LowerChar(s[k])
  {
    if s == [] then [] else [LowerChar(s[0])] + ToLower(s[1..])
  }

  /** `t` occurs in `s` starting at index `i`. */
  predicate OccursAt(s: string, t: string, i: int)
  {
    0 <= i && i + |t| <= |s| && s[i..i + |t|] == t
  }

  /** `s.includes(t)`: `t` occurs in `s` as a contiguous piece. */
  function Contains(s: string, t: string): (r: bool)
    ensures r <==> exists i :: OccursAt(s, t, i)
  {
    if |t| <= |s| && s[..|t|] == t then
      assert OccursAt(s, t, 0);
      true
    else if s == [] then
      false
    else
      var r := Contains(s[1..], t);
      assert r ==> exists i :: OccursAt(s, t, i) by {
        if r {
          var i :| OccursAt(s[1..], t, i);
          assert s[i + 1..i + 1 + |t|] == s[1..][i..i + |t|];
          assert OccursAt(s, t, i + 1);
        }
      }
      assert (exists i :: OccursAt(s, t, i)) ==> r by {
        if exists i :: OccursAt(s, t, i) {
          var i :| OccursAt(s, t, i);
          assert i != 0;
          assert s[1..][i - 1..i - 1 + |t|] == s[i..i + |t|];
          assert OccursAt(s[1..], t, i - 1);
        }
      }
      r
  }

  /** `s.charAt(0)`: the first character as a string, or `""` for the empty string. */
  function CharAt0(s: string): (r: string)
    ensures s == [] ==> r == []
    ensures s != [] ==> |r| == 1 && s == r + s[1..]
  {
    if s == [] then [] else [s[0]]
  }

  predicate IsDigit(c: char)
  {
    '0' <= c <= '9'
  }

  function DigitValue(c: char): nat
    requires IsDigit(c)
  {
    c as int - '0' as int
  }

  function DigitChar(d: nat): (c: char)
    requires d < 10
    ensures IsDigit(c) && DigitValue(c) == d
  {
    ('0' as int + d) as char
  }

  /** The decimal rendering of a natural number, without leading zeros. */
  function NatToDecimal(n: nat): (r: string)
    ensures r != []
    ensures forall k :: 0 <= k < |r| ==> IsDigit(r[k])
  {
    if n < 10 then [DigitChar(n)] else NatToDecimal(n / 10) + [DigitChar(n % 10)]
  }

  /** `String(i)` for an integer. */
  function IntToString(i: int): string
  {
    if i < 0 then "-" + NatToDecimal(-i) else NatToDecimal(i)
  }

  /** The value of a string of decimal digits. */
  function DigitsValue(s: string): nat
    requires forall k :: 0 <= k < |s| ==> IsDigit(s[k])
  {
    if s == [] then 0 else 10 * DigitsValue(s[..|s| - 1]) + DigitValue(s[|s| - 1])
  }

  /** The longest prefix of `s` made of decimal digits. */
  function DigitPrefix(s: string): (r: string)
    ensures |r| <= |s| && r == s[..|r|]
    ensures forall k :: 0 <= k < |r| ==> IsDigit(r[k])
    ensures |r| < |s| ==> !IsDigit(s[|r|])
  {
    if s != [] && IsDigit(s[0]) then [s[0]] + DigitPrefix(s[1..]) else []
  }

  /** `parseInt(s)` in base ten: leading white space is skipped, an optional
      sign is read, then the longest run of digits; no digit at all is `NaN`,
      here `None`. */
  function ParseInt(s: string): Option<int>
  {
    var t := TrimStart(s);
    var negative := t != [] && t[0] == '-';
    var body := if t != [] && (t[0] == '-' || t[0] == '+') then t[1..] else t;
    var digits := DigitPrefix(body);
    var v: int := if digits == [] then 0 else DigitsValue(digits);
    if digits == [] then None else Some(if negative then -v else v)
  }

  lemma {:induction false} DigitPrefixOfDigits(s: string)
    requires forall k :: 0 <= k < |s| ==> IsDigit(s[k])
    ensures DigitPrefix(s) == s
  {
    if s != [] {
      DigitPrefixOfDigits(s[1..]);
    }
  }

  lemma {:induction false} DigitsValueOfDecimal(n: nat)
    ensures DigitsValue(NatToDecimal(n)) == n
  {
    if n >= 10 {
      var r := NatToDecimal(n);
      assert r[..|r| - 1] == NatToDecimal(n / 10);
      DigitsValueOfDecimal(n / 10);
    }
  }

  /** Reading back a rendered integer gives the integer: `parseInt(String(i)) == i`. */
  lemma ParseIntOfIntToString(i: int)
    ensures ParseInt(IntToString(i)) == Some(i)
  {
    if i < 0 {
      ParseIntOfNegativeDecimal(-i);
    } else {
      ParseIntOfDecimal(i);
    }
  }

  lemma ParseIntOfDecimal(m: nat)
    ensures ParseInt(NatToDecimal(m)) == Some(m)
  {
    var d := NatToDecimal(m);
    assert IsDigit(d[0]);
    assert SkipSpace(d, 0) == 0;
    assert TrimStart(d) == d;
    DigitPrefixOfDigits(d);
    DigitsValueOfDecimal(m);
  }

  lemma ParseIntOfNegativeDecimal(m: nat)
    requires m > 0
    ensures ParseInt("-" + NatToDecimal(m)) == Some(-(m as int))
  {
    var d := NatToDecimal(m);
    var s := "-" + d;
    assert SkipSpace(s, 0) == 0;
    assert TrimStart(s) == s;
    assert s[1..] == d;
    DigitPrefixOfDigits(d);
    DigitsValueOfDecimal(m);
  }
}
