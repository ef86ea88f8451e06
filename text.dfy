/**
 * The handful of Python `str` operations the holiday tool relies on:
 * `lower`, `strip`, `replace` of a single character, the `in` substring
 * test and `str()` of an integer.
 */
module Text {

  predicate IsAsciiUpper(c: char) {
    'A' <= c <= 'Z'
  }

  /** `str.lower` on one character (ASCII letters only; see README). */
  function LowerChar(c: char): (r: char)
    ensures !IsAsciiUpper(r)
    ensures !IsAsciiUpper(c) ==> r == c
  {
    if IsAsciiUpper(c) then (c as int + 32) as char else c
  }

  function Lower(s: string): (r: string)
    ensures |r| == |s|
    ensures forall i :: 0 <= i < |r| ==> r[i] == LowerChar(s[i])
  {
    seq(|s|, i requires 0 <= i < |s| => LowerChar(s[i]))
  }

  lemma LowerAppend(a: string, b: string)
    ensures Lower(a + b) == Lower(a) + Lower(b)
  {
  }

  lemma LowerHasNoUpper(s: string)
    ensures forall c :: c in Lower(s) ==> !IsAsciiUpper(c)
  {
  }

  /** The characters Python's `str.isspace` accepts, which `str.strip()` removes. */
  predicate IsSpace(c: char) {
    c == ' ' || ('\t' <= c <= '\r') || ('\U{1c}' <= c <= '\U{1f}')
    || c == '\U{85}' || c == '\U{a0}' || c == '\U{1680}'
    || ('\U{2000}' <= c <= '\U{200a}') || c == '\U{2028}' || c == '\U{2029}'
    || c == '\U{202f}' || c == '\U{205f}' || c == '\U{3000}'
  }

  predicate AllSpace(s: string) {
    forall i :: 0 <= i < |s| ==> IsSpace(s[i])
  }

  /** `lstrip()`: drop leading whitespace. */
  function StripStart(s: string): string {
    if s != [] && IsSpace(s[0]) then StripStart(s[1..]) else s
  }

  /** `rstrip()`: drop trailing whitespace. */
  function StripEnd(s: string): string {
    if s != [] && IsSpace(s[|s| - 1]) then StripEnd(s[..|s| - 1]) else s
  }

  /** `str.strip()` with no argument. */
  function Strip(s: string): string {
    StripEnd(StripStart(s))
  }

  /** `lstrip` keeps a suffix, everything it drops is whitespace, and what it keeps does not start with any. */
  lemma {:induction false} StripStartSpec(s: string)
    ensures |StripStart(s)| <= |s| && StripStart(s) == s[|s| - |StripStart(s)|..]
    ensures AllSpace(s[..|s| - |StripStart(s)|])
    ensures StripStart(s) == [] || !IsSpace(StripStart(s)[0])
  {
    if s != [] && IsSpace(s[0]) {
      var r := StripStart(s[1..]);
      StripStartSpec(s[1..]);
      assert s[1..][..|s| - 1 - |r|] == s[1..|s| - |r|];
    }
  }

  /** `rstrip` keeps a prefix, everything it drops is whitespace, and what it keeps does not end with any. */
  lemma {:induction false} StripEndSpec(s: string)
    ensures |StripEnd(s)| <= |s| && StripEnd(s) == s[..|StripEnd(s)|]
    ensures AllSpace(s[|StripEnd(s)|..])
    ensures StripEnd(s) == [] || !IsSpace(StripEnd(s)[|StripEnd(s)| - 1])
  {
    if s != [] && IsSpace(s[|s| - 1]) {
      var r := StripEnd(s[..|s| - 1]);
      StripEndSpec(s[..|s| - 1]);
      assert s[..|s| - 1][|r|..] == s[|r|..|s| - 1];
    }
  }

  /**
   * What `strip` promises: the result is a slice of the input, everything
   * cut away on either side is whitespace, and the result neither starts
   * nor ends with whitespace.
   */
  lemma StripIsMaximalSlice(s: string)
    ensures exists a, b :: 0 <= a <= b <= |s| && Strip(s) == s[a..b]
                           && AllSpace(s[..a]) && AllSpace(s[b..])
    ensures Strip(s) == [] || (!IsSpace(Strip(s)[0]) && !IsSpace(Strip(s)[|Strip(s)| - 1]))
  {
    var t := StripStart(s);
    var r := StripEnd(t);
    StripStartSpec(s);
    StripEndSpec(t);
    var a := |s| - |t|;
    var b := a + |r|;
    assert r == s[a..b];
    assert s[b..] == t[|r|..];
    assert AllSpace(s[..a]) && AllSpace(s[b..]);
    assert 0 <= a <= b <= |s| && Strip(s) == s[a..b];
    if r != [] {
      assert r[0] == t[0];
    }
  }

  /** A string with no whitespace at either end is its own `strip`. */
  lemma StripTrimmed(s: string)
    requires s == [] || (!IsSpace(s[0]) && !IsSpace(s[|s| - 1]))
    ensures Strip(s) == s
  {
  }

  /** Python's `sub in s` for strings: `sub` occurs at some position of `s`. */
  predicate Contains(s: string, sub: string) {
    ContainsFrom(s, sub, 0)
  }

  /** `sub` occurs at position `i` or later, tried left to right. */
  predicate ContainsFrom(s: string, sub: string, i: nat)
    decreases |s| - i
  {
    i + |sub| <= |s| && (MatchesAt(s, sub, i, 0) || ContainsFrom(s, sub, i + 1))
  }

  /** `sub[j..]` occurs in `s` at position `i + j`, compared one character at a time. */
  predicate MatchesAt(s: string, sub: string, i: nat, j: nat)
    decreases |sub| - j
  {
    j >= |sub| || (i + j < |s| && s[i + j] == sub[j] && MatchesAt(s, sub, i, j + 1))
  }

  /** `sub` occurs in `s` starting at index `i`. */
  predicate OccursAt(s: string, sub: string, i: int) {
    0 <= i <= |s| - |sub| && s[i..i + |sub|] == sub
  }

  lemma {:induction false} MatchesAtIffSlice(s: string, sub: string, i: nat, j: nat)
    requires j <= |sub| && i + |sub| <= |s|
    ensures MatchesAt(s, sub, i, j) <==> s[i + j..i + |sub|] == sub[j..]
    decreases |sub| - j
  {
    if j < |sub| {
      MatchesAtIffSlice(s, sub, i, j + 1);
      assert s[i + j..i + |sub|] == [s[i + j]] + s[i + j + 1..i + |sub|];
      assert sub[j..] == [sub[j]] + sub[j + 1..];
    }
  }

  lemma {:induction false} ContainsFromIffOccurs(s: string, sub: string, i: nat)
    ensures ContainsFrom(s, sub, i) <==> exists k :: i <= k && OccursAt(s, sub, k)
    decreases |s| - i
  {
    if i + |sub| <= |s| {
      MatchesAtIffSlice(s, sub, i, 0);
      assert sub[0..] == sub;
      assert MatchesAt(s, sub, i, 0) <==> OccursAt(s, sub, i);
      ContainsFromIffOccurs(s, sub, i + 1);
      if ContainsFrom(s, sub, i) {
        if MatchesAt(s, sub, i, 0) {
          assert OccursAt(s, sub, i);
        } else {
          var k :| i + 1 <= k && OccursAt(s, sub, k);
          assert i <= k;
        }
      }
      if exists k :: i <= k && OccursAt(s, sub, k) {
        var k :| i <= k && OccursAt(s, sub, k);
        if k > i {
          assert i + 1 <= k && OccursAt(s, sub, k);
          assert ContainsFrom(s, sub, i + 1);
        } else {
          assert MatchesAt(s, sub, i, 0);
        }
      }
    } else {
      forall k | i <= k
        ensures !OccursAt(s, sub, k)
      {
      }
    }
  }

  /** `Contains` is exactly "occurs at some position". */
  lemma ContainsIffOccurs(s: string, sub: string)
    ensures Contains(s, sub) <==> exists k :: OccursAt(s, sub, k)
  {
    ContainsFromIffOccurs(s, sub, 0);
  }

  /** `s.replace(c, r)` where the pattern is the one character `c`. */
  function ReplaceChar(s: string, c: char, r: string): string {
    if s == [] then []
    else (if s[0] == c then r else [s[0]]) + ReplaceChar(s[1..], c, r)
  }

  /**
   * A character occurs in the result of a replacement exactly when it
   * survived from the input or was brought in by the replacement text.
   */
  lemma {:induction false} ReplaceCharMembership(s: string, c: char, r: string, d: char)
    ensures d in ReplaceChar(s, c, r) <==> (d != c && d in s) || (c in s && d in r)
  {
    if s != [] {
      ReplaceCharMembership(s[1..], c, r, d);
      assert s == [s[0]] + s[1..];
    }
  }

  lemma {:induction false} ReplaceCharAppend(a: string, b: string, c: char, r: string)
    ensures ReplaceChar(a + b, c, r) == ReplaceChar(a, c, r) + ReplaceChar(b, c, r)
  {
    if a == [] {
      assert a + b == b;
    } else {
      assert (a + b)[0] == a[0];
      assert (a + b)[1..] == a[1..] + b;
      ReplaceCharAppend(a[1..], b, c, r);
    }
  }

  lemma {:induction false} ReplaceCharAbsent(s: string, c: char, r: string)
    requires c !in s
    ensures ReplaceChar(s, c, r) == s
  {
    if s != [] {
      ReplaceCharAbsent(s[1..], c, r);
    }
  }

  lemma {:induction false} ReplaceCharKeepsLowerCase(s: string, c: char, r: string)
    requires forall x :: x in s ==> !IsAsciiUpper(x)
    requires forall x :: x in r ==> !IsAsciiUpper(x)
    ensures forall x :: x in ReplaceChar(s, c, r) ==> !IsAsciiUpper(x)
  {
    forall x | x in ReplaceChar(s, c, r)
      ensures !IsAsciiUpper(x)
    {
      ReplaceCharMembership(s, c, r, x);
    }
  }

  function DigitChar(d: nat): (c: char)
    requires d < 10
    ensures '0' <= c <= '9'
  {
    ('0' as int + d) as char
  }

  function NatToString(n: nat): (s: string)
    ensures |s| >= 1
    ensures forall i :: 0 <= i < |s| ==> '0' <= s[i] <= '9'
  {
    if n < 10 then [DigitChar(n)] else NatToString(n / 10) + [DigitChar(n % 10)]
  }

  /** Python's `str(n)` (and an f-string field) for an integer. */
  function IntToString(n: int): (s: string)
    ensures |s| >= 1
    ensures n >= 0 <==> s[0] != '-'
    ensures forall i :: 0 < i < |s| ==> '0' <= s[i] <= '9'
  {
    if n < 0 then "-" + NatToString(-n) else NatToString(n)
  }

  /** The value of a string of decimal digits, most significant first. */
  function DecimalValue(s: string): nat {
    if s == [] then 0
    else if '0' <= s[|s| - 1] <= '9' then 10 * DecimalValue(s[..|s| - 1]) + (s[|s| - 1] as int - '0' as int)
    else 10 * DecimalValue(s[..|s| - 1])
  }

  /** Reading back what `str` wrote gives the number. */
  lemma {:induction false} NatToStringRoundTrip(n: nat)
    ensures DecimalValue(NatToString(n)) == n
    decreases n
  {
    var s := NatToString(n);
    if n >= 10 {
      NatToStringRoundTrip(n / 10);
      assert s[..|s| - 1] == NatToString(n / 10);
    }
  }

  /** Different naturals print differently. */
  lemma NatToStringInjective(a: nat, b: nat)
    requires NatToString(a) == NatToString(b)
    ensures a == b
  {
    NatToStringRoundTrip(a);
    NatToStringRoundTrip(b);
  }

  /** Different integers print differently. */
  lemma IntToStringInjective(a: int, b: int)
    requires IntToString(a) == IntToString(b)
    ensures a == b
  {
    var s := IntToString(a);
    if a < 0 {
      assert b < 0;
      assert NatToString(-a) == s[1..] == NatToString(-b);
      NatToStringInjective(-a, -b);
    } else {
      assert b >= 0;
      NatToStringInjective(a, b);
    }
  }

  /** A four-digit year prints as exactly four digits. */
  lemma NatToStringFourDigits(n: nat)
    requires 1000 <= n <= 9999
    ensures |NatToString(n)| == 4
  {
    assert |NatToString(n / 1000)| == 1;
    assert |NatToString(n / 100)| == 2 by { assert (n / 100) / 10 == n / 1000; }
    assert |NatToString(n / 10)| == 3 by { assert (n / 10) / 10 == n / 100; }
  }
}
