/**
 * The pieces of Python's string handling that the decoder relies on:
 * `str.isspace()`, the substring test `t in s`, `str(n)` for integers and
 * the `02d` format specification, plus a decimal parser that inverts them.
 */
module Text {

  /** The characters Python's `str.split()` and `int()` treat as whitespace. */
  predicate IsSpace(c: char)
  {
    || c == ' ' || c == '\t' || c == '\n' || c == '\r'
    || c == '\U{000B}' || c == '\U{000C}'
    || ('\U{001C}' <= c <= '\U{001F}')
    || c == '\U{0085}' || c == '\U{00A0}' || c == '\U{1680}'
    || ('\U{2000}' <= c <= '\U{200A}')
    || c == '\U{2028}' || c == '\U{2029}' || c == '\U{202F}' || c == '\U{205F}' || c == '\U{3000}'
  }

  predicate IsDigit(c: char) { '0' <= c <= '9' }

  predicate AllDigits(s: string) { forall i :: 0 <= i < |s| ==> IsDigit(s[i]) }

  // ---------------------------------------------------------------- substring

  /** `t` occurs in `s` starting at index `i`, compared character by character. */
  predicate MatchesAt(s: string, t: string, i: nat)
    decreases |t|
  {
    if |t| == 0 then i <= |s| else i < |s| && s[i] == t[0] && MatchesAt(s, t[1..], i + 1)
  }

  /** `t` occurs in `s` at some index at or after `i`. */
  predicate ContainsFrom(s: string, t: string, i: nat)
    decreases |s| - i
  {
    if i > |s| then false else if MatchesAt(s, t, i) then true else ContainsFrom(s, t, i + 1)
  }

  /** Python's `t in s` for two strings. */
  predicate Contains(s: string, t: string) { ContainsFrom(s, t, 0) }

  /** `t` sits in `s` at index `k`, as a slice. */
  predicate OccursAt(s: string, t: string, k: nat)
  {
    k + |t| <= |s| && s[k..k + |t|] == t
  }

  lemma {:induction false} MatchesAtSlice(s: string, t: string, i: nat)
    ensures MatchesAt(s, t, i) <==> OccursAt(s, t, i)
    decreases |t|
  {
    if |t| > 0 {
      MatchesAtSlice(s, t[1..], i + 1);
      assert MatchesAt(s, t, i) == (i < |s| && s[i] == t[0] && MatchesAt(s, t[1..], i + 1));
      if OccursAt(s, t, i) {
        var w := s[i..i + |t|];
        assert w == t;
        assert s[i] == w[0];
        assert s[i + 1..i + 1 + |t[1..]|] == w[1..];
        assert OccursAt(s, t[1..], i + 1);
      }
      if i < |s| && s[i] == t[0] && OccursAt(s, t[1..], i + 1) {
        assert s[i..i + |t|] == [s[i]] + s[i + 1..i + 1 + |t[1..]|];
        assert t == [t[0]] + t[1..];
      }
    }
  }

  lemma {:induction false} ContainsFromSlice(s: string, t: string, i: nat)
    ensures ContainsFrom(s, t, i) <==> exists k :: i <= k && OccursAt(s, t, k)
    decreases |s| - i
  {
    if i <= |s| {
      MatchesAtSlice(s, t, i);
      ContainsFromSlice(s, t, i + 1);
      if exists k :: i <= k && OccursAt(s, t, k) {
        var k :| i <= k && OccursAt(s, t, k);
        if k > i {
          assert i + 1 <= k;
        }
      }
    }
  }

  /** The character-level test is the usual substring relation. */
  lemma ContainsIsSubstring(s: string, t: string)
    ensures Contains(s, t) <==> exists k :: OccursAt(s, t, k)
  {
    ContainsFromSlice(s, t, 0);
  }

  /** A string containing `t` contains every character of `t`. */
  lemma MissingChar(s: string, t: string, c: char)
    requires c in t && c !in s
    ensures !Contains(s, t)
  {
    ContainsIsSubstring(s, t);
    var j :| 0 <= j < |t| && t[j] == c;
    forall k: nat | k + |t| <= |s|
      ensures !OccursAt(s, t, k)
    {
      assert s[k..k + |t|][j] == s[k + j];
    }
  }

  lemma FoundAt(s: string, t: string, k: nat)
    requires OccursAt(s, t, k)
    ensures Contains(s, t)
  {
    ContainsIsSubstring(s, t);
  }

  /** `t` is in any string built around it. */
  lemma FoundBetween(a: string, t: string, b: string)
    ensures Contains(a + t + b, t)
  {
    assert (a + t + b)[|a|..|a| + |t|] == t;
    FoundAt(a + t + b, t, |a|);
  }

  /** A common prefix can be cancelled. */
  lemma PrefixCancel(p: string, a: string, b: string)
    ensures p + a == p + b <==> a == b
  {
    if p + a == p + b {
      assert a == (p + a)[|p|..];
      assert b == (p + b)[|p|..];
    }
  }

  /** A common suffix can be cancelled. */
  lemma SuffixCancel(a: string, b: string, q: string)
    ensures a + q == b + q <==> a == b
  {
    if a + q == b + q {
      assert a == (a + q)[..|a|];
      assert b == (b + q)[..|b|];
    }
  }

  // ----------------------------------------------------------------- integers

  function DigitChar(d: nat): (c: char)
    requires d < 10
    ensures IsDigit(c) && c as int - '0' as int == d
  {
    "0123456789"[d]
  }

  function DigitValue(c: char): nat
    requires IsDigit(c)
  {
    c as int - '0' as int
  }

  /** Python's `str(n)` for a non-negative integer. */
  function NatToString(n: nat): string
    decreases n
  {
    if n < 10 then [DigitChar(n)] else NatToString(n / 10) + [DigitChar(n % 10)]
  }

  /** Python's `str(i)` for any integer. */
  function IntToString(i: int): string
  {
    if i < 0 then "-" + NatToString(-i) else NatToString(i)
  }

  /**
   * Python's `f"{i:02d}"`: at least two characters, zero-filled after the sign;
   * a negative number already has two characters, so it is only signed.
   */
  function Pad2(i: int): string
  {
    if i < 0 then "-" + NatToString(-i)
    else if i < 10 then "0" + NatToString(i)
    else NatToString(i)
  }

  /** The value of a string of decimal digits (leading zeros allowed). */
  function ParseNat(s: string): nat
    requires AllDigits(s)
  {
    if |s| == 0 then 0 else 10 * ParseNat(s[..|s| - 1]) + DigitValue(s[|s| - 1])
  }

  /** The value of an optionally signed decimal string. */
  function ParseInt(s: string): int
    requires |s| > 0
    requires s[0] == '-' ==> AllDigits(s[1..])
    requires s[0] != '-' ==> AllDigits(s)
  {
    if s[0] == '-' then -(ParseNat(s[1..]) as int) else ParseNat(s)
  }

  /** The decimal rendering of a natural number: nonempty digits, no leading zero, and parsing inverts it. */
  lemma {:induction false} NatToStringSound(n: nat)
    ensures |NatToString(n)| > 0 && AllDigits(NatToString(n))
    ensures |NatToString(n)| > 1 ==> NatToString(n)[0] != '0'
    ensures ParseNat(NatToString(n)) == n
    decreases n
  {
    if n >= 10 {
      NatToStringSound(n / 10);
      var s := NatToString(n);
      assert s[..|s| - 1] == NatToString(n / 10);
    }
  }

  /** Numbers below 10, 100 and 10000 have one, two and four digits. */
  lemma NatToStringLength(n: nat)
    ensures n < 10 ==> |NatToString(n)| == 1
    ensures 10 <= n < 100 ==> |NatToString(n)| == 2
    ensures 100 <= n < 1000 ==> |NatToString(n)| == 3
    ensures 1000 <= n < 10000 ==> |NatToString(n)| == 4
  {
    if n >= 10 {
      NatToStringLength(n / 10);
    }
  }

  /** `str(i)` round-trips through the signed parser. */
  lemma IntToStringRoundTrip(i: int)
    ensures |IntToString(i)| > 0
    ensures IntToString(i)[0] == '-' <==> i < 0
    ensures var s := IntToString(i);
      (s[0] == '-' ==> AllDigits(s[1..])) && (s[0] != '-' ==> AllDigits(s)) && ParseInt(s) == i
  {
    if i < 0 {
      NatToStringSound(-i);
      assert IntToString(i)[1..] == NatToString(-i);
    } else {
      NatToStringSound(i);
    }
  }

  /** `02d` zero-fills exactly the one-digit numbers and parses back to the number. */
  lemma Pad2Sound(i: int)
    ensures |Pad2(i)| >= 2
    ensures 0 <= i < 100 ==> |Pad2(i)| == 2 && AllDigits(Pad2(i)) && ParseNat(Pad2(i)) == i
    ensures 0 <= i < 10 ==> Pad2(i)[0] == '0'
    ensures i >= 10 ==> Pad2(i) == IntToString(i)
    ensures i < 0 ==> Pad2(i) == IntToString(i)
    ensures var s := Pad2(i);
      (s[0] == '-' ==> AllDigits(s[1..])) && (s[0] != '-' ==> AllDigits(s)) && ParseInt(s) == i
  {
    if i < 0 {
      Pad2Negative(i);
    } else if i < 10 {
      Pad2Small(i);
    } else {
      Pad2Large(i);
    }
  }

  lemma Pad2Negative(i: int)
    requires i < 0
    ensures |Pad2(i)| >= 2 && Pad2(i) == IntToString(i)
    ensures var s := Pad2(i); s[0] == '-' && AllDigits(s[1..]) && ParseInt(s) == i
  {
    assert Pad2(i) == IntToString(i);
    IntToStringRoundTrip(i);
    assert |NatToString(-i)| > 0;
  }

  lemma Pad2Small(i: int)
    requires 0 <= i < 10
    ensures var s := Pad2(i);
      |s| == 2 && s[0] == '0' && AllDigits(s) && ParseNat(s) == i && ParseInt(s) == i
  {
    var s := Pad2(i);
    assert s == ['0', DigitChar(i)];
    assert s[..1] == "0";
    assert ParseNat(s[..1]) == 10 * ParseNat([]) + 0;
  }

  lemma Pad2Large(i: int)
    requires i >= 10
    ensures var s := Pad2(i);
      |s| >= 2 && s == IntToString(i) && s[0] != '-' && AllDigits(s) && ParseNat(s) == i && ParseInt(s) == i
    ensures i < 100 ==> |Pad2(i)| == 2
  {
    NatToStringSound(i);
    NatToStringSound(i / 10);
    NatToStringLength(i);
  }
}
