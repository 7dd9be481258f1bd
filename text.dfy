/**
 * String operations the enclosure matcher relies on: JavaScript's
 * `String.prototype.includes` (substring search) and the decimal rendering
 * of an integer inside a template literal, together with an inverse of
 * that rendering used to prove it loses no information.
 */
module Text {

  /** `sub` occurs in `s` starting at index `i`. */
  predicate OccursAt(s: string, sub: string, i: nat)
  {
    i + |sub| <= |s| && s[i..i + |sub|] == sub
  }

  /**
   * `s.includes(sub)` on strings: true when `sub` occurs somewhere in `s`;
   * the empty string occurs in every string.
   */
  function Contains(s: string, sub: string): (r: bool)
    decreases |s|
  {
    if sub <= s then true
    else if s == [] then false
    else Contains(s[1..], sub)
  }

  /** A successful search has found an occurrence. */
  lemma {:induction false} ContainsHasOccurrence(s: string, sub: string) returns (i: nat)
    requires Contains(s, sub)
    ensures OccursAt(s, sub, i)
    decreases |s|
  {
    if sub <= s {
      i := 0;
    } else {
      var j := ContainsHasOccurrence(s[1..], sub);
      assert s[1..][j..j + |sub|] == s[j + 1..j + 1 + |sub|];
      i := j + 1;
    }
  }

  /** Every occurrence is found by the search. */
  lemma {:induction false} OccurrenceIsContained(s: string, sub: string, i: nat)
    requires OccursAt(s, sub, i)
    ensures Contains(s, sub)
    decreases i
  {
    if i > 0 && !(sub <= s) {
      assert s[1..][i - 1..i - 1 + |sub|] == s[i..i + |sub|];
      OccurrenceIsContained(s[1..], sub, i - 1);
    }
  }

  /** The search agrees with the positional definition of an occurrence. */
  lemma ContainsIff(s: string, sub: string)
    ensures Contains(s, sub) <==> exists i: nat :: OccursAt(s, sub, i)
  {
    if Contains(s, sub) {
      var i := ContainsHasOccurrence(s, sub);
    }
    forall i: nat | OccursAt(s, sub, i) ensures Contains(s, sub) {
      OccurrenceIsContained(s, sub, i);
    }
  }

  /** A string that does not hold the character `c` does not contain a string starting with `c`. */
  lemma NoOccurrenceWithoutFirstChar(s: string, sub: string)
    requires |sub| > 0 && sub[0] !in s
    ensures !Contains(s, sub)
  {
    if Contains(s, sub) {
      var i := ContainsHasOccurrence(s, sub);
      assert false;
    }
  }

  predicate IsDigit(c: char)
  {
    '0' <= c <= '9'
  }

  predicate IsDigits(s: string)
  {
    forall i :: 0 <= i < |s| ==> IsDigit(s[i])
  }

  function DigitChar(d: nat): (c: char)
    requires d < 10
    ensures IsDigit(c)
  {
    ('0' as int + d) as char
  }

  function DigitValue(c: char): (d: nat)
    requires IsDigit(c)
    ensures d < 10
  {
    c as int - '0' as int
  }

  /** Decimal digits of a natural number, most significant first, without leading zeros. */
  function NatToString(n: nat): (s: string)
    decreases n
  {
    if n < 10 then [DigitChar(n)] else NatToString(n / 10) + [DigitChar(n % 10)]
  }

  /** How a JavaScript integer value is printed: an optional minus sign, then its digits. */
  function IntToString(i: int): (s: string)
  {
    if i < 0 then "-" + NatToString(-i) else NatToString(i)
  }

  /** Reads back a string of decimal digits (the inverse of `NatToString`). */
  function ParseNat(s: string): nat
    requires IsDigits(s)
  {
    if s == [] then 0 else 10 * ParseNat(s[..|s| - 1]) + DigitValue(s[|s| - 1])
  }

  predicate IsIntLiteral(s: string)
  {
    IsDigits(s) || (|s| > 0 && s[0] == '-' && IsDigits(s[1..]))
  }

  /** Reads back an optionally signed decimal integer (the inverse of `IntToString`). */
  function ParseInt(s: string): int
    requires IsIntLiteral(s)
  {
    if |s| > 0 && s[0] == '-' then -(ParseNat(s[1..]) as int) else ParseNat(s)
  }

  /**
   * Rendering a natural number gives a non-empty digit string that reads back
   * as the number, with no leading zero: only zero itself starts with '0'.
   */
  lemma {:induction false} NatToStringRoundTrip(n: nat)
    ensures |NatToString(n)| > 0 && IsDigits(NatToString(n))
    ensures ParseNat(NatToString(n)) == n
    ensures NatToString(n)[0] == '0' <==> n == 0
    ensures |NatToString(n)| > 1 ==> NatToString(n)[0] != '0'
    decreases n
  {
    var s := NatToString(n);
    if n >= 10 {
      NatToStringRoundTrip(n / 10);
      assert s[..|s| - 1] == NatToString(n / 10);
      assert s[|s| - 1] == DigitChar(n % 10);
      assert s[0] == NatToString(n / 10)[0];
    }
  }

  /** The digits of a rendered integer: everything after the minus sign, if there is one. */
  function Magnitude(s: string): string
  {
    if |s| > 0 && s[0] == '-' then s[1..] else s
  }

  /**
   * Rendering an integer gives a literal that reads back as the integer; it
   * starts with '-' exactly for a negative integer, and its digits have no
   * leading zero (so zero is "0", never "-0" or "00").
   */
  lemma IntToStringRoundTrip(i: int)
    ensures IsIntLiteral(IntToString(i)) && |IntToString(i)| > 0
    ensures ParseInt(IntToString(i)) == i
    ensures IntToString(i)[0] == '-' <==> i < 0
    ensures |Magnitude(IntToString(i))| > 0
    ensures Magnitude(IntToString(i))[0] == '0' <==> i == 0
    ensures |Magnitude(IntToString(i))| > 1 ==> Magnitude(IntToString(i))[0] != '0'
  {
    if i < 0 {
      NatToStringRoundTrip(-i);
      assert IntToString(i)[1..] == NatToString(-i);
    } else {
      NatToStringRoundTrip(i);
      assert IntToString(i)[0] != '-';
    }
  }

  /** Distinct integers are rendered as distinct strings. */
  lemma IntToStringInjective(i: int, j: int)
    requires IntToString(i) == IntToString(j)
    ensures i == j
  {
    IntToStringRoundTrip(i);
    IntToStringRoundTrip(j);
  }

  /** A rendered integer holds only a sign and digits, so none of the given separators. */
  lemma IntToStringHasNoSeparator(i: int, c: char)
    requires !IsDigit(c) && c != '-'
    ensures c !in IntToString(i)
  {
    IntToStringRoundTrip(i);
    var s := IntToString(i);
    if i < 0 {
      assert s == "-" + NatToString(-i);
    }
  }

  /** In a separator-free field followed by the separator, the first separator ends the field. */
  lemma FirstSeparator(x: string, y: string, c: char)
    requires c !in x && |y| > 0 && y[0] == c
    ensures (x + y)[|x|] == c
    ensures forall k :: 0 <= k < |x| ==> (x + y)[k] != c
  {
  }

  /**
   * Two ways of writing one string as a separator-free field followed by a
   * tail that starts with the separator agree on the field and the tail.
   */
  lemma SplitAtSeparator(x: string, y: string, x': string, y': string, c: char)
    requires x + y == x' + y'
    requires c !in x && c !in x'
    requires |y| > 0 && y[0] == c && |y'| > 0 && y'[0] == c
    ensures x == x' && y == y'
  {
    FirstSeparator(x, y, c);
    FirstSeparator(x', y', c);
    if |x| < |x'| {
      assert false;
    } else if |x'| < |x| {
      assert false;
    }
    assert x == (x + y)[..|x|];
    assert x' == (x' + y')[..|x'|];
  }
}
