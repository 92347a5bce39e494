/**
 * String helpers the store and the handlers rely on: the ASCII
 * case-insensitive substring test behind `ilike '%q%'`, and the decimal
 * rendering of an integer used in error details.
 */
module Text {

  /** ASCII lower-casing of one character; every other character is kept. */
  function LowerChar(c: char): char {
    if 'A' <= c <= 'Z' then (c as int + 32) as char else c
  }

  function Lower(s: string): string {
    seq(|s|, i requires 0 <= i < |s| => LowerChar(s[i]))
  }

  /** `q` occurs in `s` as a contiguous run, tried at each start position in turn. */
  predicate IsSubstring(q: string, s: string)
    decreases |s|
  {
    q <= s || (|s| > 0 && IsSubstring(q, s[1..]))
  }

  /** The title test of `ilike '%q%'`, with ASCII case folding only. */
  predicate ContainsIgnoreCase(title: string, q: string) {
    IsSubstring(Lower(q), Lower(title))
  }

  /** `q` occurs in `s` starting at position `i`. */
  predicate OccursAt(q: string, s: string, i: int) {
    0 <= i && i + |q| <= |s| && s[i..i + |q|] == q
  }

  /** IsSubstring agrees with the positional definition of a substring. */
  lemma {:induction false} IsSubstringIff(q: string, s: string)
    ensures IsSubstring(q, s) <==> exists i :: OccursAt(q, s, i)
    decreases |s|
  {
    if q <= s {
      assert OccursAt(q, s, 0);
    } else if |s| == 0 {
      assert forall i :: !OccursAt(q, s, i);
    } else {
      IsSubstringIff(q, s[1..]);
      if IsSubstring(q, s[1..]) {
        var i :| OccursAt(q, s[1..], i);
        assert s[i + 1..i + 1 + |q|] == s[1..][i..i + |q|];
        assert OccursAt(q, s, i + 1);
      } else {
        forall i
          ensures !OccursAt(q, s, i)
        {
          if i > 0 {
            OccursShift(q, s, i);
          }
        }
      }
    }
  }

  /** An occurrence past the first position is an occurrence in the tail. */
  lemma OccursShift(q: string, s: string, i: int)
    requires |s| > 0 && i > 0
    ensures OccursAt(q, s, i) <==> OccursAt(q, s[1..], i - 1)
  {
    if i + |q| <= |s| {
      assert s[i..i + |q|] == s[1..][i - 1..i - 1 + |q|];
    }
  }

  /** Every string contains itself, whatever its letter case. */
  lemma ContainsIgnoreCaseSelf(s: string)
    ensures ContainsIgnoreCase(s, s)
  {
  }

  /** The empty query matches every title. */
  lemma ContainsEmptyQuery(s: string)
    ensures ContainsIgnoreCase(s, "")
  {
  }

  function DigitChar(d: nat): char
    requires d < 10
  {
    "0123456789"[d]
  }

  /** Decimal digits of `n`, most significant first, without leading zeros. */
  function NatText(n: nat): (r: string)
    ensures |r| > 0
    ensures forall i :: 0 <= i < |r| ==> '0' <= r[i] <= '9'
    ensures n > 0 ==> r[0] != '0'
  {
    if n < 10 then [DigitChar(n)] else NatText(n / 10) + [DigitChar(n % 10)]
  }

  /** The decimal value of a string of digits. */
  function DigitsValue(s: string): nat
    requires forall i :: 0 <= i < |s| ==> '0' <= s[i] <= '9'
  {
    if s == [] then 0 else DigitsValue(s[..|s| - 1]) * 10 + (s[|s| - 1] as int - '0' as int)
  }

  /** Reading back the rendered digits gives the number again. */
  lemma {:induction false} NatTextRoundTrip(n: nat)
    ensures DigitsValue(NatText(n)) == n
  {
    if n >= 10 {
      NatTextRoundTrip(n / 10);
      var r := NatText(n);
      assert r[..|r| - 1] == NatText(n / 10);
    }
  }

  /** Python's `str(i)` for an integer. */
  function IntText(i: int): (r: string)
    ensures |r| > 0
    ensures r[0] == '-' <==> i < 0
  {
    if i < 0 then "-" + NatText(-i) else NatText(i)
  }

  /** The digits after the optional sign read back as the absolute value. */
  lemma IntTextRoundTrip(i: int)
    ensures i >= 0 ==> IntText(i) == NatText(i) && DigitsValue(IntText(i)) == i
    ensures i < 0 ==> IntText(i)[1..] == NatText(-i) && DigitsValue(IntText(i)[1..]) == -i
  {
    if i >= 0 {
      NatTextRoundTrip(i);
    } else {
      NatTextRoundTrip(-i);
      assert IntText(i)[1..] == NatText(-i);
    }
  }
}
