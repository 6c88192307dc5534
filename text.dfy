/** Strings as the source's JavaScript sees them: prefix and substring tests,
    `toUpperCase` / `toLowerCase` on ASCII letters, and decimal numerals. */
module Text {
  import opened Decimal

  predicate StartsWith(s: string, prefix: string) {
    |prefix| <= |s| && s[..|prefix|] == prefix
  }

  /** t occurs in s at index i. */
  predicate OccursAt(s: string, t: string, i: nat) {
    i + |t| <= |s| && s[i..i + |t|] == t
  }

  /** `s.includes(t)`. */
  predicate Contains(s: string, t: string) {
    exists i | 0 <= i <= |s| - |t| :: OccursAt(s, t, i)
  }

  lemma ContainsEmpty(s: string)
    ensures Contains(s, "")
  {
    assert OccursAt(s, "", 0);
  }

  function UpperChar(c: char): char {
    if 'a' <= c <= 'z' then (c as int - 32) as char else c
  }

  function LowerChar(c: char): char {
    if 'A' <= c <= 'Z' then (c as int + 32) as char else c
  }

  /** `toUpperCase`, on the ASCII letters. */
  function ToUpper(s: string): string {
    seq(|s|, i requires 0 <= i < |s| => UpperChar(s[i]))
  }

  /** `toLowerCase`, on the ASCII letters. */
  function ToLower(s: string): string {
    seq(|s|, i requires 0 <= i < |s| => LowerChar(s[i]))
  }

  /** An upper-cased string holds no lower-case ASCII letter, and upper-casing
      it again changes nothing. */
  lemma ToUpperIdempotent(s: string)
    ensures forall i | 0 <= i < |ToUpper(s)| :: !('a' <= ToUpper(s)[i] <= 'z')
    ensures ToUpper(ToUpper(s)) == ToUpper(s)
  {
  }

  /** The index of the first '/' in s at or after `from`, or |s| if none. */
  function SlashFrom(s: string, from: nat): (j: nat)
    requires from <= |s|
    ensures from <= j <= |s|
    ensures j < |s| ==> s[j] == '/'
    ensures forall k | from <= k < j :: s[k] != '/'
    decreases |s| - from
  {
    if from == |s| || s[from] == '/' then from else SlashFrom(s, from + 1)
  }

  /** The first '/' at or after `from` is the one `SlashFrom` finds. */
  lemma {:induction false} SlashFromFirst(s: string, from: nat, j: nat)
    requires from <= j < |s| && s[j] == '/'
    requires forall k | from <= k < j :: s[k] != '/'
    ensures SlashFrom(s, from) == j
    decreases j - from
  {
    if from < j {
      SlashFromFirst(s, from + 1, j);
    }
  }

  /** `s.split('/').pop()`: the text after the last '/', or all of s. */
  function LastSegment(s: string): (r: string)
    ensures |r| <= |s| && r == s[|s| - |r|..]
    ensures '/' !in r
    ensures |r| == |s| || s[|s| - |r| - 1] == '/'
  {
    if s == [] || s[|s| - 1] == '/' then []
    else
      var r := LastSegment(s[..|s| - 1]) + [s[|s| - 1]];
      assert s[..|s| - 1][|s| - |r|..] + [s[|s| - 1]] == s[|s| - |r|..];
      r
  }

  predicate IsDigit(c: char) {
    '0' <= c <= '9'
  }

  predicate AllDigits(s: string) {
    forall i | 0 <= i < |s| :: IsDigit(s[i])
  }

  function DigitChar(n: nat): (c: char)
    requires n < 10
    ensures IsDigit(c)
  {
    ('0' as int + n) as char
  }

  /** The number a string of decimal digits denotes. */
  function DigitsValue(s: string): nat
    requires AllDigits(s)
  {
    if s == [] then 0
    else 10 * DigitsValue(s[..|s| - 1]) + (s[|s| - 1] as int - '0' as int)
  }

  lemma DigitsValueSnoc(s: string, n: nat)
    requires AllDigits(s) && n < 10
    ensures AllDigits(s + [DigitChar(n)])
    ensures DigitsValue(s + [DigitChar(n)]) == 10 * DigitsValue(s) + n
  {
    assert (s + [DigitChar(n)])[..|s|] == s;
  }

  /** The numeral of n as `toFixed` writes its integer part: no leading zero
      except for "0" itself; it reads back as n. */
  function NatToDigits(n: nat): (s: string)
    ensures |s| >= 1 && AllDigits(s)
    ensures DigitsValue(s) == n
    ensures s[0] == '0' ==> s == "0"
  {
    if n < 10 then
      DigitsValueSnoc("", n);
      [DigitChar(n)]
    else
      var s := NatToDigits(n / 10) + [DigitChar(n % 10)];
      DigitsValueSnoc(NatToDigits(n / 10), n % 10);
      s
  }

  /** The w-digit numeral of n < 10^w with leading zeros, as `toFixed` writes
      its fraction digits; it reads back as n. */
  function PaddedDigits(n: nat, w: nat): (s: string)
    requires n < Pow10(w)
    ensures |s| == w && AllDigits(s)
    ensures DigitsValue(s) == n
  {
    if w == 0 then []
    else
      var s := PaddedDigits(n / 10, w - 1) + [DigitChar(n % 10)];
      DigitsValueSnoc(PaddedDigits(n / 10, w - 1), n % 10);
      s
  }
}
