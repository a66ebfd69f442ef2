/**
 * Character classes, case folding and string helpers shared by the
 * regular-expression predicates and the message builders.
 */
module Text {

  predicate IsDigit(c: char) {
    '0' <= c <= '9'
  }

  predicate IsAsciiLetter(c: char) {
    'a' <= c <= 'z' || 'A' <= c <= 'Z'
  }

  /** Python's `[^\W_]`, restricted to ASCII. */
  predicate IsAlnum(c: char) {
    IsDigit(c) || IsAsciiLetter(c)
  }

  /** Python's `\w`, restricted to ASCII. */
  predicate IsWordChar(c: char) {
    IsAlnum(c) || c == '_'
  }

  /** ASCII lower-casing, as `str.lower` does on ASCII text. */
  function Lower(c: char): (d: char)
    ensures 'A' <= c <= 'Z' ==> 'a' <= d <= 'z'
    ensures !('A' <= c <= 'Z') ==> d == c
  {
    if 'A' <= c <= 'Z' then (c as int + 32) as char else c
  }

  function LowerString(s: string): (r: string)
    ensures |r| == |s|
    ensures forall k :: 0 <= k < |s| ==> r[k] == Lower(s[k])
  {
    if s == [] then [] else [Lower(s[0])] + LowerString(s[1..])
  }

  /**
   * The key under which `re.IGNORECASE` compares a subject character with an
   * ASCII pattern literal: ASCII upper case folds to lower case, and the four
   * non-ASCII characters whose simple lower case (or case equivalence class)
   * reaches an ASCII letter fold to that letter: U+0130 and U+0131 to `i`,
   * U+017F to `s`, U+212A to `k`.
   */
  function Fold(c: char): (d: char)
    ensures IsAsciiLetter(c) ==> d == Lower(c)
    ensures IsDigit(c) || c == '_' || c == '/' ==> d == c
  {
    if 'A' <= c <= 'Z' then Lower(c)
    else if c == '\U{0130}' || c == '\U{0131}' then 'i'
    else if c == '\U{017F}' then 's'
    else if c == '\U{212A}' then 'k'
    else c
  }

  predicate StartsWith(s: string, prefix: string) {
    |prefix| <= |s| && s[..|prefix|] == prefix
  }

  predicate EndsWith(s: string, suffix: string) {
    |suffix| <= |s| && s[|s| - |suffix|..] == suffix
  }

  /** `needle` occurs in `s` starting at index `k`. */
  predicate InfixAt(needle: string, s: string, k: int) {
    0 <= k <= |s| - |needle| && s[k..k + |needle|] == needle
  }

  /** `needle` occurs in `s`. */
  ghost predicate IsInfix(needle: string, s: string) {
    exists k :: InfixAt(needle, s, k)
  }

  /** Python's `sep.join(xs)`. */
  function Join(sep: string, xs: seq<string>): string
  {
    if |xs| == 0 then ""
    else if |xs| == 1 then xs[0]
    else xs[0] + sep + Join(sep, xs[1..])
  }

  lemma {:induction false} JoinSnoc(sep: string, xs: seq<string>, y: string)
    requires |xs| > 0
    ensures Join(sep, xs + [y]) == Join(sep, xs) + sep + y
    decreases |xs|
  {
    if |xs| == 1 {
      assert (xs + [y])[1..] == [y];
    } else {
      assert (xs + [y])[1..] == xs[1..] + [y];
      JoinSnoc(sep, xs[1..], y);
    }
  }

  /** Every joined item occurs in the joined string. */
  lemma {:induction false} JoinContainsItems(sep: string, xs: seq<string>, i: nat)
    requires i < |xs|
    ensures IsInfix(xs[i], Join(sep, xs))
    decreases |xs|
  {
    var j := Join(sep, xs);
    if |xs| == 1 {
      assert InfixAt(xs[i], j, 0);
    } else if i == 0 {
      assert j == xs[0] + (sep + Join(sep, xs[1..]));
      assert InfixAt(xs[i], j, 0);
    } else {
      JoinContainsItems(sep, xs[1..], i - 1);
      var rest := Join(sep, xs[1..]);
      var k :| InfixAt(xs[i], rest, k);
      var off := |xs[0]| + |sep|;
      assert j == xs[0] + sep + rest;
      assert j[off + k..off + k + |xs[i]|] == rest[k..k + |xs[i]|];
      assert InfixAt(xs[i], j, off + k);
    }
  }

  /** Every non-empty item makes the joined string non-empty. */
  lemma {:induction false} JoinNonEmpty(sep: string, xs: seq<string>)
    requires |xs| > 0 && |xs[0]| > 0
    ensures |Join(sep, xs)| > 0
  {
  }

  function DigitChar(d: nat): (c: char)
    requires d < 10
    ensures IsDigit(c)
  {
    ('0' as int + d) as char
  }

  /** Decimal rendering of a natural number, as `str(n)`. */
  function NatToString(n: nat): (s: string)
    ensures |s| > 0
    ensures forall k :: 0 <= k < |s| ==> IsDigit(s[k])
    decreases n
  {
    if n < 10 then [DigitChar(n)] else NatToString(n / 10) + [DigitChar(n % 10)]
  }

  /** Decimal rendering of an integer, as `str(n)`: a minus sign for negatives. */
  function IntToString(n: int): (s: string)
    ensures |s| > 0
    ensures n < 0 <==> s[0] == '-'
  {
    if n < 0 then "-" + NatToString(-n) else NatToString(n)
  }

  /** `c * n` for a one-character string `c`. */
  function Repeat(c: char, n: nat): (s: string)
    ensures |s| == n
    ensures forall k :: 0 <= k < n ==> s[k] == c
  {
    if n == 0 then "" else [c] + Repeat(c, n - 1)
  }
}
