/**
 * The three string operations the catalog's search relies on: lower-casing,
 * substring containment (Python's `in` on two strings) and the decimal text
 * of an integer (Python's `str` on an `int`).
 */
module Text {

  /** Lower-case of one character: ASCII letters and the basic Cyrillic capitals. */
  function LowerChar(c: char): (r: char)
    ensures !('A' <= r <= 'Z')
    ensures !('\U{0400}' <= r <= '\U{042F}')
  {
    if 'A' <= c <= 'Z' then (c as int + 32) as char
    else if '\U{0410}' <= c <= '\U{042F}' then (c as int + 0x20) as char
    else if '\U{0400}' <= c <= '\U{040F}' then (c as int + 0x50) as char
    else c
  }

  /**
   * `str.lower` on the characters `LowerChar` knows: same length, no capital
   * left, and lower-casing the result again changes nothing.
   */
  function Lower(s: string): (r: string)
    ensures |r| == |s|
    ensures forall i | 0 <= i < |r| :: !('A' <= r[i] <= 'Z') && LowerChar(r[i]) == r[i]
  {
    seq(|s|, i requires 0 <= i < |s| => LowerChar(s[i]))
  }

  predicate IsPrefix(p: string, s: string) {
    |p| <= |s| && s[..|p|] == p
  }

  /** `p` occurs in `s` at some position; the empty string occurs everywhere. */
  predicate OccursIn(p: string, s: string) {
    exists i | 0 <= i <= |s| :: IsPrefix(p, s[i..])
  }

  /** `p in s` for strings, computed by trying each position in turn. */
  function Contains(s: string, p: string): (r: bool)
    ensures r <==> OccursIn(p, s)
    decreases |s|
  {
    if IsPrefix(p, s) then
      assert s[0..] == s;
      true
    else if |s| == 0 then
      false
    else
      var r := Contains(s[1..], p);
      assert forall i | 1 <= i <= |s| :: s[1..][i - 1..] == s[i..];
      r
  }

  /** A string lacking one of the pattern's characters does not contain the pattern. */
  lemma MissingCharNotContained(s: string, p: string, c: char)
    requires c in p && c !in s
    ensures !Contains(s, p)
  {
  }

  function DigitChar(d: nat): char
    requires d < 10
  {
    "0123456789"[d]
  }

  function NatToString(n: nat): (r: string)
    ensures |r| > 0
    ensures forall i | 0 <= i < |r| :: '0' <= r[i] <= '9'
    decreases n
  {
    if n < 10 then [DigitChar(n)] else NatToString(n / 10) + [DigitChar(n % 10)]
  }

  /** Decimal text of an integer, with a leading '-' when it is negative. */
  function IntToString(n: int): (r: string)
    ensures |r| > 0
    ensures (r[0] == '-') <==> n < 0
  {
    if n < 0 then "-" + NatToString(-n) else NatToString(n)
  }
}
