/**
  String primitives shared by the modules: `string.IsNullOrEmpty`, the
  `s.Length > n ? s.Substring(0, n) : s` truncation idiom, and comparison
  ignoring case (ASCII letters only).
 */
module Text {
  import opened Wrappers

  /** `string.IsNullOrEmpty` on a nullable string. */
  predicate IsNullOrEmpty(s: Option<string>) {
    s.None? || s.value == []
  }

  /** `s.Length > n ? s.Substring(0, n) : s`: the first `n` characters of a longer string. */
  function Clip(s: string, n: nat): (r: string)
    ensures r <= s
    ensures |r| == if |s| > n then n else |s|
  {
    if |s| > n then s[..n] else s
  }

  /** Maps an upper-case ASCII letter to lower case and leaves every other character alone. */
  function LowerAscii(c: char): (d: char)
    ensures 'A' <= c <= 'Z' ==> 'a' <= d <= 'z'
    ensures !('A' <= c <= 'Z') ==> d == c
  {
    if 'A' <= c <= 'Z' then (c as int - 'A' as int + 'a' as int) as char else c
  }

  function FoldCase(s: string): (r: string)
    ensures |r| == |s|
    ensures forall i :: 0 <= i < |s| ==> r[i] == LowerAscii(s[i])
  {
    seq(|s|, i requires 0 <= i < |s| => LowerAscii(s[i]))
  }

  /** `string.Equals(a, b, ...IgnoreCase)`. */
  predicate EqualsIgnoreCase(a: string, b: string) {
    FoldCase(a) == FoldCase(b)
  }

  /** Two strings that differ only in the case of their ASCII letters compare equal. */
  lemma {:induction false} EqualsIgnoreCaseExample()
    ensures EqualsIgnoreCase("LastName", "lastname")
    ensures !EqualsIgnoreCase("LastName", "nonExistingNode")
  {
    assert FoldCase("LastName") == "lastname";
    assert FoldCase("lastname") == "lastname";
    assert |FoldCase("nonExistingNode")| != |FoldCase("LastName")|;
  }
}
