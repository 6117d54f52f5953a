/** The few `java.lang.String` queries the obfuscator relies on, over `seq<char>`. */
module Strings {

  /** `s.endsWith(suffix)`. */
  predicate EndsWith(s: string, suffix: string)
  {
    |suffix| <= |s| && s[|s| - |suffix|..] == suffix
  }

  /** `part` occurs in `s` starting at offset `i`. */
  predicate OccursAt(s: string, part: string, i: int)
  {
    0 <= i <= |s| - |part| && s[i..i + |part|] == part
  }

  /** `s.contains(part)`: `part` occurs at some offset of `s`. */
  predicate HasSubstring(s: string, part: string)
  {
    exists i | 0 <= i <= |s| - |part| :: OccursAt(s, part, i)
  }

  /** Appending a suffix yields a string that ends with it. */
  lemma ConcatEndsWith(s: string, suffix: string)
    ensures EndsWith(s + suffix, suffix)
    ensures (s + suffix)[..|s|] == s
  {
    assert (s + suffix)[|s + suffix| - |suffix|..] == suffix;
  }

  /** Appending one fixed suffix is injective: `a.concat(x)` determines `a`. */
  lemma ConcatSuffixInjective(a: string, b: string, suffix: string)
    requires a + suffix == b + suffix
    ensures a == b
  {
    assert |a| == |b|;
    assert a == (a + suffix)[..|a|];
    assert b == (b + suffix)[..|b|];
  }
}
