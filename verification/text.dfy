/** Facts about strings built by concatenation, used to tell archive entry names apart. */
module Text {

  /** Wrapping two strings in the same prefix and suffix gives equal results only for equal strings. */
  lemma WrapInjective(prefix: string, a: string, b: string, suffix: string)
    requires prefix + a + suffix == prefix + b + suffix
    ensures a == b
  {
    var x := prefix + a + suffix;
    assert |a| == |b|;
    assert x[|prefix|..|prefix| + |a|] == a;
    assert x[|prefix|..|prefix| + |b|] == b;
  }

  /** A string ending in `suffix` ends in the last character of `suffix`. */
  lemma LastOfAppend(s: string, suffix: string)
    requires suffix != []
    ensures (s + suffix)[|s + suffix| - 1] == suffix[|suffix| - 1]
  {
  }
}
