/** The two small utilities of `ezr/util.py`. */
module Util {
  import opened Wrappers

  /** The terminal escape that switches bold on. */
  const BoldOn: string := "\U{1b}[1m"

  /** The terminal escape that resets every attribute. */
  const Reset: string := "\U{1b}[0m"

  /**
    `bold(x)`: `x` between the two escapes. The escapes are four characters
    each, so `x` is recovered by dropping four characters at either end.
  */
  function Bold(x: string): (r: string)
    ensures |r| == |x| + 8
    ensures r[..4] == BoldOn && r[|r| - 4..] == Reset
    ensures r[4..|r| - 4] == x
  {
    BoldOn + x + Reset
  }

  /** Stripping the escapes again. */
  function Unbold(r: string): (x: string)
    requires |r| >= 8
  {
    r[4..|r| - 4]
  }

  /** `bold` loses nothing: it is undone by `Unbold`, so it is injective. */
  lemma BoldInjective(x: string, y: string)
    ensures Unbold(Bold(x)) == x
    ensures Bold(x) == Bold(y) ==> x == y
  {
  }

  /**
    `are_valid_quantifier_params((lower, upper, _))`. The third component is
    ignored, whatever its type. The result is true exactly when some bound
    is given, every given bound is non-negative, and the lower bound does
    not exceed the upper bound when both are given.
  */
  function AreValidQuantifierParams<L>(x: (Option<int>, Option<int>, L)): (ok: bool)
    ensures ok <==>
      && (x.0.Some? || x.1.Some?)
      && (x.0.Some? ==> x.0.value >= 0)
      && (x.1.Some? ==> x.1.value >= 0)
      && (x.0.Some? && x.1.Some? ==> x.0.value <= x.1.value)
  {
    var (lower, upper, _) := x;
    if lower.None? && upper.None? then false
    else if lower.None? && upper.Some? then upper.value >= 0
    else if lower.Some? && upper.None? then lower.value >= 0
    else lower.value >= 0 && upper.value >= 0 && lower.value <= upper.value
  }

  /** The verdict never depends on the third component. */
  lemma ValidityIgnoresThird<L>(lower: Option<int>, upper: Option<int>, a: L, b: L)
    ensures AreValidQuantifierParams((lower, upper, a)) == AreValidQuantifierParams((lower, upper, b))
  {
  }

  /** A true verdict implies some bound is present and every present bound is non-negative. */
  lemma ValidMeansSomeNonNegativeBound<L>(x: (Option<int>, Option<int>, L))
    requires AreValidQuantifierParams(x)
    ensures x.0.Some? || x.1.Some?
    ensures x.0.Some? ==> x.0.value >= 0
    ensures x.1.Some? ==> x.1.value >= 0
  {
  }

  /** The table of cases the library's own tests list, with `lazy` false. */
  lemma ValidityTable()
    ensures AreValidQuantifierParams((Some(0), None, false))
    ensures AreValidQuantifierParams((Some(1), None, false))
    ensures AreValidQuantifierParams((Some(2), None, false))
    ensures AreValidQuantifierParams((None, Some(0), false))
    ensures AreValidQuantifierParams((None, Some(1), false))
    ensures AreValidQuantifierParams((None, Some(2), false))
    ensures AreValidQuantifierParams((Some(0), Some(0), false))
    ensures AreValidQuantifierParams((Some(0), Some(1), false))
    ensures AreValidQuantifierParams((Some(0), Some(2), false))
    ensures AreValidQuantifierParams((Some(1), Some(1), false))
    ensures AreValidQuantifierParams((Some(1), Some(2), false))
    ensures !AreValidQuantifierParams((None, None, false))
    ensures !AreValidQuantifierParams((Some(3), Some(2), false))
    ensures !AreValidQuantifierParams((Some(2), Some(1), false))
    ensures !AreValidQuantifierParams((Some(1), Some(0), false))
    ensures !AreValidQuantifierParams((Some(-1), Some(0), false))
    ensures !AreValidQuantifierParams((Some(-1), Some(-1), false))
    ensures !AreValidQuantifierParams((Some(-2), Some(-1), false))
    ensures !AreValidQuantifierParams((Some(-1), None, false))
    ensures !AreValidQuantifierParams((None, Some(-1), false))
  {
  }
}
