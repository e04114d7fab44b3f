/**
  The named builders of `ezr/quantifier.py`. Each passes a lower bound, an
  upper bound and a laziness flag to the `Quantifier` constructor; the model
  keeps exactly that triple of arguments.
*/
module Quantifiers {
  import opened Wrappers
  import Util

  /** The arguments a builder hands to `Quantifier(lower=…, upper=…, lazy=…)`. */
  datatype QuantifierArgs = QuantifierArgs(lower: Option<int>, upper: Option<int>, lazy: bool)
  {
    /** The triple `are_valid_quantifier_params` is asked about. */
    function Params(): (Option<int>, Option<int>, bool) {
      (lower, upper, lazy)
    }

    /** The builder's arguments pass `are_valid_quantifier_params`. */
    predicate Valid() {
      Util.AreValidQuantifierParams(Params())
    }
  }

  /** `zero_or_more(lazy)`: at least zero, no upper bound; always valid. */
  function ZeroOrMore(lazy: bool := false): (q: QuantifierArgs)
    ensures q.lower == Some(0) && q.upper == None && q.lazy == lazy
    ensures q.Valid()
  {
    QuantifierArgs(Some(0), None, lazy)
  }

  /** `one_or_more(lazy)`: at least one, no upper bound; always valid. */
  function OneOrMore(lazy: bool := false): (q: QuantifierArgs)
    ensures q.lower == Some(1) && q.upper == None && q.lazy == lazy
    ensures q.Valid()
  {
    QuantifierArgs(Some(1), None, lazy)
  }

  /** `zero_or_one(lazy)`: between zero and one; always valid. */
  function ZeroOrOne(lazy: bool := false): (q: QuantifierArgs)
    ensures q.lower == Some(0) && q.upper == Some(1) && q.lazy == lazy
    ensures q.Valid()
  {
    QuantifierArgs(Some(0), Some(1), lazy)
  }

  /** `exactly(n, lazy)`: both bounds `n`; valid exactly when `n` is non-negative. */
  function Exactly(n: int, lazy: bool := false): (q: QuantifierArgs)
    ensures q.lower == Some(n) && q.upper == Some(n) && q.lazy == lazy
    ensures q.Valid() <==> n >= 0
  {
    QuantifierArgs(Some(n), Some(n), lazy)
  }

  /**
    `between(n, m, lazy)`, whose bounds both default to `None`: valid exactly
    when some bound is given, the given ones are non-negative and `n <= m`.
  */
  function Between(n: Option<int> := None, m: Option<int> := None, lazy: bool := false): (q: QuantifierArgs)
    ensures q.lower == n && q.upper == m && q.lazy == lazy
    ensures q.Valid() <==>
      && (n.Some? || m.Some?)
      && (n.Some? ==> n.value >= 0)
      && (m.Some? ==> m.value >= 0)
      && (n.Some? && m.Some? ==> n.value <= m.value)
  {
    QuantifierArgs(n, m, lazy)
  }

  /** `at_least(n, lazy)`: lower bound `n` only; valid exactly when `n` is non-negative. */
  function AtLeast(n: int, lazy: bool := false): (q: QuantifierArgs)
    ensures q.lower == Some(n) && q.upper == None && q.lazy == lazy
    ensures q.Valid() <==> n >= 0
  {
    QuantifierArgs(Some(n), None, lazy)
  }

  /** `at_most(n, lazy)`: upper bound `n` only; valid exactly when `n` is non-negative. */
  function AtMost(n: int, lazy: bool := false): (q: QuantifierArgs)
    ensures q.lower == None && q.upper == Some(n) && q.lazy == lazy
    ensures q.Valid() <==> n >= 0
  {
    QuantifierArgs(None, Some(n), lazy)
  }

  /** `between()` with its defaults gives no bound at all, which the validator rejects. */
  lemma BetweenDefaultsRejected()
    ensures Between().lower == None && Between().upper == None
    ensures !Between().Valid()
  {
  }

  /** Without an explicit flag every builder is greedy. */
  lemma BuildersDefaultGreedy(n: int, m: int)
    ensures !ZeroOrMore().lazy && !OneOrMore().lazy && !ZeroOrOne().lazy
    ensures !Exactly(n).lazy && !Between(Some(n), Some(m)).lazy
    ensures !AtLeast(n).lazy && !AtMost(n).lazy
  {
  }

  /** For non-negative counts (and `n <= m`) every builder yields valid arguments. */
  lemma BuildersValid(n: int, m: int, lazy: bool)
    requires 0 <= n <= m
    ensures ZeroOrMore(lazy).Valid() && OneOrMore(lazy).Valid() && ZeroOrOne(lazy).Valid()
    ensures Exactly(n, lazy).Valid() && Between(Some(n), Some(m), lazy).Valid()
    ensures AtLeast(n, lazy).Valid() && AtMost(n, lazy).Valid()
  {
  }
}
