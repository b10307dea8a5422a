/** What a run shows to the outside, and tables that differ only in entries that no longer matter. */
module Runs {
  /** The observations of a run from `t`, in order. */
  function Observed<T, E, O>(step: (T, E) -> T, see: (T, E) -> seq<O>, t: T, es: seq<E>): (r: seq<O>)
    decreases |es|
  {
    if es == [] then [] else see(t, es[0]) + Observed(step, see, step(t, es[0]), es[1..])
  }

  lemma FirstThenRest<T, E, O>(step: (T, E) -> T, see: (T, E) -> seq<O>, t: T, e: E, rest: seq<E>)
    ensures Observed(step, see, t, [e] + rest) == see(t, e) + Observed(step, see, step(t, e), rest)
  {
    assert ([e] + rest)[1..] == rest;
  }

  /** The events of a run other than those dropped. */
  function Except<E>(es: seq<E>, dropped: E -> bool): (r: seq<E>)
  {
    if es == [] then [] else (if dropped(es[0]) then [] else [es[0]]) + Except(es[1..], dropped)
  }

  /** `swept` lacks only dead entries of `full`. */
  ghost predicate Swept<K(!new), V>(full: map<K, V>, swept: map<K, V>, dead: V -> bool)
  {
    && (forall k :: k in swept ==> k in full && swept[k] == full[k])
    && (forall k :: k in full && k !in swept ==> dead(full[k]))
  }
}
