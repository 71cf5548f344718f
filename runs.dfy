/** A run of steps over a list of items, as the loop of `apply_collections` (sorter.h:262-341)
    runs one collection after another over the catalog: each step takes the state the previous
    one left, and the first error ends the run. */
module Runs {
  import opened Text

  /** `step` applied to every item of `cs` in turn, item `k` with the argument `os[k]`,
      starting from `s`; the first error is the result. */
  function Fold<S, C, O, E>(s: S, cs: seq<C>, os: seq<O>, step: (S, C, O) -> Result<S, E>): (r: Result<S, E>)
    requires |os| == |cs|
    ensures cs == [] ==> r == Ok(s)
  {
    if cs == [] then Ok(s)
    else
      var n := |cs| - 1;
      match Fold(s, cs[..n], os[..n], step)
      case Err(e) => Err(e)
      case Ok(t) => step(t, cs[n], os[n])
  }

  /** Every step the run reaches is given an argument that `chosen` accepts for the state it
      starts from. */
  ghost predicate ChosenThroughout<S, C, O, E>(s: S, cs: seq<C>, os: seq<O>, step: (S, C, O) -> Result<S, E>,
                                               chosen: (S, C, O) -> bool)
    requires |os| == |cs|
  {
    cs == [] ||
      var n := |cs| - 1;
      && ChosenThroughout(s, cs[..n], os[..n], step, chosen)
      && (Fold(s, cs[..n], os[..n], step).Ok? ==> chosen(Fold(s, cs[..n], os[..n], step).value, cs[n], os[n]))
  }

  /** One more item: the longer run is the shorter one followed by one step, and the argument
      chosen for it keeps every argument chosen. */
  lemma FoldExtend<S, C, O, E>(s: S, cs: seq<C>, os: seq<O>, step: (S, C, O) -> Result<S, E>,
                               chosen: (S, C, O) -> bool, i: nat, o: O, t: S)
    requires i == |os| < |cs| && Fold(s, cs[..i], os, step) == Ok(t)
    requires ChosenThroughout(s, cs[..i], os, step, chosen) && chosen(t, cs[i], o)
    ensures Fold(s, cs[..i + 1], os + [o], step) == step(t, cs[i], o)
    ensures ChosenThroughout(s, cs[..i + 1], os + [o], step, chosen)
  {
    assert cs[..i + 1][..i] == cs[..i] && (os + [o])[..i] == os;
  }

  /** Once a step fails, the whole run fails with its error and reaches no further step. */
  lemma {:induction false} FoldErrorPersists<S, C, O, E>(s: S, cs: seq<C>, os: seq<O>, step: (S, C, O) -> Result<S, E>,
                                                         chosen: (S, C, O) -> bool, i: nat)
    requires |os| == |cs| && i <= |cs| && Fold(s, cs[..i], os[..i], step).Err?
    requires ChosenThroughout(s, cs[..i], os[..i], step, chosen)
    ensures Fold(s, cs, os, step) == Fold(s, cs[..i], os[..i], step)
    ensures ChosenThroughout(s, cs, os, step, chosen)
  {
    if i < |cs| {
      var n := |cs| - 1;
      assert cs[..n][..i] == cs[..i] && os[..n][..i] == os[..i];
      FoldErrorPersists(s, cs[..n], os[..n], step, chosen, i);
    } else {
      assert cs[..i] == cs && os[..i] == os;
    }
  }

  /** A run that has failed after its first `i` items fails the same way over all of `cs`,
      whatever arguments the unreached items get (`all` extends `os` with `pad`). */
  lemma FoldErrorPads<S, C, O, E>(s: S, cs: seq<C>, os: seq<O>, step: (S, C, O) -> Result<S, E>,
                                  chosen: (S, C, O) -> bool, i: nat, pad: O)
    returns (all: seq<O>)
    requires i == |os| <= |cs| && Fold(s, cs[..i], os, step).Err?
    requires ChosenThroughout(s, cs[..i], os, step, chosen)
    ensures |all| == |cs|
    ensures Fold(s, cs, all, step) == Fold(s, cs[..i], os, step)
    ensures ChosenThroughout(s, cs, all, step, chosen)
  {
    all := os + seq(|cs| - i, _ => pad);
    assert all[..i] == os;
    FoldErrorPersists(s, cs, all, step, chosen, i);
  }

  /** A run over one item is one step. */
  lemma FoldOne<S, C, O, E>(s: S, cs: seq<C>, os: seq<O>, step: (S, C, O) -> Result<S, E>,
                            chosen: (S, C, O) -> bool)
    requires |cs| == |os| == 1
    ensures Fold(s, cs, os, step) == step(s, cs[0], os[0])
    ensures ChosenThroughout(s, cs, os, step, chosen) ==> chosen(s, cs[0], os[0])
  {
    assert cs[..0] == [] && os[..0] == [];
  }
}
