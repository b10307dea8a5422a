/**
  Hysteresis of stale connection entries: an entry that no observed socket
  accounts for is removed only after a configured number of consecutive
  reconciles have missed it.
 */
module StaleRounds {
  import opened Words

  type Key = nat

  type Rounds = map<Key, nat>

  /**
    One reconcile: the keys wanted, the keys found in the table, whether it was
    a dry run, and which deletions fail.
   */
  datatype Round = Round(desired: set<Key>, applied: set<Key>, dry: bool, failing: set<Key>)

  function Count(rounds: Rounds, k: Key): (n: nat) { if k in rounds then rounds[k] else 0 }

  predicate Missed(r: Round, k: Key) { k in r.applied && k !in r.desired }

  /** The counts after planning: one more for every key missed, none for the rest. */
  function Planned(rounds: Rounds, r: Round): (r': Rounds)
  {
    map k | k in r.applied - r.desired :: Count(rounds, k) + 1
  }

  /** The keys a plan deletes. */
  function Ready(threshold: nat, rounds: Rounds, r: Round): (ks: set<Key>)
  {
    set k | k in r.applied - r.desired && Count(rounds, k) + 1 >= threshold
  }

  /** The keys a reconcile really removes. */
  function RemovedBy(threshold: nat, rounds: Rounds, r: Round): (ks: set<Key>)
  {
    if r.dry then {} else Ready(threshold, rounds, r) - r.failing
  }

  function Next(threshold: nat, rounds: Rounds, r: Round): (r': Rounds)
  {
    if r.dry then rounds else Planned(rounds, r) - RemovedBy(threshold, rounds, r)
  }

  function Exec(threshold: nat, rs: seq<Round>): (r': Rounds)
  {
    if rs == [] then map[] else Next(threshold, Exec(threshold, rs[..|rs| - 1]), rs[|rs| - 1])
  }

  /** The reconciles that were not dry runs. */
  function Live(rs: seq<Round>): (r: seq<Round>)
  {
    if rs == [] then [] else Live(rs[..|rs| - 1]) + (if rs[|rs| - 1].dry then [] else [rs[|rs| - 1]])
  }

  lemma {:induction false} LiveIsLive(rs: seq<Round>)
    ensures forall i :: 0 <= i < |Live(rs)| ==> !Live(rs)[i].dry
  {
    if rs != [] {
      LiveIsLive(rs[..|rs| - 1]);
    }
  }

  /** Dry runs leave no trace. */
  lemma {:induction false} DryRunsDoNotCount(threshold: nat, rs: seq<Round>)
    ensures Exec(threshold, rs) == Exec(threshold, Live(rs))
  {
    if rs != [] {
      var before, r := rs[..|rs| - 1], rs[|rs| - 1];
      DryRunsDoNotCount(threshold, before);
      if r.dry {
        assert Live(rs) == Live(before);
      } else {
        assert Live(rs)[..|Live(rs)| - 1] == Live(before);
      }
    }
  }

  predicate RemovedAt(threshold: nat, rs: seq<Round>, i: nat, k: Key)
    requires i < |rs|
  {
    k in RemovedBy(threshold, Exec(threshold, rs[..i]), rs[i])
  }

  /** A reconcile that continues a run of misses of `k`: it missed `k` and did not remove it. */
  predicate Continues(threshold: nat, rs: seq<Round>, i: nat, k: Key)
    requires i < |rs|
  {
    Missed(rs[i], k) && !RemovedAt(threshold, rs, i, k)
  }

  /** `n` is the length of the longest run of such reconciles at the end of `rs`. */
  ghost predicate CurrentRun(threshold: nat, rs: seq<Round>, k: Key, n: nat)
  {
    && n <= |rs|
    && (forall i :: |rs| - n <= i < |rs| ==> Continues(threshold, rs, i, k))
    && (n < |rs| ==> !Continues(threshold, rs, |rs| - n - 1, k))
  }

  lemma SamePrefix(threshold: nat, rs: seq<Round>, i: nat, k: Key)
    requires i < |rs| - 1
    ensures Continues(threshold, rs[..|rs| - 1], i, k) == Continues(threshold, rs, i, k)
  {
    assert rs[..|rs| - 1][..i] == rs[..i];
  }

  lemma {:induction false} CountIsRunLive(threshold: nat, rs: seq<Round>, k: Key)
    requires forall i :: 0 <= i < |rs| ==> !rs[i].dry
    ensures CurrentRun(threshold, rs, k, Count(Exec(threshold, rs), k))
  {
    if rs != [] {
      var before, last := rs[..|rs| - 1], |rs| - 1;
      CountIsRunLive(threshold, before, k);
      var m := Count(Exec(threshold, before), k);
      forall i | 0 <= i < last ensures Continues(threshold, before, i, k) == Continues(threshold, rs, i, k) {
        SamePrefix(threshold, rs, i, k);
      }
      if Continues(threshold, rs, last, k) {
        assert Count(Exec(threshold, rs), k) == m + 1;
        forall i | |rs| - (m + 1) <= i < |rs| ensures Continues(threshold, rs, i, k) {
          if i < last {
            assert Continues(threshold, before, i, k);
          }
        }
        if m + 1 < |rs| {
          assert !Continues(threshold, before, |before| - m - 1, k);
        }
      } else {
        assert Count(Exec(threshold, rs), k) == 0;
      }
    }
  }

  /**
    Over every sequence of reconciles the stored count is the length of the
    current run of misses among the real ones.
   */
  lemma CountIsRun(threshold: nat, rs: seq<Round>, k: Key)
    ensures CurrentRun(threshold, Live(rs), k, Count(Exec(threshold, rs), k))
  {
    LiveIsLive(rs);
    DryRunsDoNotCount(threshold, rs);
    CountIsRunLive(threshold, Live(rs), k);
  }

  /**
    A key is removed by a reconcile exactly when that reconcile is real, its
    deletion succeeds, and it completes `threshold` consecutive real misses since
    the key was last removed.
   */
  lemma RemovalNeedsMisses(threshold: nat, rs: seq<Round>, r: Round, k: Key, run: nat)
    requires CurrentRun(threshold, Live(rs), k, run)
    ensures k in RemovedBy(threshold, Exec(threshold, rs), r) <==>
            !r.dry && k !in r.failing && Missed(r, k) && run + 1 >= threshold
  {
    CountIsRun(threshold, rs, k);
    OneRun(threshold, Live(rs), k, Count(Exec(threshold, rs), k), run);
  }

  lemma OneRun(threshold: nat, rs: seq<Round>, k: Key, m: nat, n: nat)
    requires CurrentRun(threshold, rs, k, m) && CurrentRun(threshold, rs, k, n)
    ensures m == n
  {
  }

  // ---------------------------------------------------------------- the backend's own form

  class Tracker {
    /** `_conntrack_stale_rounds`. */
    var rounds: Rounds
    const threshold: nat

    constructor (threshold: nat)
      ensures rounds == map[] && this.threshold == threshold
    {
      rounds, this.threshold := map[], threshold;
    }

    /** The conntrack part of `build_reconcile_plan`. */
    method BuildPlan(r: Round) returns (ready: set<Key>)
      modifies this
      ensures rounds == Planned(old(rounds), r) && ready == Ready(threshold, old(rounds), r)
    {
      var candidates := r.applied - r.desired;
      rounds := rounds - r.desired;
      ready := {};
      var rest := candidates;
      while rest != {}
        invariant rest <= candidates
        invariant forall k :: k in candidates - rest ==> k in rounds && rounds[k] == Count(old(rounds), k) + 1
        invariant forall k :: k in rest ==> Count(rounds, k) == Count(old(rounds), k)
        invariant ready == set k | k in candidates - rest && Count(old(rounds), k) + 1 >= threshold
        decreases rest
      {
        var k :| k in rest;
        var n := Count(rounds, k) + 1;
        rounds := rounds[k := n];
        if n >= threshold {
          ready := ready + {k};
        }
        rest := rest - {k};
      }
      rounds := rounds - (rounds.Keys - candidates);
    }

    /** The deletions of `apply_reconcile_plan`; in a dry run every deletion reports success. */
    method Remove(ready: set<Key>, r: Round) returns (removed: set<Key>)
      modifies this
      ensures removed == (if r.dry then {} else ready - r.failing)
      ensures rounds == old(rounds) - (if r.dry then ready else removed)
    {
      removed := {};
      var rest := ready;
      while rest != {}
        invariant rest <= ready
        invariant removed == if r.dry then {} else (ready - rest) - r.failing
        invariant rounds == old(rounds) - (if r.dry then ready - rest else removed)
        decreases rest
      {
        var k :| k in rest;
        if r.dry {
          rounds := rounds - {k};
        } else if k !in r.failing {
          rounds := rounds - {k};
          removed := removed + {k};
        }
        rest := rest - {k};
      }
    }

    /** `reconcile`: a dry run puts the counts back. */
    method Reconcile(r: Round) returns (removed: set<Key>)
      modifies this
      ensures rounds == Next(threshold, old(rounds), r)
      ensures removed == RemovedBy(threshold, old(rounds), r)
    {
      var snapshot := rounds;
      var ready := BuildPlan(r);
      removed := Remove(ready, r);
      if r.dry {
        rounds := snapshot;
      }
    }
  }
}
