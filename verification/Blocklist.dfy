/**
  Replacing the blocklist of the packet filter.  Each map operation may fail
  and then changes nothing; an insertion also fails when the map is full.
 */
module Blocklist {
  import opened Words
  import opened Flows
  import opened Sets

  datatype Cidr = Cidr(network: u32, bits: nat)

  predicate Covers(c: Cidr, address: u32) { c.bits <= 32 && MaskWord(address, c.bits) == c.network }

  ghost predicate Blocked(list: set<Cidr>, address: u32) { exists c :: c in list && Covers(c, address) }

  /** A network covers exactly the addresses that share its leading bits. */
  lemma CoversExactly(c: Cidr, address: u32)
    requires c.bits <= 32 && MaskWord(c.network, c.bits) == c.network
    ensures Covers(c, address) <==> forall i :: 0 <= i < c.bits ==> WordBit(address, i) == WordBit(c.network, i)
  {
    WordsShareMask(address, c.network, c.bits);
  }

  function Elements(s: seq<Cidr>): (r: set<Cidr>) { set c | c in s }

  lemma ElementsStep(s: seq<Cidr>, i: nat)
    requires i < |s|
    ensures Elements(s[..i + 1]) == Elements(s[..i]) + {s[i]}
  {
  }

  predicate Distinct(s: seq<Cidr>) { forall i, j :: 0 <= i < j < |s| ==> s[i] != s[j] }

  // ---------------------------------------------------------------- validation

  /** A line of a downloaded list, parsed. */
  datatype Item = Blank | IPv6 | Invalid | IPv4(cidr: Cidr)

  /** `_normalize_v4`: nothing if any line is invalid, otherwise each IPv4 network once. */
  method Normalize(items: seq<Item>) returns (r: Option<seq<Cidr>>)
    ensures r.None? <==> Invalid in items
    ensures r.Some? ==> Distinct(r.value) && forall c :: c in r.value <==> IPv4(c) in items
  {
    var out: seq<Cidr> := [];
    for i := 0 to |items|
      invariant Invalid !in items[..i] && Distinct(out)
      invariant forall c :: c in out <==> IPv4(c) in items[..i]
    {
      assert items[..i + 1] == items[..i] + [items[i]];
      match items[i]
      case Invalid => return None;
      case IPv4(c) =>
        if c !in out {
          out := out + [c];
        }
      case _ =>
    }
    assert items[..|items|] == items;
    return Some(out);
  }

  // ---------------------------------------------------------------- replacement

  datatype Outcome = Rejected | Replaced(count: nat) | Failed(errors: nat)

  /** The IPv4 networks of a list. */
  ghost function Listed(items: seq<Item>): (r: set<Cidr>)
  {
    set i | 0 <= i < |items| && items[i].IPv4? :: items[i].cidr
  }

  /** Every state the filter saw during the forward steps contains the whole old list or the whole new one. */
  ghost predicate Fenced(steps: seq<set<Cidr>>, previous: set<Cidr>, target: set<Cidr>)
  {
    forall i :: 0 <= i < |steps| ==> previous <= steps[i] || target <= steps[i]
  }

  /** So an address on both lists is blocked throughout. */
  lemma NeverUncovered(steps: seq<set<Cidr>>, previous: set<Cidr>, target: set<Cidr>, i: nat, address: u32)
    requires Fenced(steps, previous, target) && i < |steps| && Blocked(previous, address) && Blocked(target, address)
    ensures Blocked(steps[i], address)
  {
  }

  // ---------------------------------------------------------------- undoing

  /** What a forward pass from `previous` towards `target` has done when it stops: nothing goes before all is added. */
  predicate Stopped(previous: set<Cidr>, target: set<Cidr>, added: seq<Cidr>, removed: seq<Cidr>)
  {
    && Distinct(added) && Distinct(removed)
    && Elements(added) <= target - previous && Elements(removed) <= previous - target
    && (removed != [] ==> Elements(added) == target - previous)
  }

  /** The states while the added entries are deleted again, newest first; `kept` was never touched. */
  function Unstaged(kept: set<Cidr>, added: seq<Cidr>): (r: seq<set<Cidr>>)
  {
    if added == [] then []
    else
      var rest := added[..|added| - 1];
      [kept + Elements(rest)] + Unstaged(kept, rest)
  }

  /** The states while the removed entries are put back. */
  function Restored(kept: set<Cidr>, removed: seq<Cidr>): (r: seq<set<Cidr>>)
  {
    if removed == [] then [] else Restored(kept, removed[..|removed| - 1]) + [kept + Elements(removed)]
  }

  /** What the filter sees while a replacement is undone without error. */
  function UndoStates(previous: set<Cidr>, added: seq<Cidr>, removed: seq<Cidr>): (r: seq<set<Cidr>>)
  {
    var kept := previous - Elements(removed);
    Unstaged(kept, added) + Restored(kept, removed)
  }

  ghost predicate Throughout(states: seq<set<Cidr>>, address: u32)
  {
    forall i :: 0 <= i < |states| ==> Blocked(states[i], address)
  }

  /** Every state holds `kept`. */
  predicate Holds(states: seq<set<Cidr>>, kept: set<Cidr>) { forall i :: 0 <= i < |states| ==> kept <= states[i] }

  lemma HoldsBlocks(states: seq<set<Cidr>>, kept: set<Cidr>, address: u32)
    requires Holds(states, kept) && Blocked(kept, address)
    ensures Throughout(states, address)
  {
  }

  lemma {:induction false} UnstagedStates(kept: set<Cidr>, added: seq<Cidr>)
    ensures Holds(Unstaged(kept, added), kept) && (added != [] ==> kept in Unstaged(kept, added))
  {
    if added != [] {
      var rest := added[..|added| - 1];
      UnstagedStates(kept, rest);
      assert rest == [] ==> kept + Elements(rest) == kept;
      assert Unstaged(kept, added)[0] == kept + Elements(rest);
    }
  }

  /** One deletion more. */
  lemma UnstageStep(kept: set<Cidr>, added: seq<Cidr>, i: nat)
    requires Distinct(added) && kept !! Elements(added) && i < |added|
    ensures added[i] !in kept && added[i] in Elements(added[..i + 1])
    ensures kept + Elements(added[..i + 1]) - {added[i]} == kept + Elements(added[..i])
    ensures Unstaged(kept, added[..i + 1]) == [kept + Elements(added[..i])] + Unstaged(kept, added[..i])
  {
    ElementsStep(added, i);
    Fresh(added, i);
    assert added[i] in Elements(added) && added[..i + 1][..i] == added[..i];
  }

  lemma OneMoreState(states: seq<set<Cidr>>, state: set<Cidr>, rest: seq<set<Cidr>>)
    ensures states + ([state] + rest) == (states + [state]) + rest
  {
  }

  lemma {:induction false} RestoredStates(kept: set<Cidr>, removed: seq<Cidr>)
    ensures Holds(Restored(kept, removed), kept)
  {
    if removed != [] {
      RestoredStates(kept, removed[..|removed| - 1]);
    }
  }

  /** The states all hold what was not removed, and one of them holds nothing else, if anything was added. */
  lemma LowestState(previous: set<Cidr>, added: seq<Cidr>, removed: seq<Cidr>)
    ensures Holds(UndoStates(previous, added, removed), previous - Elements(removed))
    ensures added != [] ==> previous - Elements(removed) in UndoStates(previous, added, removed)
  {
    UnstagedStates(previous - Elements(removed), added);
    RestoredStates(previous - Elements(removed), removed);
  }

  /** If nothing had to be added, the new list is still there. */
  lemma NothingAdded(previous: set<Cidr>, target: set<Cidr>, removed: seq<Cidr>, address: u32)
    requires Stopped(previous, target, [], removed) && Blocked(previous, address) && Blocked(target, address)
    ensures Blocked(previous - Elements(removed), address)
  {
    var kept := previous - Elements(removed);
    if removed == [] {
      assert kept == previous;
    } else {
      forall c | c in target ensures c in kept {
        assert c !in Elements([]);
      }
    }
  }

  /**
    An address on both lists stays blocked while a replacement is undone exactly
    when an entry of the old list that had not been removed covers it.
   */
  lemma UndoCovers(previous: set<Cidr>, target: set<Cidr>, added: seq<Cidr>, removed: seq<Cidr>, address: u32)
    requires Stopped(previous, target, added, removed) && Blocked(previous, address) && Blocked(target, address)
    ensures Throughout(UndoStates(previous, added, removed), address) <==>
            Blocked(previous - Elements(removed), address)
  {
    var kept, states := previous - Elements(removed), UndoStates(previous, added, removed);
    LowestState(previous, added, removed);
    if Blocked(kept, address) {
      HoldsBlocks(states, kept, address);
    } else if added == [] {
      NothingAdded(previous, target, removed, address);
    }
  }

  lemma {:induction false} Arranged(s: set<Cidr>) returns (r: seq<Cidr>)
    ensures Distinct(r) && Elements(r) == s
    decreases s
  {
    r := [];
    if s != {} {
      var c :| c in s;
      r := Arranged(s - {c});
      assert c !in Elements(r) && Elements(r + [c]) == Elements(r) + {c};
      r := r + [c];
    }
  }

  /**
    Wherever the forward pass stops, the address stays blocked while it is
    undone: exactly if some entry common to both lists covers it.
   */
  lemma UndoCoversAlways(previous: set<Cidr>, target: set<Cidr>, address: u32)
    requires Blocked(previous, address) && Blocked(target, address)
    ensures (forall added, removed :: Stopped(previous, target, added, removed) ==>
               Throughout(UndoStates(previous, added, removed), address)) <==>
            Blocked(previous * target, address)
  {
    if Blocked(previous * target, address) {
      forall added, removed | Stopped(previous, target, added, removed)
        ensures Throughout(UndoStates(previous, added, removed), address)
      {
        assert previous * target <= previous - Elements(removed);
        UndoCovers(previous, target, added, removed, address);
      }
    } else {
      var added := Arranged(target - previous);
      var removed := Arranged(previous - target);
      assert previous - Elements(removed) == previous * target;
      UndoCovers(previous, target, added, removed, address);
    }
  }

  /** Two lists of one network each: while the replacement is undone the map is empty. */
  lemma UndoUncovers(former: Cidr, latter: Cidr, address: u32)
    requires former != latter && Covers(former, address) && Covers(latter, address)
    ensures Stopped({former}, {latter}, [latter], [former]) && Blocked({former}, address) && Blocked({latter}, address)
    ensures UndoStates({former}, [latter], [former]) == [{}, {former}] && !Blocked({}, address)
  {
    var kept := {former} - Elements([former]);
    assert kept == {} && Elements([]) == {} && Elements([former]) == {former} && Elements([latter]) == {latter};
    assert [latter][..0] == [] && [former][..0] == [];
    assert kept + Elements([]) == {} && kept + Elements([former]) == {former};
    assert Unstaged(kept, [latter]) == [kept + Elements([])] + Unstaged(kept, []);
    assert Restored(kept, [former]) == Restored(kept, []) + [kept + Elements([former])];
  }

  class RiskMap {
    var entries: set<Cidr>
    var active: bool
    /** Whether the map takes one more entry. */
    const admits: set<Cidr> -> bool
    /** Number of map operations so far. */
    var clock: nat
    /** The states after each forward step. */
    var steps: seq<set<Cidr>>
    /** The states after each step of undoing. */
    var undone: seq<set<Cidr>>

    constructor (capacity: nat, entries: set<Cidr>, active: bool)
      ensures (forall s :: admits(s) <==> |s| < capacity) && this.entries == entries && this.active == active
      ensures clock == 0 && steps == [] && undone == []
    {
      admits := s => |s| < capacity;
      this.entries, this.active, clock, steps, undone := entries, active, 0, [], [];
    }

    method Set(c: Cidr, faults: nat -> bool) returns (ok: bool)
      modifies this`entries, this`clock
      ensures clock == old(clock) + 1
      ensures ok == (!faults(old(clock)) && (c in old(entries) || admits(old(entries))))
      ensures entries == if ok then old(entries) + {c} else old(entries)
    {
      ok := !faults(clock) && (c in entries || admits(entries));
      if ok {
        entries := entries + {c};
      }
      clock := clock + 1;
    }

    method Delete(c: Cidr, faults: nat -> bool) returns (ok: bool)
      modifies this`entries, this`clock
      ensures clock == old(clock) + 1
      ensures ok == (!faults(old(clock)) && c in old(entries))
      ensures entries == if ok then old(entries) - {c} else old(entries)
    {
      ok := !faults(clock) && c in entries;
      if ok {
        entries := entries - {c};
      }
      clock := clock + 1;
    }

    method SetActive(on: bool, faults: nat -> bool) returns (ok: bool)
      modifies this`active, this`clock
      ensures clock == old(clock) + 1
      ensures ok == !faults(old(clock)) && active == if ok then on else old(active)
    {
      ok := !faults(clock);
      if ok {
        active := on;
      }
      clock := clock + 1;
    }

    /** One forward insertion; it fails on a fault or a full map. */
    method Insert(c: Cidr, faults: nat -> bool) returns (ok: bool)
      modifies this`entries, this`clock, this`steps
      ensures clock == old(clock) + 1 && steps == old(steps) + [entries]
      ensures ok == (!faults(old(clock)) && (c in old(entries) || admits(old(entries))))
      ensures entries == if ok then old(entries) + {c} else old(entries)
    {
      ok := Set(c, faults);
      steps := steps + [entries];
    }

    /** Insert what is new, until an insertion fails. */
    method Stage(todo: seq<Cidr>, ghost target: set<Cidr>, faults: nat -> bool) returns (ok: bool, added: seq<Cidr>)
      modifies this`entries, this`clock, this`steps
      ensures |added| <= |todo| && added == todo[..|added|] && (ok <==> |added| == |todo|)
      ensures clock == old(clock) + |added| + if ok then 0 else 1
      ensures entries == old(entries) + Elements(added)
      ensures Fenced(old(steps), old(entries), target) ==> Fenced(steps, old(entries), target)
      ensures forall n :: old(clock) <= n < old(clock) + |added| ==> !faults(n)
      ensures !ok ==> faults(clock - 1) || (todo[|added|] !in entries && !admits(entries))
    {
      added := [];
      for i := 0 to |todo|
        invariant added == todo[..i] && entries == old(entries) + Elements(added)
        invariant clock == old(clock) + i && forall n :: old(clock) <= n < clock ==> !faults(n)
        invariant Fenced(old(steps), old(entries), target) ==> Fenced(steps, old(entries), target)
      {
        ElementsStep(todo, i);
        var done := Insert(todo[i], faults);
        if !done {
          return false, added;
        }
        added := added + [todo[i]];
      }
      return true, added;
    }

    /** Delete what is stale, until a deletion fails. */
    method Prune(todo: seq<Cidr>, ghost previous: set<Cidr>, ghost target: set<Cidr>, faults: nat -> bool)
        returns (ok: bool, removed: seq<Cidr>)
      requires Distinct(todo) && (forall c :: c in todo ==> c in entries && c !in target) && target <= entries
      modifies this`entries, this`clock, this`steps
      ensures |removed| <= |todo| && removed == todo[..|removed|] && (ok <==> |removed| == |todo|)
      ensures clock == old(clock) + |removed| + if ok then 0 else 1
      ensures entries == old(entries) - Elements(removed)
      ensures Fenced(old(steps), previous, target) ==> Fenced(steps, previous, target)
      ensures forall n :: old(clock) <= n < old(clock) + |removed| ==> !faults(n)
      ensures !ok ==> faults(clock - 1)
    {
      removed := [];
      for i := 0 to |todo|
        invariant removed == todo[..i] && entries == old(entries) - Elements(removed)
        invariant clock == old(clock) + i && forall n :: old(clock) <= n < clock ==> !faults(n)
        invariant Fenced(old(steps), previous, target) ==> Fenced(steps, previous, target)
      {
        ElementsStep(todo, i);
        assert todo[i] in entries;
        var done := Delete(todo[i], faults);
        steps := steps + [entries];
        if !done {
          return false, removed;
        }
        removed := removed + [todo[i]];
      }
      return true, removed;
    }

    /** One deletion while undoing. */
    method Retract(c: Cidr, faults: nat -> bool) returns (ok: bool)
      modifies this`entries, this`clock, this`undone
      ensures clock == old(clock) + 1 && undone == old(undone) + [entries]
      ensures ok == (!faults(old(clock)) && c in old(entries))
      ensures entries == if ok then old(entries) - {c} else old(entries)
    {
      ok := Delete(c, faults);
      undone := undone + [entries];
    }

    /**
      Undo the staging, newest first; each deletion that fails is an error, and
      the first is a fault.  What was neither added nor removed stays.
     */
    method Unstage(added: seq<Cidr>, ghost kept: set<Cidr>, faults: nat -> bool)
        returns (errors: nat, ghost culprit: nat)
      requires Distinct(added) && entries == kept + Elements(added) && kept !! Elements(added) && undone == []
      modifies this`entries, this`clock, this`undone
      ensures clock >= old(clock) && kept <= entries && Holds(undone, kept)
      ensures errors == 0 ==> entries == kept && undone == Unstaged(kept, added)
      ensures errors > 0 ==> old(clock) <= culprit < clock && faults(culprit)
    {
      errors, culprit := 0, 0;
      var i := |added|;
      assert added[..|added|] == added;
      while i > 0
        invariant 0 <= i <= |added|
        invariant clock >= old(clock) && kept <= entries && Holds(undone, kept)
        invariant errors == 0 ==> entries == kept + Elements(added[..i])
        invariant errors == 0 ==> Unstaged(kept, added) == undone + Unstaged(kept, added[..i])
        invariant errors > 0 ==> old(clock) <= culprit < clock && faults(culprit)
      {
        i := i - 1;
        UnstageStep(kept, added, i);
        OneMoreState(undone, kept + Elements(added[..i]), Unstaged(kept, added[..i]));
        var done := Retract(added[i], faults);
        if !done {
          if errors == 0 {
            culprit := clock - 1;
          }
          errors := errors + 1;
        }
      }
    }

    /** Put the stale entries back; with no error so far there is room, because the old list fitted. */
    method Restore(removed: seq<Cidr>, ghost clean: bool, ghost kept: set<Cidr>, faults: nat -> bool)
        returns (errors: nat, ghost culprit: nat)
      requires Distinct(removed) && kept !! Elements(removed) && kept <= entries && Holds(undone, kept)
      requires clean ==> entries == kept
      requires forall s :: s < kept + Elements(removed) ==> admits(s)
      modifies this`entries, this`clock, this`undone
      ensures clock >= old(clock) && Holds(undone, kept)
      ensures clean && errors == 0 ==>
                entries == kept + Elements(removed) && undone == old(undone) + Restored(kept, removed)
      ensures clean && errors > 0 ==> old(clock) <= culprit < clock && faults(culprit)
    {
      errors, culprit := 0, 0;
      for i := 0 to |removed|
        invariant clock >= old(clock) && kept <= entries && Holds(undone, kept)
        invariant clean && errors == 0 ==> entries == kept + Elements(removed[..i])
        invariant clean && errors == 0 ==> undone == old(undone) + Restored(kept, removed[..i])
        invariant clean && errors > 0 ==> old(clock) <= culprit < clock && faults(culprit)
      {
        ElementsStep(removed, i);
        Fresh(removed, i);
        assert removed[i] in Elements(removed) && removed[..i + 1][..i] == removed[..i];
        assert Elements(removed[..i]) <= Elements(removed);
        assert clean && errors == 0 ==> entries < kept + Elements(removed);
        var done := Set(removed[i], faults);
        undone := undone + [entries];
        if !done {
          if errors == 0 {
            culprit := clock - 1;
          }
          errors := errors + 1;
        }
      }
      assert removed[..|removed|] == removed;
    }

    /** Undo a failed replacement. */
    method Undo(added: seq<Cidr>, removed: seq<Cidr>, ghost previous: set<Cidr>, ghost target: set<Cidr>,
        wasActive: bool, faults: nat -> bool) returns (errors: nat, ghost culprit: nat)
      requires Stopped(previous, target, added, removed) && undone == []
      requires entries == previous + Elements(added) - Elements(removed)
      requires forall s :: s < previous ==> admits(s)
      modifies this`entries, this`active, this`clock, this`undone
      ensures clock >= old(clock) && Holds(undone, previous - Elements(removed))
      ensures errors == 0 ==>
                entries == previous && active == wasActive && undone == UndoStates(previous, added, removed)
      ensures errors > 0 ==> old(clock) <= culprit < clock && faults(culprit)
    {
      ghost var kept := previous - Elements(removed);
      assert kept + Elements(removed) == previous;
      errors, culprit := Unstage(added, kept, faults);
      var more, another := Restore(removed, errors == 0, kept, faults);
      if errors == 0 {
        culprit := another;
      }
      errors := errors + more;
      var done := SetActive(wasActive, faults);
      if !done {
        if errors == 0 {
          culprit := clock - 1;
        }
        errors := errors + 1;
      }
    }

    /** The forward steps: insert, delete, set the flag; stop at the first failure. */
    method Forward(target: set<Cidr>, faults: nat -> bool) returns (ok: bool, added: seq<Cidr>, removed: seq<Cidr>)
      requires steps == []
      modifies this`entries, this`active, this`clock, this`steps
      ensures Stopped(old(entries), target, added, removed) && clock == old(clock) + |added| + |removed| + 1
      ensures entries == old(entries) + Elements(added) - Elements(removed)
      ensures Fenced(steps, old(entries), target)
      ensures ok ==>
                && entries == target && active == (target != {}) && !faults(clock - 1)
                && Elements(added) == target - old(entries) && Elements(removed) == old(entries) - target
      ensures !ok ==> active == old(active)
      ensures !ok ==> faults(clock - 1) || (entries < old(entries) + target && !admits(entries))
      ensures forall n :: old(clock) <= n < clock - 1 ==> !faults(n)
    {
      var missing := Sequence(target - entries);
      var stale := Sequence(entries - target);
      ghost var previous := entries;
      removed := [];
      ok, added := Stage(missing, target, faults);
      SubElements(missing, |added|);
      if !ok {
        NextOut(missing, |added|, entries, previous, target);
        return;
      }
      assert missing[..|missing|] == missing;
      assert forall c :: c in stale ==> c in Elements(stale);
      ok, removed := Prune(stale, previous, target, faults);
      SubElements(stale, |removed|);
      if !ok {
        return;
      }
      assert stale[..|stale|] == stale;
      ok := SetActive(target != {}, faults);
    }

    /** The validated list is put in place, or the attempt undone. */
    method Replace(target: set<Cidr>, faults: nat -> bool)
        returns (errors: Option<nat>, ghost culprit: nat, ghost added: seq<Cidr>, ghost removed: seq<Cidr>)
      requires (forall s :: s < entries ==> admits(s)) && steps == [] && undone == []
      modifies this
      ensures Stopped(old(entries), target, added, removed) && Fenced(steps, old(entries), target)
      ensures errors.None? ==>
                && entries == target && active == (target != {}) && !faults(old(clock) + |added| + |removed|)
                && Elements(added) == target - old(entries) && Elements(removed) == old(entries) - target
      ensures errors.Some? ==> Holds(undone, old(entries) - Elements(removed))
      ensures errors == Some(0) ==>
                entries == old(entries) && active == old(active) && undone == UndoStates(old(entries), added, removed)
      ensures errors.Some? && errors.value > 0 ==>
                old(clock) + |added| + |removed| < culprit < clock && faults(culprit)
      ensures errors.Some? && (forall s :: s < old(entries) + target ==> admits(s)) ==>
                faults(old(clock) + |added| + |removed|)
    {
      culprit, errors := 0, None;
      var wasActive := active;
      ghost var previous := entries;
      var ok, ins, del := Forward(target, faults);
      added, removed := ins, del;
      if !ok {
        var n;
        n, culprit := Undo(ins, del, previous, target, wasActive, faults);
        errors := Some(n);
      }
    }

    /**
      `replace_all`.  Success means exactly the new list; a failed step whose
      undoing reports no error leaves exactly the old list and flag, through the
      states of `UndoStates`; an error while undoing is always a fault of the
      map, never lack of room, and what was neither added nor removed stays.
     */
    method ReplaceAll(items: seq<Item>, capacity: nat, faults: nat -> bool)
        returns (outcome: Outcome, ghost culprit: nat, ghost added: seq<Cidr>, ghost removed: seq<Cidr>)
      requires (forall s :: admits(s) <==> |s| < capacity) && |entries| <= capacity && steps == [] && undone == []
      modifies this
      ensures outcome.Rejected? <==> Invalid in items
      ensures outcome.Rejected? ==> entries == old(entries) && active == old(active) && clock == old(clock)
      ensures outcome.Replaced? ==> entries == Listed(items) && active == (entries != {}) && outcome.count == |entries|
      ensures outcome.Replaced? ==>
                && !faults(old(clock) + |added| + |removed|)
                && Elements(added) == entries - old(entries) && Elements(removed) == old(entries) - entries
      ensures !outcome.Rejected? ==>
                Stopped(old(entries), Listed(items), added, removed) && Fenced(steps, old(entries), Listed(items))
      ensures outcome == Failed(0) ==>
                entries == old(entries) && active == old(active) && undone == UndoStates(old(entries), added, removed)
      ensures outcome.Failed? ==> Holds(undone, old(entries) - Elements(removed))
      ensures outcome.Failed? && outcome.errors > 0 ==>
                old(clock) + |added| + |removed| < culprit < clock && faults(culprit)
      ensures outcome.Failed? && |old(entries) + Listed(items)| <= capacity ==> faults(old(clock) + |added| + |removed|)
    {
      culprit, added, removed := 0, [], [];
      var normal := Normalize(items);
      if normal.None? {
        return Rejected, culprit, added, removed;
      }
      var target := Elements(normal.value);
      ListedIs(items, normal.value);
      var errors;
      RoomBack(entries, capacity, admits);
      RoomBack(entries + target, capacity, admits);
      errors, culprit, added, removed := Replace(target, faults);
      outcome := if errors.Some? then Failed(errors.value) else Replaced(|target|);
    }
  }

  lemma Repeats(s: seq<Cidr>, c: Cidr)
    requires forall i :: 0 <= i < |s| ==> s[i] == c
    ensures |s| > 1 ==> !Distinct(s)
  {
    assert |s| > 1 ==> s[0] == s[1];
  }

  /** At most one entry. */
  lemma Single(s: seq<Cidr>, c: Cidr)
    requires Distinct(s) && Elements(s) <= {c}
    ensures |s| <= 1 && (s != [] ==> s == [c]) && (Elements(s) == {c} ==> s == [c])
  {
    forall i | 0 <= i < |s| ensures s[i] == c {
      assert s[i] in Elements(s);
    }
    Repeats(s, c);
    if Elements(s) == {c} {
      assert c in Elements(s);
    }
  }

  lemma OneListed(c: Cidr)
    ensures Listed([IPv4(c)]) == {c}
  {
    assert [IPv4(c)][0].IPv4?;
  }

  /** The gap on a map: the flag cannot be set, and while that is undone no entry is left. */
  method GapWhileUndoing(former: Cidr, latter: Cidr, address: u32) returns (m: RiskMap)
    requires former != latter && Covers(former, address) && Covers(latter, address)
    ensures m.undone == [{}, {former}] && m.entries == {former} && !Blocked(m.undone[0], address)
  {
    m := new RiskMap(2, {former}, true);
    var faults := (n: nat) => n == 2;
    OneListed(latter);
    var outcome, culprit, added, removed := m.ReplaceAll([IPv4(latter)], 2, faults);
    Single(added, latter);
    Single(removed, former);
    assert |{former} + {latter}| <= 2;
    assert outcome == Failed(0);
    UndoUncovers(former, latter, address);
  }

  method Sequence(s: set<Cidr>) returns (r: seq<Cidr>)
    ensures Distinct(r) && Elements(r) == s
  {
    r := [];
    var rest := s;
    while rest != {}
      invariant rest <= s && Distinct(r) && Elements(r) == s - rest
      decreases rest
    {
      var c :| c in rest;
      assert c !in Elements(r);
      assert Elements(r + [c]) == Elements(r) + {c};
      r := r + [c];
      rest := rest - {c};
    }
  }

  lemma SubElements(s: seq<Cidr>, n: nat)
    requires n <= |s| && Distinct(s)
    ensures Distinct(s[..n]) && Elements(s[..n]) <= Elements(s)
  {
  }

  /** An insertion that failed leaves the union incomplete. */
  lemma NextOut(missing: seq<Cidr>, n: nat, entries: set<Cidr>, previous: set<Cidr>, target: set<Cidr>)
    requires n < |missing| && Distinct(missing) && Elements(missing) == target - previous
    requires entries == previous + Elements(missing[..n])
    ensures entries < previous + target
  {
    Fresh(missing, n);
    SubElements(missing, n);
    assert missing[n] in Elements(missing);
    assert missing[n] in previous + target && missing[n] !in entries;
  }

  lemma ListedIs(items: seq<Item>, s: seq<Cidr>)
    requires forall c :: c in s <==> IPv4(c) in items
    ensures Listed(items) == Elements(s)
  {
  }

  /** A map that can hold a list has room for what is missing from it. */
  lemma RoomBack(all: set<Cidr>, capacity: nat, admits: set<Cidr> -> bool)
    requires forall s :: admits(s) <==> |s| < capacity
    ensures |all| <= capacity ==> forall s :: s < all ==> admits(s)
  {
    forall s | s < all ensures |s| < |all| {
      var c :| c in all && c !in s;
      SmallerSubset(s, all, c);
    }
  }

  lemma Fresh(s: seq<Cidr>, i: nat)
    requires Distinct(s) && i < |s|
    ensures s[i] !in Elements(s[..i])
  {
  }
}
