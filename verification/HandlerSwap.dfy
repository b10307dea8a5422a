/**
  Replacing the program behind one program-array entry.  Every external step
  may fail; a failed step changes nothing.  A program stays loaded only while
  some pin names it, so the entry must always name a pinned program.
 */
module HandlerSwap {
  import opened Words

  type Id = nat

  datatype Name = Candidate | Live | Backup

  /**
    A pin, or for the directory form a directory: `None` is a path that exists
    without holding a readable program.
   */
  type Pins = map<Name, Option<Id>>

  datatype State = State(entry: Option<Id>, pins: Pins)

  /** The program named by the entry has a pin. */
  ghost predicate Pinned(s: State)
  {
    s.entry.Some? ==> exists n :: n in s.pins && s.pins[n] == s.entry
  }

  ghost predicate AlwaysPinned(log: seq<State>) { forall i :: 0 <= i < |log| ==> Pinned(log[i]) }

  /**
    Which external steps fail.  A failing array lookup reports an empty entry;
    every other failing step raises.
   */
  datatype Faults = Faults(
    readCandidate: bool, readOld: bool, lookup: bool,
    update: bool, verifyUpdate: bool, moveOld: bool, moveCandidate: bool, verifyMove: bool, readLive: bool,
    dropBackup: bool, restore: bool, verifyRestore: bool, clear: bool, lookupCleared: bool,
    undoCandidate: bool, undoOld: bool, dropCandidate: bool)

  /** The entry is empty or on the program that the live pin names. */
  predicate Consistent(s: State)
  {
    s.entry.Some? ==> Live in s.pins && s.pins[Live] == s.entry
  }

  function Holds(pins: Pins, n: Name): (id: Option<Id>) { if n in pins then pins[n] else None }

  /**
    The checks before anything is touched: both programs can be read, and the
    entry seen is empty or the old program.
   */
  predicate Admitted(s: State, f: Faults, oldExists: bool)
  {
    && !f.readCandidate && Holds(s.pins, Candidate).Some?
    && (oldExists ==> !f.readOld && Holds(s.pins, Live).Some?)
    && (f.lookup || s.entry.None? || (oldExists && s.entry == Holds(s.pins, Live)))
  }

  /** No step up to the last check fails. */
  predicate Smooth(f: Faults, oldMoves: bool)
  {
    !f.update && !f.verifyUpdate && !(oldMoves && f.moveOld) && !f.moveCandidate && !f.verifyMove && !f.readLive
  }

  predicate RecoverySound(f: Faults)
  {
    !f.restore && !f.verifyRestore && !f.clear && !f.undoCandidate && !f.undoOld && !f.dropCandidate
  }

  /** The pin names after the moves made so far. */
  function Moved(pins: Pins, movedOld: bool, movedCandidate: bool): (r: Pins)
  {
    var a := if movedOld && Live in pins then pins[Backup := pins[Live]] - {Live} else pins;
    if movedCandidate && Candidate in a then a[Live := a[Candidate]] - {Candidate} else a
  }

  /** How far a switch got before it stopped. */
  datatype Progress = Progress(switched: bool, movedOld: bool, movedCandidate: bool)

  predicate Possible(pins: Pins, p: Progress)
  {
    && Candidate in pins && pins[Candidate].Some? && Backup !in pins
    && (p.movedOld ==> p.switched && Live in pins)
    && (p.movedCandidate ==> p.switched && (Live in pins ==> p.movedOld))
  }

  /** The state a stopped switch leaves for recovery. */
  function Reached(s: State, p: Progress): (r: State)
    requires Possible(s.pins, p)
  {
    State(if p.switched then s.pins[Candidate] else s.entry, Moved(s.pins, p.movedOld, p.movedCandidate))
  }

  /** The entry once recovery has put it back. */
  function Restored(s: State, p: Progress): (entry: Option<Id>)
  {
    if p.switched then Holds(s.pins, Live) else s.entry
  }

  /** Recovery could not empty the entry, took a failed lookup for an empty one, and removed the candidate's pin. */
  predicate Deceived(s: State, p: Progress, f: Faults)
  {
    && p.switched && Holds(s.pins, Live).None? && f.clear && f.lookupCleared
    && !f.dropCandidate && (!p.movedCandidate || !f.undoCandidate)
  }

  /** The faults with which an admitted swap ends that way; `moves` says that something is in the candidate's place. */
  predicate Unpins(s: State, f: Faults, oldExists: bool, moves: bool)
  {
    && Admitted(s, f, oldExists) && Holds(s.pins, Live).None? && !f.update && !Smooth(f, moves)
    && f.clear && f.lookupCleared && !f.dropCandidate && (Stuck(f, moves) || !f.undoCandidate)
  }

  /** The candidate is not moved into place. */
  predicate Stuck(f: Faults, moves: bool) { f.verifyUpdate || (moves && f.moveOld) || f.moveCandidate }

  lemma Unpinned(s: State)
    requires s.entry.Some? && Holds(s.pins, Candidate) != s.entry && Holds(s.pins, Live) != s.entry
    requires Holds(s.pins, Backup) != s.entry
    ensures !Pinned(s)
  {
    forall n | n in s.pins ensures s.pins[n] != s.entry {
      assert n == Candidate || n == Live || n == Backup;
    }
  }

  /** Both programs still have a pin, the old one apart from the candidate's. */
  predicate Kept(pins: Pins, candidate: Option<Id>, oldId: Option<Id>)
  {
    && (Holds(pins, Candidate) == candidate || Holds(pins, Live) == candidate)
    && (oldId.Some? ==> Holds(pins, Live) == oldId || Holds(pins, Backup) == oldId)
  }

  class Switch {
    var entry: Option<Id>
    var pins: Pins
    /** Every state so far. */
    var log: seq<State>

    constructor (entry: Option<Id>, pins: Pins)
      ensures this.entry == entry && this.pins == pins && log == [State(entry, pins)]
    {
      this.entry, this.pins, log := entry, pins, [State(entry, pins)];
    }

    function Now(): (s: State)
      reads this
    {
      State(entry, pins)
    }

    method Update(n: Name, fails: bool) returns (ok: bool)
      modifies this
      ensures ok == (!fails && Holds(pins, n).Some?)
      ensures pins == old(pins) && entry == (if ok then pins[n] else old(entry))
      ensures log == old(log) + [Now()]
    {
      ok := !fails && Holds(pins, n).Some?;
      if ok {
        entry := pins[n];
      }
      log := log + [State(entry, pins)];
    }

    method Clear(fails: bool) returns (ok: bool)
      modifies this
      ensures ok == (!fails && old(entry).Some?)
      ensures pins == old(pins) && entry == (if fails then old(entry) else None)
      ensures log == old(log) + [Now()]
    {
      ok := !fails && entry.Some?;
      if ok {
        entry := None;
      }
      log := log + [State(entry, pins)];
    }

    method Rename(a: Name, b: Name, fails: bool) returns (ok: bool)
      requires a != b
      modifies this
      ensures ok == (!fails && a in old(pins))
      ensures entry == old(entry) && pins == (if ok then old(pins)[b := old(pins)[a]] - {a} else old(pins))
      ensures log == old(log) + [Now()]
    {
      ok := !fails && a in pins;
      if ok {
        pins := pins[b := pins[a]] - {a};
      }
      log := log + [State(entry, pins)];
    }

    method Unlink(n: Name, fails: bool) returns (ok: bool)
      modifies this
      ensures ok == (!fails && n in old(pins))
      ensures entry == old(entry) && pins == (if ok then old(pins) - {n} else old(pins))
      ensures log == old(log) + [Now()]
    {
      ok := !fails && n in pins;
      if ok {
        pins := pins - {n};
      }
      log := log + [State(entry, pins)];
    }

    /**
      The switch proper, up to the last check: update, verify, move the old pin
      aside, move the candidate in, verify.
     */
    method Commit(f: Faults, candidateId: Id) returns (ok: bool, p: Progress)
      requires Candidate in pins && pins[Candidate] == Some(candidateId) && Backup !in pins
      requires AlwaysPinned(log)
      modifies this
      ensures Possible(old(pins), p) && Now() == Reached(old(Now()), p)
      ensures ok ==> p == Progress(true, Live in old(pins), true)
      ensures ok == Smooth(f, Live in old(pins)) && p.switched == !f.update
      ensures p.movedCandidate == (!f.update && !Stuck(f, Live in old(pins)))
      ensures Pinned(old(Now())) ==> AlwaysPinned(log)
    {
      p := Progress(false, false, false);
      ghost var before := Now();
      ok := Update(Candidate, f.update);
      if !ok {
        return;
      }
      p := p.(switched := true);
      assert Pinned(Now());
      if f.verifyUpdate || entry != Some(candidateId) {
        return false, p;
      }
      if Live in pins {
        ok := Rename(Live, Backup, f.moveOld);
        assert Pinned(Now()) by { assert pins[Candidate] == entry; }
        if !ok {
          return;
        }
        p := p.(movedOld := true);
      }
      ok := Rename(Candidate, Live, f.moveCandidate);
      assert Pinned(Now()) by { assert Holds(pins, Candidate) == entry || Holds(pins, Live) == entry; }
      if !ok {
        return;
      }
      p := p.(movedCandidate := true);
      ok := !f.verifyMove && entry == Some(candidateId) && !f.readLive && pins[Live] == Some(candidateId);
    }

    /** `_rollback_prog_array_entry`: back to the old program, or to nothing if there was none. */
    method Rollback(f: Faults, oldPin: Name, oldId: Option<Id>) returns (failed: bool)
      requires oldId.Some? ==> Holds(pins, oldPin) == oldId
      modifies this
      ensures pins == old(pins) && log == old(log) + [Now()]
      ensures failed ==> entry == old(entry) || entry == oldId
      ensures !failed ==> entry == oldId || (oldId.None? && f.clear && f.lookupCleared && entry == old(entry))
      ensures !f.restore && !f.verifyRestore && !f.clear ==> !failed
      ensures oldId.None? && f.clear && f.lookupCleared ==> !failed && entry == old(entry)
    {
      if oldId.None? {
        var cleared := Clear(f.clear);
        failed := !cleared && !f.lookupCleared && entry.Some?;
      } else {
        var updated := Update(oldPin, f.restore);
        failed := !updated || f.verifyRestore || entry != oldId;
      }
    }

    /** The pin names go back as far as the renames succeed; neither program loses its last pin. */
    method UndoMoves(f: Faults, ghost s: State, p: Progress, ghost oldId: Option<Id>)
      requires Possible(s.pins, p) && pins == Reached(s, p).pins && oldId == Holds(s.pins, Live)
      modifies this
      ensures entry == old(entry) && Kept(pins, s.pins[Candidate], oldId)
      ensures AlwaysPinned(old(log)) && (entry.None? || entry == s.pins[Candidate] || entry == oldId) ==>
              AlwaysPinned(log)
      ensures !f.undoCandidate && !f.undoOld ==> pins == s.pins
      ensures oldId.None? && (!p.movedCandidate || !f.undoCandidate) ==>
              Holds(pins, Candidate) == s.pins[Candidate] && Holds(pins, Live).None? && Holds(pins, Backup).None?
      ensures oldId.None? && p.movedCandidate && f.undoCandidate ==>
              Holds(pins, Live) == s.pins[Candidate] && Candidate !in pins
    {
      if p.movedCandidate && Live in pins {
        var _ := Rename(Live, Candidate, f.undoCandidate);
        assert Kept(pins, s.pins[Candidate], oldId);
      }
      if p.movedOld && Backup in pins && Live !in pins {
        var _ := Rename(Backup, Live, f.undoOld);
        assert Kept(pins, s.pins[Candidate], oldId);
      }
    }

    /** The exception handler shared by both forms; `s` is the state before the switch, `p` how far it got. */
    method Recover(f: Faults, ghost s: State, p: Progress, oldId: Option<Id>)
      requires Possible(s.pins, p) && Now() == Reached(s, p)
      requires oldId == Holds(s.pins, Live)
      modifies this
      ensures AlwaysPinned(old(log)) && Consistent(s) ==> (AlwaysPinned(log) <==> !Deceived(s, p, f))
      ensures RecoverySound(f) ==> Now() == State(Restored(s, p), s.pins - {Candidate})
    {
      var failed := false;
      assert Kept(pins, s.pins[Candidate], oldId);
      if p.switched {
        failed := Rollback(f, if p.movedOld then Backup else Live, oldId);
      }
      UndoMoves(f, s, p, oldId);
      if failed {
        return;
      }
      if Candidate in pins {
        var _ := Unlink(Candidate, f.dropCandidate);
      }
      if Deceived(s, p, f) {
        Unpinned(Now());
        assert log[|log| - 1] == Now();
      } else {
        assert Consistent(s) && entry.Some? ==>
            Holds(pins, Live) == entry || Holds(pins, Backup) == entry || Holds(pins, Candidate) == entry;
      }
    }

    method Inspect(f: Faults, oldExists: bool) returns (ok: bool, candidateId: Id, oldId: Option<Id>)
      requires oldExists ==> Live in pins
      ensures ok == Admitted(Now(), f, oldExists)
      ensures ok ==> Holds(pins, Candidate) == Some(candidateId) && oldId == (if oldExists then pins[Live] else None)
    {
      candidateId, oldId := 0, None;
      if f.readCandidate || Holds(pins, Candidate).None? {
        return false, candidateId, oldId;
      }
      candidateId := pins[Candidate].value;
      if oldExists {
        if f.readOld || pins[Live].None? {
          return false, candidateId, oldId;
        }
        oldId := pins[Live];
      }
      var active := if f.lookup then None else entry;
      ok := active.None? || (oldId.Some? && active == oldId);
    }

    /** Give up before anything was switched: only the candidate goes. */
    method Refuse(f: Faults)
      modifies this
      ensures entry == old(entry) && pins == (if f.dropCandidate then old(pins) else old(pins) - {Candidate})
      ensures AlwaysPinned(old(log)) && Consistent(old(Now())) ==> AlwaysPinned(log)
    {
      if Candidate in pins {
        var _ := Unlink(Candidate, f.dropCandidate);
        assert Consistent(old(Now())) && entry.Some? ==> pins[Live] == entry;
      } else {
        assert pins - {Candidate} == pins;
      }
    }

    /** What an admitted swap that did not succeed leaves behind. */
    ghost predicate Undone(s: State, f: Faults, oldExists: bool)
      reads this
    {
      && (RecoverySound(f) ==> pins == s.pins - {Candidate})
      && (RecoverySound(f) ==> entry == if f.update then s.entry else Holds(s.pins, Live))
      && (Consistent(s) ==> (AlwaysPinned(log) <==> !Unpins(s, f, oldExists, Live in s.pins)))
    }

    /** The admitted part of the file form; failing to remove the old pin undoes the swap. */
    method FileAttempt(f: Faults, candidateId: Id, oldId: Option<Id>) returns (ok: bool)
      requires Admitted(Now(), f, Live in pins) && Holds(pins, Candidate) == Some(candidateId)
      requires Backup !in pins && oldId == Holds(pins, Live) && AlwaysPinned(log)
      modifies this
      ensures ok == (Smooth(f, Live in old(pins)) && !(Live in old(pins) && f.dropBackup))
      ensures ok ==> Now() == State(Some(candidateId), map[Live := Some(candidateId)])
      ensures ok && Consistent(old(Now())) ==> AlwaysPinned(log)
      ensures !ok ==> Undone(old(Now()), f, Live in old(pins))
    {
      ghost var s := Now();
      var p;
      ok, p := Commit(f, candidateId);
      if ok && p.movedOld {
        ok := Unlink(Backup, f.dropBackup);
        assert pins[Live] == entry;
      }
      if !ok {
        Recover(f, s, p, oldId);
      } else {
        forall n ensures n in pins <==> n == Live {
          assert n == Candidate || n == Live || n == Backup;
        }
      }
    }

    /** The admitted part of the directory form; an old generation that cannot be removed is retained. */
    method DirAttempt(f: Faults, candidateId: Id, oldId: Option<Id>) returns (ok: bool)
      requires Admitted(Now(), f, Holds(pins, Live).Some?) && Holds(pins, Candidate) == Some(candidateId)
      requires Backup !in pins && oldId == Holds(pins, Live) && AlwaysPinned(log)
      modifies this
      ensures ok == Smooth(f, Live in old(pins))
      ensures ok ==> entry == Some(candidateId) && Holds(pins, Live) == entry && Candidate !in pins
      ensures ok ==> if Live in old(pins) && f.dropBackup then Backup in pins && pins[Backup] == old(pins)[Live]
              else Backup !in pins
      ensures ok && Consistent(old(Now())) ==> AlwaysPinned(log)
      ensures !ok ==> Undone(old(Now()), f, Holds(old(pins), Live).Some?)
    {
      ghost var s := Now();
      var p;
      ok, p := Commit(f, candidateId);
      if !ok {
        Recover(f, s, p, oldId);
        return;
      }
      if p.movedOld {
        var _ := Unlink(Backup, f.dropBackup);
        assert pins[Live] == entry;
      }
    }

    /**
      `_transactional_file_prog_swap`.  Success is exactly the absence of faults
      on an admitted state; the program the entry names is pinned at every step
      exactly unless a failed deletion was hidden by a failed lookup and the
      candidate's pin removed; a sound recovery leaves the old pin, no candidate,
      and the entry untouched or on the old program.
     */
    method FileSwap(f: Faults) returns (ok: bool)
      requires Backup !in pins && AlwaysPinned(log)
      modifies this
      ensures var s, moves := old(Now()), Live in old(pins);
              && (ok <==> Admitted(s, f, moves) && Smooth(f, moves) && !(moves && f.dropBackup))
              && (ok ==> Now() == State(s.pins[Candidate], map[Live := s.pins[Candidate]]))
              && (Consistent(s) ==> (AlwaysPinned(log) <==> !Unpins(s, f, moves, moves)))
              && (!ok && RecoverySound(f) ==> pins == s.pins - {Candidate})
              && (!ok && RecoverySound(f) ==>
                    entry == if Admitted(s, f, moves) && !f.update then Holds(s.pins, Live) else s.entry)
    {
      var oldExists := Live in pins;
      var good, candidateId, oldId := Inspect(f, oldExists);
      if !good {
        Refuse(f);
        return false;
      }
      ok := FileAttempt(f, candidateId, oldId);
    }

    /**
      `_transactional_dir_prog_swap`.  The live directory may exist without a
      program.
     */
    method DirSwap(f: Faults) returns (ok: bool)
      requires Backup !in pins && AlwaysPinned(log)
      modifies this
      ensures var s, moves, oldExists := old(Now()), Live in old(pins), Holds(old(pins), Live).Some?;
              && (ok <==> Admitted(s, f, oldExists) && Smooth(f, moves))
              && (ok ==> entry == s.pins[Candidate] && Holds(pins, Live) == entry && Candidate !in pins)
              && (ok ==> if moves && f.dropBackup then Backup in pins && pins[Backup] == s.pins[Live]
                  else Backup !in pins)
              && (Consistent(s) ==> (AlwaysPinned(log) <==> !Unpins(s, f, oldExists, moves)))
              && (!ok && RecoverySound(f) ==> pins == s.pins - {Candidate})
              && (!ok && RecoverySound(f) ==>
                    entry == if Admitted(s, f, oldExists) && !f.update then Holds(s.pins, Live) else s.entry)
    {
      var oldExists := Live in pins && pins[Live].Some?;
      var good, candidateId, oldId := Inspect(f, oldExists);
      if !good {
        Refuse(f);
        return false;
      }
      ok := DirAttempt(f, candidateId, oldId);
    }
  }
}
