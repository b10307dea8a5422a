/**
  The windowed limiter under concurrency: any number of requests on any number
  of CPUs interleave their lookups, creations, reads and compare-and-swaps on
  one key.  Every schedule is shown to be some serial history of the atomic
  limiter, up to drops that contention adds.
 */
module CasLimiter {
  import opened Words
  import opened SpanBound
  import opened RateLimiter

  /** Where a request stands in the retry loop. */
  datatype Pc =
    | Start
    | Lookup(attempt: nat)
    | Create(attempt: nat)
    | Read(attempt: nat)
    | Swap(attempt: nat, seen: u64, next: u64)
    | Done(v: Verdict)

  /** `born` is how many admissions the key had seen when the request arrived. */
  datatype Task = Task(req: Request, born: nat, pc: Pc)

  datatype Outcome = Admitted | OverLimit | Exhausted

  datatype Event = Event(id: nat, req: Request, outcome: Outcome)

  datatype System = System(cell: Option<u64>, tasks: map<nat, Task>, log: seq<Event>)

  datatype Action = Arrive(id: nat, req: Request) | Move(id: nat)

  function Admissions(log: seq<Event>): (n: nat)
  {
    if log == [] then 0
    else Admissions(log[..|log| - 1]) + if log[|log| - 1].outcome == Admitted then 1 else 0
  }

  function At(s: System, id: nat, pc: Pc): (s': System)
    requires id in s.tasks
  {
    s.(tasks := s.tasks[id := s.tasks[id].(pc := pc)])
  }

  function Finish(s: System, id: nat, cell: Option<u64>, o: Outcome): (s': System)
    requires id in s.tasks
  {
    At(s, id, Done(if o == Admitted then Pass else Drop)).(cell := cell, log := s.log + [Event(id, s.tasks[id].req, o)])
  }

  function Retry(s: System, id: nat, attempt: nat): (s': System)
    requires id in s.tasks
  {
    if attempt + 1 >= RETRIES then Finish(s, id, s.cell, Exhausted) else At(s, id, Lookup(attempt + 1))
  }

  /** One atomic action of one CPU. */
  function Next(c: Config, s: System, a: Action): (s': System)
  {
    match a
    case Arrive(id, req) =>
      if id in s.tasks then s
      else s.(tasks := s.tasks[id := Task(req, Admissions(s.log), Start)])
    case Move(id) =>
      if id !in s.tasks then s
      else
        var req := s.tasks[id].req;
        match s.tasks[id].pc
        case Start => if req.inc > c.limit then Finish(s, id, s.cell, OverLimit) else At(s, id, Lookup(0))
        case Lookup(k) => At(s, id, if s.cell.None? then Create(k) else Read(k))
        case Create(k) =>
          if s.cell.None? then Finish(s, id, Decide(c, None, req.now, req.inc), Admitted)
          else Retry(s, id, k)
        case Read(k) =>
          if s.cell.None? then s
          else
            var next := Decide(c, s.cell, req.now, req.inc);
            if next.None? then Finish(s, id, s.cell, OverLimit) else At(s, id, Swap(k, s.cell.value, next.value))
        case Swap(k, seen, next) =>
          if s.cell == Some(seen) then Finish(s, id, Some(next), Admitted) else Retry(s, id, k)
        case Done(_) => s
  }

  function Exec(c: Config, acts: seq<Action>): (s: System)
  {
    if acts == [] then System(None, map[], []) else Next(c, Exec(c, acts[..|acts| - 1]), acts[|acts| - 1])
  }

  // ---------------------------------------------------------------- the serial history

  /** The word the atomic limiter holds after serving the log's admissions in order. */
  function CellAfter(c: Config, log: seq<Event>): (cell: Option<u64>)
  {
    if log == [] then None
    else
      var e := log[|log| - 1];
      var before := CellAfter(c, log[..|log| - 1]);
      if e.outcome == Admitted then Decide(c, before, e.req.now, e.req.inc) else before
  }

  /** Each admission and each limit drop is what the atomic limiter answers at that point of the log. */
  ghost predicate Serial(c: Config, log: seq<Event>)
  {
    forall i :: 0 <= i < |log| ==>
      && (log[i].outcome == Admitted ==> Decide(c, CellAfter(c, log[..i]), log[i].req.now, log[i].req.inc).Some?)
      && (log[i].outcome == OverLimit ==> Decide(c, CellAfter(c, log[..i]), log[i].req.now, log[i].req.inc).None?)
  }

  /** A request is in the log exactly once when it has returned, with the verdict it returned, and never before. */
  ghost predicate OncePerRequest(s: System)
  {
    && (forall i :: 0 <= i < |s.log| ==>
          && s.log[i].id in s.tasks
          && s.tasks[s.log[i].id].req == s.log[i].req
          && s.tasks[s.log[i].id].pc == Done(if s.log[i].outcome == Admitted then Pass else Drop))
    && (forall i, j :: 0 <= i < j < |s.log| ==> s.log[i].id != s.log[j].id)
    && (forall id :: id in s.tasks && s.tasks[id].pc.Done? ==> exists i :: 0 <= i < |s.log| && s.log[i].id == id)
  }

  /** How many rival admissions a request at this point must have met. */
  ghost predicate Contended(c: Config, s: System, t: Task)
  {
    match t.pc
    case Start => Admissions(s.log) >= t.born
    case Lookup(k) => t.req.inc <= c.limit && Admissions(s.log) >= t.born + k
    case Create(k) => t.req.inc <= c.limit && Admissions(s.log) >= t.born + k + if s.cell.Some? then 1 else 0
    case Read(k) => s.cell.Some? && Admissions(s.log) >= t.born + k
    case Swap(k, seen, next) =>
      && Decide(c, Some(seen), t.req.now, t.req.inc) == Some(next)
      && Admissions(s.log) >= t.born + k + if s.cell != Some(seen) then 1 else 0
    case Done(_) => true
  }

  ghost predicate AllContended(c: Config, s: System)
  {
    forall id :: id in s.tasks ==> Contended(c, s, s.tasks[id])
  }

  /** Nobody runs out of attempts before that many rivals were admitted after its arrival. */
  ghost predicate ExhaustionEarned(s: System)
  {
    forall i :: 0 <= i < |s.log| && s.log[i].outcome == Exhausted && s.log[i].id in s.tasks ==>
      Admissions(s.log[..i]) >= s.tasks[s.log[i].id].born + RETRIES
  }

  ghost predicate Linearized(c: Config, s: System)
  {
    && s.cell == CellAfter(c, s.log)
    && Serial(c, s.log)
    && OncePerRequest(s)
    && AllContended(c, s)
    && ExhaustionEarned(s)
  }

  lemma Snoc(c: Config, log: seq<Event>, e: Event)
    ensures (log + [e])[..|log|] == log
    ensures forall i :: 0 <= i <= |log| ==> (log + [e])[..i] == log[..i]
    ensures Admissions(log + [e]) == Admissions(log) + if e.outcome == Admitted then 1 else 0
    ensures CellAfter(c, log + [e]) ==
            if e.outcome == Admitted then Decide(c, CellAfter(c, log), e.req.now, e.req.inc) else CellAfter(c, log)
  {
  }

  lemma FinishOnce(s: System, id: nat, cell: Option<u64>, o: Outcome)
    requires OncePerRequest(s) && id in s.tasks && !s.tasks[id].pc.Done?
    ensures OncePerRequest(Finish(s, id, cell, o))
  {
    var s' := Finish(s, id, cell, o);
    assert s'.log[|s.log|].id == id;
    forall x | x in s'.tasks && s'.tasks[x].pc.Done? ensures exists i :: 0 <= i < |s'.log| && s'.log[i].id == x {
      if x != id {
        var i :| 0 <= i < |s.log| && s.log[i].id == x;
        assert s'.log[i].id == x;
      }
    }
  }

  lemma FinishContended(c: Config, s: System, id: nat, cell: Option<u64>, o: Outcome)
    requires AllContended(c, s) && id in s.tasks
    requires if o == Admitted then cell.Some? else cell == s.cell
    ensures AllContended(c, Finish(s, id, cell, o))
  {
  }

  /** The answer at the moment of return, as the atomic limiter would give it, or an earned exhaustion. */
  ghost predicate Warranted(c: Config, s: System, id: nat, cell: Option<u64>, o: Outcome)
    requires id in s.tasks
  {
    var d := Decide(c, s.cell, s.tasks[id].req.now, s.tasks[id].req.inc);
    match o
    case Admitted => d.Some? && cell == d
    case OverLimit => d.None? && cell == s.cell
    case Exhausted => cell == s.cell && Admissions(s.log) >= s.tasks[id].born + RETRIES
  }

  lemma SerialSnoc(c: Config, log: seq<Event>, e: Event)
    requires Serial(c, log)
    requires e.outcome == Admitted ==> Decide(c, CellAfter(c, log), e.req.now, e.req.inc).Some?
    requires e.outcome == OverLimit ==> Decide(c, CellAfter(c, log), e.req.now, e.req.inc).None?
    ensures Serial(c, log + [e])
  {
    Snoc(c, log, e);
    assert log[..|log|] == log;
  }

  lemma FinishEarned(c: Config, s: System, id: nat, cell: Option<u64>, o: Outcome)
    requires ExhaustionEarned(s) && id in s.tasks
    requires o == Exhausted ==> Admissions(s.log) >= s.tasks[id].born + RETRIES
    ensures ExhaustionEarned(Finish(s, id, cell, o))
  {
    Snoc(c, s.log, Event(id, s.tasks[id].req, o));
    assert s.log[..|s.log|] == s.log;
  }

  /** Returning with a warranted answer keeps the history serial. */
  lemma FinishLinearized(c: Config, s: System, id: nat, cell: Option<u64>, o: Outcome)
    requires Linearized(c, s) && id in s.tasks && !s.tasks[id].pc.Done?
    requires Warranted(c, s, id, cell, o)
    ensures Linearized(c, Finish(s, id, cell, o))
  {
    FinishOnce(s, id, cell, o);
    FinishContended(c, s, id, cell, o);
    FinishEarned(c, s, id, cell, o);
    SerialSnoc(c, s.log, Event(id, s.tasks[id].req, o));
    Snoc(c, s.log, Event(id, s.tasks[id].req, o));
  }

  lemma AtContended(c: Config, s: System, id: nat, pc: Pc)
    requires AllContended(c, s) && id in s.tasks && Contended(c, s, s.tasks[id].(pc := pc))
    ensures AllContended(c, At(s, id, pc))
  {
  }

  lemma AtLinearized(c: Config, s: System, id: nat, pc: Pc)
    requires Linearized(c, s) && id in s.tasks && !s.tasks[id].pc.Done? && !pc.Done?
    requires Contended(c, s, s.tasks[id].(pc := pc))
    ensures Linearized(c, At(s, id, pc))
  {
    var s' := At(s, id, pc);
    AtContended(c, s, id, pc);
    forall x | x in s'.tasks && s'.tasks[x].pc.Done? ensures exists i :: 0 <= i < |s'.log| && s'.log[i].id == x {
      var i :| 0 <= i < |s.log| && s.log[i].id == x;
    }
  }

  lemma RetryLinearized(c: Config, s: System, id: nat, k: nat)
    requires Linearized(c, s) && id in s.tasks && !s.tasks[id].pc.Done? && s.tasks[id].req.inc <= c.limit
    requires Admissions(s.log) >= s.tasks[id].born + k + 1
    ensures Linearized(c, Retry(s, id, k))
  {
    if k + 1 >= RETRIES {
      FinishLinearized(c, s, id, s.cell, Exhausted);
    } else {
      AtLinearized(c, s, id, Lookup(k + 1));
    }
  }

  lemma ArriveLinearized(c: Config, s: System, id: nat, req: Request)
    requires Linearized(c, s) && id !in s.tasks
    ensures Linearized(c, Next(c, s, Arrive(id, req)))
  {
    var s' := Next(c, s, Arrive(id, req));
    assert OncePerRequest(s') by {
      forall x | x in s'.tasks && s'.tasks[x].pc.Done? ensures exists i :: 0 <= i < |s'.log| && s'.log[i].id == x {
        var i :| 0 <= i < |s.log| && s.log[i].id == x;
      }
    }
    forall x | x in s'.tasks ensures Contended(c, s', s'.tasks[x]) {
      assert x != id ==> Contended(c, s, s.tasks[x]);
    }
  }

  lemma MoveLinearized(c: Config, s: System, id: nat)
    requires Linearized(c, s) && id in s.tasks
    ensures Linearized(c, Next(c, s, Move(id)))
  {
    var t := s.tasks[id];
    assert Contended(c, s, t);
    match t.pc
    case Start =>
      if t.req.inc > c.limit {
        FinishLinearized(c, s, id, s.cell, OverLimit);
      } else {
        AtLinearized(c, s, id, Lookup(0));
      }
    case Lookup(k) => AtLinearized(c, s, id, if s.cell.None? then Create(k) else Read(k));
    case Create(k) =>
      if s.cell.None? {
        FinishLinearized(c, s, id, Decide(c, None, t.req.now, t.req.inc), Admitted);
      } else {
        RetryLinearized(c, s, id, k);
      }
    case Read(k) =>
      var next := Decide(c, s.cell, t.req.now, t.req.inc);
      if next.None? {
        FinishLinearized(c, s, id, s.cell, OverLimit);
      } else {
        AtLinearized(c, s, id, Swap(k, s.cell.value, next.value));
      }
    case Swap(k, seen, next) =>
      if s.cell == Some(seen) {
        FinishLinearized(c, s, id, Some(next), Admitted);
      } else {
        RetryLinearized(c, s, id, k);
      }
    case Done(_) =>
  }

  /**
    Linearizability over every schedule: the log is a serial history of the
    atomic limiter ending in the stored word, each returned request occurs in
    it once with its verdict, and a request is dropped for running out of
    attempts only after sixteen rivals were admitted in its lifetime.
   */
  lemma {:induction false} EveryScheduleLinearizes(c: Config, acts: seq<Action>)
    ensures Linearized(c, Exec(c, acts))
  {
    if acts != [] {
      var s := Exec(c, acts[..|acts| - 1]);
      EveryScheduleLinearizes(c, acts[..|acts| - 1]);
      match acts[|acts| - 1]
      case Arrive(id, req) =>
        if id !in s.tasks {
          ArriveLinearized(c, s, id, req);
        }
      case Move(id) =>
        if id in s.tasks {
          MoveLinearized(c, s, id);
        }
    }
  }

  // ---------------------------------------------------------------- what the schedules admit

  /** The admitted requests, in commit order. */
  function AdmittedOf(log: seq<Event>): (rs: seq<Request>)
  {
    if log == [] then []
    else
      var e := log[|log| - 1];
      AdmittedOf(log[..|log| - 1]) + if e.outcome == Admitted then [e.req] else []
  }

  /** Increments of the requests that returned PASS at a tick in [lo, hi). */
  function PassedWithin(log: seq<Event>, lo: int, hi: int): (n: nat)
  {
    if log == [] then 0
    else
      var e := log[|log| - 1];
      PassedWithin(log[..|log| - 1], lo, hi) +
      if e.outcome == Admitted && lo <= Tick(e.req.now) < hi then e.req.inc else 0
  }

  /** The serial history is a run of the atomic limiter that admits the same increments. */
  lemma {:induction false} LogIsRun(c: Config, log: seq<Event>, lo: int, hi: int)
    requires Serial(c, log)
    ensures Run(c, AdmittedOf(log)).cell == CellAfter(c, log)
    ensures ChargedWithin(Run(c, AdmittedOf(log)).charges, lo, hi) == PassedWithin(log, lo, hi)
  {
    if log != [] {
      var before, e := log[..|log| - 1], log[|log| - 1];
      assert forall i :: 0 <= i <= |before| ==> before[..i] == log[..i];
      LogIsRun(c, before, lo, hi);
      if e.outcome == Admitted {
        var rs := AdmittedOf(log);
        assert rs[..|rs| - 1] == AdmittedOf(before);
        var l := Run(c, AdmittedOf(before));
        var charges := Run(c, rs).charges;
        assert charges[..|charges| - 1] == l.charges;
      } else {
        assert AdmittedOf(log) == AdmittedOf(before);
      }
    }
  }

  lemma SerialRateBound(c: Config, log: seq<Event>, from: int)
    requires Serial(c, log) && ClockOrdered(AdmittedOf(log))
    ensures PassedWithin(log, from, from + WindowTicks(c.windowNs) + 1) <= 2 * c.limit
  {
    LogIsRun(c, log, from, from + WindowTicks(c.windowNs) + 1);
    RateBound(c, AdmittedOf(log), from);
  }

  /**
    The rate bound survives concurrency: whatever the schedule, requests that
    pass within one window of each other carry at most twice the limit.
   */
  lemma ConcurrentRateBound(c: Config, acts: seq<Action>, from: int)
    requires ClockOrdered(AdmittedOf(Exec(c, acts).log))
    ensures PassedWithin(Exec(c, acts).log, from, from + WindowTicks(c.windowNs) + 1) <= 2 * c.limit
  {
    EveryScheduleLinearizes(c, acts);
    SerialRateBound(c, Exec(c, acts).log, from);
  }

  /** The stored count is what passed since its window opened. */
  lemma StoredCount(c: Config, acts: seq<Action>)
    requires ClockOrdered(AdmittedOf(Exec(c, acts).log)) && Exec(c, acts).cell.Some?
    ensures var charges := Run(c, AdmittedOf(Exec(c, acts).log)).charges;
            && charges != []
            && var start := charges[|charges| - 1].start;
            && ChargedTo(charges, start) <= c.limit
            && Exec(c, acts).cell.value == Pack(Low32(start), ChargedTo(charges, start))
  {
    var log := Exec(c, acts).log;
    EveryScheduleLinearizes(c, acts);
    LogIsRun(c, log, 0, 0);
    RunFaithful(c, AdmittedOf(log));
  }
}
