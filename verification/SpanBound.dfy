/**
  A ledger of charges made against successive windows, and the argument common
  to every fixed-window limiter of the firewall: when windows start at least
  `width` apart and each takes at most `limit`, no interval shorter than one
  window sees more than twice the limit.
 */
module SpanBound {
  /** `amount` was charged at `time` to the window that began at `start`. */
  datatype Charge = Charge(time: int, amount: nat, start: int)

  /** What was charged at times in [lo, hi). */
  function ChargedWithin(log: seq<Charge>, lo: int, hi: int): (r: nat)
  {
    if log == [] then 0
    else
      var c := log[|log| - 1];
      ChargedWithin(log[..|log| - 1], lo, hi) + if lo <= c.time < hi then c.amount else 0
  }

  /** What was charged to the window that began at `start`. */
  function ChargedTo(log: seq<Charge>, start: int): (r: nat)
  {
    if log == [] then 0
    else
      var c := log[|log| - 1];
      ChargedTo(log[..|log| - 1], start) + if c.start == start then c.amount else 0
  }

  ghost predicate Follows(a: Charge, b: Charge, width: int)
  {
    a.start == b.start || (a.start + width <= b.start && a.time <= b.start)
  }

  /** Later windows begin a full width after earlier ones, and after everything charged to them. */
  ghost predicate Windowed(log: seq<Charge>, width: int)
  {
    && (forall i :: 0 <= i < |log| ==> log[i].start <= log[i].time)
    && (forall i, j :: 0 <= i < j < |log| ==> Follows(log[i], log[j], width))
  }

  /** Nothing was charged to a window at or after the start of a later one. */
  ghost predicate Apart(log: seq<Charge>)
  {
    forall i, j :: 0 <= i < j < |log| && log[i].start != log[j].start ==> log[i].time < log[j].start
  }

  /** Intervals short enough to draw on at most two windows. */
  ghost predicate Short(log: seq<Charge>, width: int, lo: int, hi: int)
  {
    hi <= lo + width || (Apart(log) && hi <= lo + width + 1)
  }

  ghost predicate EachAtMost(log: seq<Charge>, limit: nat)
  {
    forall s :: ChargedTo(log, s) <= limit
  }

  lemma {:induction false} CoveredByTwo(log: seq<Charge>, lo: int, hi: int, a: int, b: int)
    requires forall i :: 0 <= i < |log| && lo <= log[i].time < hi ==> log[i].start == a || log[i].start == b
    ensures ChargedWithin(log, lo, hi) <= ChargedTo(log, a) + ChargedTo(log, b)
  {
    if log != [] {
      CoveredByTwo(log[..|log| - 1], lo, hi, a, b);
    }
  }

  /** The first window an interval touches. */
  lemma FirstWithin(log: seq<Charge>, lo: int, hi: int) returns (k: nat)
    ensures k <= |log|
    ensures k < |log| ==> lo <= log[k].time < hi
    ensures forall i :: 0 <= i < k ==> !(lo <= log[i].time < hi)
  {
    k := 0;
    while k < |log| && !(lo <= log[k].time < hi)
      invariant k <= |log|
      invariant forall i :: 0 <= i < k ==> !(lo <= log[i].time < hi)
    {
      k := k + 1;
    }
  }

  /** A short interval draws on at most two windows. */
  lemma TwoWindows(log: seq<Charge>, width: int, lo: int, hi: int) returns (a: int, b: int)
    requires Windowed(log, width) && Short(log, width, lo, hi)
    ensures forall i :: 0 <= i < |log| && lo <= log[i].time < hi ==> log[i].start == a || log[i].start == b
  {
    var k := FirstWithin(log, lo, hi);
    if k == |log| {
      return 0, 0;
    }
    a := log[k].start;
    b := a;
    var j := k;
    while j < |log|
      invariant k <= j <= |log|
      invariant b != a ==> lo <= b && (Apart(log) ==> lo < b)
      invariant forall i :: 0 <= i < j && lo <= log[i].time < hi ==> log[i].start == a || log[i].start == b
      invariant b != a ==> exists i :: k <= i < j && log[i].start == b
    {
      if lo <= log[j].time < hi && log[j].start != a && log[j].start != b {
        assert Follows(log[k], log[j], width);
        b := log[j].start;
      }
      j := j + 1;
    }
  }

  /** The span bound: never more than two limits within one window width, wherever it is placed. */
  lemma TwiceTheLimit(log: seq<Charge>, width: int, limit: nat, lo: int, hi: int)
    requires Windowed(log, width) && EachAtMost(log, limit) && Short(log, width, lo, hi)
    ensures ChargedWithin(log, lo, hi) <= 2 * limit
  {
    var a, b := TwoWindows(log, width, lo, hi);
    CoveredByTwo(log, lo, hi, a, b);
    assert ChargedTo(log, a) <= limit && ChargedTo(log, b) <= limit;
  }

  /** Appending a charge to a window that is current, or opening the next one, keeps the ledger windowed. */
  lemma Extend(log: seq<Charge>, width: int, limit: nat, c: Charge)
    requires Windowed(log, width) && EachAtMost(log, limit)
    requires c.start <= c.time
    requires forall i :: 0 <= i < |log| ==> Follows(log[i], c, width)
    requires ChargedTo(log, c.start) + c.amount <= limit
    ensures Windowed(log + [c], width) && EachAtMost(log + [c], limit)
    ensures ChargedTo(log + [c], c.start) == ChargedTo(log, c.start) + c.amount
  {
  }

  lemma {:induction false} UntouchedWindow(log: seq<Charge>, start: int)
    requires forall i :: 0 <= i < |log| ==> log[i].start != start
    ensures ChargedTo(log, start) == 0
  {
    if log != [] {
      UntouchedWindow(log[..|log| - 1], start);
    }
  }
}
