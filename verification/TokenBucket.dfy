/** The token bucket that limits ICMP echo requests (`icmp_rate_limit`). */
module TokenBucket {
  import opened Words
  import opened Division

  /** Zero fields of the runtime configuration have already been replaced by their defaults. */
  datatype Config = Config(max: nat, nsPerToken: int)

  datatype State = State(tokens: nat, last: nat)

  predicate ValidConfig(c: Config) { 0 < c.max < 0x8000_0000_0000_0000 && 0 < c.nsPerToken < 0x8000_0000_0000_0000 }

  function Min(a: nat, b: nat): (r: nat) { if a < b then a else b }

  /** Whole intervals since the last refill. */
  function Intervals(c: Config, b: State, now: nat): (k: nat)
    requires ValidConfig(c)
  {
    if b.last == 0 || now < b.last then 0 else Whole(now - b.last, c.nsPerToken)
  }

  function Credit(c: Config, b: State, k: nat): (r: State)
    requires ValidConfig(c)
  {
    State(Min(c.max, b.tokens + k), b.last + k * c.nsPerToken)
  }

  /** Whole tokens for the time since the last refill; the remainder of an interval stays owed. */
  function Refill(c: Config, b: State, now: nat): (r: State)
    requires ValidConfig(c)
  {
    if b.last == 0 then State(c.max, now) else Credit(c, b, Intervals(c, b, now))
  }

  function Take(b: State): (r: State) { if b.tokens > 0 then b.(tokens := b.tokens - 1) else b }

  function Answer(b: State): (v: Verdict) { if b.tokens > 0 then Pass else Drop }

  /** After any step: never above capacity, and less than one interval behind the clock. */
  ghost predicate Sound(c: Config, b: State, clock: nat)
  {
    b.tokens <= c.max && (b.last == 0 || b.last <= clock < b.last + c.nsPerToken)
  }

  lemma RefillSound(c: Config, b: State, clock: nat, now: nat)
    requires ValidConfig(c) && Sound(c, b, clock) && clock <= now
    ensures Sound(c, Refill(c, b, now), now)
  {
    if b.last != 0 {
      WholeIsQuotient(now - b.last, c.nsPerToken);
    }
  }

  // ---------------------------------------------------------------- refilling one token at a time

  /** The reference refill: credit one interval, then look again. */
  function RefillByOne(c: Config, b: State, now: nat): (r: State)
    requires ValidConfig(c)
    decreases now - b.last
  {
    if b.last + c.nsPerToken > now then b
    else RefillByOne(c, State(Min(c.max, b.tokens + 1), b.last + c.nsPerToken), now)
  }

  lemma CreditTwice(c: Config, b: State, k: nat)
    requires ValidConfig(c) && b.tokens <= c.max
    ensures Credit(c, b, k + 1) == Credit(c, Credit(c, b, 1), k)
  {
  }

  /** The batch refill is the one-at-a-time refill, cap included. */
  lemma {:induction false} BatchIsOneByOne(c: Config, b: State, now: nat)
    requires ValidConfig(c) && b.last != 0 && b.tokens <= c.max
    ensures Refill(c, b, now) == RefillByOne(c, b, now)
    decreases now - b.last
  {
    if b.last + c.nsPerToken <= now {
      var next := Credit(c, b, 1);
      BatchIsOneByOne(c, next, now);
      CreditTwice(c, b, Intervals(c, next, now));
    } else {
      assert Intervals(c, b, now) == 0;
      assert Credit(c, b, 0) == b;
    }
  }

  // ---------------------------------------------------------------- runs

  predicate Ordered(ts: seq<nat>)
  {
    && (forall i :: 0 <= i < |ts| ==> 0 < ts[i] < 0x8000_0000_0000_0000)
    && forall i, j :: 0 <= i < j < |ts| ==> ts[i] <= ts[j]
  }

  function Exec(c: Config, b: State, ts: seq<nat>): (r: State)
    requires ValidConfig(c)
  {
    if ts == [] then b else Take(Refill(c, Exec(c, b, ts[..|ts| - 1]), ts[|ts| - 1]))
  }

  /** How many of the echo requests at `ts` pass, from bucket `b`. */
  function Passed(c: Config, b: State, ts: seq<nat>): (n: nat)
    requires ValidConfig(c)
  {
    if ts == [] then 0
    else
      Passed(c, b, ts[..|ts| - 1]) +
      if Answer(Refill(c, Exec(c, b, ts[..|ts| - 1]), ts[|ts| - 1])) == Pass then 1 else 0
  }

  /** Intervals credited after the first request. */
  function Credits(c: Config, b: State, ts: seq<nat>): (n: nat)
    requires ValidConfig(c)
  {
    if |ts| <= 1 then 0
    else
      Credits(c, b, ts[..|ts| - 1]) + Intervals(c, Exec(c, b, ts[..|ts| - 1]), ts[|ts| - 1])
  }

  lemma {:induction false} RunSound(c: Config, ts: seq<nat>)
    requires ValidConfig(c) && Ordered(ts)
    ensures Sound(c, Exec(c, State(0, 0), ts), if ts == [] then 0 else ts[|ts| - 1])
  {
    if ts != [] {
      RunSound(c, ts[..|ts| - 1]);
      RefillSound(c, Exec(c, State(0, 0), ts[..|ts| - 1]), if |ts| == 1 then 0 else ts[|ts| - 2], ts[|ts| - 1]);
    }
  }

  /** Spending after a credit of `k` intervals leaves at most `k` more than before. */
  lemma SpendOne(c: Config, b: State, now: nat)
    requires ValidConfig(c) && b.last != 0
    ensures var r := Refill(c, b, now);
            && r.last == b.last + Intervals(c, b, now) * c.nsPerToken
            && Take(r).last == r.last
            && Take(r).tokens + (if Answer(r) == Pass then 1 else 0) <= b.tokens + Intervals(c, b, now)
  {
  }

  ghost predicate Paid(c: Config, b: State, ts: seq<nat>)
    requires ValidConfig(c) && ts != []
  {
    var e := Exec(c, b, ts);
    && Passed(c, b, ts) + e.tokens <= c.max + Credits(c, b, ts)
    && e.last == Refill(c, b, ts[0]).last + Credits(c, b, ts) * c.nsPerToken
    && e.last != 0 && Sound(c, e, ts[|ts| - 1])
  }

  /** One more request: what it spends and what is credited for it. */
  lemma OneMoreRequest(c: Config, b: State, ts: seq<nat>, now: nat) returns (more: nat, one: nat)
    requires ValidConfig(c) && ts != [] && Exec(c, b, ts).last != 0 && Sound(c, Exec(c, b, ts), ts[|ts| - 1])
    requires ts[|ts| - 1] <= now
    ensures var e, e' := Exec(c, b, ts), Exec(c, b, ts + [now]);
            && Passed(c, b, ts + [now]) == Passed(c, b, ts) + one
            && Credits(c, b, ts + [now]) == Credits(c, b, ts) + more
            && e'.tokens + one <= e.tokens + more && e'.last == e.last + more * c.nsPerToken
            && e'.last != 0 && Sound(c, e', now)
  {
    var all, e := ts + [now], Exec(c, b, ts);
    assert all[..|all| - 1] == ts;
    RefillSound(c, e, ts[|ts| - 1], now);
    SpendOne(c, e, now);
    more, one := Intervals(c, e, now), if Answer(Refill(c, e, now)) == Pass then 1 else 0;
  }

  lemma PaidSnoc(c: Config, b: State, ts: seq<nat>, now: nat)
    requires ValidConfig(c) && ts != [] && Paid(c, b, ts) && ts[|ts| - 1] <= now
    ensures Paid(c, b, ts + [now])
  {
    var more, one := OneMoreRequest(c, b, ts, now);
    Distribute(Credits(c, b, ts), more, c.nsPerToken);
    assert (ts + [now])[0] == ts[0];
  }

  lemma FirstPaid(c: Config, b: State, clock: nat, ts: seq<nat>)
    requires ValidConfig(c) && Sound(c, b, clock) && |ts| == 1 && clock <= ts[0] && 0 < ts[0]
    ensures Paid(c, b, ts)
  {
    assert ts[..0] == [];
    RefillSound(c, b, clock, ts[0]);
  }

  /** Tokens spent and kept are paid for by the capacity and by the intervals credited since. */
  lemma {:induction false} EveryStretchPaid(c: Config, b: State, clock: nat, ts: seq<nat>)
    requires ValidConfig(c) && Sound(c, b, clock) && Ordered(ts) && ts != [] && clock <= ts[0]
    ensures Paid(c, b, ts)
  {
    if |ts| == 1 {
      FirstPaid(c, b, clock, ts);
    } else {
      var before := ts[..|ts| - 1];
      EveryStretchPaid(c, b, clock, before);
      PaidSnoc(c, b, before, ts[|ts| - 1]);
      assert before + [ts[|ts| - 1]] == ts;
    }
  }

  lemma OrderedParts(earlier: seq<nat>, stretch: seq<nat>)
    requires Ordered(earlier + stretch)
    ensures Ordered(earlier) && Ordered(stretch)
    ensures earlier != [] && stretch != [] ==> earlier[|earlier| - 1] <= stretch[0]
  {
    var ts := earlier + stretch;
    assert earlier == ts[..|earlier|] && stretch == ts[|earlier|..];
    assert earlier != [] && stretch != [] ==> ts[|earlier| - 1] <= ts[|earlier|];
  }

  lemma CreditsOf(c: Config, b: State, clock: nat, ts: seq<nat>) returns (k: nat)
    requires ValidConfig(c) && Sound(c, b, clock) && Ordered(ts) && ts != [] && clock <= ts[0]
    ensures Passed(c, b, ts) <= c.max + k
    ensures k * c.nsPerToken < ts[|ts| - 1] - ts[0] + c.nsPerToken
  {
    EveryStretchPaid(c, b, clock, ts);
    k := Credits(c, b, ts);
    var first := FirstRefill(c, b, clock, ts[0]);
    assert Exec(c, b, ts).last == first + k * c.nsPerToken;
  }

  /** When the first request of a stretch is served, the refill clock is less than an interval behind. */
  lemma FirstRefill(c: Config, b: State, clock: nat, now: nat) returns (last: nat)
    requires ValidConfig(c) && Sound(c, b, clock) && clock <= now && 0 < now
    ensures last == Refill(c, b, now).last && now < last + c.nsPerToken
  {
    last := Refill(c, b, now).last;
    RefillSound(c, b, clock, now);
  }

  lemma FewIntervals(k: nat, n: int, length: nat)
    requires n > 0 && k * n < length + n
    ensures k <= CeilDiv(length, n)
  {
    var q := CeilDiv(length, n);
    Remainder(length + n - 1, n);
    if k > q {
      AtLeastOne(k - q, n);
      Distribute(k, q, n);
      assert false;
    }
  }

  /**
    In every run, every stretch of requests that spans `length` nanoseconds
    passes at most a full bucket plus one token per started interval.
   */
  lemma EchoBound(c: Config, earlier: seq<nat>, stretch: seq<nat>, length: nat)
    requires ValidConfig(c) && Ordered(earlier + stretch)
    requires stretch != [] ==> stretch[|stretch| - 1] - stretch[0] <= length
    ensures Passed(c, Exec(c, State(0, 0), earlier), stretch) <= c.max + CeilDiv(length, c.nsPerToken)
  {
    if stretch != [] {
      OrderedParts(earlier, stretch);
      RunSound(c, earlier);
      var clock := if earlier == [] then 0 else earlier[|earlier| - 1];
      var k := CreditsOf(c, Exec(c, State(0, 0), earlier), clock, stretch);
      FewIntervals(k, c.nsPerToken, length);
    }
  }

  // ---------------------------------------------------------------- exactly which requests pass

  /** Whole intervals from the first request to time `t`. */
  function Elapsed(c: Config, ts: seq<nat>, t: nat): (k: nat)
    requires ValidConfig(c)
  {
    if ts == [] || t < ts[0] then 0 else Whole(t - ts[0], c.nsPerToken)
  }

  /** How many of the first `i` requests pass. */
  function PassedOf(c: Config, ts: seq<nat>, i: nat): (n: nat)
    requires ValidConfig(c) && i <= |ts|
  {
    Passed(c, State(0, 0), ts[..i])
  }

  /** What would be left now of a bucket that was full when request `i` came. */
  function LeftOf(c: Config, ts: seq<nat>, i: nat): (n: int)
    requires ValidConfig(c) && i < |ts|
  {
    c.max + Elapsed(c, ts, ts[|ts| - 1]) - Elapsed(c, ts, ts[i]) - (PassedOf(c, ts, |ts|) - PassedOf(c, ts, i))
  }

  /** The bucket holds the least of these, and its refill clock is on the grid of the first request. */
  ghost predicate Leveled(c: Config, ts: seq<nat>)
    requires ValidConfig(c) && ts != []
  {
    var e := Exec(c, State(0, 0), ts);
    && e.last == ts[0] + Elapsed(c, ts, ts[|ts| - 1]) * c.nsPerToken
    && (forall i :: 0 <= i < |ts| ==> e.tokens <= LeftOf(c, ts, i))
    && (exists i :: 0 <= i < |ts| && e.tokens == LeftOf(c, ts, i))
  }

  lemma ElapsedGrows(c: Config, ts: seq<nat>, t: nat, later: nat, last: nat)
    requires ValidConfig(c) && ts != [] && ts[0] <= t <= later && 0 < ts[0]
    requires last == ts[0] + Elapsed(c, ts, t) * c.nsPerToken
    ensures last <= t < last + c.nsPerToken
    ensures Elapsed(c, ts, later) == Elapsed(c, ts, t) + Intervals(c, State(0, last), later)
  {
    var n, k := c.nsPerToken, Elapsed(c, ts, t);
    WholeIsQuotient(t - ts[0], n);
    WholeIsQuotient(later - ts[0], n);
    WholeIsQuotient(later - last, n);
    Distribute(k, Whole(later - last, n), n);
    QuotientIs(later - ts[0], n, k + Whole(later - last, n));
  }

  /** A further request changes nothing about the earlier ones. */
  lemma EarlierSame(c: Config, ts: seq<nat>, now: nat, i: nat, t: nat)
    requires ValidConfig(c) && i <= |ts|
    ensures PassedOf(c, ts + [now], i) == PassedOf(c, ts, i)
    ensures PassedOf(c, ts + [now], |ts| + 1) == Passed(c, State(0, 0), ts + [now])
    ensures PassedOf(c, ts, |ts|) == Passed(c, State(0, 0), ts)
    ensures ts != [] ==> Elapsed(c, ts + [now], t) == Elapsed(c, ts, t)
  {
    var all := ts + [now];
    assert all[..|all|] == all && ts[..|ts|] == ts && all[..i] == ts[..i];
  }

  lemma LeftNext(c: Config, ts: seq<nat>, now: nat, more: nat, one: nat, i: nat)
    requires ValidConfig(c) && ts != [] && i <= |ts|
    requires Passed(c, State(0, 0), ts + [now]) == Passed(c, State(0, 0), ts) + one
    requires Elapsed(c, ts, now) == Elapsed(c, ts, ts[|ts| - 1]) + more
    ensures LeftOf(c, ts + [now], i) == if i < |ts| then LeftOf(c, ts, i) + more - one else c.max - one
  {
    EarlierSame(c, ts, now, i, now);
    EarlierSame(c, ts, now, i, (ts + [now])[i]);
  }

  /** What one request does to a bucket on the grid of the first. */
  lemma RequestOnGrid(c: Config, ts: seq<nat>, now: nat, e: State) returns (more: nat, one: nat)
    requires ValidConfig(c) && Ordered(ts + [now]) && ts != [] && e == Exec(c, State(0, 0), ts)
    requires e.last == ts[0] + Elapsed(c, ts, ts[|ts| - 1]) * c.nsPerToken
    ensures Elapsed(c, ts, now) == Elapsed(c, ts, ts[|ts| - 1]) + more
    ensures one == (if Min(c.max, e.tokens + more) > 0 then 1 else 0)
    ensures Passed(c, State(0, 0), ts + [now]) == Passed(c, State(0, 0), ts) + one
    ensures var e' := Exec(c, State(0, 0), ts + [now]);
            && e'.tokens == Min(c.max, e.tokens + more) - one
            && e'.last == ts[0] + Elapsed(c, ts, now) * c.nsPerToken
  {
    var all, t := ts + [now], ts[|ts| - 1];
    assert all[..|ts|] == ts && all[|ts|] == now && all[|ts| - 1] == t && all[0] == ts[0];
    ElapsedGrows(c, ts, t, now, e.last);
    more := Intervals(c, e, now);
    one := if Min(c.max, e.tokens + more) > 0 then 1 else 0;
    Distribute(Elapsed(c, ts, t), more, c.nsPerToken);
  }

  /** A least value, after every candidate moved by `more` and one new candidate came. */
  lemma LeastNext(c: Config, ts: seq<nat>, now: nat, tokens: nat, more: nat, one: nat)
    requires ValidConfig(c) && ts != []
    requires forall i :: 0 <= i < |ts| ==> tokens <= LeftOf(c, ts, i)
    requires exists i :: 0 <= i < |ts| && tokens == LeftOf(c, ts, i)
    requires Passed(c, State(0, 0), ts + [now]) == Passed(c, State(0, 0), ts) + one
    requires Elapsed(c, ts, now) == Elapsed(c, ts, ts[|ts| - 1]) + more
    ensures forall i :: 0 <= i <= |ts| ==> Min(c.max, tokens + more) - one <= LeftOf(c, ts + [now], i)
    ensures exists i :: 0 <= i <= |ts| && Min(c.max, tokens + more) - one == LeftOf(c, ts + [now], i)
  {
    forall i | 0 <= i <= |ts|
      ensures LeftOf(c, ts + [now], i) == if i < |ts| then LeftOf(c, ts, i) + more - one else c.max - one
    {
      LeftNext(c, ts, now, more, one, i);
    }
    var k :| 0 <= k < |ts| && tokens == LeftOf(c, ts, k);
    var least := if tokens + more < c.max then k else |ts|;
    assert Min(c.max, tokens + more) - one == LeftOf(c, ts + [now], least);
  }

  /** One more request on a leveled bucket: it is dropped exactly when nothing is left of some full bucket. */
  lemma LeveledNext(c: Config, ts: seq<nat>, now: nat)
    requires ValidConfig(c) && Ordered(ts + [now]) && ts != [] && Leveled(c, ts)
    ensures Leveled(c, ts + [now])
    ensures Passed(c, State(0, 0), ts + [now]) == Passed(c, State(0, 0), ts) <==>
            exists i :: 0 <= i < |ts| && LeftOf(c, ts, i) + Elapsed(c, ts, now) - Elapsed(c, ts, ts[|ts| - 1]) == 0
  {
    var e := Exec(c, State(0, 0), ts);
    var more, one := RequestOnGrid(c, ts, now, e);
    LeastNext(c, ts, now, e.tokens, more, one);
    EarlierSame(c, ts, now, 0, now);
    assert (ts + [now])[0] == ts[0] && (ts + [now])[|ts|] == now;
  }

  lemma FirstLeveled(c: Config, now: nat)
    requires ValidConfig(c) && 0 < now
    ensures Leveled(c, [now]) && Passed(c, State(0, 0), [now]) == 1
  {
    assert [now][..0] == [];
    assert Exec(c, State(0, 0), [now]) == State(c.max - 1, now);
    assert [now][..1] == [now];
    assert LeftOf(c, [now], 0) == c.max - 1;
  }

  lemma {:induction false} EveryRunLeveled(c: Config, ts: seq<nat>)
    requires ValidConfig(c) && Ordered(ts) && ts != []
    ensures Leveled(c, ts)
  {
    var before, now := ts[..|ts| - 1], ts[|ts| - 1];
    assert ts == before + [now];
    if before == [] {
      FirstLeveled(c, now);
    } else {
      EveryRunLeveled(c, before);
      LeveledNext(c, before, now);
    }
  }

  /**
    After every run from the start a request is dropped exactly when, since some
    earlier request, as many have passed as a full bucket and the whole intervals
    since then allow.
   */
  lemma DroppedExactly(c: Config, ts: seq<nat>, now: nat)
    requires ValidConfig(c) && Ordered(ts + [now])
    ensures Passed(c, State(0, 0), ts + [now]) == Passed(c, State(0, 0), ts) <==>
            exists i :: 0 <= i < |ts| &&
              PassedOf(c, ts, |ts|) - PassedOf(c, ts, i) == c.max + Elapsed(c, ts, now) - Elapsed(c, ts, ts[i])
  {
    if ts == [] {
      FirstLeveled(c, now);
      assert ts + [now] == [now];
    } else {
      assert ts == (ts + [now])[..|ts|];
      EveryRunLeveled(c, ts);
      LeveledNext(c, ts, now);
      assert forall i :: 0 <= i < |ts| ==>
          (LeftOf(c, ts, i) + Elapsed(c, ts, now) - Elapsed(c, ts, ts[|ts| - 1]) == 0 <==>
           PassedOf(c, ts, |ts|) - PassedOf(c, ts, i) == c.max + Elapsed(c, ts, now) - Elapsed(c, ts, ts[i]));
    }
  }

  lemma {:induction false} PassedAtMost(c: Config, ts: seq<nat>)
    requires ValidConfig(c)
    ensures Passed(c, State(0, 0), ts) <= |ts|
  {
    if ts != [] {
      PassedAtMost(c, ts[..|ts| - 1]);
    }
  }

  lemma ElapsedMono(c: Config, ts: seq<nat>, t: nat, later: nat)
    requires ValidConfig(c) && t <= later && ts != [] && ts[0] <= t && 0 < ts[0]
    ensures Elapsed(c, ts, t) <= Elapsed(c, ts, later)
  {
    ElapsedGrows(c, ts, t, later, ts[0] + Elapsed(c, ts, t) * c.nsPerToken);
  }

  /** The bucket starts full: the first `max` requests pass, however close together. */
  lemma {:induction false} FirstOnesPass(c: Config, ts: seq<nat>)
    requires ValidConfig(c) && Ordered(ts) && |ts| <= c.max
    ensures Passed(c, State(0, 0), ts) == |ts|
  {
    if ts != [] {
      var before, now := ts[..|ts| - 1], ts[|ts| - 1];
      FirstOnesPass(c, before);
      assert ts == before + [now];
      DroppedExactly(c, before, now);
      forall i | 0 <= i < |before|
        ensures PassedOf(c, before, |before|) - PassedOf(c, before, i)
             < c.max + Elapsed(c, before, now) - Elapsed(c, before, before[i])
      {
        assert before[..|before|] == before && before[0] == ts[0] && before[i] == ts[i];
        ElapsedMono(c, before, before[i], now);
      }
      PassedAtMost(c, ts);
    }
  }

  // ---------------------------------------------------------------- the program's own form

  class Bucket {
    var tokens: u64
    var lastRefill: u64

    constructor ()
      ensures tokens == 0 && lastRefill == 0
    {
      tokens, lastRefill := 0, 0;
    }

    method RefillTokens(c: Config, now: u64, ghost clock: nat)
      requires ValidConfig(c) && Sound(c, State(tokens, lastRefill), clock)
      requires 0 < now < 0x8000_0000_0000_0000 && clock <= now
      modifies this
      ensures State(tokens, lastRefill) == Refill(c, old(State(tokens, lastRefill)), now)
    {
      if lastRefill == 0 {
        tokens, lastRefill := c.max, now;
        return;
      }
      var elapsed := Wrap64(now - lastRefill);
      var earned := elapsed / c.nsPerToken;
      RefillFits(c, State(tokens, lastRefill), now);
      if earned > 0 {
        tokens := Wrap64(tokens + earned);
        if tokens > c.max {
          tokens := c.max;
        }
        lastRefill := Wrap64(lastRefill + Wrap64(earned * c.nsPerToken));
      }
    }

    /** One echo request under the bucket's lock. */
    method RateLimit(c: Config, now: u64, ghost clock: nat) returns (v: Verdict)
      requires ValidConfig(c) && Sound(c, State(tokens, lastRefill), clock)
      requires 0 < now < 0x8000_0000_0000_0000 && clock <= now
      modifies this
      ensures Sound(c, State(tokens, lastRefill), now) && lastRefill != 0
      ensures State(tokens, lastRefill) == Take(Refill(c, old(State(tokens, lastRefill)), now))
      ensures v == Answer(Refill(c, old(State(tokens, lastRefill)), now))
    {
      RefillSound(c, State(tokens, lastRefill), clock, now);
      RefillTokens(c, now, clock);
      if tokens > 0 {
        tokens := tokens - 1;
        v := Pass;
      } else {
        v := Drop;
      }
    }
  }

  /** No step of the refill leaves 64 bits. */
  lemma RefillFits(c: Config, b: State, now: nat)
    requires ValidConfig(c) && 0 < b.last <= now < 0x8000_0000_0000_0000 && b.tokens <= c.max
    ensures Wrap64(now - b.last) == now - b.last
    ensures var k := (now - b.last) / c.nsPerToken;
            && 0 <= k == Intervals(c, b, now)
            && Wrap64(b.tokens + k) == b.tokens + k
            && Wrap64(k * c.nsPerToken) == k * c.nsPerToken
            && Wrap64(b.last + k * c.nsPerToken) == b.last + k * c.nsPerToken
            && (k == 0 ==> Credit(c, b, k) == b)
  {
    QuotientBounds(now - b.last, c.nsPerToken);
    WholeIsQuotient(now - b.last, c.nsPerToken);
  }
}
