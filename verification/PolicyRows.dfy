/**
  The per-port TCP policy rows.  Five limits and two source prefixes share one
  row, but userspace writes each limit through its own view of the row, and a
  view deletes the whole row when the first three limits become zero.
 */
module PolicyRows {
  import opened Words

  datatype Row = Row(syn: u32, agg: u32, conn: u32, prefix4: u32, prefix6: u32, connPrefix: u32, connPort: u32)

  /** The five limit views, fields 0, 1, 2, 5 and 6. */
  datatype View = Syn | Agg | Conn | ConnPrefix | ConnPort

  /** The prefixes given to a row that a view creates. */
  datatype Prefixes = Prefixes(v4: u32, v6: u32)

  /** What is wanted of one port: each limit with its dictionary entry, if it has one, and the prefixes. */
  datatype Want = Want(syn: Option<u32>, agg: Option<u32>, conn: Option<u32>, connPrefix: Option<u32>,
      connPort: Option<u32>, prefixes: Prefixes)

  function Get(row: Option<Row>, v: View): (x: u32)
  {
    if row.None? then 0
    else
      match v
      case Syn => row.value.syn
      case Agg => row.value.agg
      case Conn => row.value.conn
      case ConnPrefix => row.value.connPrefix
      case ConnPort => row.value.connPort
  }

  function Put(row: Row, v: View, x: u32): (r: Row)
  {
    match v
    case Syn => row.(syn := x)
    case Agg => row.(agg := x)
    case Conn => row.(conn := x)
    case ConnPrefix => row.(connPrefix := x)
    case ConnPort => row.(connPort := x)
  }

  function Wanted(w: Want, v: View): (x: Option<u32>)
  {
    match v
    case Syn => w.syn
    case Agg => w.agg
    case Conn => w.conn
    case ConnPrefix => w.connPrefix
    case ConnPort => w.connPort
  }

  /** A limit that no dictionary mentions is zero. */
  function Limit(w: Want, v: View): (x: u32) { if Wanted(w, v).Some? then Wanted(w, v).value else 0 }

  predicate Vacant(row: Row) { row.syn == 0 && row.agg == 0 && row.conn == 0 }

  /** Store a row, or delete it when its first three limits are zero. */
  function Store(row: Row): (r: Option<Row>) { if Vacant(row) then None else Some(row) }

  function ViewSet(row: Option<Row>, v: View, x: u32, created: Prefixes): (r: Option<Row>)
  {
    Store(Put(if row.Some? then row.value else Row(0, 0, 0, created.v4, created.v6, 0, 0), v, x))
  }

  function ViewDelete(row: Option<Row>, v: View): (r: Option<Row>)
  {
    if row.None? then None else Store(Put(row.value, v, 0))
  }

  /** One view's share of a plan: `before` is the row the plan was made from, `row` the row it now meets. */
  function Delta(before: Option<Row>, row: Option<Row>, v: View, want: Option<u32>, created: Prefixes): (r: Option<Row>)
  {
    var applied := Get(before, v);
    if want.Some? then if applied == 0 || applied != want.value then ViewSet(row, v, want.value, created) else row
    else if applied != 0 then ViewDelete(row, v)
    else row
  }

  /** The five views in the order they are applied. */
  function AfterViews(before: Option<Row>, w: Want, created: Prefixes): (r: Option<Row>)
  {
    var r0 := Delta(before, before, Syn, w.syn, created);
    var r1 := Delta(before, r0, Agg, w.agg, created);
    var r2 := Delta(before, r1, Conn, w.conn, created);
    var r3 := Delta(before, r2, ConnPrefix, w.connPrefix, created);
    Delta(before, r3, ConnPort, w.connPort, created)
  }

  predicate Mentioned(w: Want)
  {
    w.syn.Some? || w.agg.Some? || w.conn.Some? || w.connPrefix.Some? || w.connPort.Some?
  }

  function WithPrefixes(row: Option<Row>, pre: Prefixes): (r: Option<Row>)
  {
    if row.Some? then Some(row.value.(prefix4 := pre.v4, prefix6 := pre.v6)) else row
  }

  /** `ensure_prefixes` for one port. */
  function EnsurePrefixes(row: Option<Row>, w: Want): (r: Option<Row>)
  {
    if Mentioned(w) then WithPrefixes(row, w.prefixes) else row
  }

  /** One failure-free reconcile of one port. */
  function Reconciled(row: Option<Row>, w: Want, created: Prefixes): (r: Option<Row>)
  {
    EnsurePrefixes(AfterViews(row, w, created), w)
  }

  function Repeated(row: Option<Row>, w: Want, created: Prefixes, n: nat): (r: Option<Row>)
  {
    if n == 0 then row else Reconciled(Repeated(row, w, created, n - 1), w, created)
  }

  // ---------------------------------------------------------------- convergence

  predicate HasBaseLimit(w: Want) { Limit(w, Syn) != 0 || Limit(w, Agg) != 0 || Limit(w, Conn) != 0 }

  ghost predicate LimitsMatch(row: Option<Row>, w: Want) { forall v :: Get(row, v) == Limit(w, v) }

  ghost predicate Settled(row: Option<Row>, w: Want)
  {
    row.Some? && LimitsMatch(row, w) && row.value.prefix4 == w.prefixes.v4 && row.value.prefix6 == w.prefixes.v6
  }

  predicate Base(v: View) { v == Syn || v == Agg || v == Conn }

  /** A view writes its own field and, as far as the first three fields go, no other, even when it deletes the row. */
  lemma DeltaOnBase(before: Option<Row>, row: Option<Row>, v: View, want: Option<u32>, created: Prefixes, u: View)
    requires Base(u)
    ensures u != v ==> Get(Delta(before, row, v, want, created), u) == Get(row, u)
    ensures u == v && Get(row, u) == Get(before, u) ==>
            Get(Delta(before, row, v, want, created), u) == if want.Some? then want.value else 0
  {
  }

  /** How a base limit moves through the three base views. */
  lemma ThreeBase(row: Option<Row>, w: Want, created: Prefixes, u: View)
    requires Base(u)
    ensures var r0 := Delta(row, row, Syn, w.syn, created);
            var r1 := Delta(row, r0, Agg, w.agg, created);
            var r2 := Delta(row, r1, Conn, w.conn, created);
            && Get(r0, u) == (if u == Syn then Limit(w, u) else Get(row, u))
            && Get(r1, u) == (if u == Conn then Get(row, u) else Limit(w, u))
            && Get(r2, u) == Limit(w, u)
  {
    var r0 := Delta(row, row, Syn, w.syn, created);
    var r1 := Delta(row, r0, Agg, w.agg, created);
    DeltaOnBase(row, row, Syn, w.syn, created, u);
    DeltaOnBase(row, r0, Agg, w.agg, created, u);
    DeltaOnBase(row, r1, Conn, w.conn, created, u);
  }

  /** One reconcile is enough for the first three limits. */
  lemma BaseAtOnce(before: Option<Row>, w: Want, created: Prefixes, u: View)
    requires Base(u)
    ensures Get(AfterViews(before, w, created), u) == Limit(w, u)
  {
    var r0 := Delta(before, before, Syn, w.syn, created);
    var r1 := Delta(before, r0, Agg, w.agg, created);
    var r2 := Delta(before, r1, Conn, w.conn, created);
    var r3 := Delta(before, r2, ConnPrefix, w.connPrefix, created);
    ThreeBase(before, w, created, u);
    DeltaOnBase(before, r2, ConnPrefix, w.connPrefix, created, u);
    DeltaOnBase(before, r3, ConnPort, w.connPort, created, u);
  }

  /** Two reconciles settle a port, whatever row it started with; one need not. */
  lemma TwoSettle(row: Option<Row>, w: Want, created: Prefixes)
    requires HasBaseLimit(w)
    ensures Settled(Repeated(row, w, created, 2), w)
  {
    var once := Reconciled(row, w, created);
    BaseAtOnce(row, w, created, Syn);
    BaseAtOnce(row, w, created, Agg);
    BaseAtOnce(row, w, created, Conn);
    assert once.Some?;
    SecondKeepsRow(once.value, w, created);
    assert Repeated(row, w, created, 1) == once;
  }

  /** Once the first three limits are right, no view deletes the row. */
  lemma SecondKeepsRow(row: Row, w: Want, created: Prefixes)
    requires HasBaseLimit(w) && Get(Some(row), Syn) == Limit(w, Syn) && Get(Some(row), Agg) == Limit(w, Agg)
    requires Get(Some(row), Conn) == Limit(w, Conn)
    ensures Settled(Reconciled(Some(row), w, created), w)
  {
  }

  /** A settled row stays as it is. */
  lemma SettledStays(row: Option<Row>, w: Want, created: Prefixes)
    requires HasBaseLimit(w) && Settled(row, w)
    ensures Reconciled(row, w, created) == row
  {
  }

  /** From any row, the second reconcile settles the port and every later one changes nothing. */
  lemma {:induction false} Converges(row: Option<Row>, w: Want, created: Prefixes, n: nat)
    requires HasBaseLimit(w) && n >= 2
    ensures Settled(Repeated(row, w, created, n), w) && Repeated(row, w, created, n) == Repeated(row, w, created, 2)
  {
    if n == 2 {
      TwoSettle(row, w, created);
    } else {
      Converges(row, w, created, n - 1);
      SettledStays(Repeated(row, w, created, n - 1), w, created);
    }
  }

  /** Does the plan made from `row` write through view `v`? */
  predicate Writes(row: Option<Row>, w: Want, v: View)
  {
    if Wanted(w, v).Some? then Get(row, v) == 0 || Get(row, v) != Limit(w, v) else Get(row, v) != 0
  }

  /** The first or the second view leaves all three base limits zero, and so deletes the row. */
  predicate Wiped(row: Option<Row>, w: Want)
  {
    || (Writes(row, w, Syn) && Limit(w, Syn) == 0 && Get(row, Agg) == 0 && Get(row, Conn) == 0)
    || (Writes(row, w, Agg) && Limit(w, Syn) == 0 && Limit(w, Agg) == 0 && Get(row, Conn) == 0)
  }

  /** A limit on prefix or port that the plan takes for done. */
  predicate TakenForDone(row: Option<Row>, w: Want, v: View) { Limit(w, v) != 0 && !Writes(row, w, v) }

  /** The base limits of `row` other than `v` are zero. */
  predicate AloneIn(row: Option<Row>, v: View)
  {
    (v == Syn || Get(row, Syn) == 0) && (v == Agg || Get(row, Agg) == 0) && (v == Conn || Get(row, Conn) == 0)
  }

  /** A base view loses the other limits of the row exactly when it writes and no base limit is left. */
  lemma BaseView(before: Option<Row>, row: Option<Row>, w: Want, v: View, created: Prefixes, other: View)
    requires Base(v) && !Base(other)
    ensures Get(Delta(before, row, v, Wanted(w, v), created), other)
         == if Writes(before, w, v) && Limit(w, v) == 0 && AloneIn(row, v) then 0 else Get(row, other)
  {
  }

  /** After the three base views: what is left of another limit. */
  lemma BeforeLastTwo(row: Option<Row>, w: Want, created: Prefixes, other: View)
    requires HasBaseLimit(w) && !Base(other)
    ensures var r0 := Delta(row, row, Syn, w.syn, created);
            var r1 := Delta(row, r0, Agg, w.agg, created);
            var r2 := Delta(row, r1, Conn, w.conn, created);
            && Get(r2, Syn) == Limit(w, Syn) && Get(r2, Agg) == Limit(w, Agg) && Get(r2, Conn) == Limit(w, Conn)
            && Get(r2, other) == if Wiped(row, w) then 0 else Get(row, other)
  {
    var r0 := Delta(row, row, Syn, w.syn, created);
    var r1 := Delta(row, r0, Agg, w.agg, created);
    BaseView(row, row, w, Syn, created, other);
    BaseView(row, r0, w, Agg, created, other);
    BaseView(row, r1, w, Conn, created, other);
    ThreeBase(row, w, created, Syn);
    ThreeBase(row, w, created, Agg);
    ThreeBase(row, w, created, Conn);
  }

  /** The last two views on a row that no view deletes any more. */
  lemma LastTwo(row: Option<Row>, r2: Option<Row>, w: Want, created: Prefixes)
    requires HasBaseLimit(w) && r2.Some?
    requires Get(r2, Syn) == Limit(w, Syn) && Get(r2, Agg) == Limit(w, Agg) && Get(r2, Conn) == Limit(w, Conn)
    ensures var r3 := Delta(row, r2, ConnPrefix, w.connPrefix, created);
            var r4 := Delta(row, r3, ConnPort, w.connPort, created);
            && r4.Some? && (forall v :: Base(v) ==> Get(r4, v) == Limit(w, v))
            && Get(r4, ConnPrefix) == (if Writes(row, w, ConnPrefix) then Limit(w, ConnPrefix) else Get(r2, ConnPrefix))
            && Get(r4, ConnPort) == (if Writes(row, w, ConnPort) then Limit(w, ConnPort) else Get(r2, ConnPort))
  {
  }

  /**
    One reconcile settles a port exactly unless a view deletes the shared row on
    the way and a prefix or port limit had been taken for done.
   */
  lemma OneSettles(row: Option<Row>, w: Want, created: Prefixes)
    requires HasBaseLimit(w)
    ensures Settled(Reconciled(row, w, created), w) <==>
            !(Wiped(row, w) && (TakenForDone(row, w, ConnPrefix) || TakenForDone(row, w, ConnPort)))
  {
    var r0 := Delta(row, row, Syn, w.syn, created);
    var r1 := Delta(row, r0, Agg, w.agg, created);
    var r2 := Delta(row, r1, Conn, w.conn, created);
    BeforeLastTwo(row, w, created, ConnPrefix);
    BeforeLastTwo(row, w, created, ConnPort);
    LastTwo(row, r2, w, created);
    PrefixesSettle(row, w, created);
    var r4 := AfterViews(row, w, created);
    FiveViews(r4, w);
    Untouched(row, w, ConnPrefix);
    Untouched(row, w, ConnPort);
  }

  lemma FiveViews(row: Option<Row>, w: Want)
    ensures LimitsMatch(row, w) <==>
            && Get(row, Syn) == Limit(w, Syn) && Get(row, Agg) == Limit(w, Agg) && Get(row, Conn) == Limit(w, Conn)
            && Get(row, ConnPrefix) == Limit(w, ConnPrefix) && Get(row, ConnPort) == Limit(w, ConnPort)
  {
  }

  /** A field the plan does not write already holds its limit. */
  lemma Untouched(row: Option<Row>, w: Want, v: View)
    ensures !Writes(row, w, v) ==> Get(row, v) == Limit(w, v)
  {
  }

  lemma PrefixesSettle(row: Option<Row>, w: Want, created: Prefixes)
    requires HasBaseLimit(w)
    ensures var r4 := AfterViews(row, w, created);
            Settled(Reconciled(row, w, created), w) <==> r4.Some? && LimitsMatch(r4, w)
  {
  }

  /** A row and a wish for which one reconcile is not enough. */
  lemma OneNeedNotSettle(created: Prefixes)
    ensures var row := Some(Row(5, 0, 0, created.v4, created.v6, 7, 0));
            var w := Want(None, Some(3), None, Some(7), None, created);
            HasBaseLimit(w) && Get(Reconciled(row, w, created), ConnPrefix) == 0 != Limit(w, ConnPrefix)
  {
  }

  // ---------------------------------------------------------------- ports that are not wanted

  function AllZero(row: Row): (b: bool) { Vacant(row) && row.connPrefix == 0 && row.connPort == 0 }

  /**
    A port no dictionary mentions loses its row at once, except a row whose five
    limits were all zero, which no reconcile removes.
   */
  lemma {:induction false} UnwantedRows(row: Option<Row>, w: Want, created: Prefixes, n: nat)
    requires !Mentioned(w) && n > 0
    ensures Repeated(row, w, created, n) == None <==> row.None? || !AllZero(row.value)
    ensures row.Some? && AllZero(row.value) ==> Repeated(row, w, created, n) == row
  {
    if n > 1 {
      UnwantedRows(row, w, created, n - 1);
      assert Reconciled(None, w, created) == None;
    } else {
      assert Repeated(row, w, created, 0) == row;
    }
  }

  /** No view of the plan writes. */
  ghost predicate Quiet(row: Option<Row>, w: Want) { forall v :: !Writes(row, w, v) }

  /** Without a base limit, a row is either not touched at all or gone after one reconcile. */
  lemma TouchedIsGone(row: Option<Row>, w: Want, created: Prefixes)
    requires !HasBaseLimit(w)
    ensures Reconciled(row, w, created) == if row.Some? && Quiet(row, w) then EnsurePrefixes(row, w) else None
  {
    QuietFive(row, w);
  }

  lemma QuietFive(row: Option<Row>, w: Want)
    ensures Quiet(row, w) <==> !Writes(row, w, Syn) && !Writes(row, w, Agg) && !Writes(row, w, Conn)
                               && !Writes(row, w, ConnPrefix) && !Writes(row, w, ConnPort)
  {
  }

  /**
    From any row, and from the second reconcile on, a port has the limits wanted
    exactly when a base limit is wanted, or no limit is, or its row already had
    them and no view writes.
   */
  lemma LimitsReached(row: Option<Row>, w: Want, created: Prefixes, n: nat)
    requires n >= 2
    ensures LimitsMatch(Repeated(row, w, created, n), w) <==>
            || HasBaseLimit(w)
            || (Limit(w, ConnPrefix) == 0 && Limit(w, ConnPort) == 0)
            || (row.Some? && Quiet(row, w))
  {
    if HasBaseLimit(w) {
      Converges(row, w, created, n);
    } else if row.Some? && Quiet(row, w) {
      StaysQuiet(row, w, created, n);
    } else {
      StaysGone(row, w, created, n);
      FiveViews(None, w);
    }
  }

  lemma {:induction false} StaysQuiet(row: Option<Row>, w: Want, created: Prefixes, n: nat)
    requires !HasBaseLimit(w) && row.Some? && Quiet(row, w)
    ensures var r := Repeated(row, w, created, n); r.Some? && Quiet(r, w) && LimitsMatch(r, w)
  {
    if n == 0 {
      forall v ensures Get(row, v) == Limit(w, v) {
        Untouched(row, w, v);
      }
    } else {
      StaysQuiet(row, w, created, n - 1);
      var r := Repeated(row, w, created, n - 1);
      TouchedIsGone(r, w, created);
      forall v ensures Get(EnsurePrefixes(r, w), v) == Get(r, v) && !Writes(r, w, v) {
      }
    }
  }

  lemma {:induction false} StaysGone(row: Option<Row>, w: Want, created: Prefixes, n: nat)
    requires !HasBaseLimit(w) && !(row.Some? && Quiet(row, w)) && n >= 1
    ensures Repeated(row, w, created, n) == None
  {
    if n == 1 {
      assert Repeated(row, w, created, 0) == row;
      TouchedIsGone(row, w, created);
    } else {
      StaysGone(row, w, created, n - 1);
      TouchedIsGone(None, w, created);
    }
  }
}
