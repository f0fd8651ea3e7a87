/** `connection_pool`: a FIFO queue of idle connections. A connection travels from the
    queue to a client and back; both ends of the queue are touched only inside a strand. */
module ConnectionPool {
  import opened Results

  /** Connections are numbered in the order in which they are created. */
  type Connection = nat

  /** One call of `get_connection_` and the life of the pointer it returns. */
  type Client = nat

  const MIN: nat := 5

  // ---- The object ----

  class Pool {
    var connections: seq<Connection>
    var created: nat

    constructor ()
      ensures connections == [] && created == 0
    {
      connections, created := [], 0;
    }

    /** `initialize`: keeps trying until the queue holds five connections. `attempts`
        says which calls of the maker succeed, for as long as anybody watches. */
    method Initialize(attempts: seq<bool>) returns (done: bool)
      requires connections == [] && created == 0
      modifies this
      ensures connections == seq(created, i => i)
      ensures done <==> created == 5
      ensures created == if Successes(attempts) < 5 then Successes(attempts) else 5
    {
      var i := 0;
      while |connections| < MIN && i < |attempts|
        invariant 0 <= i <= |attempts|
        invariant created <= MIN && connections == seq(created, j => j)
        invariant Successes(attempts) == created + Successes(attempts[i..])
      {
        assert attempts[i..][0] == attempts[i] && attempts[i..][1..] == attempts[i + 1..];
        if attempts[i] {
          connections, created := connections + [created], created + 1;
        }
        i := i + 1;
      }
      done := |connections| == MIN;
    }

    /** The strand section of `get_connection_`. */
    method TakeIdle() returns (conn: Option<Connection>)
      modifies this`connections
      ensures conn == if old(connections) == [] then None else Some(old(connections)[0])
      ensures connections == if old(connections) == [] then [] else old(connections)[1..]
    {
      conn := None;
      if connections != [] {
        conn, connections := Some(connections[0]), connections[1..];
      }
    }

    /** The end of `get_connection_`, back outside the strand; the maker may throw. */
    method MakeIfNone(conn: Option<Connection>, succeeds: bool) returns (r: Result<Connection>)
      modifies this`created
      ensures conn.Some? ==> r == Ok(conn.value) && created == old(created)
      ensures conn.None? && succeeds ==> r == Ok(old(created)) && created == old(created) + 1
      ensures conn.None? && !succeeds ==> r == Err && created == old(created)
    {
      if conn.Some? { return Ok(conn.value); }
      if !succeeds { return Err; }
      r, created := Ok(created), created + 1;
    }

    /** The section `connection_reset_` posts. */
    method PutIdle(conn: Connection)
      modifies this`connections
      ensures connections == old(connections) + [conn]
    {
      connections := connections + [conn];
    }
  }

  function Successes(attempts: seq<bool>): nat {
    if attempts == [] then 0 else (if attempts[0] then 1 else 0) + Successes(attempts[1..])
  }

  // ---- The system ----

  /** `asking` are clients between the two halves of `get_connection_` that found the
      queue empty; `returning` are posted returns that have not run; `queued` and `taken`
      record what entered and left the queue. */
  datatype State = State(
    idle: seq<Connection>,
    asking: set<Client>,
    leased: map<Client, Connection>,
    returning: set<Connection>,
    deleted: set<Connection>,
    created: nat,
    stopped: bool,
    queued: seq<Connection>,
    taken: seq<Connection>)

  /** After `initialize`. */
  function Initial(): State {
    var first := seq(MIN, i => i);
    State(first, {}, map[], {}, {}, MIN, false, first, [])
  }

  datatype Step =
    | Take(c: Client)
    | Make(c: Client, succeeds: bool)
    | Release(c: Client, reuse: bool)
    | Put(conn: Connection)
    | Stop

  predicate Enabled(s: State, step: Step) {
    match step
    case Take(c) => c !in s.asking && c !in s.leased
    case Make(c, _) => c in s.asking
    case Release(c, _) => c in s.leased
    case Put(conn) => conn in s.returning && !s.stopped
    case Stop => true
  }

  function Next(s: State, step: Step): State
    requires Enabled(s, step)
  {
    match step
    case Take(c) =>
      if s.idle == [] then s.(asking := s.asking + {c})
      else s.(idle := s.idle[1..], leased := s.leased[c := s.idle[0]], taken := s.taken + [s.idle[0]])
    case Make(c, succeeds) =>
      if succeeds then s.(asking := s.asking - {c}, leased := s.leased[c := s.created], created := s.created + 1)
      else s.(asking := s.asking - {c})
    case Release(c, reuse) =>
      var conn := s.leased[c];
      var r := s.(leased := s.leased - {c});
      if s.stopped || !reuse then r.(deleted := s.deleted + {conn}) else r.(returning := s.returning + {conn})
    case Put(conn) =>
      s.(returning := s.returning - {conn}, idle := s.idle + [conn], queued := s.queued + [conn])
    case Stop => s.(stopped := true)
  }

  predicate ValidRun(s: State, run: seq<Step>)
    decreases |run|
  {
    run == [] || (Enabled(s, run[0]) && ValidRun(Next(s, run[0]), run[1..]))
  }

  function After(s: State, run: seq<Step>): State
    requires ValidRun(s, run)
    decreases |run|
  {
    if run == [] then s else After(Next(s, run[0]), run[1..])
  }

  /** The steps of the system are what the sections of the object do. */
  method StepObject(p: Pool, s: State, step: Step) returns (next: State)
    requires Enabled(s, step) && p.connections == s.idle && p.created == s.created
    modifies p
    ensures next == Next(s, step) && p.connections == next.idle && p.created == next.created
  {
    match step
    case Take(c) =>
      var conn := p.TakeIdle();
      next := if conn.None? then s.(asking := s.asking + {c})
              else s.(idle := p.connections, leased := s.leased[c := conn.value], taken := s.taken + [conn.value]);
    case Make(c, succeeds) =>
      var r := p.MakeIfNone(None, succeeds);
      next := s.(asking := s.asking - {c}, created := p.created,
                 leased := if r.Ok? then s.leased[c := r.value] else s.leased);
    case Release(c, reuse) =>
      var conn := s.leased[c];
      next := s.(leased := s.leased - {c},
                 deleted := if s.stopped || !reuse then s.deleted + {conn} else s.deleted,
                 returning := if s.stopped || !reuse then s.returning else s.returning + {conn});
    case Put(conn) =>
      p.PutIdle(conn);
      next := s.(returning := s.returning - {conn}, idle := p.connections, queued := s.queued + [conn]);
    case Stop => next := s.(stopped := true);
  }

  // ---- Ownership ----

  datatype Place = InQueue(at: nat) | With(client: Client) | OnTheWayBack | Gone

  /** `conn` is found at `p`. */
  predicate IsAt(s: State, conn: Connection, p: Place) {
    match p
    case InQueue(i) => i < |s.idle| && s.idle[i] == conn
    case With(c) => c in s.leased && s.leased[c] == conn
    case OnTheWayBack => conn in s.returning
    case Gone => conn in s.deleted
  }

  ghost predicate Somewhere(s: State, conn: Connection) {
    exists p :: IsAt(s, conn, p)
  }

  /** Every connection ever created is in exactly one place, and nothing else is anywhere:
      no two clients share one, and a deleted one is neither idle nor leased nor returning. */
  ghost predicate OnePlaceEach(s: State) {
    && (forall conn: Connection, p | IsAt(s, conn, p) :: conn < s.created)
    && (forall conn: Connection, p, q | IsAt(s, conn, p) && IsAt(s, conn, q) :: p == q)
    && (forall conn: Connection | conn < s.created :: Somewhere(s, conn))
  }

  predicate Counted(s: State) {
    s.created - |s.deleted| == |s.idle| + |s.leased| + |s.returning|
  }

  /** Connections leave the queue in the order in which they entered it. */
  predicate Fifo(s: State) {
    s.queued == s.taken + s.idle
  }

  /** A client that found the queue empty holds nothing yet. */
  predicate AskingHoldNothing(s: State) {
    forall c | c in s.asking :: c !in s.leased
  }

  ghost predicate Inv(s: State) {
    OnePlaceEach(s) && Counted(s) && Fifo(s) && AskingHoldNothing(s)
  }

  lemma {:induction false} InitialInv()
    ensures Inv(Initial())
  {
    var s := Initial();
    forall conn: Connection | conn < s.created ensures Somewhere(s, conn) {
      assert IsAt(s, conn, InQueue(conn));
    }
  }

  lemma {:induction false} SamePlaces(s: State, n: State)
    requires OnePlaceEach(s) && n.created == s.created
    requires n.idle == s.idle && n.leased == s.leased && n.returning == s.returning && n.deleted == s.deleted
    ensures OnePlaceEach(n)
  {
    assert forall conn: Connection, p :: IsAt(n, conn, p) <==> IsAt(s, conn, p);
    assert forall conn: Connection :: Somewhere(n, conn) <==> Somewhere(s, conn);
  }

  lemma {:induction false} TakeKeeps(s: State, c: Client)
    requires Inv(s) && Enabled(s, Take(c))
    ensures Inv(Next(s, Take(c)))
  {
    hide OnePlaceEach;
    var n := Next(s, Take(c));
    if s.idle == [] {
      SamePlaces(s, n);
    } else {
      var first := s.idle[0];
      TakePlaces(s, c);
      assert s.idle == [first] + n.idle;
      assert n.queued == n.taken + n.idle;
    }
  }

  lemma {:induction false} TakePlaces(s: State, c: Client)
    requires OnePlaceEach(s) && Enabled(s, Take(c)) && s.idle != []
    ensures OnePlaceEach(Next(s, Take(c)))
  {
    var n := Next(s, Take(c));
    assert IsAt(s, s.idle[0], InQueue(0));
    forall conn: Connection, p | IsAt(n, conn, p) ensures IsAt(s, conn, Moved(p, c)) { }
    forall conn: Connection | conn < n.created ensures Somewhere(n, conn) {
      assert Somewhere(s, conn);
      var p :| IsAt(s, conn, p);
      assert IsAt(n, conn, if p == InQueue(0) then With(c) else if p.InQueue? then InQueue(p.at - 1) else p);
    }
    assert forall p, q | Moved(p, c) == Moved(q, c) :: p == q;
  }

  /** Where a connection was before `c` took the head of the queue. */
  function Moved(p: Place, c: Client): Place {
    if p == With(c) then InQueue(0) else if p.InQueue? then InQueue(p.at + 1) else p
  }

  lemma {:induction false} MakeKeeps(s: State, c: Client, succeeds: bool)
    requires Inv(s) && Enabled(s, Make(c, succeeds))
    ensures Inv(Next(s, Make(c, succeeds)))
  {
    var n := Next(s, Make(c, succeeds));
    if succeeds {
      assert forall conn: Connection, p | p != With(c) :: IsAt(n, conn, p) <==> IsAt(s, conn, p);
      forall conn: Connection | conn < n.created ensures Somewhere(n, conn) {
        if conn == s.created {
          assert IsAt(n, conn, With(c));
        } else {
          assert Somewhere(s, conn);
          var p :| IsAt(s, conn, p);
          assert IsAt(n, conn, p);
        }
      }
    } else {
      SamePlaces(s, n);
    }
  }

  lemma {:induction false} ReleaseKeeps(s: State, c: Client, reuse: bool)
    requires Inv(s) && Enabled(s, Release(c, reuse))
    ensures Inv(Next(s, Release(c, reuse)))
  {
    hide OnePlaceEach, Counted;
    LeasedOnly(s, c);
    ReleasePlaces(s, c, reuse);
    ReleaseCounts(s, c, reuse);
  }

  lemma {:induction false} ReleaseCounts(s: State, c: Client, reuse: bool)
    requires Counted(s) && c in s.leased && s.leased[c] !in s.deleted && s.leased[c] !in s.returning
    ensures Counted(Next(s, Release(c, reuse)))
  {
    assert s.leased.Keys == (s.leased - {c}).Keys + {c};
  }

  lemma {:induction false} LeasedOnly(s: State, c: Client)
    requires OnePlaceEach(s) && c in s.leased
    ensures s.leased[c] !in s.deleted && s.leased[c] !in s.returning
  {
    assert IsAt(s, s.leased[c], With(c));
    assert !IsAt(s, s.leased[c], Gone) && !IsAt(s, s.leased[c], OnTheWayBack);
  }

  lemma {:induction false} ReleasePlaces(s: State, c: Client, reuse: bool)
    requires OnePlaceEach(s) && Enabled(s, Release(c, reuse))
    ensures OnePlaceEach(Next(s, Release(c, reuse)))
  {
    var n, conn := Next(s, Release(c, reuse)), s.leased[c];
    var to := if s.stopped || !reuse then Gone else OnTheWayBack;
    assert IsAt(s, conn, With(c));
    assert forall x: Connection, p | IsAt(n, x, p) :: IsAt(s, x, if p == to && x == conn then With(c) else p);
    forall x: Connection | x < n.created ensures Somewhere(n, x) {
      assert Somewhere(s, x);
      var p :| IsAt(s, x, p);
      assert IsAt(n, x, if x == conn then to else p);
    }
  }

  lemma {:induction false} PutKeeps(s: State, conn: Connection)
    requires Inv(s) && Enabled(s, Put(conn))
    ensures Inv(Next(s, Put(conn)))
  {
    var n := Next(s, Put(conn));
    assert IsAt(s, conn, OnTheWayBack);
    var end := InQueue(|s.idle|);
    forall x: Connection, p | IsAt(n, x, p) ensures IsAt(s, x, if p == end then OnTheWayBack else p) { }
    forall x: Connection | x < n.created ensures Somewhere(n, x) {
      assert Somewhere(s, x);
      var p :| IsAt(s, x, p);
      assert IsAt(n, x, if x == conn then end else p);
    }
    assert n.queued == n.taken + n.idle;
  }

  lemma {:induction false} StepKeeps(s: State, step: Step)
    requires Inv(s) && Enabled(s, step)
    ensures Inv(Next(s, step))
  {
    match step
    case Take(c) => TakeKeeps(s, c);
    case Make(c, succeeds) => MakeKeeps(s, c, succeeds);
    case Release(c, reuse) => ReleaseKeeps(s, c, reuse);
    case Put(conn) => PutKeeps(s, conn);
    case Stop =>
      SamePlaces(s, Next(s, step));
  }

  lemma {:induction false} RunKeeps(s: State, run: seq<Step>)
    requires Inv(s) && ValidRun(s, run)
    ensures Inv(After(s, run))
    decreases |run|
  {
    if run != [] {
      StepKeeps(s, run[0]);
      RunKeeps(Next(s, run[0]), run[1..]);
    }
  }

  /** Connection ownership in every reachable state. */
  lemma {:induction false} Ownership(run: seq<Step>)
    requires ValidRun(Initial(), run)
    ensures Inv(After(Initial(), run))
  {
    InitialInv();
    RunKeeps(Initial(), run);
  }

  /** No connection is made while one is idle and nobody else interferes: a client that
      asks with a non-empty queue gets the connection that has been idle longest. */
  lemma {:induction false} OldestFirst(s: State, c: Client)
    requires Inv(s) && Enabled(s, Take(c)) && s.idle != []
    ensures var n := Next(s, Take(c));
            n.leased[c] == s.queued[|s.taken|] && n.created == s.created
  {
    assert s.queued[|s.taken|] == s.idle[0];
  }

  /** A deleted connection never comes back, to a client or to the queue. */
  lemma {:induction false} GoneForGood(s: State, run: seq<Step>, conn: Connection)
    requires Inv(s) && ValidRun(s, run) && conn in s.deleted
    ensures var e := After(s, run);
            conn in e.deleted && conn !in e.idle && conn !in e.returning && forall c | c in e.leased :: e.leased[c] != conn
    decreases |run|
  {
    if run == [] {
      assert IsAt(s, conn, Gone);
      assert !IsAt(s, conn, OnTheWayBack);
      assert forall i | 0 <= i < |s.idle| :: IsAt(s, s.idle[i], InQueue(i));
      assert forall c | c in s.leased :: IsAt(s, s.leased[c], With(c));
    } else {
      StepKeeps(s, run[0]);
      GoneForGood(Next(s, run[0]), run[1..], conn);
    }
  }

  // ---- Where a released connection goes ----

  /** It is on its way back exactly when it can be used again and the pool still runs, and
      deleted otherwise; nobody else's connection moves. */
  lemma {:induction false} ReleaseExactly(s: State, c: Client, reuse: bool)
    requires Inv(s) && Enabled(s, Release(c, reuse))
    ensures var conn := s.leased[c]; var n := Next(s, Release(c, reuse));
            && (conn in n.returning <==> reuse && !s.stopped)
            && (conn in n.deleted <==> !reuse || s.stopped)
            && n.returning - {conn} == s.returning && n.deleted - {conn} == s.deleted
            && n.leased == s.leased - {c} && n.idle == s.idle
  {
    hide Counted, Fifo, AskingHoldNothing;
    LeasedOnly(s, c);
  }

  /** The pool can be stopped at any time, starts running, and once stopped stays so: from
      then on every released connection is deleted. */
  lemma {:induction false} StoppedForGood(s: State, run: seq<Step>)
    requires ValidRun(s, run)
    ensures Enabled(s, Stop) && !Initial().stopped
    ensures After(s, run).stopped <==> s.stopped || Stop in run
    decreases |run|
  {
    if run != [] {
      StoppedForGood(Next(s, run[0]), run[1..]);
      assert Stop in run <==> run[0] == Stop || Stop in run[1..];
    }
  }

  /** A connection that its client found broken is never seen again. */
  lemma {:induction false} BrokenIsGone(s: State, c: Client, run: seq<Step>)
    requires Inv(s) && Enabled(s, Release(c, false)) && ValidRun(Next(s, Release(c, false)), run)
    ensures var conn := s.leased[c]; var e := After(Next(s, Release(c, false)), run);
            conn !in e.idle && conn !in e.returning && forall d | d in e.leased :: e.leased[d] != conn
  {
    ReleaseKeeps(s, c, false);
    ReleaseExactly(s, c, false);
    GoneForGood(Next(s, Release(c, false)), run, s.leased[c]);
  }

  /** One that can be used again waits for its own return, however long that takes, and then
      stands at the end of the queue. */
  lemma {:induction false} ReturnWaits(s: State, run: seq<Step>, conn: Connection)
    requires ValidRun(s, run) && conn in s.returning && Put(conn) !in run
    ensures var e := After(s, run);
            && conn in e.returning && (Enabled(e, Put(conn)) <==> !e.stopped)
            && (!e.stopped ==> Next(e, Put(conn)).idle == e.idle + [conn])
    decreases |run|
  {
    if run != [] {
      assert run[0] != Put(conn);
      ReturnWaits(Next(s, run[0]), run[1..], conn);
    }
  }

  // ---- How large the pool gets ----

  /** Connections that exist, and those that are about to. */
  function Size(s: State): int {
    s.created - |s.deleted| + |s.asking|
  }

  /** Clients that ask or hold, and connections on their way back. */
  function Demand(s: State): nat {
    |s.asking| + |s.leased| + |s.returning|
  }

  predicate DemandWithin(s: State, run: seq<Step>, m: int)
    requires ValidRun(s, run)
    decreases |run|
  {
    Demand(s) <= m && (run == [] || DemandWithin(Next(s, run[0]), run[1..], m))
  }

  lemma {:induction false} StepSize(s: State, step: Step)
    requires Inv(s) && Enabled(s, step)
    ensures Size(Next(s, step)) <= Size(s) || Size(Next(s, step)) == Demand(Next(s, step))
  {
    hide OnePlaceEach;
    StepKeeps(s, step);
  }

  /** The pool never gets larger than it was or than its peak demand; no other bound is kept. */
  lemma {:induction false} AsLargeAsDemand(s: State, run: seq<Step>, m: int)
    requires Inv(s) && ValidRun(s, run) && Size(s) <= m && DemandWithin(s, run, m)
    ensures Size(After(s, run)) <= m
    decreases |run|
  {
    hide Inv, Size, Demand, Next;
    if run != [] {
      StepKeeps(s, run[0]);
      StepSize(s, run[0]);
      assert DemandWithin(Next(s, run[0]), run[1..], m);
      AsLargeAsDemand(Next(s, run[0]), run[1..], m);
    }
  }

  /** `n` clients in a row, each of which asks and keeps what it gets. */
  function Rush(n: nat): seq<Step> {
    if n == 0 then [] else Rush(n - 1) + if n <= MIN then [Take(n - 1)] else [Take(n - 1), Make(n - 1, true)]
  }

  lemma {:induction false} RunOn(s: State, run: seq<Step>, more: seq<Step>)
    requires ValidRun(s, run) && ValidRun(After(s, run), more)
    ensures ValidRun(s, run + more) && After(s, run + more) == After(After(s, run), more)
    decreases |run|
  {
    if run == [] {
      assert run + more == more;
    } else {
      assert (run + more)[1..] == run[1..] + more;
      RunOn(Next(s, run[0]), run[1..], more);
    }
  }

  /** After a rush every client holds a connection of its own, past any limit. */
  lemma {:induction false} RushGrows(n: nat)
    ensures ValidRun(Initial(), Rush(n))
    ensures var e := After(Initial(), Rush(n));
            && e.asking == {} && e.deleted == {} && (forall c | c in e.leased :: c < n)
            && |e.idle| == (if n < MIN then MIN - n else 0) && e.created == (if n < MIN then MIN else n)
    decreases n
  {
    if n > 0 {
      RushGrows(n - 1);
      var before, c := After(Initial(), Rush(n - 1)), n - 1;
      if n <= MIN {
        OneTake(before, c);
        RunOn(Initial(), Rush(n - 1), [Take(c)]);
      } else {
        TakeAndMake(before, c);
        RunOn(Initial(), Rush(n - 1), [Take(c), Make(c, true)]);
      }
    }
  }

  lemma {:induction false} OneTake(s: State, c: Client)
    requires Enabled(s, Take(c))
    ensures ValidRun(s, [Take(c)]) && After(s, [Take(c)]) == Next(s, Take(c))
  {
    assert [Take(c)][1..] == [];
  }

  lemma {:induction false} TakeAndMake(s: State, c: Client)
    requires Enabled(s, Take(c)) && s.idle == []
    ensures var run := [Take(c), Make(c, true)];
            ValidRun(s, run) && After(s, run) == Next(Next(s, Take(c)), Make(c, true))
  {
    var run, n := [Take(c), Make(c, true)], Next(s, Take(c));
    assert run[1..] == [Make(c, true)] && [Make(c, true)][1..] == [];
    assert Enabled(n, Make(c, true)) && After(n, [Make(c, true)]) == After(Next(n, Make(c, true)), []);
  }
}
