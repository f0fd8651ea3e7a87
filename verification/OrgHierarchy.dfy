/** Organisations and their closure table: `backend_create` and `backend_delete` inside
    `db::transaction`. The table must agree with the parent pointers it indexes. */
module OrgHierarchy {
  import opened Results

  /** A row of `sys_organizations`; `live` is `deleted_at IS NULL`. */
  datatype Org = Org(parent: Option<nat>, live: bool)

  /** A row of `sys_organization_hierarchy`. */
  datatype Row = Row(ancestor: nat, descendant: nat, distance: nat)

  /** Both tables and the auto-increment counter of the first. */
  datatype Db = Db(orgs: map<nat, Org>, rows: seq<Row>, nextId: nat)

  // ---- What the closure table is meant to hold ----

  /** The organisation `n` parent steps above `d`. */
  function Above(orgs: map<nat, Org>, d: nat, n: nat): Option<nat>
    decreases n
  {
    if d !in orgs then None
    else if n == 0 then Some(d)
    else if orgs[d].parent.None? then None
    else Above(orgs, orgs[d].parent.value, n - 1)
  }

  predicate Live(orgs: map<nat, Org>, id: nat) {
    id in orgs && orgs[id].live
  }

  /** Parents exist and are older than their children; ids are handed out in order. */
  ghost predicate WellFormed(db: Db) {
    forall d | d in db.orgs ::
      d < db.nextId && (db.orgs[d].parent.Some? ==> db.orgs[d].parent.value in db.orgs && db.orgs[d].parent.value < d)
  }

  predicate Belongs(orgs: map<nat, Org>, r: Row) {
    Live(orgs, r.ancestor) && Live(orgs, r.descendant) && Above(orgs, r.descendant, r.distance) == Some(r.ancestor)
  }

  predicate Distinct(rows: seq<Row>) {
    forall i, j | 0 <= i < j < |rows| :: rows[i] != rows[j]
  }

  /** The table holds exactly the triples (a, d, n) of live organisations with `a` lying
      `n` parent steps above `d`, each once. */
  ghost predicate Faithful(db: Db) {
    && WellFormed(db) && Distinct(db.rows)
    && forall r :: r in db.rows <==> Belongs(db.orgs, r)
  }

  // ---- The statements ----

  /** `SELECT fn_ancestor_id, id, path_length+1 ... WHERE fn_descendant_id = parent` */
  function Derived(rows: seq<Row>, parent: nat, id: nat): seq<Row> {
    if rows == [] then []
    else
      var rest := Derived(rows[1..], parent, id);
      if rows[0].descendant == parent then [Row(rows[0].ancestor, id, rows[0].distance + 1)] + rest else rest
  }

  /** `UNION` drops duplicates. */
  function Union(a: seq<Row>, b: seq<Row>): seq<Row>
    decreases |b|
  {
    if b == [] then a else Union(if b[0] in a then a else a + [b[0]], b[1..])
  }

  /** `DELETE ... WHERE fn_ancestor_id = id OR fn_descendant_id = id` */
  function Without(rows: seq<Row>, id: nat): seq<Row> {
    if rows == [] then []
    else if rows[0].ancestor == id || rows[0].descendant == id then Without(rows[1..], id)
    else [rows[0]] + Without(rows[1..], id)
  }

  /** Where a transaction fails, if it does. */
  datatype Failure = Nowhere | FirstStatement | SecondStatement

  datatype Op =
    | Create(parent: nat, permitted: bool, failure: Failure)
    | Delete(target: nat, permitted: bool, failure: Failure)

  function NewRows(rows: seq<Row>, parent: nat, id: nat): seq<Row> {
    Union(Union([], Derived(rows, parent, id)), [Row(id, id, 0)])
  }

  /** A delete needs a live target that has a parent: the parent id of a root is NULL
      and reading it as an integer throws. */
  predicate Deletable(orgs: map<nat, Org>, id: nat) {
    Live(orgs, id) && orgs[id].parent.Some?
  }

  /** The transaction of a create, whatever has become of the parent since it was checked. */
  function CreateCommits(db: Db, parent: nat): Db {
    Db(db.orgs[db.nextId := Org(Some(parent), true)], db.rows + NewRows(db.rows, parent, db.nextId), db.nextId + 1)
  }

  function DeleteCommits(db: Db, target: nat): Db
    requires target in db.orgs
  {
    db.(orgs := db.orgs[target := db.orgs[target].(live := false)], rows := Without(db.rows, target))
  }

  /** One request: the new tables, or the old ones when it is refused or fails.
      An id drawn by a failed insert stays drawn. */
  function Step(db: Db, op: Op): Db {
    match op
    case Create(parent, permitted, failure) =>
      if !permitted || !Live(db.orgs, parent) || failure.FirstStatement? then db
      else if failure.SecondStatement? then db.(nextId := db.nextId + 1)
      else CreateCommits(db, parent)
    case Delete(target, permitted, failure) =>
      if !permitted || !Deletable(db.orgs, target) || !failure.Nowhere? then db
      else DeleteCommits(db, target)
  }

  function Run(db: Db, ops: seq<Op>): Db
    decreases |ops|
  {
    if ops == [] then db else Run(Step(db, ops[0]), ops[1..])
  }

  /** What the migration inserts. */
  function Initial(): Db {
    Db(map[1 := Org(None, true)], [Row(1, 1, 0)], 2)
  }

  // ---- The controller ----

  class Database {
    var orgs: map<nat, Org>
    var rows: seq<Row>
    var nextId: nat

    constructor ()
      ensures State() == Initial()
    {
      orgs, rows, nextId := map[1 := Org(None, true)], [Row(1, 1, 0)], 2;
    }

    function State(): Db
      reads this
    {
      Db(orgs, rows, nextId)
    }

    /** `backend_create` */
    method BackendCreate(parent: nat, permitted: bool, failure: Failure) returns (ok: bool)
      modifies this
      ensures State() == Step(old(State()), Create(parent, permitted, failure))
      ensures ok <==> permitted && Live(old(orgs), parent) && failure.Nowhere?
      ensures ok ==> orgs == old(orgs)[old(nextId) := Org(Some(parent), true)]
      ensures !ok ==> orgs == old(orgs) && rows == old(rows)
    {
      if !permitted || !Live(orgs, parent) { return false; }
      var savedOrgs, savedRows := orgs, rows;  // START TRANSACTION
      ok := !failure.FirstStatement?;
      if ok {
        var id := nextId;
        orgs, nextId := orgs[id := Org(Some(parent), true)], nextId + 1;
        ok := !failure.SecondStatement?;
        if ok {
          rows := rows + NewRows(rows, parent, id);
        }
      }
      if !ok { orgs, rows := savedOrgs, savedRows; }  // ROLLBACK
    }

    /** `backend_delete` */
    method BackendDelete(target: nat, permitted: bool, failure: Failure) returns (ok: bool)
      modifies this
      ensures State() == Step(old(State()), Delete(target, permitted, failure))
      ensures ok <==> permitted && Deletable(old(orgs), target) && failure.Nowhere?
      ensures ok ==> orgs == old(orgs)[target := Org(old(orgs)[target].parent, false)]
      ensures !ok ==> orgs == old(orgs) && rows == old(rows)
    {
      if !Live(orgs, target) { return false; }
      if orgs[target].parent.None? || !permitted { return false; }
      var savedOrgs, savedRows := orgs, rows;  // START TRANSACTION
      ok := !failure.FirstStatement?;
      if ok {
        rows := Without(rows, target);
        ok := !failure.SecondStatement?;
        if ok {
          orgs := orgs[target := orgs[target].(live := false)];
        }
      }
      if !ok { orgs, rows := savedOrgs, savedRows; }  // ROLLBACK
    }
  }

  // ---- Proofs ----

  lemma {:induction false} DerivedMembers(rows: seq<Row>, parent: nat, id: nat, r: Row)
    ensures r in Derived(rows, parent, id)
       <==> r.descendant == id && r.distance > 0 && Row(r.ancestor, parent, r.distance - 1) in rows
  {
    if rows != [] {
      DerivedMembers(rows[1..], parent, id, r);
      var first := rows[0];
      assert forall x :: x in rows <==> x == first || x in rows[1..];
    }
  }

  lemma {:induction false} WithoutMembers(rows: seq<Row>, id: nat, r: Row)
    ensures r in Without(rows, id) <==> r in rows && r.ancestor != id && r.descendant != id
  {
    if rows != [] {
      WithoutMembers(rows[1..], id, r);
      assert r in rows <==> r == rows[0] || r in rows[1..];
    }
  }

  lemma {:induction false} WithoutDistinct(rows: seq<Row>, id: nat)
    requires Distinct(rows)
    ensures Distinct(Without(rows, id))
  {
    if rows != [] {
      assert Distinct(rows[1..]);
      WithoutDistinct(rows[1..], id);
      WithoutMembers(rows[1..], id, rows[0]);
      assert rows[0] !in rows[1..];
    }
  }

  lemma {:induction false} UnionFacts(a: seq<Row>, b: seq<Row>)
    requires Distinct(a)
    ensures Distinct(Union(a, b))
    ensures forall r :: r in Union(a, b) <==> r in a || r in b
    decreases |b|
  {
    if b != [] {
      var next := if b[0] in a then a else a + [b[0]];
      UnionFacts(next, b[1..]);
      assert forall r :: r in b <==> r == b[0] || r in b[1..];
    }
  }

  /** The row of the organisation itself, and one for each row of its parent. */
  predicate IsNew(rows: seq<Row>, parent: nat, id: nat, r: Row) {
    r == Row(id, id, 0) || (r.descendant == id && r.distance > 0 && Row(r.ancestor, parent, r.distance - 1) in rows)
  }

  lemma {:induction false} NewRowsFacts(rows: seq<Row>, parent: nat, id: nat)
    ensures Distinct(NewRows(rows, parent, id))
    ensures forall r :: r in NewRows(rows, parent, id) <==> IsNew(rows, parent, id, r)
  {
    var derived := Derived(rows, parent, id);
    UnionFacts([], derived);
    UnionFacts(Union([], derived), [Row(id, id, 0)]);
    forall r ensures r in derived
               <==> r.descendant == id && r.distance > 0 && Row(r.ancestor, parent, r.distance - 1) in rows {
      DerivedMembers(rows, parent, id, r);
    }
  }

  /** Rows for a descendant the table does not know yet repeat none of its rows. */
  lemma {:induction false} StaysDistinct(db: Db, parent: nat)
    requires Distinct(db.rows) && forall r | r in db.rows :: r.descendant != db.nextId
    ensures Distinct(db.rows + NewRows(db.rows, parent, db.nextId))
  {
    hide NewRows;
    var added := NewRows(db.rows, parent, db.nextId);
    NewRowsFacts(db.rows, parent, db.nextId);
    assert forall r | r in added :: r.descendant == db.nextId;
    assert forall i | 0 <= i < |db.rows| :: db.rows[i] in db.rows;
    assert forall i | 0 <= i < |added| :: added[i] in added;
  }

  /** Chains of parents only depend on the parent column of organisations that exist. */
  lemma {:induction false} AboveUnchanged(before: Db, after: map<nat, Org>, d: nat, n: nat)
    requires WellFormed(before) && d in before.orgs
    requires forall x | x in before.orgs :: x in after && after[x].parent == before.orgs[x].parent
    ensures Above(after, d, n) == Above(before.orgs, d, n)
    decreases n
  {
    if n > 0 && before.orgs[d].parent.Some? {
      AboveUnchanged(before, after, before.orgs[d].parent.value, n - 1);
    }
  }

  lemma {:induction false} CreateKeeps(db: Db, parent: nat)
    requires Faithful(db) && Live(db.orgs, parent)
    ensures Faithful(CreateCommits(db, parent))
  {
    var id := db.nextId;
    var after := CreateCommits(db, parent);
    NewRowsFacts(db.rows, parent, id);
    forall r ensures r in after.rows <==> Belongs(after.orgs, r) {
      if r.descendant == id {
        assert !Belongs(db.orgs, r);
        if r.distance > 0 {
          AboveUnchanged(db, after.orgs, parent, r.distance - 1);
          var up := Row(r.ancestor, parent, r.distance - 1);
          assert up in db.rows <==> Belongs(db.orgs, up);
          AboveExists(db.orgs, parent, r.distance - 1);
        }
      } else if r.descendant in db.orgs {
        AboveUnchanged(db, after.orgs, r.descendant, r.distance);
        AboveExists(db.orgs, r.descendant, r.distance);
      }
    }
    StaysDistinct(db, parent);
  }

  /** Somebody above `d`, or `d` itself, is live. */
  ghost predicate LiveAbove(orgs: map<nat, Org>, d: nat) {
    exists n: nat :: Above(orgs, d, n).Some? && Live(orgs, Above(orgs, d, n).value)
  }

  /** With nobody live above it, the new organisation gets the row of its own and no other. */
  lemma {:induction false} DetachedKeeps(db: Db, parent: nat)
    requires Faithful(db) && parent in db.orgs && !LiveAbove(db.orgs, parent)
    ensures Faithful(CreateCommits(db, parent))
  {
    var id := db.nextId;
    var after := CreateCommits(db, parent);
    assert Above(db.orgs, parent, 0) == Some(parent);
    NewRowsFacts(db.rows, parent, id);
    assert forall r | r in db.rows :: r.descendant != parent && r.descendant != id;
    StaysDistinct(db, parent);
    forall r ensures r in after.rows <==> Belongs(after.orgs, r) {
      if r.descendant == id {
        if r.distance > 0 {
          AboveUnchanged(db, after.orgs, parent, r.distance - 1);
          AboveExists(db.orgs, parent, r.distance - 1);
        }
      } else if r.descendant in db.orgs {
        AboveUnchanged(db, after.orgs, r.descendant, r.distance);
        AboveExists(db.orgs, r.descendant, r.distance);
      }
    }
  }

  /** The parent is checked before the transaction starts and may be deleted in between.
      The table then stays faithful exactly when the parent is live after all, or nobody
      above it is. */
  lemma {:induction false} CommitExactly(db: Db, parent: nat)
    requires Faithful(db) && parent in db.orgs
    ensures Faithful(CreateCommits(db, parent)) <==> Live(db.orgs, parent) || !LiveAbove(db.orgs, parent)
  {
    if Live(db.orgs, parent) {
      CreateKeeps(db, parent);
    } else if !LiveAbove(db.orgs, parent) {
      DetachedKeeps(db, parent);
    } else {
      var n: nat :| Above(db.orgs, parent, n).Some? && Live(db.orgs, Above(db.orgs, parent, n).value);
      var id, after := db.nextId, CreateCommits(db, parent);
      var missing := Row(Above(db.orgs, parent, n).value, id, n + 1);
      AboveUnchanged(db, after.orgs, parent, n);
      assert Belongs(after.orgs, missing);
      NewRowsFacts(db.rows, parent, id);
      assert Row(missing.ancestor, parent, n) !in db.rows && missing !in db.rows;
      assert missing !in after.rows;
    }
  }

  lemma {:induction false} AboveExists(orgs: map<nat, Org>, d: nat, n: nat)
    ensures var a := Above(orgs, d, n); a.Some? ==> a.value in orgs
    decreases n
  {
    if d in orgs && n > 0 && orgs[d].parent.Some? {
      AboveExists(orgs, orgs[d].parent.value, n - 1);
    }
  }

  lemma {:induction false} DeleteKeeps(db: Db, target: nat)
    requires Faithful(db) && target in db.orgs
    ensures Faithful(DeleteCommits(db, target))
  {
    var after := DeleteCommits(db, target);
    WithoutDistinct(db.rows, target);
    forall r ensures r in after.rows <==> Belongs(after.orgs, r) {
      WithoutMembers(db.rows, target, r);
      if r.descendant in db.orgs {
        AboveUnchanged(db, after.orgs, r.descendant, r.distance);
      }
    }
  }

  lemma {:induction false} StepKeeps(db: Db, op: Op)
    requires Faithful(db)
    ensures Faithful(Step(db, op))
  {
    match op
    case Create(parent, permitted, failure) =>
      if permitted && Live(db.orgs, parent) && failure.Nowhere? { CreateKeeps(db, parent); }
    case Delete(target, permitted, failure) =>
      if permitted && Deletable(db.orgs, target) && failure.Nowhere? { DeleteKeeps(db, target); }
  }

  lemma {:induction false} RunKeeps(db: Db, ops: seq<Op>)
    requires Faithful(db)
    ensures Faithful(Run(db, ops))
    decreases |ops|
  {
    if ops != [] {
      StepKeeps(db, ops[0]);
      RunKeeps(Step(db, ops[0]), ops[1..]);
    }
  }

  lemma {:induction false} InitialFaithful()
    ensures Faithful(Initial())
  {
    var orgs := Initial().orgs;
    forall r ensures r in Initial().rows <==> Belongs(orgs, r) {
      assert r.descendant == 1 && r.distance > 0 ==> Above(orgs, 1, r.distance) == None;
    }
  }

  /** Over any run of creates and soft deletes, inner nodes included, the closure table
      is faithful to the parent pointers. */
  lemma {:induction false} ClosureFaithful(ops: seq<Op>)
    ensures Faithful(Run(Initial(), ops))
  {
    InitialFaithful();
    RunKeeps(Initial(), ops);
  }

  // ---- What one request changes ----

  /** A create that is not refused and does not fail puts one live organisation under the
      parent it was asked for, with a row for everybody above that parent and one for
      itself; nothing else changes. Otherwise nothing changes but the counter. */
  lemma {:induction false} CreateExactly(db: Db, parent: nat, permitted: bool, failure: Failure)
    requires Faithful(db)
    ensures var after := Step(db, Create(parent, permitted, failure));
            var starts := permitted && parent in db.orgs && db.orgs[parent].live;
            && after.nextId == db.nextId + (if starts && failure != FirstStatement then 1 else 0)
            && (forall d | d in db.orgs :: d in after.orgs && after.orgs[d] == db.orgs[d])
            && (if starts && failure == Nowhere then
                  && after.orgs.Keys == db.orgs.Keys + {db.nextId}
                  && after.orgs[db.nextId] == Org(Some(parent), true)
                  && forall r :: r in after.rows <==> r in db.rows || IsNew(db.rows, parent, db.nextId, r)
                else after.orgs == db.orgs && after.rows == db.rows)
  {
    NewRowsFacts(db.rows, parent, db.nextId);
  }

  /** A delete marks its target and drops the rows that name it, and nothing else. */
  lemma {:induction false} DeleteExactly(db: Db, target: nat, permitted: bool, failure: Failure)
    ensures var after := Step(db, Delete(target, permitted, failure));
            var commits := permitted && target in db.orgs && db.orgs[target].live && db.orgs[target].parent.Some? && failure == Nowhere;
            && after.nextId == db.nextId && after.orgs.Keys == db.orgs.Keys
            && (forall d | d in db.orgs ::
                  after.orgs[d] == if commits && d == target then Org(db.orgs[d].parent, false) else db.orgs[d])
            && (forall r :: r in after.rows <==> r in db.rows && (commits ==> r.ancestor != target && r.descendant != target))
  {
    forall r ensures r in Without(db.rows, target) <==> r in db.rows && r.ancestor != target && r.descendant != target {
      WithoutMembers(db.rows, target, r);
    }
  }

  // ---- Requests that overlap ----

  /** A request in two halves: its checks, and its transaction. */
  datatype Action =
    | CheckCreate(parent: nat, permitted: bool)
    | CommitCreate(parent: nat, failure: Failure)
    | CheckDelete(target: nat, permitted: bool)
    | CommitDelete(target: nat, failure: Failure)

  /** The tables, and what requests that passed their checks are about to do. */
  datatype System = System(db: Db, creating: set<nat>, deleting: set<nat>)

  predicate CanAct(s: System, a: Action) {
    match a
    case CommitCreate(parent, _) => parent in s.creating
    case CommitDelete(target, _) => target in s.deleting && target in s.db.orgs
    case _ => true
  }

  function Act(s: System, a: Action): System
    requires CanAct(s, a)
  {
    match a
    case CheckCreate(parent, permitted) =>
      if permitted && Live(s.db.orgs, parent) then s.(creating := s.creating + {parent}) else s
    case CheckDelete(target, permitted) =>
      if permitted && Deletable(s.db.orgs, target) then s.(deleting := s.deleting + {target}) else s
    case CommitCreate(parent, failure) =>
      if failure.Nowhere? then s.(db := CreateCommits(s.db, parent))
      else if failure.SecondStatement? then s.(db := s.db.(nextId := s.db.nextId + 1))
      else s
    case CommitDelete(target, failure) =>
      if failure.Nowhere? then s.(db := DeleteCommits(s.db, target)) else s
  }

  function CheckOf(op: Op): Action {
    match op
    case Create(parent, permitted, _) => CheckCreate(parent, permitted)
    case Delete(target, permitted, _) => CheckDelete(target, permitted)
  }

  function CommitOf(op: Op): Action {
    match op
    case Create(parent, _, failure) => CommitCreate(parent, failure)
    case Delete(target, _, failure) => CommitDelete(target, failure)
  }

  /** A request that nobody interferes with is its check and then its commit. */
  lemma {:induction false} StepIsActs(db: Db, op: Op)
    ensures var checked := Act(System(db, {}, {}), CheckOf(op));
            && checked.db == db
            && Step(db, op) == if CanAct(checked, CommitOf(op)) then Act(checked, CommitOf(op)).db else db
  {
  }

  ghost predicate Sound(s: System) {
    Faithful(s.db) && s.creating <= s.db.orgs.Keys && s.deleting <= s.db.orgs.Keys
  }

  /** A create that commits finds its parent live, or nobody above it. */
  ghost predicate InTime(s: System, a: Action) {
    a.CommitCreate? && a.failure.Nowhere? ==> Live(s.db.orgs, a.parent) || !LiveAbove(s.db.orgs, a.parent)
  }

  /** Whatever the other requests are doing, an action keeps the table faithful exactly
      when it is in time. Deletes always are. */
  lemma {:induction false} ActKeepsExactly(s: System, a: Action)
    requires Sound(s) && CanAct(s, a)
    ensures Sound(Act(s, a)) <==> InTime(s, a)
  {
    match a
    case CommitCreate(parent, failure) => CommitExactly(s.db, parent);
    case CommitDelete(target, failure) => DeleteKeeps(s.db, target);
    case _ =>
  }

  ghost predicate TimelyRun(s: System, run: seq<Action>)
    decreases |run|
  {
    run != [] ==> CanAct(s, run[0]) && InTime(s, run[0]) && TimelyRun(Act(s, run[0]), run[1..])
  }

  ghost function AfterActs(s: System, run: seq<Action>): System
    requires TimelyRun(s, run)
    decreases |run|
  {
    if run == [] then s else AfterActs(Act(s, run[0]), run[1..])
  }

  /** Over any overlapping run of requests whose creates are in time. */
  lemma {:induction false} OverlapKeeps(s: System, run: seq<Action>)
    requires Sound(s) && TimelyRun(s, run)
    ensures Sound(AfterActs(s, run))
    decreases |run|
  {
    if run != [] {
      ActKeepsExactly(s, run[0]);
      OverlapKeeps(Act(s, run[0]), run[1..]);
    }
  }
}
