/** The migration runner: one call walks a list of migrations, skips those already
    recorded, and stops at the first failure. */
module Migrations {

  // ---- The database ----

  /** A row of the migrations table; its position stands for the `id` column. */
  datatype Row = Row(name: string, batch: int)

  /** `completed` lists every `up` that ran to its end, in order. `unrecorded` lists those
      of them whose row could not be inserted afterwards. */
  datatype State = State(exists_: bool, rows: seq<Row>, completed: seq<string>, unrecorded: seq<string>)

  function Initial(): State { State(false, [], [], []) }

  function Names(rows: seq<Row>): (r: seq<string>)
    ensures |r| == |rows| && forall i | 0 <= i < |rows| :: r[i] == rows[i].name
  {
    seq(|rows|, i requires 0 <= i < |rows| => rows[i].name)
  }

  predicate Recorded(rows: seq<Row>, name: string) {
    exists i | 0 <= i < |rows| :: rows[i].name == name
  }

  /** What `MAX(batch)` and the test for NULL leave in `batch`. */
  function NextBatch(rows: seq<Row>): int {
    if rows == [] then 1 else Highest(rows) + 1
  }

  function Highest(rows: seq<Row>): (h: int)
    requires rows != []
    ensures forall i | 0 <= i < |rows| :: rows[i].batch <= h
    ensures exists i | 0 <= i < |rows| :: rows[i].batch == h
  {
    var n := |rows| - 1;
    if n == 0 then rows[0].batch
    else
      var h := Highest(rows[..n]);
      if rows[n].batch > h then rows[n].batch else h
  }

  // ---- One call ----

  datatype Outcome = Completes | QueryFails | UpFails | InsertFails

  /** What fails during a call; `at(i)` is the fate of the i-th migration of the list. */
  datatype Faults = Faults(show: bool, create: bool, max: bool, at: nat -> Outcome)

  function Smooth(): Faults { Faults(false, false, false, i => Completes) }

  function Noted(s: State, name: string, batch: int): State {
    s.(rows := s.rows + [Row(name, batch)], completed := s.completed + [name])
  }

  function NotNoted(s: State, name: string): State {
    s.(completed := s.completed + [name], unrecorded := s.unrecorded + [name])
  }

  /** The loop over the list from its i-th member on. */
  function Walk(s: State, names: seq<string>, i: nat, batch: int, at: nat -> Outcome): State
    requires i <= |names|
    decreases |names| - i
  {
    if i == |names| || at(i).QueryFails? then s
    else if Recorded(s.rows, names[i]) then Walk(s, names, i + 1, batch, at)
    else if at(i).UpFails? then s
    else if at(i).InsertFails? then NotNoted(s, names[i])
    else Walk(Noted(s, names[i], batch), names, i + 1, batch, at)
  }

  /** The second value says whether the call returned rather than threw. */
  function After(s: State, names: seq<string>, f: Faults): (State, bool) {
    if f.show || (!s.exists_ && f.create) then (s, false)
    else
      var t := s.(exists_ := true);
      if f.max then (t, false) else (Walk(t, names, 0, NextBatch(s.rows), f.at), true)
  }

  class Database {
    var exists_: bool
    var rows: seq<Row>
    var completed: seq<string>
    ghost var unrecorded: seq<string>

    ghost function Contents(): State
      reads this
    {
      State(exists_, rows, completed, unrecorded)
    }

    constructor ()
      ensures Contents() == Initial()
    {
      exists_, rows, completed, unrecorded := false, [], [], [];
    }

    method Find(name: string) returns (found: bool)
      ensures found == Recorded(rows, name)
    {
      found := false;
      for i := 0 to |rows|
        invariant found == Recorded(rows[..i], name)
      {
        assert rows[..i + 1] == rows[..i] + [rows[i]];
        if rows[i].name == name {
          assert rows[..i + 1][i].name == name;
          found := true;
        } else if found {
          assert exists k | 0 <= k < i :: rows[..i][k].name == name && rows[..i + 1][k].name == name;
        } else {
          assert forall k | 0 <= k < i :: rows[..i][k].name != name && rows[..i + 1][k] == rows[..i][k];
        }
      }
      assert rows[..|rows|] == rows;
    }

    /** `run_migration` */
    method RunMigration(names: seq<string>, f: Faults) returns (returned: bool)
      modifies this
      ensures (Contents(), returned) == After(old(Contents()), names, f)
    {
      if f.show { return false; }
      if !exists_ {
        if f.create { return false; }
        exists_ := true;
      }
      if f.max { return false; }
      var batch := NextBatch(rows);
      ghost var goal := Walk(Contents(), names, 0, batch, f.at);
      var i := 0;
      while i < |names|
        invariant 0 <= i <= |names|
        invariant Walk(Contents(), names, i, batch, f.at) == goal
      {
        if f.at(i).QueryFails? { break; }
        var found := Find(names[i]);
        if !found {
          if f.at(i).UpFails? { break; }
          completed := completed + [names[i]];
          if f.at(i).InsertFails? {
            unrecorded := unrecorded + [names[i]];
            break;
          }
          rows := rows + [Row(names[i], batch)];
        }
        i := i + 1;
      }
      returned := true;
    }
  }

  // ---- What every sequence of calls keeps ----

  predicate Distinct(names: seq<string>) {
    forall i, j | 0 <= i < j < |names| :: names[i] != names[j]
  }

  /** The lists of the modules of one program: distinct names, none shared. */
  predicate Lists(masters: seq<seq<string>>) {
    && (forall k | 0 <= k < |masters| :: Distinct(masters[k]))
    && (forall k, l, i, j | 0 <= k < |masters| && 0 <= l < |masters| && k != l && 0 <= i < |masters[k]| && 0 <= j < |masters[l]|
          :: masters[k][i] != masters[l][j])
  }

  /** The members of `names` that belong to `master`, in their order in `names`. */
  function Restrict(names: seq<string>, master: seq<string>): seq<string> {
    if names == [] then []
    else
      var n := |names| - 1;
      Restrict(names[..n], master) + (if names[n] in master then [names[n]] else [])
  }

  predicate PrefixRecorded(rows: seq<Row>, master: seq<string>) {
    Restrict(Names(rows), master) <= master
  }

  predicate Ordered(rows: seq<Row>) {
    forall i, j | 0 <= i < j < |rows| :: rows[i].batch <= rows[j].batch
  }

  /** No `up` ran before the previous member of its list had completed. */
  predicate InOrder(completed: seq<string>, master: seq<string>) {
    forall t, i | 0 <= t < |completed| && 0 < i < |master| && completed[t] == master[i] :: master[i - 1] in completed[..t]
  }

  predicate Prefixes(masters: seq<seq<string>>, rows: seq<Row>) {
    forall k | 0 <= k < |masters| :: PrefixRecorded(rows, masters[k])
  }

  predicate AllInOrder(masters: seq<seq<string>>, completed: seq<string>) {
    forall k | 0 <= k < |masters| :: InOrder(completed, masters[k])
  }

  predicate Listed(masters: seq<seq<string>>, name: string) {
    exists k | 0 <= k < |masters| :: name in masters[k]
  }

  predicate Owned(masters: seq<seq<string>>, rows: seq<Row>) {
    forall i | 0 <= i < |rows| :: Listed(masters, rows[i].name)
  }

  predicate Balanced(s: State) {
    multiset(s.completed) == multiset(Names(s.rows)) + multiset(s.unrecorded)
  }

  predicate Inv(masters: seq<seq<string>>, s: State) {
    Prefixes(masters, s.rows) && AllInOrder(masters, s.completed) && Owned(masters, s.rows) && Ordered(s.rows) && Balanced(s)
  }

  predicate AllBelow(rows: seq<Row>, batch: int) {
    forall j | 0 <= j < |rows| :: rows[j].batch <= batch
  }

  predicate RecordedUpTo(rows: seq<Row>, master: seq<string>, i: nat)
    requires i <= |master|
  {
    forall j | 0 <= j < i :: Recorded(rows, master[j])
  }

  lemma {:induction false} RestrictAppend(rows: seq<Row>, row: Row, master: seq<string>)
    ensures Names(rows + [row]) == Names(rows) + [row.name]
    ensures Restrict(Names(rows + [row]), master)
            == Restrict(Names(rows), master) + (if row.name in master then [row.name] else [])
  {
    assert Names(rows + [row]) == Names(rows) + [row.name];
    assert (Names(rows) + [row.name])[..|rows|] == Names(rows);
  }

  lemma {:induction false} RestrictHolds(names: seq<string>, master: seq<string>, name: string)
    ensures name in Restrict(names, master) <==> name in names && name in master
  {
    if names != [] {
      RestrictHolds(names[..|names| - 1], master, name);
      assert names == names[..|names| - 1] + [names[|names| - 1]];
    }
  }

  lemma {:induction false} RecordedIsNamed(rows: seq<Row>, name: string)
    ensures Recorded(rows, name) <==> name in Names(rows)
  {
    if Recorded(rows, name) {
      var i :| 0 <= i < |rows| && rows[i].name == name;
      assert Names(rows)[i] == name;
    }
  }

  /** When the first `i` members of a list are recorded and the next is not, the recorded
      part is exactly those `i`. */
  lemma {:induction false} NextInLine(rows: seq<Row>, master: seq<string>, i: nat)
    requires Distinct(master) && PrefixRecorded(rows, master) && i < |master|
    requires RecordedUpTo(rows, master, i)
    requires !Recorded(rows, master[i])
    ensures Restrict(Names(rows), master) == master[..i]
  {
    var done := Restrict(Names(rows), master);
    RecordedIsNamed(rows, master[i]);
    RestrictHolds(Names(rows), master, master[i]);
    assert done == master[..|done|];
    if i > 0 {
      RecordedIsNamed(rows, master[i - 1]);
      RestrictHolds(Names(rows), master, master[i - 1]);
    }
  }

  /** The multiset of completed runs covers every recorded name. */
  lemma {:induction false} RecordedCompleted(s: State, name: string)
    requires Balanced(s) && Recorded(s.rows, name)
    ensures name in s.completed
  {
    RecordedIsNamed(s.rows, name);
    assert name in multiset(Names(s.rows));
    assert name in multiset(s.completed);
  }

  lemma {:induction false} OrderKept(masters: seq<seq<string>>, s: State, k: nat, i: nat)
    requires Lists(masters) && AllInOrder(masters, s.completed) && Balanced(s) && k < |masters| && i < |masters[k]|
    requires RecordedUpTo(s.rows, masters[k], i)
    ensures AllInOrder(masters, s.completed + [masters[k][i]])
  {
    var name, grown := masters[k][i], s.completed + [masters[k][i]];
    forall l | 0 <= l < |masters|
      ensures InOrder(grown, masters[l]) {
      forall t, j | 0 <= t < |grown| && 0 < j < |masters[l]| && grown[t] == masters[l][j]
        ensures masters[l][j - 1] in grown[..t] {
        if t < |s.completed| {
          assert InOrder(s.completed, masters[l]);
          assert grown[..t] == s.completed[..t];
        } else {
          assert l == k;
          assert j == i;
          RecordedCompleted(s, masters[k][i - 1]);
          assert grown[..t] == s.completed;
        }
      }
    }
  }

  lemma {:induction false} PrefixesKept(masters: seq<seq<string>>, rows: seq<Row>, k: nat, i: nat, batch: int)
    requires Lists(masters) && Prefixes(masters, rows) && k < |masters| && i < |masters[k]|
    requires RecordedUpTo(rows, masters[k], i) && !Recorded(rows, masters[k][i])
    ensures Prefixes(masters, rows + [Row(masters[k][i], batch)])
  {
    var row := Row(masters[k][i], batch);
    forall l | 0 <= l < |masters|
      ensures PrefixRecorded(rows + [row], masters[l]) {
      RestrictAppend(rows, row, masters[l]);
      if l == k {
        NextInLine(rows, masters[k], i);
        assert masters[k][..i] + [row.name] == masters[k][..i + 1];
      } else {
        assert row.name !in masters[l];
      }
    }
  }

  lemma {:induction false} NotedKeeps(masters: seq<seq<string>>, s: State, k: nat, i: nat, batch: int)
    requires Lists(masters) && Inv(masters, s) && k < |masters| && i < |masters[k]|
    requires RecordedUpTo(s.rows, masters[k], i) && !Recorded(s.rows, masters[k][i])
    requires AllBelow(s.rows, batch)
    ensures var t := Noted(s, masters[k][i], batch);
            Inv(masters, t) && RecordedUpTo(t.rows, masters[k], i + 1) && AllBelow(t.rows, batch)
  {
    var row := Row(masters[k][i], batch);
    OrderKept(masters, s, k, i);
    PrefixesKept(masters, s.rows, k, i, batch);
    assert Listed(masters, row.name);
    RestrictAppend(s.rows, row, []);
    forall j | 0 <= j < i + 1
      ensures Recorded(s.rows + [row], masters[k][j]) {
      StaysRecorded(s.rows, row, masters[k][j]);
    }
  }

  lemma {:induction false} NotNotedKeeps(masters: seq<seq<string>>, s: State, k: nat, i: nat)
    requires Lists(masters) && Inv(masters, s) && k < |masters| && i < |masters[k]|
    requires RecordedUpTo(s.rows, masters[k], i)
    ensures Inv(masters, NotNoted(s, masters[k][i]))
  {
    OrderKept(masters, s, k, i);
  }

  lemma {:induction false} WalkKeeps(masters: seq<seq<string>>, s: State, k: nat, n: nat, i: nat, batch: int, at: nat -> Outcome)
    returns (r: State)
    requires Lists(masters) && Inv(masters, s) && k < |masters| && i <= n <= |masters[k]|
    requires RecordedUpTo(s.rows, masters[k], i)
    requires AllBelow(s.rows, batch)
    ensures r == Walk(s, masters[k][..n], i, batch, at) && Inv(masters, r)
    decreases n - i
  {
    hide Inv, Recorded, Lists;
    var names := masters[k][..n];
    r := s;
    if i < n && !at(i).QueryFails? {
      WalkOn(s, names, i, batch, at);
      if Recorded(s.rows, names[i]) {
        r := WalkKeeps(masters, s, k, n, i + 1, batch, at);
      } else if at(i).InsertFails? {
        NotNotedKeeps(masters, s, k, i);
        r := NotNoted(s, names[i]);
      } else if at(i).Completes? {
        NotedKeeps(masters, s, k, i, batch);
        r := WalkKeeps(masters, Noted(s, names[i], batch), k, n, i + 1, batch, at);
      }
    }
  }

  lemma {:induction false} WalkOn(s: State, names: seq<string>, i: nat, batch: int, at: nat -> Outcome)
    requires i < |names| && !at(i).QueryFails?
    ensures var next, name := Walk(s, names, i, batch, at), names[i];
            && (Recorded(s.rows, name) ==> next == Walk(s, names, i + 1, batch, at))
            && (!Recorded(s.rows, name) && at(i).InsertFails? ==> next == NotNoted(s, name))
            && (!Recorded(s.rows, name) && at(i).UpFails? ==> next == s)
            && (!Recorded(s.rows, name) && at(i).Completes? ==> next == Walk(Noted(s, name, batch), names, i + 1, batch, at))
  {
  }

  lemma {:induction false} StaysRecorded(rows: seq<Row>, row: Row, name: string)
    ensures Recorded(rows + [row], name) <==> Recorded(rows, name) || row.name == name
  {
    var grown := rows + [row];
    if Recorded(rows, name) {
      var i :| 0 <= i < |rows| && rows[i].name == name;
      assert grown[i].name == name;
    }
    if row.name == name { assert grown[|rows|].name == name; }
  }

  /** A call with the first `n` migrations of the k-th list: a release ships a longer
      prefix than the one before. */
  datatype Call = Call(k: nat, n: nat, faults: Faults)

  predicate Fits(masters: seq<seq<string>>, c: Call) {
    c.k < |masters| && c.n <= |masters[c.k]|
  }

  function Step(masters: seq<seq<string>>, s: State, c: Call): State
    requires Fits(masters, c)
  {
    After(s, masters[c.k][..c.n], c.faults).0
  }

  function Run(masters: seq<seq<string>>, calls: seq<Call>): State
    requires forall i | 0 <= i < |calls| :: Fits(masters, calls[i])
  {
    if calls == [] then Initial()
    else Step(masters, Run(masters, calls[..|calls| - 1]), calls[|calls| - 1])
  }

  lemma {:induction false} CallKeeps(masters: seq<seq<string>>, s: State, c: Call)
    requires Lists(masters) && Inv(masters, s) && Fits(masters, c)
    ensures Inv(masters, Step(masters, s, c))
  {
    var t := s.(exists_ := true);
    var f := c.faults;
    if !f.show && (s.exists_ || !f.create) && !f.max {
      var r := WalkKeeps(masters, t, c.k, c.n, 0, NextBatch(s.rows), f.at);
    }
  }

  /** After any calls with any failures: the recorded names of each list are a prefix of it,
      recorded once, in batches that never decrease; no migration ran before its
      predecessor; and the completed runs are the recorded ones and those whose insert failed. */
  lemma {:induction false} RunKeeps(masters: seq<seq<string>>, calls: seq<Call>)
    requires Lists(masters) && forall i | 0 <= i < |calls| :: Fits(masters, calls[i])
    ensures Inv(masters, Run(masters, calls))
    ensures Distinct(Names(Run(masters, calls).rows))
  {
    if calls != [] {
      RunKeeps(masters, calls[..|calls| - 1]);
      CallKeeps(masters, Run(masters, calls[..|calls| - 1]), calls[|calls| - 1]);
    }
    RecordedOnce(masters, Run(masters, calls));
  }

  lemma {:induction false} RestrictRepeats(names: seq<string>, master: seq<string>, i: nat, j: nat)
    requires i < j < |names| && names[i] == names[j] && names[i] in master
    ensures !Distinct(Restrict(names, master))
  {
    var n := |names| - 1;
    var before := Restrict(names[..n], master);
    if j < n {
      RestrictRepeats(names[..n], master, i, j);
      var a, b :| 0 <= a < b < |before| && before[a] == before[b];
      assert Restrict(names, master)[a] == Restrict(names, master)[b];
    } else {
      RestrictHolds(names[..n], master, names[i]);
      assert names[..n][i] == names[i];
      var a :| 0 <= a < |before| && before[a] == names[i];
      assert Restrict(names, master)[a] == Restrict(names, master)[|before|];
    }
  }

  lemma {:induction false} RecordedOnce(masters: seq<seq<string>>, s: State)
    requires Lists(masters) && Inv(masters, s)
    ensures Distinct(Names(s.rows))
  {
    var names := Names(s.rows);
    forall k | 0 <= k < |masters|
      ensures Distinct(Restrict(names, masters[k])) {
      assert PrefixRecorded(s.rows, masters[k]);
    }
    forall i, j | 0 <= i < j < |names|
      ensures names[i] != names[j] {
      assert Listed(masters, s.rows[i].name);
      var k :| 0 <= k < |masters| && s.rows[i].name in masters[k];
      if names[i] == names[j] { RestrictRepeats(names, masters[k], i, j); }
    }
  }

  // ---- Migrations that run twice ----

  /** The walk gets past the j-th member. */
  predicate Passes(rows: seq<Row>, names: seq<string>, at: nat -> Outcome, j: nat)
    requires j < |names|
  {
    !at(j).QueryFails? && (Recorded(rows, names[j]) || at(j).Completes?)
  }

  /** A walk from `i` on reaches the j-th member, which is not recorded, completes it and
      fails to record it. */
  predicate Loses(rows: seq<Row>, names: seq<string>, at: nat -> Outcome, i: nat, j: nat) {
    && i <= j < |names| && (forall l | i <= l < j :: Passes(rows, names, at, l))
    && !Recorded(rows, names[j]) && at(j).InsertFails?
  }

  ghost predicate LosesName(rows: seq<Row>, names: seq<string>, at: nat -> Outcome, i: nat, name: string) {
    exists j | 0 <= j < |names| :: names[j] == name && Loses(rows, names, at, i, j)
  }

  /** A call that starts with these tables, gets to its loop, and there completes `name`
      without recording it. */
  ghost predicate CallLoses(s: State, names: seq<string>, f: Faults, name: string) {
    !f.show && (s.exists_ || !f.create) && !f.max && LosesName(s.rows, names, f.at, 0, name)
  }

  lemma {:induction false} LosesLater(rows: seq<Row>, after: seq<Row>, names: seq<string>, at: nat -> Outcome, i: nat, name: string)
    requires i < |names| && Passes(rows, names, at, i)
    requires forall j | i < j < |names| :: Recorded(after, names[j]) <==> Recorded(rows, names[j])
    ensures LosesName(rows, names, at, i, name) <==> LosesName(after, names, at, i + 1, name)
  {
    hide Recorded;
    forall j: nat | i < j < |names|
      ensures Loses(rows, names, at, i, j) <==> Loses(after, names, at, i + 1, j) {
      assert forall l | i < l < j :: Passes(rows, names, at, l) <==> Passes(after, names, at, l);
    }
    assert !Loses(rows, names, at, i, i);
  }

  lemma {:induction false} WalkLoses(s: State, names: seq<string>, i: nat, batch: int, at: nat -> Outcome, name: string)
    requires Distinct(names) && i <= |names|
    ensures name in Walk(s, names, i, batch, at).unrecorded
       <==> name in s.unrecorded || LosesName(s.rows, names, at, i, name)
    decreases |names| - i
  {
    if i < |names| && !at(i).QueryFails? {
      WalkOn(s, names, i, batch, at);
      if Recorded(s.rows, names[i]) {
        LosesLater(s.rows, s.rows, names, at, i, name);
        WalkLoses(s, names, i + 1, batch, at, name);
      } else if at(i).Completes? {
        var t := Noted(s, names[i], batch);
        forall j | i < j < |names|
          ensures Recorded(t.rows, names[j]) <==> Recorded(s.rows, names[j]) {
          StaysRecorded(s.rows, Row(names[i], batch), names[j]);
        }
        LosesLater(s.rows, t.rows, names, at, i, name);
        WalkLoses(t, names, i + 1, batch, at, name);
      } else {
        LosesHere(s.rows, names, at, i, name);
      }
    } else {
      LosesHere(s.rows, names, at, i, name);
    }
  }

  /** Where a walk stops there is nothing further to lose. */
  lemma {:induction false} LosesHere(rows: seq<Row>, names: seq<string>, at: nat -> Outcome, i: nat, name: string)
    requires i < |names| ==> !Passes(rows, names, at, i)
    ensures LosesName(rows, names, at, i, name)
       <==> i < |names| && names[i] == name && !Recorded(rows, names[i]) && at(i).InsertFails?
  {
    hide Recorded;
    if i < |names| && names[i] == name && !Recorded(rows, names[i]) && at(i).InsertFails? {
      assert Loses(rows, names, at, i, i);
    }
  }

  /** What `c` loses, given the calls before it. */
  ghost predicate LosesIn(masters: seq<seq<string>>, calls: seq<Call>, c: nat, name: string)
    requires c < |calls| && forall i | 0 <= i < |calls| :: Fits(masters, calls[i])
  {
    var call := calls[c];
    assert Fits(masters, call);
    CallLoses(Run(masters, calls[..c]), masters[call.k][..call.n], call.faults, name)
  }

  lemma {:induction false} CallLosesExactly(masters: seq<seq<string>>, s: State, c: Call, name: string)
    requires Lists(masters) && Fits(masters, c)
    ensures name in Step(masters, s, c).unrecorded
       <==> name in s.unrecorded || CallLoses(s, masters[c.k][..c.n], c.faults, name)
  {
    var t := s.(exists_ := true);
    WalkLoses(t, masters[c.k][..c.n], 0, NextBatch(s.rows), c.faults.at, name);
  }

  lemma {:induction false} UnrecordedExactly(masters: seq<seq<string>>, calls: seq<Call>, name: string)
    requires Lists(masters) && forall i | 0 <= i < |calls| :: Fits(masters, calls[i])
    ensures name in Run(masters, calls).unrecorded <==> exists c | 0 <= c < |calls| :: LosesIn(masters, calls, c, name)
  {
    hide Step, Lists, CallLoses;
    if calls != [] {
      var n := |calls| - 1;
      var before := calls[..n];
      UnrecordedExactly(masters, before, name);
      CallLosesExactly(masters, Run(masters, before), calls[n], name);
      forall c: nat | c < n
        ensures LosesIn(masters, before, c, name) <==> LosesIn(masters, calls, c, name) {
        assert before[..c] == calls[..c];
      }
      var last := calls[n];
      assert Fits(masters, last);
      assert LosesIn(masters, calls, n, name)
        <==> CallLoses(Run(masters, before), masters[last.k][..last.n], last.faults, name);
      assert forall c | 0 <= c < |calls| && LosesIn(masters, calls, c, name) :: c == n || LosesIn(masters, before, c, name);
    }
  }

  /** A recorded migration ran exactly once over a run if and only if no call reached it
      with a failing insert. */
  lemma {:induction false} RanOnceExactly(masters: seq<seq<string>>, calls: seq<Call>, name: string)
    requires Lists(masters) && forall i | 0 <= i < |calls| :: Fits(masters, calls[i])
    requires Recorded(Run(masters, calls).rows, name)
    ensures multiset(Run(masters, calls).completed)[name] == 1
       <==> forall c | 0 <= c < |calls| :: !LosesIn(masters, calls, c, name)
  {
    hide Run, Lists, LosesIn, Recorded;
    var s := Run(masters, calls);
    RunKeeps(masters, calls);
    UnrecordedExactly(masters, calls, name);
    RecordedIsNamed(s.rows, name);
    DistinctOnce(Names(s.rows), name);
    assert name in s.unrecorded <==> multiset(s.unrecorded)[name] > 0;
  }

  lemma {:induction false} DistinctOnce(names: seq<string>, name: string)
    requires Distinct(names) && name in names
    ensures multiset(names)[name] == 1
  {
    var n := |names| - 1;
    assert names == names[..n] + [names[n]];
    if names[n] != name {
      DistinctOnce(names[..n], name);
    } else {
      assert name !in names[..n];
      assert multiset(names[..n])[name] == 0;
    }
  }

  // ---- Batches ----

  /** A call keeps the recorded rows and gives all it adds one batch number, above every earlier one. */
  lemma {:induction false} BatchPerCall(s: State, names: seq<string>, f: Faults)
    ensures var t := After(s, names, f).0;
            && s.rows <= t.rows
            && (forall i | |s.rows| <= i < |t.rows| :: t.rows[i].batch == NextBatch(s.rows))
            && (forall i, j | 0 <= i < |s.rows| <= j < |t.rows| :: s.rows[i].batch < t.rows[j].batch)
  {
    var t := s.(exists_ := true);
    WalkAppends(t, names, 0, NextBatch(s.rows), f.at);
  }

  lemma {:induction false} WalkAppends(s: State, names: seq<string>, i: nat, batch: int, at: nat -> Outcome)
    requires i <= |names|
    ensures var t := Walk(s, names, i, batch, at);
            s.rows <= t.rows && forall j | |s.rows| <= j < |t.rows| :: t.rows[j].batch == batch
    decreases |names| - i
  {
    if i < |names| && !at(i).QueryFails? {
      if Recorded(s.rows, names[i]) {
        WalkAppends(s, names, i + 1, batch, at);
      } else if at(i).Completes? {
        WalkAppends(Noted(s, names[i], batch), names, i + 1, batch, at);
      }
    }
  }

  /** Batches are numbered from 1 without gaps. */
  predicate CountUp(rows: seq<Row>) {
    && (rows != [] ==> rows[0].batch == 1)
    && (forall i | 0 < i < |rows| :: rows[i].batch == rows[i - 1].batch || rows[i].batch == rows[i - 1].batch + 1)
  }

  lemma {:induction false} LastIsHighest(rows: seq<Row>)
    requires CountUp(rows) && rows != []
    ensures Highest(rows) == rows[|rows| - 1].batch
  {
    var n := |rows| - 1;
    if n > 0 { LastIsHighest(rows[..n]); }
  }

  lemma {:induction false} CallCountsUp(s: State, names: seq<string>, f: Faults)
    requires CountUp(s.rows)
    ensures CountUp(After(s, names, f).0.rows)
  {
    hide Highest, Walk;
    var t := After(s, names, f).0;
    BatchPerCall(s, names, f);
    if s.rows != [] { LastIsHighest(s.rows); }
    var n := |s.rows|;
    assert forall i | 0 <= i < n :: t.rows[i] == s.rows[i];
  }

  /** Over any run of calls with any failures the first batch is 1, and each further one is
      one more than the batch before it. */
  lemma {:induction false} BatchesCountUp(masters: seq<seq<string>>, calls: seq<Call>)
    requires forall i | 0 <= i < |calls| :: Fits(masters, calls[i])
    ensures CountUp(Run(masters, calls).rows)
  {
    hide After;
    if calls != [] {
      var c := calls[|calls| - 1];
      BatchesCountUp(masters, calls[..|calls| - 1]);
      CallCountsUp(Run(masters, calls[..|calls| - 1]), masters[c.k][..c.n], c.faults);
    }
  }

  /** When a call throws, and what it then leaves: the list is not looked at, and the table
      of migrations is there if it was or could be created. */
  lemma {:induction false} ThrowsEarly(s: State, names: seq<string>, f: Faults)
    ensures var (t, returned) := After(s, names, f);
            && (returned <==> !f.show && (s.exists_ || !f.create) && !f.max)
            && (t.exists_ <==> s.exists_ || (!f.show && !f.create))
            && (!returned ==> t.rows == s.rows && t.completed == s.completed && t.unrecorded == s.unrecorded)
  {
    WalkExists(s.(exists_ := true), names, 0, NextBatch(s.rows), f.at);
  }

  // ---- Completion ----

  predicate AllRecorded(rows: seq<Row>, names: seq<string>) {
    forall i | 0 <= i < |names| :: Recorded(rows, names[i])
  }

  /** A walk without failures records the rest of the list. */
  lemma {:induction false} SmoothWalk(s: State, names: seq<string>, i: nat, batch: int)
    requires i <= |names| && forall j | 0 <= j < i :: Recorded(s.rows, names[j])
    ensures AllRecorded(Walk(s, names, i, batch, Smooth().at).rows, names)
    decreases |names| - i
  {
    if i < |names| {
      if Recorded(s.rows, names[i]) {
        SmoothWalk(s, names, i + 1, batch);
      } else {
        var t := Noted(s, names[i], batch);
        forall j | 0 <= j < i + 1 ensures Recorded(t.rows, names[j]) {
          StaysRecorded(s.rows, Row(names[i], batch), names[j]);
        }
        SmoothWalk(t, names, i + 1, batch);
      }
    }
  }

  lemma {:induction false} NothingToWalk(s: State, names: seq<string>, i: nat, batch: int, at: nat -> Outcome)
    requires i <= |names| && AllRecorded(s.rows, names)
    ensures Walk(s, names, i, batch, at) == s
    decreases |names| - i
  {
    if i < |names| { NothingToWalk(s, names, i + 1, batch, at); }
  }

  /** Calls change nothing, whatever fails in them, exactly when everything is recorded;
      one call in which nothing fails gets there. */
  lemma {:induction false} SettledExactly(s: State, names: seq<string>)
    ensures (forall f: Faults :: After(s, names, f).0 == s) <==> s.exists_ && AllRecorded(s.rows, names)
    ensures After(s, names, Smooth()).1
    ensures forall f: Faults :: After(After(s, names, Smooth()).0, names, f).0 == After(s, names, Smooth()).0
  {
    var t := s.(exists_ := true);
    var done := After(s, names, Smooth()).0;
    SmoothWalk(t, names, 0, NextBatch(s.rows));
    WalkExists(t, names, 0, NextBatch(s.rows), Smooth().at);
    forall f: Faults
      ensures After(done, names, f).0 == done {
      NothingToWalk(done, names, 0, NextBatch(done.rows), f.at);
    }
    if s.exists_ && AllRecorded(s.rows, names) {
      forall f: Faults
        ensures After(s, names, f).0 == s {
        NothingToWalk(s, names, 0, NextBatch(s.rows), f.at);
      }
    }
  }

  lemma {:induction false} WalkExists(s: State, names: seq<string>, i: nat, batch: int, at: nat -> Outcome)
    requires i <= |names|
    ensures Walk(s, names, i, batch, at).exists_ == s.exists_
    decreases |names| - i
  {
    if i < |names| && !at(i).QueryFails? {
      if Recorded(s.rows, names[i]) { WalkExists(s, names, i + 1, batch, at); }
      else if at(i).Completes? { WalkExists(Noted(s, names[i], batch), names, i + 1, batch, at); }
    }
  }
}
