/** `sys_role::backend_assign_permission`: an admin hands grants on to a role. The loops
    run outside any transaction, so an exception leaves the changes made so far. */
module AssignPermission {
  import opened Results
  import opened Permissions

  type Grants = map<Key, Flags>

  /** A row of the join of permissions with the admin's own grants (`ap`): a live role of
      the admin that holds the permission with the grant flag equal to 1. */
  predicate Grantable(db: Rbac, admin: nat, k: Key) {
    && k in db.grants && db.grants[k].grant == 1
    && (k.role, admin) in db.adminRoles
    && k.role in db.roles && db.roles[k.role].live
    && k.permission in db.codes
  }

  /** What the query yields for one permission; flags are the 0/1 results of `IF`. */
  datatype Model = Model(alreadyOwn: bool, isGrant: int, isCascade: int, canCascade: bool)

  function Bit(n: int): int {
    if n == 0 then 0 else 1
  }

  /** `permissions`: built before the first change. Several roles of the admin may grant
      the same permission; `emplace` keeps the row that came first, which is `first[p]`. */
  predicate FirstRows(db: Rbac, admin: nat, first: map<int, nat>) {
    && (forall k | k in db.grants :: Grantable(db, admin, k) ==> k.permission in first)
    && (forall p | p in first :: Grantable(db, admin, Key(first[p], p)))
  }

  function Models(db: Rbac, admin: nat, target: nat, first: map<int, nat>): map<int, Model>
    requires FirstRows(db, admin, first)
  {
    map p | p in first ::
      var own := Key(target, p);
      if own in db.grants
      then Model(true, Bit(db.grants[own].grant), Bit(db.grants[own].cascade), db.grants[Key(first[p], p)].cascade != 0)
      else Model(false, 0, 0, db.grants[Key(first[p], p)].cascade != 0)
  }

  datatype Request = Request(id: int, regrant: Option<int>, cascade: Option<int>)

  function OrZero(n: Option<int>): int {
    if n.Some? then n.value else 0
  }

  /** One round of the grant loop. `Err` is the unique index refusing a second insert. */
  function Grant(grants: Grants, models: map<int, Model>, target: nat, q: Request): Result<Grants> {
    if q.id !in models then Ok(grants)
    else
      var model, key := models[q.id], Key(target, q.id);
      var allowGrant := OrZero(q.regrant);
      var allowCascade := if model.canCascade then OrZero(q.cascade) else 0;
      if !model.alreadyOwn then
        if key in grants then Err else Ok(grants[key := Flags(allowGrant, allowCascade)])
      else if key !in grants then Ok(grants)
      else
        var row := grants[key];
        var cascade := if model.canCascade && allowCascade != model.isCascade then allowCascade else row.cascade;
        var grant := if allowGrant != model.isGrant then allowGrant else row.grant;
        Ok(grants[key := Flags(grant, cascade)])
  }

  /** The grant loop; on an exception the rest of the request is not looked at. */
  function GrantAll(grants: Grants, models: map<int, Model>, target: nat, qs: seq<Request>): (Grants, bool)
    decreases |qs|
  {
    if qs == [] then (grants, true)
    else
      match Grant(grants, models, target, qs[0])
      case Err => (grants, false)
      case Ok(next) => GrantAll(next, models, target, qs[1..])
  }

  /** `DELETE ... WHERE fn_role_id = target AND fn_permission_id IN (...)` */
  function Revoke(grants: Grants, target: nat, ids: set<int>): Grants {
    map k | k in grants && !(k.role == target && k.permission in ids) :: grants[k]
  }

  function Assign(grants: Grants, models: map<int, Model>, target: nat, qs: seq<Request>, ungrant: seq<int>): Grants {
    var (granted, ok) := GrantAll(grants, models, target, qs);
    if ok then Revoke(granted, target, set id | id in ungrant && id in models) else granted
  }

  class RolePermissionTable {
    var grants: Grants

    constructor (grants: Grants)
      ensures this.grants == grants
    {
      this.grants := grants;
    }

    method BackendAssignPermission(models: map<int, Model>, target: nat, qs: seq<Request>, ungrant: seq<int>)
      returns (ok: bool)
      modifies this
      ensures grants == Assign(old(grants), models, target, qs, ungrant)
      ensures ok == GrantAll(old(grants), models, target, qs).1
    {
      var i := 0;
      while i < |qs|
        invariant 0 <= i <= |qs|
        invariant GrantAll(old(grants), models, target, qs) == GrantAll(grants, models, target, qs[i..])
      {
        var next := Grant(grants, models, target, qs[i]);
        assert qs[i..][0] == qs[i] && qs[i..][1..] == qs[i + 1..];
        if next.Err? { return false; }
        grants := next.value;
        i := i + 1;
      }
      var ids: set<int> := {};
      for j := 0 to |ungrant|
        invariant ids == set id | id in ungrant[..j] && id in models
      {
        if ungrant[j] in models {
          ids := ids + {ungrant[j]};
        }
        assert ungrant[..j + 1] == ungrant[..j] + [ungrant[j]];
      }
      assert ungrant[..|ungrant|] == ungrant;
      if ids != {} {
        grants := Revoke(grants, target, ids);
      }
      ok := true;
    }
  }

  // ---- No permission is created out of nothing ----

  /** Permissions that some role may hand on, and those that some role holds cascading. */
  ghost predicate HandedOn(grants: Grants, p: int) {
    exists k | k in grants :: k.permission == p && grants[k].grant != 0
  }

  ghost predicate Cascading(grants: Grants, p: int) {
    exists k | k in grants :: k.permission == p && grants[k].cascade != 0
  }

  ghost predicate Below(after: Grants, before: Grants) {
    && (forall p | HandedOn(after, p) :: HandedOn(before, p))
    && (forall p | Cascading(after, p) :: Cascading(before, p))
  }

  /** Only rows of the target role, and only for permissions in the table of models, differ. */
  ghost predicate OnlyTouches(after: Grants, before: Grants, target: nat, models: map<int, Model>) {
    forall k: Key | !(k.role == target && k.permission in models) ::
      (k in after <==> k in before) && (k in before ==> after[k] == before[k])
  }

  /** What the models promise about the state the query saw. */
  ghost predicate Backed(models: map<int, Model>, start: Grants) {
    forall p | p in models :: HandedOn(start, p) && (models[p].canCascade ==> Cascading(start, p))
  }

  /** One write of a call whose models are older than the table. */
  lemma {:induction false} GrantBelow(start: Grants, grants: Grants, models: map<int, Model>, target: nat, q: Request)
    requires Backed(models, start) && Below(grants, start)
    requires Grant(grants, models, target, q).Ok?
    ensures Below(Grant(grants, models, target, q).value, start)
  {
    var next := Grant(grants, models, target, q).value;
    var key := Key(target, q.id);
    assert forall k | k in next && k != key :: k in grants && next[k] == grants[k];
    if key in next && q.id in models {
      assert next[key].cascade != 0 ==> models[q.id].canCascade || (key in grants && next[key].cascade == grants[key].cascade);
    }
    forall p | HandedOn(next, p) ensures HandedOn(start, p) {
      var k :| k in next && k.permission == p && next[k].grant != 0;
      if k != key || q.id !in models { assert HandedOn(grants, p); }
    }
    forall p | Cascading(next, p) ensures Cascading(start, p) {
      var k :| k in next && k.permission == p && next[k].cascade != 0;
      if k != key || q.id !in models || !models[q.id].canCascade { assert Cascading(grants, p); }
    }
  }

  lemma {:induction false} RevokeBelow(start: Grants, grants: Grants, target: nat, ids: set<int>)
    requires Below(grants, start)
    ensures Below(Revoke(grants, target, ids), start)
  {
    var after := Revoke(grants, target, ids);
    forall p | HandedOn(after, p) ensures HandedOn(start, p) { assert HandedOn(grants, p); }
    forall p | Cascading(after, p) ensures Cascading(start, p) { assert Cascading(grants, p); }
  }

  lemma {:induction false} GrantStep(start: Grants, grants: Grants, models: map<int, Model>, target: nat, q: Request)
    requires Backed(models, start) && Below(grants, start) && OnlyTouches(grants, start, target, models)
    requires Grant(grants, models, target, q).Ok?
    ensures var next := Grant(grants, models, target, q).value;
            Below(next, start) && OnlyTouches(next, start, target, models)
  {
    GrantBelow(start, grants, models, target, q);
  }

  lemma {:induction false} GrantAllKeeps(start: Grants, grants: Grants, models: map<int, Model>, target: nat, qs: seq<Request>)
    requires Backed(models, start) && Below(grants, start) && OnlyTouches(grants, start, target, models)
    ensures var after := GrantAll(grants, models, target, qs).0;
            Below(after, start) && OnlyTouches(after, start, target, models)
    decreases |qs|
  {
    if qs != [] && Grant(grants, models, target, qs[0]).Ok? {
      GrantStep(start, grants, models, target, qs[0]);
      GrantAllKeeps(start, Grant(grants, models, target, qs[0]).value, models, target, qs[1..]);
    }
  }

  /** One call: no permission gains its first grantor or its first cascading holder, and
      nothing outside the target role and the caller's own grantable permissions moves. */
  lemma {:induction false} AssignKeeps(db: Rbac, admin: nat, target: nat, first: map<int, nat>, qs: seq<Request>, ungrant: seq<int>)
    requires FirstRows(db, admin, first)
    ensures var models := Models(db, admin, target, first);
            var after := Assign(db.grants, models, target, qs, ungrant);
            Below(after, db.grants) && OnlyTouches(after, db.grants, target, models)
  {
    var models := Models(db, admin, target, first);
    assert Backed(models, db.grants);
    GrantAllKeeps(db.grants, db.grants, models, target, qs);
    var granted := GrantAll(db.grants, models, target, qs).0;
    RevokeBelow(db.grants, granted, target, set id | id in ungrant && id in models);
  }

  // ---- What a call does grant ----

  /** The row the i-th request asks for is new, and no earlier request asked for it too. */
  predicate Clear(grants: Grants, models: map<int, Model>, target: nat, qs: seq<Request>, i: nat)
    requires i < |qs|
  {
    var p := qs[i].id;
    p in models && !models[p].alreadyOwn ==> Key(target, p) !in grants && forall j | 0 <= j < i :: qs[j].id != p
  }

  /** The unique index stops the loop exactly when two requests ask for the same new row. */
  lemma {:induction false} ThrowsExactly(grants: Grants, models: map<int, Model>, target: nat, qs: seq<Request>)
    ensures GrantAll(grants, models, target, qs).1 <==> forall i | 0 <= i < |qs| :: Clear(grants, models, target, qs, i)
    decreases |qs|
  {
    if qs != [] {
      var r := Grant(grants, models, target, qs[0]);
      assert r.Err? ==> !Clear(grants, models, target, qs, 0);
      if r.Ok? {
        var rest := qs[1..];
        ThrowsExactly(r.value, models, target, rest);
        assert Clear(grants, models, target, qs, 0);
        forall i | 0 <= i < |rest|
          ensures Clear(r.value, models, target, rest, i) <==> Clear(grants, models, target, qs, i + 1) {
          var p := qs[i + 1].id;
          assert rest[i] == qs[i + 1];
          assert forall j | 0 <= j < i :: rest[j] == qs[j + 1];
          assert forall j | 0 < j < i + 1 :: qs[j] == rest[j - 1];
          if p in models && !models[p].alreadyOwn {
            assert Key(target, p) in r.value <==> Key(target, p) in grants || qs[0].id == p;
          }
        }
        assert forall i | 0 < i < |qs| :: Clear(r.value, models, target, rest, i - 1) <==> Clear(grants, models, target, qs, i);
      }
    }
  }

  /** Requests for other permissions leave a row alone. */
  lemma {:induction false} OthersKeep(grants: Grants, models: map<int, Model>, target: nat, qs: seq<Request>, k: Key)
    requires forall j | 0 <= j < |qs| :: Key(target, qs[j].id) != k
    ensures var after := GrantAll(grants, models, target, qs).0;
            (k in after <==> k in grants) && (k in grants ==> after[k] == grants[k])
    decreases |qs|
  {
    if qs != [] && Grant(grants, models, target, qs[0]).Ok? {
      OthersKeep(Grant(grants, models, target, qs[0]).value, models, target, qs[1..], k);
    }
  }

  /** What the requests for one permission ask its grant flag to be, in order; a request that
      does not say asks for 0. */
  function Regrants(qs: seq<Request>, p: int): seq<int> {
    if qs == [] then []
    else (if qs[0].id == p then [if qs[0].regrant.Some? then qs[0].regrant.value else 0] else []) + Regrants(qs[1..], p)
  }

  function Cascades(qs: seq<Request>, p: int): seq<int> {
    if qs == [] then []
    else (if qs[0].id == p then [if qs[0].cascade.Some? then qs[0].cascade.value else 0] else []) + Cascades(qs[1..], p)
  }

  /** What a stored flag becomes: the last number asked for that is not the bit it showed
      when the call began; without one, it stays. */
  function Settled(stored: int, shown: int, asked: seq<int>): int {
    if asked == [] then stored
    else
      var n := |asked| - 1;
      if asked[n] != shown then asked[n] else Settled(stored, shown, asked[..n])
  }

  lemma {:induction false} SettledFirst(stored: int, shown: int, asked: seq<int>)
    requires asked != []
    ensures Settled(stored, shown, asked) == Settled(if asked[0] != shown then asked[0] else stored, shown, asked[1..])
  {
    var n := |asked| - 1;
    if n > 0 {
      SettledFirst(stored, shown, asked[..n]);
      assert asked[..n][1..] == asked[1..][..n - 1];
    }
  }

  /** A request is met to the letter except when it asks for 1 and the flag is stored as
      another number than 0 or 1: then that number stays. */
  lemma {:induction false} NewFlagExactly(stored: int, asked: int)
    ensures Settled(stored, Bit(stored), [asked]) == asked <==> !(asked == 1 && stored != 0 && stored != 1)
    ensures Settled(stored, Bit(stored), [asked]) == asked || Settled(stored, Bit(stored), [asked]) == stored
  {
    assert [asked][..0] == [];
  }

  lemma {:induction false} OwnedRow(grants: Grants, models: map<int, Model>, target: nat, qs: seq<Request>, p: int)
    requires p in models && models[p].alreadyOwn && Key(target, p) in grants && GrantAll(grants, models, target, qs).1
    ensures var k := Key(target, p); var after := GrantAll(grants, models, target, qs).0;
            && k in after && after[k].grant == Settled(grants[k].grant, models[p].isGrant, Regrants(qs, p))
            && after[k].cascade == if models[p].canCascade
                                   then Settled(grants[k].cascade, models[p].isCascade, Cascades(qs, p))
                                   else grants[k].cascade
    decreases |qs|
  {
    hide Settled, Bit;
    if qs == [] {
      NothingAsked(grants[Key(target, p)].grant, models[p].isGrant);
      NothingAsked(grants[Key(target, p)].cascade, models[p].isCascade);
    } else {
      OwnedRow(Grant(grants, models, target, qs[0]).value, models, target, qs[1..], p);
      if qs[0].id == p {
        SettledFirst(grants[Key(target, p)].grant, models[p].isGrant, Regrants(qs, p));
        SettledFirst(grants[Key(target, p)].cascade, models[p].isCascade, Cascades(qs, p));
      }
      assert Regrants(qs, p)[|Regrants(qs, p)| - |Regrants(qs[1..], p)|..] == Regrants(qs[1..], p);
      assert Cascades(qs, p)[|Cascades(qs, p)| - |Cascades(qs[1..], p)|..] == Cascades(qs[1..], p);
    }
  }

  lemma {:induction false} NothingAsked(stored: int, shown: int)
    ensures Settled(stored, shown, []) == stored
  {
  }

  /** A row that was not there is written by the one request for it. */
  lemma {:induction false} NewRow(grants: Grants, models: map<int, Model>, target: nat, qs: seq<Request>, p: int)
    requires p in models && !models[p].alreadyOwn && GrantAll(grants, models, target, qs).1 && Key(target, p) !in grants
    ensures var k := Key(target, p); var after := GrantAll(grants, models, target, qs).0;
            && (k in after <==> Regrants(qs, p) != []) && |Regrants(qs, p)| == |Cascades(qs, p)| <= 1
            && (k in after ==> after[k] == Flags(Regrants(qs, p)[0], if models[p].canCascade then Cascades(qs, p)[0] else 0))
    decreases |qs|
  {
    if qs != [] {
      var next := Grant(grants, models, target, qs[0]).value;
      if qs[0].id == p {
        OnceOnly(next, models, target, qs[1..], p);
        OthersKeep(next, models, target, qs[1..], Key(target, p));
      } else {
        NewRow(next, models, target, qs[1..], p);
      }
    }
  }

  lemma {:induction false} OnceOnly(grants: Grants, models: map<int, Model>, target: nat, qs: seq<Request>, p: int)
    requires p in models && !models[p].alreadyOwn && GrantAll(grants, models, target, qs).1 && Key(target, p) in grants
    ensures Regrants(qs, p) == Cascades(qs, p) == [] && forall j | 0 <= j < |qs| :: qs[j].id != p
    decreases |qs|
  {
    if qs != [] {
      assert qs[0].id != p;
      OnceOnly(Grant(grants, models, target, qs[0]).value, models, target, qs[1..], p);
      assert forall j | 0 < j < |qs| :: qs[j] == qs[1..][j - 1];
    }
  }

  /** The admin may hand `p` on: one of the live roles given to the admin holds it with the
      grant flag at 1. */
  ghost predicate MayHandOn(db: Rbac, admin: nat, p: int) {
    p in db.codes && exists role: nat ::
      && (role, admin) in db.adminRoles && role in db.roles && db.roles[role].live
      && Key(role, p) in db.grants && db.grants[Key(role, p)].grant == 1
  }

  /** A call has to do with a permission exactly when the admin may hand it on. */
  lemma {:induction false} FirstExactly(db: Rbac, admin: nat, first: map<int, nat>)
    requires FirstRows(db, admin, first)
    ensures forall p :: p in first <==> MayHandOn(db, admin, p)
  {
    forall p ensures p in first <==> MayHandOn(db, admin, p) {
      if p in first { assert Grantable(db, admin, Key(first[p], p)); }
      if MayHandOn(db, admin, p) {
        var role: nat :| (role, admin) in db.adminRoles && role in db.roles && db.roles[role].live
          && Key(role, p) in db.grants && db.grants[Key(role, p)].grant == 1;
        assert Grantable(db, admin, Key(role, p));
      }
    }
  }

  /** A permission the caller may hand on, and that is not revoked in the same call, ends up
      with the flags the requests for it ask for: a row that was there as `Settled` says, a
      new one as its only request says, none without a request. The cascade flag is written
      only if the caller's own grant cascades. What is revoked is gone. */
  lemma {:induction false} GrantedAsAsked(db: Rbac, admin: nat, target: nat, first: map<int, nat>,
                                         qs: seq<Request>, ungrant: seq<int>, p: int)
    requires FirstRows(db, admin, first) && MayHandOn(db, admin, p)
    requires GrantAll(db.grants, Models(db, admin, target, first), target, qs).1
    ensures var k := Key(target, p); var after := Assign(db.grants, Models(db, admin, target, first), target, qs, ungrant);
            var asked, cascading := Regrants(qs, p), p in first && db.grants[Key(first[p], p)].cascade != 0;
            p in first &&
            if p in ungrant then k !in after
            else if k in db.grants then
              && k in after && after[k].grant == Settled(db.grants[k].grant, Bit(db.grants[k].grant), asked)
              && after[k].cascade == if cascading then Settled(db.grants[k].cascade, Bit(db.grants[k].cascade), Cascades(qs, p))
                                     else db.grants[k].cascade
            else
              && (k in after <==> asked != []) && |asked| == |Cascades(qs, p)| <= 1
              && (k in after ==> after[k] == Flags(asked[0], if cascading then Cascades(qs, p)[0] else 0))
  {
    hide Settled, Bit, MayHandOn;
    FirstExactly(db, admin, first);
    var models := Models(db, admin, target, first);
    if Key(target, p) in db.grants {
      OwnedRow(db.grants, models, target, qs, p);
    } else {
      NewRow(db.grants, models, target, qs, p);
    }
  }

  /** A row changes only if it is the target's, the caller may hand its permission on, and
      the permission is requested or revoked. */
  lemma {:induction false} ChangedIfAsked(db: Rbac, admin: nat, target: nat, first: map<int, nat>,
                                         qs: seq<Request>, ungrant: seq<int>, k: Key)
    requires FirstRows(db, admin, first)
    ensures var after := Assign(db.grants, Models(db, admin, target, first), target, qs, ungrant);
            || ((k in after <==> k in db.grants) && (k in after ==> after[k] == db.grants[k]))
            || (k.role == target && MayHandOn(db, admin, k.permission)
                && (k.permission in ungrant || exists i | 0 <= i < |qs| :: qs[i].id == k.permission))
  {
    hide MayHandOn, Grant;
    FirstExactly(db, admin, first);
    AssignKeeps(db, admin, target, first, qs, ungrant);
    if forall i | 0 <= i < |qs| :: qs[i].id != k.permission {
      OthersKeep(db.grants, Models(db, admin, target, first), target, qs, k);
    }
  }

  lemma {:induction false} GrantAllSplit(grants: Grants, models: map<int, Model>, target: nat, qs: seq<Request>, i: nat)
    requires i <= |qs| && GrantAll(grants, models, target, qs[..i]).1
    ensures GrantAll(grants, models, target, qs)
            == GrantAll(GrantAll(grants, models, target, qs[..i]).0, models, target, qs[i..])
    decreases i
  {
    if i == 0 {
      assert qs[0..] == qs;
    } else {
      assert qs[..i][1..] == qs[1..][..i - 1] && qs[i..] == qs[1..][i - 1..] && qs[..i][0] == qs[0];
      GrantAllSplit(Grant(grants, models, target, qs[0]).value, models, target, qs[1..], i - 1);
    }
  }

  lemma {:induction false} ClearInPrefix(grants: Grants, models: map<int, Model>, target: nat, qs: seq<Request>, n: nat)
    requires n <= |qs|
    ensures forall j | 0 <= j < n :: Clear(grants, models, target, qs[..n], j) <==> Clear(grants, models, target, qs, j)
  {
    assert forall j | 0 <= j < n :: qs[..n][j] == qs[j];
  }

  /** An exception leaves what the requests before it wrote, and nothing is revoked. */
  lemma {:induction false} ThrowKeeps(grants: Grants, models: map<int, Model>, target: nat, qs: seq<Request>, ungrant: seq<int>, i: nat)
    requires i < |qs| && !Clear(grants, models, target, qs, i) && forall j | 0 <= j < i :: Clear(grants, models, target, qs, j)
    ensures GrantAll(grants, models, target, qs[..i]).1 && !GrantAll(grants, models, target, qs).1
    ensures Assign(grants, models, target, qs, ungrant) == GrantAll(grants, models, target, qs[..i]).0
  {
    hide Grant, Clear;
    ClearInPrefix(grants, models, target, qs, i);
    ClearInPrefix(grants, models, target, qs, i + 1);
    ThrowsExactly(grants, models, target, qs[..i]);
    assert !Clear(grants, models, target, qs[..i + 1], i);
    ThrowsExactly(grants, models, target, qs[..i + 1]);
    assert qs[..i + 1][..i] == qs[..i] && qs[..i + 1][i..] == [qs[i]] && [qs[i]][1..] == [];
    GrantAllSplit(grants, models, target, qs, i);
    GrantAllSplit(grants, models, target, qs[..i + 1], i);
    assert qs[i..][0] == qs[i];
  }

  /** One call of the endpoint, by any admin on any role. */
  datatype Call = Call(admin: nat, target: nat, first: map<int, nat>, qs: seq<Request>, ungrant: seq<int>)

  ghost predicate ValidRun(db: Rbac, calls: seq<Call>)
    decreases |calls|
  {
    calls == [] ||
    (FirstRows(db, calls[0].admin, calls[0].first) && ValidRun(AfterCall(db, calls[0]), calls[1..]))
  }

  function AfterCall(db: Rbac, c: Call): Rbac
    requires FirstRows(db, c.admin, c.first)
  {
    db.(grants := Assign(db.grants, Models(db, c.admin, c.target, c.first), c.target, c.qs, c.ungrant))
  }

  ghost function AfterRun(db: Rbac, calls: seq<Call>): Rbac
    requires ValidRun(db, calls)
    decreases |calls|
  {
    if calls == [] then db else AfterRun(AfterCall(db, calls[0]), calls[1..])
  }

  /** Over any run of calls the permissions that can be handed on, and those that cascade,
      only ever become fewer; so a permission nobody may hand on stays that way. */
  lemma {:induction false} NeverGrows(db: Rbac, calls: seq<Call>)
    requires ValidRun(db, calls)
    ensures Below(AfterRun(db, calls).grants, db.grants)
    decreases |calls|
  {
    if calls != [] {
      var c := calls[0];
      AssignKeeps(db, c.admin, c.target, c.first, c.qs, c.ungrant);
      NeverGrows(AfterCall(db, c), calls[1..]);
    }
  }

  // ---- Calls that overlap ----

  /** A call between its query and its last write. */
  datatype Session = Session(models: map<int, Model>, target: nat)

  /** The database and the calls in flight. */
  datatype System = System(db: Rbac, sessions: map<nat, Session>)

  /** A call takes its snapshot, writes one granted row, deletes the revoked ones, or ends.
      Nothing is assumed about the order of the writes, of one call or of several. */
  datatype Action =
    | Query(id: nat, admin: nat, target: nat, first: map<int, nat>)
    | Write(id: nat, q: Request)
    | Delete(id: nat, ungrant: set<int>)
    | Leave(id: nat)

  ghost predicate CanAct(s: System, a: Action) {
    match a
    case Query(_, admin, _, first) => FirstRows(s.db, admin, first)
    case _ => a.id in s.sessions
  }

  /** A write the unique index refuses changes nothing. */
  function Act(s: System, a: Action): System
    requires CanAct(s, a)
  {
    match a
    case Query(id, admin, target, first) =>
      s.(sessions := s.sessions[id := Session(Models(s.db, admin, target, first), target)])
    case Write(id, q) =>
      var r := Grant(s.db.grants, s.sessions[id].models, s.sessions[id].target, q);
      if r.Ok? then s.(db := s.db.(grants := r.value)) else s
    case Delete(id, ungrant) =>
      var models := s.sessions[id].models;
      s.(db := s.db.(grants := Revoke(s.db.grants, s.sessions[id].target, set p | p in ungrant && p in models)))
    case Leave(id) => s.(sessions := s.sessions - {id})
  }

  ghost predicate ValidActs(s: System, run: seq<Action>)
    decreases |run|
  {
    run == [] || (CanAct(s, run[0]) && ValidActs(Act(s, run[0]), run[1..]))
  }

  ghost function AfterActs(s: System, run: seq<Action>): System
    requires ValidActs(s, run)
    decreases |run|
  {
    if run == [] then s else AfterActs(Act(s, run[0]), run[1..])
  }

  ghost predicate AllBacked(s: System, start: Grants) {
    forall id | id in s.sessions :: Backed(s.sessions[id].models, start)
  }

  lemma {:induction false} ActBelow(start: Grants, s: System, a: Action)
    requires Below(s.db.grants, start) && AllBacked(s, start) && CanAct(s, a)
    ensures Below(Act(s, a).db.grants, start) && AllBacked(Act(s, a), start)
  {
    hide HandedOn, Cascading, Grant, Revoke;
    match a
    case Query(id, admin, target, first) => SnapshotBacked(start, s.db, admin, target, first);
    case Write(id, q) =>
      var session := s.sessions[id];
      if Grant(s.db.grants, session.models, session.target, q).Ok? {
        GrantBelow(start, s.db.grants, session.models, session.target, q);
      }
    case Delete(id, ungrant) =>
      var session := s.sessions[id];
      RevokeBelow(start, s.db.grants, session.target, set p | p in ungrant && p in session.models);
    case Leave(id) =>
  }

  lemma {:induction false} SnapshotBacked(start: Grants, db: Rbac, admin: nat, target: nat, first: map<int, nat>)
    requires FirstRows(db, admin, first) && Below(db.grants, start)
    ensures Backed(Models(db, admin, target, first), start)
  {
    assert Backed(Models(db, admin, target, first), db.grants);
  }

  /** However the queries and writes of any number of calls interleave, the permissions
      that can be handed on, and those that cascade, only ever become fewer. */
  lemma {:induction false} OverlapNeverGrows(start: Grants, s: System, run: seq<Action>)
    requires Below(s.db.grants, start) && AllBacked(s, start) && ValidActs(s, run)
    ensures Below(AfterActs(s, run).db.grants, start)
    decreases |run|
  {
    if run != [] {
      ActBelow(start, s, run[0]);
      OverlapNeverGrows(start, Act(s, run[0]), run[1..]);
    }
  }
}
