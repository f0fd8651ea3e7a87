/** `utils::can`: a query over roles, grants and the closure table, against a walk up the tree. */
module Permissions {
  import opened Results
  import opened OrgHierarchy

  datatype Role = Role(organization: nat, live: bool)
  datatype Admin = Admin(organization: nat, live: bool)

  /** The two flag columns of `sys_mid_role_permission`. */
  datatype Flags = Flags(grant: int, cascade: int)

  /** A row of `sys_mid_role_permission` is keyed by its unique index. */
  datatype Key = Key(role: nat, permission: int)

  datatype Rbac = Rbac(
    roles: map<nat, Role>,
    admins: map<nat, Admin>,
    codes: map<int, string>,
    adminRoles: set<(nat, nat)>,
    grants: map<Key, Flags>)

  predicate FlagsAreBits(grants: map<Key, Flags>) {
    forall k | k in grants :: grants[k].cascade == 0 || grants[k].cascade == 1
  }

  // ---- The query ----

  datatype Answer = Answer(organization: nat, cascade: int)

  /** The joins on roles, permissions, admin-role pairs and admins. */
  predicate Joins(db: Rbac, k: Key, admin: nat, code: string) {
    && k in db.grants
    && k.role in db.roles && db.roles[k.role].live
    && k.permission in db.codes && db.codes[k.permission] == code
    && (k.role, admin) in db.adminRoles
    && admin in db.admins && db.admins[admin].live
  }

  /** The join on the closure table and the WHERE clause. */
  predicate JoinsRow(db: Rbac, k: Key, r: Row, admin: nat, target: nat)
    requires k.role in db.roles && admin in db.admins
  {
    && r.ancestor == db.admins[admin].organization
    && r.ancestor == db.roles[k.role].organization
    && r.descendant == target
  }

  function Answers(db: Rbac, rows: seq<Row>, admin: nat, code: string, target: nat): set<Answer> {
    set k, r | k in db.grants.Keys && r in rows && Joins(db, k, admin, code) && JoinsRow(db, k, r, admin, target)
      :: Answer(db.admins[admin].organization, db.grants[k].cascade)
  }

  lemma {:induction false} Greatest(answers: set<Answer>) returns (top: Answer)
    requires answers != {}
    ensures top in answers && forall b | b in answers :: b.cascade <= top.cascade
  {
    top :| top in answers;
    var rest := answers - {top};
    if rest != {} {
      var other := Greatest(rest);
      if top.cascade < other.cascade { top := other; }
    }
  }

  /** `can`: `ORDER BY cascade DESC LIMIT 1`, then the comparison with the target. */
  method Can(db: Rbac, rows: seq<Row>, admin: nat, code: string, target: nat) returns (allowed: bool)
    ensures allowed <==> Granted(db, rows, admin, code, target)
  {
    var answers := Answers(db, rows, admin, code, target);
    if answers == {} { return false; }
    ghost var top := Greatest(answers);
    var first :| first in answers && forall b | b in answers :: b.cascade <= first.cascade;
    if target != first.organization { return first.cascade == 1; }
    allowed := true;
  }

  /** The answer `can` gives, whichever of the equally ranked rows comes first. */
  ghost predicate Granted(db: Rbac, rows: seq<Row>, admin: nat, code: string, target: nat) {
    exists a | a in Answers(db, rows, admin, code, target) ::
      && (forall b | b in Answers(db, rows, admin, code, target) :: b.cascade <= a.cascade)
      && (target == a.organization || a.cascade == 1)
  }

  // ---- What it is meant to decide ----

  /** The admin is live and has been given the role; the role is live, belongs to the
      admin's own organisation, and holds a permission of that code. */
  predicate Carries(db: Rbac, k: Key, admin: nat, code: string) {
    && admin in db.admins && db.admins[admin].live && (k.role, admin) in db.adminRoles
    && k.role in db.roles && db.roles[k.role] == Role(db.admins[admin].organization, true)
    && k.permission in db.codes && db.codes[k.permission] == code && k in db.grants
  }

  ghost predicate Reaches(orgs: map<nat, Org>, from: nat, to: nat) {
    exists n :: Above(orgs, from, n) == Some(to)
  }

  /** The decision in terms of the parent pointers alone. */
  ghost predicate Allowed(db: Rbac, orgs: map<nat, Org>, admin: nat, code: string, target: nat) {
    && admin in db.admins
    && var home := db.admins[admin].organization;
       && Live(orgs, home) && Live(orgs, target) && Reaches(orgs, target, home)
       && exists k :: Carries(db, k, admin, code) && (target == home || db.grants[k].cascade == 1)
  }

  lemma {:induction false} AnswerOf(db: Rbac, h: Db, admin: nat, code: string, target: nat, a: Answer)
    requires Faithful(h)
    ensures a in Answers(db, h.rows, admin, code, target) <==>
              && admin in db.admins && a.organization == db.admins[admin].organization
              && Live(h.orgs, a.organization) && Live(h.orgs, target) && Reaches(h.orgs, target, a.organization)
              && exists k :: Carries(db, k, admin, code) && db.grants[k].cascade == a.cascade
  {
    if a in Answers(db, h.rows, admin, code, target) {
      var k, r :| k in db.grants.Keys && r in h.rows && Joins(db, k, admin, code) && JoinsRow(db, k, r, admin, target)
        && a == Answer(db.admins[admin].organization, db.grants[k].cascade);
      assert Belongs(h.orgs, r);
      assert Carries(db, k, admin, code);
    }
    if && admin in db.admins && a.organization == db.admins[admin].organization
       && Live(h.orgs, a.organization) && Live(h.orgs, target) && Reaches(h.orgs, target, a.organization)
       && exists k :: Carries(db, k, admin, code) && db.grants[k].cascade == a.cascade {
      var n :| Above(h.orgs, target, n) == Some(a.organization);
      var k :| Carries(db, k, admin, code) && db.grants[k].cascade == a.cascade;
      var r := Row(a.organization, target, n);
      assert Belongs(h.orgs, r) && r in h.rows;
      assert k in db.grants.Keys && JoinsRow(db, k, r, admin, target);
    }
  }

  /** A carrier whose flag is larger than 1: it is sorted first and then compared with 1. */
  ghost predicate Outranked(db: Rbac, admin: nat, code: string) {
    exists k :: Carries(db, k, admin, code) && db.grants[k].cascade > 1
  }

  /** Given a faithful closure table, the query decides what a walk along the parent
      pointers would, unless a flag above 1 outranks those that cascade; with flags of 0
      and 1 it decides exactly that. */
  lemma {:induction false} CanExactly(db: Rbac, h: Db, admin: nat, code: string, target: nat)
    requires Faithful(h)
    ensures Granted(db, h.rows, admin, code, target)
       <==> Allowed(db, h.orgs, admin, code, target)
            && (target == db.admins[admin].organization || !Outranked(db, admin, code))
    ensures FlagsAreBits(db.grants) ==>
              (Granted(db, h.rows, admin, code, target) <==> Allowed(db, h.orgs, admin, code, target))
  {
    hide Faithful, Reaches, Live, Answers;
    var answers := Answers(db, h.rows, admin, code, target);
    forall a ensures a in answers <==>
              && admin in db.admins && a.organization == db.admins[admin].organization
              && Live(h.orgs, a.organization) && Live(h.orgs, target) && Reaches(h.orgs, target, a.organization)
              && exists k :: Carries(db, k, admin, code) && db.grants[k].cascade == a.cascade {
      AnswerOf(db, h, admin, code, target, a);
    }
    if Allowed(db, h.orgs, admin, code, target) {
      var home := db.admins[admin].organization;
      forall k | Carries(db, k, admin, code)
        ensures Answer(home, db.grants[k].cascade) in answers {
      }
      var k :| Carries(db, k, admin, code) && (target == home || db.grants[k].cascade == 1);
      var a := Greatest(answers);
      assert Answer(home, db.grants[k].cascade).cascade <= a.cascade;
    }
    CarriersAreGrants(db, admin, code);
  }

  lemma {:induction false} CarriersAreGrants(db: Rbac, admin: nat, code: string)
    ensures forall k | Carries(db, k, admin, code) :: k in db.grants
    ensures FlagsAreBits(db.grants) ==> !Outranked(db, admin, code)
  {
  }

  /** The permission to delete an organisation is asked for at its parent, so some admin
      can be given it exactly when the parent is live: an orphan stays for good. */
  lemma {:induction false} OrphansStay(h: Db, code: string, id: nat)
    requires Faithful(h) && Deletable(h.orgs, id)
    ensures (exists db: Rbac, admin: nat :: FlagsAreBits(db.grants) && Granted(db, h.rows, admin, code, h.orgs[id].parent.value))
       <==> Live(h.orgs, h.orgs[id].parent.value)
  {
    var parent := h.orgs[id].parent.value;
    forall db: Rbac, admin: nat | FlagsAreBits(db.grants) && Granted(db, h.rows, admin, code, parent)
      ensures Live(h.orgs, parent) {
      CanExactly(db, h, admin, code, parent);
    }
    if Live(h.orgs, parent) {
      var db := Rbac(map[0 := Role(parent, true)], map[0 := Admin(parent, true)], map[0 := code],
                     {(0, 0)}, map[Key(0, 0) := Flags(1, 0)]);
      CanExactly(db, h, 0, code, parent);
      assert Above(h.orgs, parent, 0) == Some(parent);
      assert Carries(db, Key(0, 0), 0, code);
      assert Granted(db, h.rows, 0, code, parent);
    }
  }

  /** The two halves together: after any run of creates and deletes. */
  lemma {:induction false} CanAfterAnyRun(db: Rbac, ops: seq<Op>, admin: nat, code: string, target: nat)
    ensures Granted(db, Run(Initial(), ops).rows, admin, code, target)
       <==> Allowed(db, Run(Initial(), ops).orgs, admin, code, target)
            && (target == db.admins[admin].organization || !Outranked(db, admin, code))
    ensures FlagsAreBits(db.grants) ==>
              (Granted(db, Run(Initial(), ops).rows, admin, code, target)
               <==> Allowed(db, Run(Initial(), ops).orgs, admin, code, target))
  {
    ClosureFaithful(ops);
    CanExactly(db, Run(Initial(), ops), admin, code, target);
  }
}
