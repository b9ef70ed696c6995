/** What every provider call keeps, and so what holds in every reachable state. */
module IamInvariant {
  import opened IamTables

  // ----- The invariant --------------------------------------------------------------

  ghost predicate RootsReserved(env: Env, db: Db) {
    forall u :: u in db.users ==> !IsRoot(env, u)
  }

  ghost predicate KeysOwned(db: Db) {
    forall k :: k in db.keys ==> db.keys[k].username in db.users
  }

  ghost predicate KeysCapped(db: Db) {
    forall u :: |KeysOf(db, u)| <= 2
  }

  ghost predicate UserPoliciesOwned(db: Db) {
    forall x :: x in db.userPolicies ==> x.0 in db.users && db.userPolicies[x].name == x.1
  }

  ghost predicate GroupPoliciesOwned(db: Db) {
    forall x :: x in db.groupPolicies ==> x.0 in db.groups && db.groupPolicies[x].name == x.1
  }

  ghost predicate MembersOwned(db: Db) {
    forall x :: x in db.members ==> x.0 in db.groups && x.1 in db.users
  }

  ghost predicate SessionsOwned(db: Db) {
    forall k :: k in db.tempCredentials ==> db.tempCredentials[k].identity in db.users
  }

  ghost predicate TokensUnique(db: Db) {
    forall k, l :: k in db.tempCredentials && l in db.tempCredentials && k != l ==>
      db.tempCredentials[k].tokenHash != db.tempCredentials[l].tokenHash
  }

  ghost predicate Inv(env: Env, db: Db) {
    && RootsReserved(env, db) && KeysOwned(db) && KeysCapped(db)
    && UserPoliciesOwned(db) && GroupPoliciesOwned(db) && MembersOwned(db)
    && SessionsOwned(db) && TokensUnique(db)
  }

  lemma SubsetSize<T>(xs: set<T>, ys: set<T>)
    requires xs <= ys
    ensures |xs| <= |ys|
  {
    if xs != {} {
      var x :| x in xs;
      SubsetSize(xs - {x}, ys - {x});
    }
  }

  lemma StepKeepsCap(env: Env, db: Db, op: Op)
    requires KeysCapped(db)
    ensures KeysCapped(Step(env, db, op).0)
  {
    hide Step;
    KeysAfter(env, db, op);
    var db' := Step(env, db, op).0;
    forall u ensures |KeysOf(db', u)| <= 2 {
      var added := if op.CreateAccessKey? && |KeysOf(db, u)| < MAX_KEYS then {op.id} else {};
      assert KeysOf(db', u) <= KeysOf(db, u) + added;
      SubsetSize(KeysOf(db', u), KeysOf(db, u) + added);
    }
  }

  lemma StepKeepsRoots(env: Env, db: Db, op: Op)
    requires RootsReserved(env, db)
    ensures RootsReserved(env, Step(env, db, op).0)
  {
    hide Step;
    UsersAfter(env, db, op);
  }

  lemma StepKeepsKeys(env: Env, db: Db, op: Op)
    requires KeysOwned(db)
    ensures KeysOwned(Step(env, db, op).0)
  {
    hide Step;
    UsersAfter(env, db, op);
    KeysAfter(env, db, op);
  }

  lemma StepKeepsUserPolicies(env: Env, db: Db, op: Op)
    requires UserPoliciesOwned(db)
    ensures UserPoliciesOwned(Step(env, db, op).0)
  {
    hide Step;
    UsersAfter(env, db, op);
    UserPoliciesAfter(env, db, op);
  }

  lemma StepKeepsGroupPolicies(env: Env, db: Db, op: Op)
    requires GroupPoliciesOwned(db)
    ensures GroupPoliciesOwned(Step(env, db, op).0)
  {
    hide Step;
    GroupsAfter(env, db, op);
    GroupPoliciesAfter(env, db, op);
  }

  lemma StepKeepsMembers(env: Env, db: Db, op: Op)
    requires MembersOwned(db)
    ensures MembersOwned(Step(env, db, op).0)
  {
    hide Step;
    UsersAfter(env, db, op);
    GroupsAfter(env, db, op);
    MembersAfter(env, db, op);
  }

  lemma StepKeepsSessions(env: Env, db: Db, op: Op)
    requires SessionsOwned(db)
    ensures SessionsOwned(Step(env, db, op).0)
  {
    hide Step;
    UsersAfter(env, db, op);
    SessionsAfter(env, db, op);
  }

  lemma StepKeepsTokens(env: Env, db: Db, op: Op)
    requires TokensUnique(db)
    ensures TokensUnique(Step(env, db, op).0)
  {
    hide Step;
    SessionsAfter(env, db, op);
  }

  lemma StepKeepsInv(env: Env, db: Db, op: Op)
    requires Inv(env, db)
    ensures Inv(env, Step(env, db, op).0)
  {
    hide Step;
    StepKeepsRoots(env, db, op);
    StepKeepsKeys(env, db, op);
    StepKeepsCap(env, db, op);
    StepKeepsUserPolicies(env, db, op);
    StepKeepsGroupPolicies(env, db, op);
    StepKeepsMembers(env, db, op);
    StepKeepsSessions(env, db, op);
    StepKeepsTokens(env, db, op);
  }

  // ----- Runs -----------------------------------------------------------------------

  /** The state after a run of calls on an empty store. */
  function Run(env: Env, ops: seq<Op>): Db {
    if ops == [] then EMPTY else Step(env, Run(env, ops[..|ops| - 1]), ops[|ops| - 1]).0
  }

  /** Every reachable state satisfies the invariant. */
  lemma {:induction false} ReachableInv(env: Env, ops: seq<Op>)
    ensures Inv(env, Run(env, ops))
  {
    if ops == [] {
      assert forall u :: KeysOf(EMPTY, u) == {};
    } else {
      ReachableInv(env, ops[..|ops| - 1]);
      StepKeepsInv(env, Run(env, ops[..|ops| - 1]), ops[|ops| - 1]);
    }
  }
}
