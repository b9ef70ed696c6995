/** Where authority comes from: which rows each reachable state has, told by the calls of the run
    alone. */
module IamProvenance {
  import opened Common
  import opened Policies
  import opened IamTables
  import opened IamInvariant

  /** A row of the tables. */
  datatype Grant =
    | Account(username: string, status: Status)
    | Key(username: string, id: string, secret: string)
    | KeyStatus(username: string, id: string, status: Status)
    | Attached(username: string, policy: Policy)
    | Group(group: string)
    | Member(group: string, username: string)
    | GroupAttached(group: string, policy: Policy)
    | Session(username: string, id: string, secret: string, tokenHash: string, expiration: int)
    | BucketAttached(bucket: string, bucketPolicy: BucketPolicy)

  /** The row refers to the user. */
  predicate OfUser(g: Grant, u: string) {
    !(g.Group? || g.GroupAttached? || g.BucketAttached?) && g.username == u
  }

  predicate OfGroup(g: Grant, group: string) {
    (g.Group? || g.Member? || g.GroupAttached?) && g.group == group
  }

  /** The row is in the tables. */
  ghost predicate Holds(db: Db, g: Grant) {
    match g
    case Account(u, status) => u in db.users && db.users[u] == status
    case Key(u, id, secret) => id in db.keys && db.keys[id].username == u && db.keys[id].secret == secret
    case KeyStatus(u, id, status) => id in db.keys && db.keys[id].username == u && db.keys[id].status == status
    case Attached(u, p) => AttachedToUser(db, u, p)
    case Group(group) => group in db.groups
    case Member(group, u) => (group, u) in db.members
    case GroupAttached(group, p) => AttachedToGroup(db, group, p)
    case Session(u, id, secret, hash, expiration) =>
      id in db.tempCredentials && db.tempCredentials[id] == TempRow(secret, hash, u, expiration)
    case BucketAttached(b, p) => b in db.bucketPolicies && db.bucketPolicies[b] == p
  }

  /** The call puts the row into the tables. */
  ghost predicate Issues(env: Env, op: Op, g: Grant) {
    match g
    case Account(u, status) => (op == CreateUser(u) && status == Active) || op == UpdateUserStatus(u, status)
    case Key(u, id, secret) => op == CreateAccessKey(u, id, secret)
    case KeyStatus(u, id, status) =>
      || (op.CreateAccessKey? && op.username == u && op.id == id && status == Active)
      || op == UpdateAccessKeyStatus(id, status)
    case Attached(u, p) => op == AttachUserPolicy(u, p)
    case Group(group) => op == CreateGroup(group)
    case Member(group, u) => op == AddUserToGroup(group, u)
    case GroupAttached(group, p) => op == AttachGroupPolicy(group, p)
    case Session(u, id, secret, hash, expiration) =>
      && op.AssumeRole? && op.username == u && "ASIA" + op.suffix == id && op.secret == secret
      && env.digest(op.token) == hash
      && expiration == op.now + SessionSeconds(op.duration) * SECOND
    case BucketAttached(b, p) => op == SetBucketPolicy(b, p)
  }

  /** The call takes the row out: it removes or replaces it, or deletes a user or group it refers to. */
  ghost predicate Revokes(op: Op, g: Grant) {
    || (op.DeleteUser? && OfUser(g, op.username))
    || (op.DeleteGroup? && OfGroup(g, op.group))
    || match g
       case Account(u, status) => op.UpdateUserStatus? && op.username == u && op.status != status
       case Key(u, id, secret) => op == DeleteAccessKey(id)
       case KeyStatus(u, id, status) =>
         op == DeleteAccessKey(id) || (op.UpdateAccessKeyStatus? && op.id == id && op.status != status)
       case Attached(u, p) =>
         || op == DetachUserPolicy(u, p.name)
         || (op.AttachUserPolicy? && op.username == u && op.policy.name == p.name && op.policy != p)
       case Group(group) => false
       case Member(group, u) => op == RemoveUserFromGroup(group, u)
       case GroupAttached(group, p) =>
         || op == DetachGroupPolicy(group, p.name)
         || (op.AttachGroupPolicy? && op.group == group && op.policy.name == p.name && op.policy != p)
       case Session(u, id, secret, hash, expiration) => false
       case BucketAttached(b, p) =>
         op == DeleteBucketPolicy(b) || (op.SetBucketPolicy? && op.bucket == b && op.bucketPolicy != p)
  }

  /** What a row refers to exists, and a key whose status it gives is nobody else's. */
  ghost predicate OwnersExist(db: Db, g: Grant) {
    && (forall u :: OfUser(g, u) && !g.Account? ==> u in db.users)
    && (forall group :: OfGroup(g, group) && !g.Group? ==> group in db.groups)
    && (g.KeyStatus? && g.id in db.keys ==> db.keys[g.id].username == g.username)
  }

  // ----- One call -------------------------------------------------------------------

  /** What the tables hold after a call: the row it issued, and every earlier row it did not revoke. */
  ghost predicate StepAccounts(env: Env, db: Db, op: Op, g: Grant) {
    var (db', outcome) := Step(env, db, op);
    Holds(db', g) <==>
      || (Issues(env, op, g) && outcome == Done && OwnersExist(db, g))
      || (Holds(db, g) && !(Revokes(op, g) && outcome == Done))
  }

  lemma StepExact(env: Env, db: Db, op: Op, g: Grant)
    requires Inv(env, db)
    ensures StepAccounts(env, db, op, g)
  {
    hide StepAccounts;
    match g
    case Account(u, status) => AccountExact(env, db, op, g);
    case Key(u, id, secret) => KeyExact(env, db, op, g);
    case KeyStatus(u, id, status) => KeyStatusExact(env, db, op, g);
    case Group(group) => GroupExact(env, db, op, g);
    case BucketAttached(b, p) => BucketExact(env, db, op, g);
    case Attached(u, p) => AttachedExact(env, db, op, g);
    case Member(group, u) => MemberExact(env, db, op, g);
    case GroupAttached(group, p) => GroupAttachedExact(env, db, op, g);
    case Session(u, id, secret, hash, expiration) => SessionExact(env, db, op, g);
  }

  lemma AccountExact(env: Env, db: Db, op: Op, g: Grant)
    requires g.Account?
    ensures StepAccounts(env, db, op, g)
  {
    hide Step;
    UsersAfter(env, db, op);
  }

  lemma KeyExact(env: Env, db: Db, op: Op, g: Grant)
    requires g.Key?
    ensures StepAccounts(env, db, op, g)
  {
    hide Step;
    KeysAfter(env, db, op);
  }

  lemma KeyStatusExact(env: Env, db: Db, op: Op, g: Grant)
    requires g.KeyStatus? && KeysOwned(db)
    ensures StepAccounts(env, db, op, g)
  {
    hide Step;
    KeysAfter(env, db, op);
  }

  lemma GroupExact(env: Env, db: Db, op: Op, g: Grant)
    requires g.Group?
    ensures StepAccounts(env, db, op, g)
  {
    hide Step;
    GroupsAfter(env, db, op);
  }

  lemma BucketExact(env: Env, db: Db, op: Op, g: Grant)
    requires g.BucketAttached?
    ensures StepAccounts(env, db, op, g)
  {
    hide Step;
    BucketPoliciesAfter(env, db, op);
  }

  lemma MemberExact(env: Env, db: Db, op: Op, g: Grant)
    requires g.Member?
    ensures StepAccounts(env, db, op, g)
  {
    hide Step;
    MembersAfter(env, db, op);
  }

  lemma SessionExact(env: Env, db: Db, op: Op, g: Grant)
    requires g.Session?
    ensures StepAccounts(env, db, op, g)
  {
    hide Step;
    SessionsAfter(env, db, op);
  }

  /** A policy is stored under its own name, so one lookup decides whether it is attached. */
  lemma AttachedByName(db: Db, u: string, p: Policy)
    requires UserPoliciesOwned(db)
    ensures AttachedToUser(db, u, p) <==> (u, p.name) in db.userPolicies && db.userPolicies[(u, p.name)] == p
  {}

  lemma GroupAttachedByName(db: Db, group: string, p: Policy)
    requires GroupPoliciesOwned(db)
    ensures AttachedToGroup(db, group, p)
       <==> (group, p.name) in db.groupPolicies && db.groupPolicies[(group, p.name)] == p
  {}

  lemma AttachedExact(env: Env, db: Db, op: Op, g: Grant)
    requires g.Attached? && RootsReserved(env, db) && UserPoliciesOwned(db)
    ensures StepAccounts(env, db, op, g)
  {
    hide Step, AttachedToUser;
    StepKeepsUserPolicies(env, db, op);
    AttachedByName(db, g.username, g.policy);
    AttachedByName(Step(env, db, op).0, g.username, g.policy);
    AttachedCell(env, db, op, g.username, g.policy);
    hide UserPoliciesOwned, RootsReserved;
  }

  lemma AttachedCell(env: Env, db: Db, op: Op, u: string, p: Policy)
    requires RootsReserved(env, db) && UserPoliciesOwned(db)
    ensures var (db', outcome) := Step(env, db, op);
            var x := (u, p.name);
            x in db'.userPolicies && db'.userPolicies[x] == p <==>
              || (op == AttachUserPolicy(u, p) && outcome == Done && u in db.users)
              || (x in db.userPolicies && db.userPolicies[x] == p && !(Revokes(op, Attached(u, p)) && outcome == Done))
  {
    hide Step;
    assert IsRoot(env, u) ==> (u, p.name) !in db.userPolicies && u !in db.users;
    hide RootsReserved, UserPoliciesOwned, IsRoot;
    UserPoliciesAfter(env, db, op);
  }

  lemma GroupAttachedExact(env: Env, db: Db, op: Op, g: Grant)
    requires g.GroupAttached? && GroupPoliciesOwned(db)
    ensures StepAccounts(env, db, op, g)
  {
    hide Step, AttachedToGroup;
    StepKeepsGroupPolicies(env, db, op);
    GroupAttachedByName(db, g.group, g.policy);
    GroupAttachedByName(Step(env, db, op).0, g.group, g.policy);
    GroupPoliciesAfter(env, db, op);
    hide GroupPoliciesOwned;
  }

  // ----- Over runs ------------------------------------------------------------------

  ghost predicate DoneAt(env: Env, ops: seq<Op>, i: nat)
    requires i < |ops|
  {
    Step(env, Run(env, ops[..i]), ops[i]).1 == Done
  }

  /** Call `i` of the run issued the row and no later call revoked it. */
  ghost predicate IssuedAt(env: Env, ops: seq<Op>, i: nat, g: Grant)
    requires i < |ops|
  {
    && Issues(env, ops[i], g) && DoneAt(env, ops, i) && OwnersExist(Run(env, ops[..i]), g)
    && forall j :: i < j < |ops| && Revokes(ops[j], g) ==> !DoneAt(env, ops, j)
  }

  lemma NothingHeld(g: Grant)
    ensures !Holds(EMPTY, g)
  {}

  /** Every row of every reachable state was issued by a call of the run and not revoked since. */
  lemma {:induction false} Provenance(env: Env, ops: seq<Op>, g: Grant) returns (i: nat)
    requires Holds(Run(env, ops), g)
    ensures i < |ops| && IssuedAt(env, ops, i, g)
  {
    hide Step, Holds, Issues, OwnersExist, Revokes;
    if ops == [] {
      NothingHeld(g);
    }
    var n := |ops| - 1;
    var init := ops[..n];
    ReachableInv(env, init);
    StepExact(env, Run(env, init), ops[n], g);
    if Issues(env, ops[n], g) && DoneAt(env, ops, n) && OwnersExist(Run(env, init), g) {
      i := n;
    } else {
      i := Provenance(env, init, g);
      assert init[..i] == ops[..i];
      forall j | i < j < |ops| && Revokes(ops[j], g) ensures !DoneAt(env, ops, j) {
        if j < n {
          assert init[..j] == ops[..j] && init[j] == ops[j];
          assert !DoneAt(env, init, j);
        }
      }
    }
  }

  lemma {:induction false} IssuedHolds(env: Env, ops: seq<Op>, i: nat, g: Grant)
    requires i < |ops| && IssuedAt(env, ops, i, g)
    ensures Holds(Run(env, ops), g)
    decreases |ops|
  {
    hide Step, Holds, Issues, OwnersExist, Revokes;
    var n := |ops| - 1;
    var init := ops[..n];
    ReachableInv(env, init);
    StepExact(env, Run(env, init), ops[n], g);
    if i < n {
      assert init[..i] == ops[..i];
      forall j | i < j < |init| && Revokes(init[j], g) ensures !DoneAt(env, init, j) {
        assert init[..j] == ops[..j] && init[j] == ops[j];
        assert !DoneAt(env, ops, j);
      }
      IssuedHolds(env, init, i, g);
      assert Revokes(ops[n], g) ==> !DoneAt(env, ops, n);
    }
  }

  /** After any run the tables hold exactly the rows that some call issued and none revoked since. */
  lemma HoldsExactly(env: Env, ops: seq<Op>, g: Grant)
    ensures Holds(Run(env, ops), g) <==> Traces(env, ops, g)
  {
    hide Holds, IssuedAt;
    if Holds(Run(env, ops), g) {
      var i := Provenance(env, ops, g);
    }
    if Traces(env, ops, g) {
      var i :| 0 <= i < |ops| && IssuedAt(env, ops, i, g);
      IssuedHolds(env, ops, i, g);
    }
  }

  /** A policy speaks for a user exactly if it was attached to the user, or to a group the user was
      put in, with neither the attachment nor the membership revoked since. */
  lemma SpeaksForTraces(env: Env, ops: seq<Op>, u: string, p: Policy)
    ensures SpeaksFor(Run(env, ops), u, p) <==> PolicyTraces(env, ops, u, p)
  {
    var db := Run(env, ops);
    ReachableInv(env, ops);
    hide Run, Traces, AttachedToUser, AttachedToGroup;
    HoldsExactly(env, ops, Attached(u, p));
    forall g ensures AttachedVia(db, u, g, p)
                <==> Traces(env, ops, Member(g, u)) && Traces(env, ops, GroupAttached(g, p)) {
      HoldsExactly(env, ops, Member(g, u));
      HoldsExactly(env, ops, GroupAttached(g, p));
    }
  }

  /** Told by the calls alone: a non-root user is authorized exactly if some policy that traces to the
      user allows and no policy that traces to the user denies. */
  lemma AuthorityTraces(env: Env, ops: seq<Op>, u: string, a: Action, r: Resource)
    requires u != "root" && u != env.rootAccessKey
    ensures Authorized(env, Run(env, ops), u, a, r) <==>
            && (exists p: Policy :: PolicyTraces(env, ops, u, p) && Verdict(p.statements, a, r) == Some(Allow))
            && (forall p: Policy :: PolicyTraces(env, ops, u, p) ==> Verdict(p.statements, a, r) != Some(Deny))
  {
    hide Verdict, Run, PolicyTraces, SpeaksFor;
    forall p: Policy ensures SpeaksFor(Run(env, ops), u, p) <==> PolicyTraces(env, ops, u, p) {
      SpeaksForTraces(env, ops, u, p);
    }
  }

  ghost predicate Traces(env: Env, ops: seq<Op>, g: Grant) {
    exists i :: 0 <= i < |ops| && IssuedAt(env, ops, i, g)
  }

  ghost predicate PolicyTraces(env: Env, ops: seq<Op>, u: string, p: Policy) {
    || Traces(env, ops, Attached(u, p))
    || exists g :: Traces(env, ops, Member(g, u)) && Traces(env, ops, GroupAttached(g, p))
  }

  // ----- No residual authority ------------------------------------------------------

  ghost predicate Belongs(g: Grant, u: string) {
    OfUser(g, u) && !g.Account?
  }

  lemma HeldOwnersExist(env: Env, db: Db, g: Grant)
    requires Inv(env, db) && Holds(db, g)
    ensures OwnersExist(db, g)
  {
    match g
    case Attached(u, p) =>
      var n :| (u, n) in db.userPolicies && db.userPolicies[(u, n)] == p;
    case GroupAttached(group, p) =>
      var n :| (group, n) in db.groupPolicies && db.groupPolicies[(group, n)] == p;
    case _ =>
  }

  /** Whatever happened before, a user that has just been created holds nothing and is allowed
      nothing by identity policies. */
  lemma NewUserHasNothing(env: Env, ops: seq<Op>, u: string)
    requires ops != [] && ops[|ops| - 1] == CreateUser(u) && DoneAt(env, ops, |ops| - 1)
    ensures forall g :: Belongs(g, u) ==> !Holds(Run(env, ops), g)
    ensures forall a, r :: !Authorized(env, Run(env, ops), u, a, r)
  {
    hide Verdict;
    var before, after := Run(env, ops[..|ops| - 1]), Run(env, ops);
    ReachableInv(env, ops[..|ops| - 1]);
    forall g | Belongs(g, u) ensures !Holds(after, g) {
      if Holds(after, g) {
        StepExact(env, before, ops[|ops| - 1], g);
        HeldOwnersExist(env, before, g);
      }
    }
    forall p ensures !SpeaksFor(after, u, p) {
      assert !Holds(after, Attached(u, p));
      forall g ensures !AttachedVia(after, u, g, p) {
        assert !Holds(after, Member(g, u));
      }
    }
  }

  /** A user that is not deleted stays. */
  lemma {:induction false} UserStays(env: Env, ops: seq<Op>, i: nat, c: nat, u: string)
    requires i <= c <= |ops| && u in Run(env, ops[..i]).users
    requires forall j :: i <= j < c && ops[j] == DeleteUser(u) ==> !DoneAt(env, ops, j)
    ensures u in Run(env, ops[..c]).users
  {
    hide Step;
    if i < c {
      UserStays(env, ops, i, c - 1, u);
      assert ops[..c][..c - 1] == ops[..c - 1];
      StepDropsOnlyDeleted(env, Run(env, ops[..c - 1]), ops[c - 1], u);
    }
  }

  lemma StepDropsOnlyDeleted(env: Env, db: Db, op: Op, u: string)
    requires u in db.users && !(op == DeleteUser(u) && Step(env, db, op).1 == Done)
    ensures u in Step(env, db, op).0.users
  {
    hide Step;
    UsersAfter(env, db, op);
  }

  /** After a user is created again, every key, policy, membership and session it holds was issued
      after that creation: nothing survives from an earlier user of the same name. */
  lemma GrantsPostdateUser(env: Env, ops: seq<Op>, c: nat, u: string, g: Grant) returns (i: nat)
    requires c < |ops| && ops[c] == CreateUser(u) && DoneAt(env, ops, c)
    requires Belongs(g, u) && Holds(Run(env, ops), g)
    ensures c < i < |ops| && IssuedAt(env, ops, i, g)
  {
    i := Provenance(env, ops, g);
    if i < c {
      UserStays(env, ops, i, c, u);
    }
  }
}
