/** What each provider call answers after a run, told by the calls of the run alone. */
module IamOutcomes {
  import opened Common
  import opened Policies
  import opened IamTables
  import opened IamInvariant
  import opened IamProvenance

  // ----- What is in use -------------------------------------------------------------

  ghost predicate UserExists(env: Env, ops: seq<Op>, u: string) {
    exists status :: Traces(env, ops, Account(u, status))
  }

  ghost predicate OwnsKey(env: Env, ops: seq<Op>, u: string, id: string) {
    exists secret :: Traces(env, ops, Key(u, id, secret))
  }

  ghost predicate KeyExists(env: Env, ops: seq<Op>, id: string) {
    exists u :: OwnsKey(env, ops, u, id)
  }

  ghost predicate OwnsTwoKeys(env: Env, ops: seq<Op>, u: string) {
    exists k, l :: k != l && OwnsKey(env, ops, u, k) && OwnsKey(env, ops, u, l)
  }

  ghost predicate PolicyExists(env: Env, ops: seq<Op>, u: string, name: string) {
    exists p: Policy :: p.name == name && Traces(env, ops, Attached(u, p))
  }

  ghost predicate GroupPolicyExists(env: Env, ops: seq<Op>, group: string, name: string) {
    exists p: Policy :: p.name == name && Traces(env, ops, GroupAttached(group, p))
  }

  ghost predicate BucketPolicyExists(env: Env, ops: seq<Op>, bucket: string) {
    exists p :: Traces(env, ops, BucketAttached(bucket, p))
  }

  ghost predicate SessionExists(env: Env, ops: seq<Op>, id: string) {
    exists u, secret, hash, end :: Traces(env, ops, Session(u, id, secret, hash, end))
  }

  ghost predicate TokenExists(env: Env, ops: seq<Op>, hash: string) {
    exists u, id, secret, end :: Traces(env, ops, Session(u, id, secret, hash, end))
  }

  /** The answer to a call, in the order in which the reasons for refusing it are looked at. */
  ghost function Answer(env: Env, ops: seq<Op>, op: Op): Outcome {
    match op
    case CreateUser(u) =>
      if u == "root" || u == env.rootAccessKey || UserExists(env, ops, u) then Failed(Error.UserExists) else Done
    case DeleteUser(u) =>
      if u == "root" || u == env.rootAccessKey then Failed(CannotDeleteRoot)
      else if !UserExists(env, ops, u) then Failed(UserNotFound) else Done
    case UpdateUserStatus(u, _) =>
      if u == "root" || u == env.rootAccessKey then Failed(CannotDeleteRoot)
      else if !UserExists(env, ops, u) then Failed(UserNotFound) else Done
    case CreateAccessKey(u, id, _) =>
      if u == "root" || u == env.rootAccessKey then Failed(CannotModifyRootKeys)
      else if !UserExists(env, ops, u) then Failed(UserNotFound)
      else if OwnsTwoKeys(env, ops, u) then Failed(MaxAccessKeysExceeded)
      else if KeyExists(env, ops, id) then Failed(Database) else Done
    case DeleteAccessKey(id) =>
      if id == env.rootAccessKey then Failed(CannotModifyRootKeys)
      else if !KeyExists(env, ops, id) then Failed(AccessKeyNotFound) else Done
    case UpdateAccessKeyStatus(id, _) =>
      if id == env.rootAccessKey then Failed(CannotModifyRootKeys)
      else if !KeyExists(env, ops, id) then Failed(AccessKeyNotFound) else Done
    case AttachUserPolicy(u, _) =>
      if u == "root" || u == env.rootAccessKey || UserExists(env, ops, u) then Done else Failed(UserNotFound)
    case DetachUserPolicy(u, name) => if PolicyExists(env, ops, u, name) then Done else Failed(PolicyNotFound)
    case CreateGroup(g) => if Traces(env, ops, Group(g)) then Failed(GroupExists) else Done
    case DeleteGroup(g) => if Traces(env, ops, Group(g)) then Done else Failed(GroupNotFound)
    case AddUserToGroup(g, u) =>
      if !Traces(env, ops, Group(g)) then Failed(GroupNotFound)
      else if u == "root" || u == env.rootAccessKey then Failed(Database)
      else if !UserExists(env, ops, u) then Failed(UserNotFound) else Done
    case RemoveUserFromGroup(_, _) => Done
    case AttachGroupPolicy(g, _) => if Traces(env, ops, Group(g)) then Done else Failed(GroupNotFound)
    case DetachGroupPolicy(g, name) => if GroupPolicyExists(env, ops, g, name) then Done else Failed(PolicyNotFound)
    case SetBucketPolicy(_, _) => Done
    case DeleteBucketPolicy(b) => if BucketPolicyExists(env, ops, b) then Done else Failed(PolicyNotFound)
    case AssumeRole(u, _, suffix, _, token, _) =>
      if u == "root" || u == env.rootAccessKey then Failed(Database)
      else if !UserExists(env, ops, u) then Failed(UserNotFound)
      else if !Traces(env, ops, Account(u, Active)) then Failed(InvalidCredentials)
      else if SessionExists(env, ops, "ASIA" + suffix) || TokenExists(env, ops, env.digest(token)) then
        Failed(Database)
      else Done
  }

  // ----- The tables say the same ----------------------------------------------------

  lemma UserExact(env: Env, ops: seq<Op>, u: string)
    ensures UserExists(env, ops, u) <==> u in Run(env, ops).users
    ensures Traces(env, ops, Account(u, Active)) <==> u in Run(env, ops).users && Run(env, ops).users[u] == Active
  {
    hide Run, Traces;
    HoldsExactly(env, ops, Account(u, Active));
    HoldsExactly(env, ops, Account(u, Inactive));
    if status :| Traces(env, ops, Account(u, status)) {
      assert status == Active || status == Inactive;
    }
  }

  lemma OwnsKeyExact(env: Env, ops: seq<Op>, u: string, id: string)
    ensures OwnsKey(env, ops, u, id) <==> id in KeysOf(Run(env, ops), u)
  {
    hide Run, Traces;
    var db := Run(env, ops);
    if id in KeysOf(db, u) {
      HoldsExactly(env, ops, Key(u, id, db.keys[id].secret));
    }
    if secret :| Traces(env, ops, Key(u, id, secret)) {
      HoldsExactly(env, ops, Key(u, id, secret));
    }
  }

  lemma KeyExact(env: Env, ops: seq<Op>, id: string)
    ensures KeyExists(env, ops, id) <==> id in Run(env, ops).keys
  {
    hide Run, OwnsKey;
    var db := Run(env, ops);
    if id in db.keys {
      OwnsKeyExact(env, ops, db.keys[id].username, id);
    }
    if u :| OwnsKey(env, ops, u, id) {
      OwnsKeyExact(env, ops, u, id);
    }
  }

  lemma AtLeastTwo<T>(xs: set<T>)
    ensures |xs| >= 2 <==> exists x, y :: x in xs && y in xs && x != y
  {
    if |xs| >= 2 {
      var x :| x in xs;
      var rest := xs - {x};
      assert |rest| == |xs| - 1;
      var y :| y in rest;
      assert y in xs && x != y;
    }
    if x, y :| x in xs && y in xs && x != y {
      SubsetSize({x, y}, xs);
    }
  }

  lemma TwoKeysExact(env: Env, ops: seq<Op>, u: string)
    ensures OwnsTwoKeys(env, ops, u) <==> |KeysOf(Run(env, ops), u)| >= 2
  {
    hide Run, OwnsKey, KeysOf;
    AtLeastTwo(KeysOf(Run(env, ops), u));
    forall id ensures OwnsKey(env, ops, u, id) <==> id in KeysOf(Run(env, ops), u) {
      OwnsKeyExact(env, ops, u, id);
    }
  }

  lemma PolicyExact(env: Env, ops: seq<Op>, u: string, name: string)
    ensures PolicyExists(env, ops, u, name) <==> (u, name) in Run(env, ops).userPolicies
  {
    ReachableInv(env, ops);
    hide Run, Traces;
    var db := Run(env, ops);
    if (u, name) in db.userPolicies {
      HoldsExactly(env, ops, Attached(u, db.userPolicies[(u, name)]));
    }
    if p: Policy :| p.name == name && Traces(env, ops, Attached(u, p)) {
      HoldsExactly(env, ops, Attached(u, p));
      AttachedByName(db, u, p);
    }
  }

  lemma GroupPolicyExact(env: Env, ops: seq<Op>, group: string, name: string)
    ensures GroupPolicyExists(env, ops, group, name) <==> (group, name) in Run(env, ops).groupPolicies
  {
    ReachableInv(env, ops);
    hide Run, Traces;
    var db := Run(env, ops);
    if (group, name) in db.groupPolicies {
      HoldsExactly(env, ops, GroupAttached(group, db.groupPolicies[(group, name)]));
    }
    if p: Policy :| p.name == name && Traces(env, ops, GroupAttached(group, p)) {
      HoldsExactly(env, ops, GroupAttached(group, p));
      GroupAttachedByName(db, group, p);
    }
  }

  lemma BucketPolicyExact(env: Env, ops: seq<Op>, bucket: string)
    ensures BucketPolicyExists(env, ops, bucket) <==> bucket in Run(env, ops).bucketPolicies
  {
    hide Run, Traces;
    var db := Run(env, ops);
    if bucket in db.bucketPolicies {
      HoldsExactly(env, ops, BucketAttached(bucket, db.bucketPolicies[bucket]));
    }
    if p :| Traces(env, ops, BucketAttached(bucket, p)) {
      HoldsExactly(env, ops, BucketAttached(bucket, p));
    }
  }

  lemma SessionExact(env: Env, ops: seq<Op>, id: string)
    ensures SessionExists(env, ops, id) <==> id in Run(env, ops).tempCredentials
  {
    hide Run, Traces;
    var db := Run(env, ops);
    if id in db.tempCredentials {
      var row := db.tempCredentials[id];
      HoldsExactly(env, ops, Session(row.identity, id, row.secret, row.tokenHash, row.expiration));
    }
    if u, secret, hash, end :| Traces(env, ops, Session(u, id, secret, hash, end)) {
      HoldsExactly(env, ops, Session(u, id, secret, hash, end));
    }
  }

  lemma TokenExact(env: Env, ops: seq<Op>, hash: string)
    ensures TokenExists(env, ops, hash) <==> TokenTaken(Run(env, ops), hash)
  {
    hide Run, Traces;
    var db := Run(env, ops);
    if id :| id in db.tempCredentials && db.tempCredentials[id].tokenHash == hash {
      var row := db.tempCredentials[id];
      HoldsExactly(env, ops, Session(row.identity, id, row.secret, hash, row.expiration));
    }
    if u, id, secret, end :| Traces(env, ops, Session(u, id, secret, hash, end)) {
      HoldsExactly(env, ops, Session(u, id, secret, hash, end));
    }
  }

  // ----- The answers ----------------------------------------------------------------

  lemma UserCallExact(env: Env, ops: seq<Op>, op: Op)
    requires op.CreateUser? || op.DeleteUser? || op.UpdateUserStatus? || op.AttachUserPolicy? || op.DetachUserPolicy?
    ensures Step(env, Run(env, ops), op).1 == Answer(env, ops, op)
  {
    hide Run, Traces, UserExists, PolicyExists;
    UserExact(env, ops, op.username);
    if op.DetachUserPolicy? {
      PolicyExact(env, ops, op.username, op.name);
    }
  }

  lemma KeyCallExact(env: Env, ops: seq<Op>, op: Op)
    requires op.CreateAccessKey? || op.DeleteAccessKey? || op.UpdateAccessKeyStatus?
    ensures Step(env, Run(env, ops), op).1 == Answer(env, ops, op)
  {
    hide Run, Traces, UserExists, OwnsTwoKeys, KeyExists, KeysOf;
    KeyExact(env, ops, op.id);
    if op.CreateAccessKey? {
      UserExact(env, ops, op.username);
      TwoKeysExact(env, ops, op.username);
    }
  }

  lemma GroupCallExact(env: Env, ops: seq<Op>, op: Op)
    requires || op.CreateGroup? || op.DeleteGroup? || op.AddUserToGroup? || op.RemoveUserFromGroup?
             || op.AttachGroupPolicy? || op.DetachGroupPolicy?
    ensures Step(env, Run(env, ops), op).1 == Answer(env, ops, op)
  {
    hide Run, Traces, UserExists, GroupPolicyExists;
    HoldsExactly(env, ops, Group(op.group));
    if op.AddUserToGroup? {
      UserExact(env, ops, op.username);
    } else if op.DetachGroupPolicy? {
      GroupPolicyExact(env, ops, op.group, op.name);
    }
  }

  lemma RoleCallExact(env: Env, ops: seq<Op>, op: Op)
    requires op.AssumeRole?
    ensures Step(env, Run(env, ops), op).1 == Answer(env, ops, op)
  {
    hide Run, Traces, UserExists, SessionExists, TokenExists, TokenTaken;
    UserExact(env, ops, op.username);
    SessionExact(env, ops, "ASIA" + op.suffix);
    TokenExact(env, ops, env.digest(op.token));
  }

  /** After any run, every call is answered as the earlier calls demand: it is carried out exactly if
      what it refers to was issued and not revoked since and what it adds is not in use, and otherwise
      refused for the first reason that applies. */
  lemma AnswerExact(env: Env, ops: seq<Op>, op: Op)
    ensures Step(env, Run(env, ops), op).1 == Answer(env, ops, op)
  {
    hide Step, Run, Answer;
    match op
    case CreateUser(_) => UserCallExact(env, ops, op);
    case DeleteUser(_) => UserCallExact(env, ops, op);
    case UpdateUserStatus(_, _) => UserCallExact(env, ops, op);
    case AttachUserPolicy(_, _) => UserCallExact(env, ops, op);
    case DetachUserPolicy(_, _) => UserCallExact(env, ops, op);
    case CreateAccessKey(_, _, _) => KeyCallExact(env, ops, op);
    case DeleteAccessKey(_) => KeyCallExact(env, ops, op);
    case UpdateAccessKeyStatus(_, _) => KeyCallExact(env, ops, op);
    case SetBucketPolicy(_, _) => BucketCallExact(env, ops, op);
    case DeleteBucketPolicy(_) => BucketCallExact(env, ops, op);
    case AssumeRole(_, _, _, _, _, _) => RoleCallExact(env, ops, op);
    case _ => GroupCallExact(env, ops, op);
  }

  lemma BucketCallExact(env: Env, ops: seq<Op>, op: Op)
    requires op.SetBucketPolicy? || op.DeleteBucketPolicy?
    ensures Step(env, Run(env, ops), op).1 == Answer(env, ops, op)
  {
    hide Run, Traces, BucketPolicyExists;
    BucketPolicyExact(env, ops, op.bucket);
  }
}
