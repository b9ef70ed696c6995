/** The identity tables and what each provider call does to them, one atomic step a call. */
module IamTables {
  import opened Common
  import opened Policies

  datatype Status = Active | Inactive

  datatype KeyRow = KeyRow(secret: string, username: string, status: Status)

  datatype TempRow = TempRow(secret: string, tokenHash: string, identity: string, expiration: int)

  /** Configured root credentials and the digest applied to session tokens. */
  datatype Env = Env(rootAccessKey: string, rootSecretKey: string, digest: string -> string)

  datatype Db = Db(
    users: map<string, Status>,
    keys: map<string, KeyRow>,
    userPolicies: map<(string, string), Policy>,
    groups: set<string>,
    members: set<(string, string)>,
    groupPolicies: map<(string, string), Policy>,
    tempCredentials: map<string, TempRow>,
    bucketPolicies: map<string, BucketPolicy>)

  const EMPTY := Db(map[], map[], map[], {}, {}, map[], map[], map[])

  datatype Error =
    | UserExists | UserNotFound | CannotDeleteRoot | CannotModifyRootKeys | MaxAccessKeysExceeded
    | AccessKeyNotFound | PolicyNotFound | GroupExists | GroupNotFound | InvalidCredentials | Database

  datatype Outcome = Done | Failed(error: Error)

  /** Provider calls that change the tables. Generated identifiers, secrets, tokens and the clock
      are arguments. */
  datatype Op =
    | CreateUser(username: string)
    | DeleteUser(username: string)
    | UpdateUserStatus(username: string, status: Status)
    | CreateAccessKey(username: string, id: string, secret: string)
    | DeleteAccessKey(id: string)
    | UpdateAccessKeyStatus(id: string, status: Status)
    | AttachUserPolicy(username: string, policy: Policy)
    | DetachUserPolicy(username: string, name: string)
    | CreateGroup(group: string)
    | DeleteGroup(group: string)
    | AddUserToGroup(group: string, username: string)
    | RemoveUserFromGroup(group: string, username: string)
    | AttachGroupPolicy(group: string, policy: Policy)
    | DetachGroupPolicy(group: string, name: string)
    | SetBucketPolicy(bucket: string, bucketPolicy: BucketPolicy)
    | DeleteBucketPolicy(bucket: string)
    | AssumeRole(username: string, duration: Option<nat>, suffix: string, secret: string,
                 token: string, now: int)

  predicate IsRoot(env: Env, name: string) {
    name == "root" || name == env.rootAccessKey
  }

  function KeysOf(db: Db, username: string): set<string> {
    set k | k in db.keys && db.keys[k].username == username
  }

  const MAX_KEYS := 2
  const DEFAULT_SESSION := 3600
  const MIN_SESSION := 900
  const MAX_SESSION := 43200

  /** Requested session length in seconds, defaulted and clamped. */
  function SessionSeconds(duration: Option<nat>): nat {
    var d := if duration.Some? then duration.value else DEFAULT_SESSION;
    if d < MIN_SESSION then MIN_SESSION else if d > MAX_SESSION then MAX_SESSION else d
  }

  function TempKeyId(suffix: string): string {
    "ASIA" + suffix
  }

  /** Deleting a user row cascades to every table that refers to it. */
  function WithoutUser(db: Db, u: string): Db {
    db.(users := db.users - {u},
        keys := map k | k in db.keys && db.keys[k].username != u :: db.keys[k],
        userPolicies := map x | x in db.userPolicies && x.0 != u :: db.userPolicies[x],
        members := (set x | x in db.members && x.1 != u),
        tempCredentials := map k | k in db.tempCredentials && db.tempCredentials[k].identity != u
                             :: db.tempCredentials[k])
  }

  function WithoutGroup(db: Db, g: string): Db {
    db.(groups := db.groups - {g},
        members := (set x | x in db.members && x.0 != g),
        groupPolicies := map x | x in db.groupPolicies && x.0 != g :: db.groupPolicies[x])
  }

  predicate TokenTaken(db: Db, hash: string) {
    exists k :: k in db.tempCredentials && db.tempCredentials[k].tokenHash == hash
  }

  function Step(env: Env, db: Db, op: Op): (Db, Outcome) {
    match op
    case CreateUser(u) =>
      if IsRoot(env, u) || u in db.users then (db, Failed(UserExists))
      else (db.(users := db.users[u := Active]), Done)
    case DeleteUser(u) =>
      if IsRoot(env, u) then (db, Failed(CannotDeleteRoot))
      else if u !in db.users then (db, Failed(UserNotFound))
      else (WithoutUser(db, u), Done)
    case UpdateUserStatus(u, status) =>
      if IsRoot(env, u) then (db, Failed(CannotDeleteRoot))
      else if u !in db.users then (db, Failed(UserNotFound))
      else (db.(users := db.users[u := status]), Done)
    case CreateAccessKey(u, id, secret) =>
      if IsRoot(env, u) then (db, Failed(CannotModifyRootKeys))
      else if u !in db.users then (db, Failed(UserNotFound))
      else if |KeysOf(db, u)| >= MAX_KEYS then (db, Failed(MaxAccessKeysExceeded))
      else if id in db.keys then (db, Failed(Database))
      else (db.(keys := db.keys[id := KeyRow(secret, u, Active)]), Done)
    case DeleteAccessKey(id) =>
      if id == env.rootAccessKey then (db, Failed(CannotModifyRootKeys))
      else if id !in db.keys then (db, Failed(AccessKeyNotFound))
      else (db.(keys := db.keys - {id}), Done)
    case UpdateAccessKeyStatus(id, status) =>
      if id == env.rootAccessKey then (db, Failed(CannotModifyRootKeys))
      else if id !in db.keys then (db, Failed(AccessKeyNotFound))
      else (db.(keys := db.keys[id := db.keys[id].(status := status)]), Done)
    case AttachUserPolicy(u, policy) =>
      if IsRoot(env, u) then (db, Done)
      else if u !in db.users then (db, Failed(UserNotFound))
      else (db.(userPolicies := db.userPolicies[(u, policy.name) := policy]), Done)
    case DetachUserPolicy(u, name) =>
      if (u, name) !in db.userPolicies then (db, Failed(PolicyNotFound))
      else (db.(userPolicies := db.userPolicies - {(u, name)}), Done)
    case CreateGroup(g) =>
      if g in db.groups then (db, Failed(GroupExists))
      else (db.(groups := db.groups + {g}), Done)
    case DeleteGroup(g) =>
      if g !in db.groups then (db, Failed(GroupNotFound))
      else (WithoutGroup(db, g), Done)
    case AddUserToGroup(g, u) =>
      if g !in db.groups then (db, Failed(GroupNotFound))
      else if IsRoot(env, u) then (db, Failed(Database))
      else if u !in db.users then (db, Failed(UserNotFound))
      else (db.(members := db.members + {(g, u)}), Done)
    case RemoveUserFromGroup(g, u) =>
      (db.(members := db.members - {(g, u)}), Done)
    case AttachGroupPolicy(g, policy) =>
      if g !in db.groups then (db, Failed(GroupNotFound))
      else (db.(groupPolicies := db.groupPolicies[(g, policy.name) := policy]), Done)
    case DetachGroupPolicy(g, name) =>
      if (g, name) !in db.groupPolicies then (db, Failed(PolicyNotFound))
      else (db.(groupPolicies := db.groupPolicies - {(g, name)}), Done)
    case SetBucketPolicy(b, policy) =>
      (db.(bucketPolicies := db.bucketPolicies[b := policy]), Done)
    case DeleteBucketPolicy(b) =>
      if b !in db.bucketPolicies then (db, Failed(PolicyNotFound))
      else (db.(bucketPolicies := db.bucketPolicies - {b}), Done)
    case AssumeRole(u, duration, suffix, secret, token, now) =>
      // A root name passes the lookup but has no row, so its insert breaks the foreign key.
      if IsRoot(env, u) then (db, Failed(Database))
      else if u !in db.users then (db, Failed(UserNotFound))
      else if db.users[u] != Active then (db, Failed(InvalidCredentials))
      else if TempKeyId(suffix) in db.tempCredentials || TokenTaken(db, env.digest(token)) then
        (db, Failed(Database))
      else
        var row := TempRow(secret, env.digest(token), u, now + SessionSeconds(duration) * SECOND);
        (db.(tempCredentials := db.tempCredentials[TempKeyId(suffix) := row]), Done)
  }

  // ----- Authorization --------------------------------------------------------------

  ghost predicate AttachedToUser(db: Db, u: string, p: Policy) {
    exists n :: (u, n) in db.userPolicies && db.userPolicies[(u, n)] == p
  }

  ghost predicate AttachedToGroup(db: Db, g: string, p: Policy) {
    exists n :: (g, n) in db.groupPolicies && db.groupPolicies[(g, n)] == p
  }

  ghost predicate AttachedVia(db: Db, u: string, g: string, p: Policy) {
    g in db.groups && (g, u) in db.members && AttachedToGroup(db, g, p)
  }

  /** The policy speaks for the user, directly or through one of the user's groups. */
  ghost predicate SpeaksFor(db: Db, u: string, p: Policy) {
    AttachedToUser(db, u, p) || exists g :: AttachedVia(db, u, g, p)
  }

  ghost predicate SomePolicySays(db: Db, u: string, effect: Effect, a: Action, r: Resource) {
    exists p :: SpeaksFor(db, u, p) && Verdict(p.statements, a, r) == Some(effect)
  }

  /** What the identity policies decide: some policy allows and none denies. */
  ghost predicate Authorized(env: Env, db: Db, u: string, a: Action, r: Resource) {
    IsRoot(env, u) || (SomePolicySays(db, u, Allow, a, r) && !SomePolicySays(db, u, Deny, a, r))
  }

  // ----- Table by table -------------------------------------------------------------

  lemma UsersAfter(env: Env, db: Db, op: Op)
    ensures var (db', outcome) := Step(env, db, op);
            if outcome != Done then db'.users == db.users
            else match op
              case CreateUser(u) => !IsRoot(env, u) && u !in db.users && db'.users == db.users[u := Active]
              case UpdateUserStatus(u, status) => u in db.users && db'.users == db.users[u := status]
              case DeleteUser(u) => db'.users == db.users - {u}
              case _ => db'.users == db.users
  {}

  lemma KeysAfter(env: Env, db: Db, op: Op)
    ensures var (db', outcome) := Step(env, db, op);
            if outcome != Done then db'.keys == db.keys
            else match op
              case CreateAccessKey(u, id, secret) =>
                && id !in db.keys && u in db.users && |KeysOf(db, u)| < MAX_KEYS
                && db'.keys == db.keys[id := KeyRow(secret, u, Active)]
              case DeleteAccessKey(id) => db'.keys == db.keys - {id}
              case UpdateAccessKeyStatus(id, status) =>
                id in db.keys && db'.keys == db.keys[id := db.keys[id].(status := status)]
              case DeleteUser(u) => db'.keys == map k | k in db.keys && db.keys[k].username != u :: db.keys[k]
              case _ => db'.keys == db.keys
  {}

  lemma UserPoliciesAfter(env: Env, db: Db, op: Op)
    ensures var (db', outcome) := Step(env, db, op);
            if outcome != Done || (op.AttachUserPolicy? && IsRoot(env, op.username)) then
              db'.userPolicies == db.userPolicies
            else match op
              case AttachUserPolicy(u, p) => u in db.users && db'.userPolicies == db.userPolicies[(u, p.name) := p]
              case DetachUserPolicy(u, n) => db'.userPolicies == db.userPolicies - {(u, n)}
              case DeleteUser(u) =>
                db'.userPolicies == map x | x in db.userPolicies && x.0 != u :: db.userPolicies[x]
              case _ => db'.userPolicies == db.userPolicies
  {}

  lemma GroupsAfter(env: Env, db: Db, op: Op)
    ensures var (db', outcome) := Step(env, db, op);
            if outcome != Done then db'.groups == db.groups
            else match op
              case CreateGroup(g) => db'.groups == db.groups + {g}
              case DeleteGroup(g) => db'.groups == db.groups - {g}
              case _ => db'.groups == db.groups
  {}

  lemma GroupPoliciesAfter(env: Env, db: Db, op: Op)
    ensures var (db', outcome) := Step(env, db, op);
            if outcome != Done then db'.groupPolicies == db.groupPolicies
            else match op
              case AttachGroupPolicy(g, p) => g in db.groups && db'.groupPolicies == db.groupPolicies[(g, p.name) := p]
              case DetachGroupPolicy(g, n) => db'.groupPolicies == db.groupPolicies - {(g, n)}
              case DeleteGroup(g) =>
                db'.groupPolicies == map x | x in db.groupPolicies && x.0 != g :: db.groupPolicies[x]
              case _ => db'.groupPolicies == db.groupPolicies
  {}

  lemma MembersAfter(env: Env, db: Db, op: Op)
    ensures var (db', outcome) := Step(env, db, op);
            if outcome != Done then db'.members == db.members
            else match op
              case AddUserToGroup(g, u) => g in db.groups && u in db.users && db'.members == db.members + {(g, u)}
              case RemoveUserFromGroup(g, u) => db'.members == db.members - {(g, u)}
              case DeleteUser(u) => db'.members == set x | x in db.members && x.1 != u
              case DeleteGroup(g) => db'.members == set x | x in db.members && x.0 != g
              case _ => db'.members == db.members
  {}

  lemma SessionsAfter(env: Env, db: Db, op: Op)
    ensures var (db', outcome) := Step(env, db, op);
            if outcome != Done then db'.tempCredentials == db.tempCredentials
            else match op
              case AssumeRole(u, duration, suffix, secret, token, now) =>
                && u in db.users && db.users[u] == Active
                && TempKeyId(suffix) !in db.tempCredentials && !TokenTaken(db, env.digest(token))
                && db'.tempCredentials == db.tempCredentials[TempKeyId(suffix) :=
                     TempRow(secret, env.digest(token), u, now + SessionSeconds(duration) * SECOND)]
              case DeleteUser(u) =>
                db'.tempCredentials == map k | k in db.tempCredentials && db.tempCredentials[k].identity != u
                                         :: db.tempCredentials[k]
              case _ => db'.tempCredentials == db.tempCredentials
  {}

  lemma BucketPoliciesAfter(env: Env, db: Db, op: Op)
    ensures var (db', outcome) := Step(env, db, op);
            if outcome != Done then db'.bucketPolicies == db.bucketPolicies
            else match op
              case SetBucketPolicy(b, p) => db'.bucketPolicies == db.bucketPolicies[b := p]
              case DeleteBucketPolicy(b) => db'.bucketPolicies == db.bucketPolicies - {b}
              case _ => db'.bucketPolicies == db.bucketPolicies
  {}

  /** The session length is the allowed one closest to the length asked for, which is an hour if none
      is named; allowed are a quarter of an hour to twelve hours. */
  lemma SessionLength(duration: Option<nat>, other: nat)
    requires 15 * 60 <= other <= 12 * 3600
    ensures 15 * 60 <= SessionSeconds(duration) <= 12 * 3600
    ensures var asked := if duration.Some? then duration.value else 3600;
            Distance(SessionSeconds(duration), asked) <= Distance(other, asked)
  {}

  function Distance(x: nat, y: nat): nat {
    if x < y then y - x else x - y
  }
}
