/** The identity store: tables updated in place, and the two forms of the authorization check. */
module IamStores {
  import opened Common
  import opened Policies
  import opened IamTables
  import opened IamInvariant

  // ----- The simulator's answer -----------------------------------------------------

  datatype AuthorizationEffect = RootAccess | ExplicitDeny | ExplicitAllow | ImplicitDeny

  datatype PolicySource = FromUser(username: string) | FromGroup(group: string)

  datatype AuthorizationResult = AuthorizationResult(
    allowed: bool, effect: AuthorizationEffect,
    matchedPolicy: Option<string>, source: Option<PolicySource>)

  ghost predicate ComesFrom(db: Db, u: string, source: PolicySource, p: Policy) {
    match source
    case FromUser(name) => name == u && AttachedToUser(db, u, p)
    case FromGroup(g) => AttachedVia(db, u, g, p)
  }

  /** The answer names a policy that is attached at the named source and has the given verdict. */
  ghost predicate Cites(db: Db, u: string, effect: Effect, a: Action, r: Resource,
                        res: AuthorizationResult)
  {
    && res.matchedPolicy.Some? && res.source.Some?
    && exists p :: && ComesFrom(db, u, res.source.value, p) && p.name == res.matchedPolicy.value
                   && Verdict(p.statements, a, r) == Some(effect)
  }

  ghost predicate Explains(env: Env, db: Db, u: string, a: Action, r: Resource, res: AuthorizationResult) {
    match res.effect
    case RootAccess => res.allowed && IsRoot(env, u)
    case ExplicitDeny => !res.allowed && !IsRoot(env, u) && Cites(db, u, Deny, a, r, res)
    case ExplicitAllow =>
      res.allowed && !IsRoot(env, u) && Cites(db, u, Allow, a, r, res) && !SomePolicySays(db, u, Deny, a, r)
    case ImplicitDeny =>
      !res.allowed && !IsRoot(env, u)
      && !SomePolicySays(db, u, Allow, a, r) && !SomePolicySays(db, u, Deny, a, r)
  }

  lemma CitedSpeaks(db: Db, u: string, effect: Effect, a: Action, r: Resource, res: AuthorizationResult)
    requires Cites(db, u, effect, a, r, res)
    ensures SomePolicySays(db, u, effect, a, r)
  {
    hide Verdict;
    var p :| && ComesFrom(db, u, res.source.value, p) && p.name == res.matchedPolicy.value
             && Verdict(p.statements, a, r) == Some(effect);
    if res.source.value.FromGroup? {
      assert AttachedVia(db, u, res.source.value.group, p);
    }
    assert SpeaksFor(db, u, p);
  }

  /** An explained answer is the answer of the boolean check: the two forms agree. */
  lemma FormsAgree(env: Env, db: Db, u: string, a: Action, r: Resource, res: AuthorizationResult)
    requires Explains(env, db, u, a, r, res)
    ensures res.allowed <==> Authorized(env, db, u, a, r)
  {
    hide Verdict;
    if res.effect.ExplicitDeny? {
      CitedSpeaks(db, u, Deny, a, r, res);
    } else if res.effect.ExplicitAllow? {
      CitedSpeaks(db, u, Allow, a, r, res);
    }
  }

  /** In reachable states the cited name is the key of the row that holds the cited policy. */
  lemma CitedRow(env: Env, db: Db, u: string, source: PolicySource, p: Policy)
    requires Inv(env, db) && ComesFrom(db, u, source, p)
    ensures match source
            case FromUser(_) => (u, p.name) in db.userPolicies && db.userPolicies[(u, p.name)] == p
            case FromGroup(g) => (g, u) in db.members && (g, p.name) in db.groupPolicies
                                 && db.groupPolicies[(g, p.name)] == p
  {
    match source
    case FromUser(_) => var n :| (u, n) in db.userPolicies && db.userPolicies[(u, n)] == p;
    case FromGroup(g) => var n :| (g, n) in db.groupPolicies && db.groupPolicies[(g, n)] == p;
  }

  // ----- Scans over lists of policies -----------------------------------------------

  /** The policies of one owner, each once, in whatever order the query yields them. */
  method RowsOf(table: map<(string, string), Policy>, owner: string)
    returns (rows: seq<Policy>, ghost names: seq<string>)
    ensures |names| == |rows|
    ensures forall i :: 0 <= i < |rows| ==> (owner, names[i]) in table && table[(owner, names[i])] == rows[i]
    ensures forall i, j :: 0 <= i < j < |names| ==> names[i] != names[j]
    ensures forall n :: (owner, n) in table ==> n in names
    ensures forall p :: p in rows <==> exists n :: (owner, n) in table && table[(owner, n)] == p
  {
    rows, names := [], [];
    var left := set x | x in table && x.0 == owner;
    while left != {}
      invariant forall x :: x in left ==> x in table && x.0 == owner && x.1 !in names
      invariant |names| == |rows|
      invariant forall i :: 0 <= i < |rows| ==> (owner, names[i]) in table && table[(owner, names[i])] == rows[i]
      invariant forall i, j :: 0 <= i < j < |names| ==> names[i] != names[j]
      invariant forall n :: (owner, n) in table ==> (owner, n) in left || n in names
      decreases left
    {
      var x :| x in left;
      left := left - {x};
      rows, names := rows + [table[x]], names + [x.1];
    }
    forall n | (owner, n) in table ensures table[(owner, n)] in rows {
      var i :| 0 <= i < |names| && names[i] == n;
      assert rows[i] == table[(owner, n)];
    }
  }

  /** Whether some listed policy has the wanted verdict, and the first that has. */
  method FindVerdict(policies: seq<Policy>, wanted: Effect, action: Action, resource: Resource)
    returns (hit: Option<Policy>)
    ensures hit.Some? ==> hit.value in policies && Verdict(hit.value.statements, action, resource) == Some(wanted)
    ensures hit.None? ==> forall p :: p in policies ==> Verdict(p.statements, action, resource) != Some(wanted)
  {
    hide Verdict;
    for i := 0 to |policies|
      invariant forall k :: 0 <= k < i ==> Verdict(policies[k].statements, action, resource) != Some(wanted)
    {
      var verdict := Evaluate(policies[i], action, resource);
      if verdict == Some(wanted) {
        return Some(policies[i]);
      }
    }
    return None;
  }

  class IamStore {
    const env: Env
    var users: map<string, Status>
    var keys: map<string, KeyRow>
    var userPolicies: map<(string, string), Policy>
    var groups: set<string>
    var members: set<(string, string)>
    var groupPolicies: map<(string, string), Policy>
    var tempCredentials: map<string, TempRow>
    var bucketPolicies: map<string, BucketPolicy>

    ghost function Snapshot(): Db
      reads this
    {
      Db(users, keys, userPolicies, groups, members, groupPolicies, tempCredentials, bucketPolicies)
    }

    constructor (env: Env)
      ensures this.env == env && Snapshot() == EMPTY && Inv(env, Snapshot())
    {
      this.env := env;
      users, keys, userPolicies, groups := map[], map[], map[], {};
      members, groupPolicies, tempCredentials, bucketPolicies := {}, map[], map[], map[];
      new;
      ReachableInv(env, []);
    }

    // ----- Users and access keys ----------------------------------------------------

    method CreateUser(username: string) returns (outcome: Outcome)
      modifies this`users
      ensures (Snapshot(), outcome) == Step(env, old(Snapshot()), Op.CreateUser(username))
    {
      if username == "root" || username == env.rootAccessKey || username in users {
        return Failed(UserExists);
      }
      users := users[username := Active];
      return Done;
    }

    method DeleteUser(username: string) returns (outcome: Outcome)
      modifies this`users, this`keys, this`userPolicies, this`members, this`tempCredentials
      ensures (Snapshot(), outcome) == Step(env, old(Snapshot()), Op.DeleteUser(username))
    {
      if username == "root" || username == env.rootAccessKey {
        return Failed(CannotDeleteRoot);
      }
      if username !in users {
        return Failed(UserNotFound);
      }
      users := users - {username};
      keys := map k | k in keys && keys[k].username != username :: keys[k];
      userPolicies := map x | x in userPolicies && x.0 != username :: userPolicies[x];
      members := set x | x in members && x.1 != username;
      tempCredentials := map k | k in tempCredentials && tempCredentials[k].identity != username
                           :: tempCredentials[k];
      return Done;
    }

    method UpdateUserStatus(username: string, status: Status) returns (outcome: Outcome)
      modifies this`users
      ensures (Snapshot(), outcome) == Step(env, old(Snapshot()), Op.UpdateUserStatus(username, status))
    {
      if username == "root" || username == env.rootAccessKey {
        return Failed(CannotDeleteRoot);
      }
      if username !in users {
        return Failed(UserNotFound);
      }
      users := users[username := status];
      return Done;
    }

    method CreateAccessKey(username: string, id: string, secret: string) returns (outcome: Outcome)
      modifies this`keys
      ensures (Snapshot(), outcome) == Step(env, old(Snapshot()), Op.CreateAccessKey(username, id, secret))
    {
      if username == "root" || username == env.rootAccessKey {
        return Failed(CannotModifyRootKeys);
      }
      if username !in users {
        return Failed(UserNotFound);
      }
      var existing := set k | k in keys && keys[k].username == username;
      assert existing == KeysOf(Snapshot(), username);
      if |existing| >= MAX_KEYS {
        return Failed(MaxAccessKeysExceeded);
      }
      if id in keys {
        return Failed(Database);
      }
      keys := keys[id := KeyRow(secret, username, Active)];
      return Done;
    }

    method DeleteAccessKey(id: string) returns (outcome: Outcome)
      modifies this`keys
      ensures (Snapshot(), outcome) == Step(env, old(Snapshot()), Op.DeleteAccessKey(id))
    {
      if id == env.rootAccessKey {
        return Failed(CannotModifyRootKeys);
      }
      if id !in keys {
        return Failed(AccessKeyNotFound);
      }
      keys := keys - {id};
      return Done;
    }

    method UpdateAccessKeyStatus(id: string, status: Status) returns (outcome: Outcome)
      modifies this`keys
      ensures (Snapshot(), outcome) == Step(env, old(Snapshot()), Op.UpdateAccessKeyStatus(id, status))
    {
      if id == env.rootAccessKey {
        return Failed(CannotModifyRootKeys);
      }
      if id !in keys {
        return Failed(AccessKeyNotFound);
      }
      keys := keys[id := keys[id].(status := status)];
      return Done;
    }

    // ----- Policies and groups ------------------------------------------------------

    method AttachUserPolicy(username: string, policy: Policy) returns (outcome: Outcome)
      modifies this`userPolicies
      ensures (Snapshot(), outcome) == Step(env, old(Snapshot()), Op.AttachUserPolicy(username, policy))
    {
      if username == "root" || username == env.rootAccessKey {
        return Done;
      }
      if username !in users {
        return Failed(UserNotFound);
      }
      userPolicies := userPolicies[(username, policy.name) := policy];
      return Done;
    }

    method DetachUserPolicy(username: string, name: string) returns (outcome: Outcome)
      modifies this`userPolicies
      ensures (Snapshot(), outcome) == Step(env, old(Snapshot()), Op.DetachUserPolicy(username, name))
    {
      if (username, name) !in userPolicies {
        return Failed(PolicyNotFound);
      }
      userPolicies := userPolicies - {(username, name)};
      return Done;
    }

    method CreateGroup(group: string) returns (outcome: Outcome)
      modifies this`groups
      ensures (Snapshot(), outcome) == Step(env, old(Snapshot()), Op.CreateGroup(group))
    {
      if group in groups {
        return Failed(GroupExists);
      }
      groups := groups + {group};
      return Done;
    }

    method DeleteGroup(group: string) returns (outcome: Outcome)
      modifies this`groups, this`members, this`groupPolicies
      ensures (Snapshot(), outcome) == Step(env, old(Snapshot()), Op.DeleteGroup(group))
    {
      if group !in groups {
        return Failed(GroupNotFound);
      }
      groups := groups - {group};
      members := set x | x in members && x.0 != group;
      groupPolicies := map x | x in groupPolicies && x.0 != group :: groupPolicies[x];
      return Done;
    }

    method AddUserToGroup(group: string, username: string) returns (outcome: Outcome)
      modifies this`members
      ensures (Snapshot(), outcome) == Step(env, old(Snapshot()), Op.AddUserToGroup(group, username))
    {
      if group !in groups {
        return Failed(GroupNotFound);
      }
      if username == "root" || username == env.rootAccessKey {
        return Failed(Database);
      }
      if username !in users {
        return Failed(UserNotFound);
      }
      members := members + {(group, username)};
      return Done;
    }

    method RemoveUserFromGroup(group: string, username: string) returns (outcome: Outcome)
      modifies this`members
      ensures (Snapshot(), outcome) == Step(env, old(Snapshot()), Op.RemoveUserFromGroup(group, username))
    {
      members := members - {(group, username)};
      return Done;
    }

    method AttachGroupPolicy(group: string, policy: Policy) returns (outcome: Outcome)
      modifies this`groupPolicies
      ensures (Snapshot(), outcome) == Step(env, old(Snapshot()), Op.AttachGroupPolicy(group, policy))
    {
      if group !in groups {
        return Failed(GroupNotFound);
      }
      groupPolicies := groupPolicies[(group, policy.name) := policy];
      return Done;
    }

    method DetachGroupPolicy(group: string, name: string) returns (outcome: Outcome)
      modifies this`groupPolicies
      ensures (Snapshot(), outcome) == Step(env, old(Snapshot()), Op.DetachGroupPolicy(group, name))
    {
      if (group, name) !in groupPolicies {
        return Failed(PolicyNotFound);
      }
      groupPolicies := groupPolicies - {(group, name)};
      return Done;
    }

    method SetBucketPolicy(bucket: string, policy: BucketPolicy) returns (outcome: Outcome)
      modifies this`bucketPolicies
      ensures (Snapshot(), outcome) == Step(env, old(Snapshot()), Op.SetBucketPolicy(bucket, policy))
    {
      bucketPolicies := bucketPolicies[bucket := policy];
      return Done;
    }

    method DeleteBucketPolicy(bucket: string) returns (outcome: Outcome)
      modifies this`bucketPolicies
      ensures (Snapshot(), outcome) == Step(env, old(Snapshot()), Op.DeleteBucketPolicy(bucket))
    {
      if bucket !in bucketPolicies {
        return Failed(PolicyNotFound);
      }
      bucketPolicies := bucketPolicies - {bucket};
      return Done;
    }

    // ----- Temporary credentials ----------------------------------------------------

    method AssumeRole(username: string, duration: Option<nat>, suffix: string, secret: string,
                      token: string, now: int) returns (outcome: Outcome)
      modifies this`tempCredentials
      ensures (Snapshot(), outcome) ==
              Step(env, old(Snapshot()), Op.AssumeRole(username, duration, suffix, secret, token, now))
    {
      var root := username == "root" || username == env.rootAccessKey;
      if !root && username !in users {
        return Failed(UserNotFound);
      }
      if !root && users[username] != Active {
        return Failed(InvalidCredentials);
      }
      var id, hash := TempKeyId(suffix), env.digest(token);
      var clash := exists k :: k in tempCredentials && tempCredentials[k].tokenHash == hash;
      assert clash == TokenTaken(Snapshot(), hash);
      if root || id in tempCredentials || clash {
        return Failed(Database);
      }
      var expiration := now + SessionSeconds(duration) * SECOND;
      tempCredentials := tempCredentials[id := TempRow(secret, hash, username, expiration)];
      return Done;
    }

    // ----- Authorization ------------------------------------------------------------

    method ListUserGroups(username: string) returns (list: seq<string>)
      ensures forall g :: g in list <==> g in groups && (g, username) in members
    {
      list := [];
      var left := set g | g in groups && (g, username) in members;
      while left != {}
        invariant forall g :: g in groups && (g, username) in members <==> g in left || g in list
        decreases left
      {
        var g :| g in left;
        left := left - {g};
        list := list + [g];
      }
    }

    /** The boolean check: one pass over the collected policies, leaving at the first denial. */
    method IsAuthorized(username: string, action: Action, resource: Resource) returns (allowed: bool)
      ensures allowed <==> Authorized(env, Snapshot(), username, action, resource)
    {
      hide Verdict;
      if username == "root" || username == env.rootAccessKey {
        return true;
      }
      var all := CollectPolicies(username);
      allowed := false;
      for i := 0 to |all|
        invariant forall k :: 0 <= k < i ==> Verdict(all[k].statements, action, resource) != Some(Deny)
        invariant allowed <==> exists k :: 0 <= k < i && Verdict(all[k].statements, action, resource) == Some(Allow)
      {
        var verdict := Evaluate(all[i], action, resource);
        match verdict {
          case Some(Deny) =>
            assert SpeaksFor(Snapshot(), username, all[i]);
            return false;
          case Some(Allow) => allowed := true;
          case None =>
        }
      }
      if allowed {
        ghost var k :| 0 <= k < |all| && Verdict(all[k].statements, action, resource) == Some(Allow);
        assert SpeaksFor(Snapshot(), username, all[k]);
      }
    }

    method ListUserPolicies(username: string) returns (list: seq<Policy>)
      ensures IsRoot(env, username) ==> list == [ADMIN_POLICY]
      ensures !IsRoot(env, username) ==> forall p :: p in list <==> AttachedToUser(Snapshot(), username, p)
    {
      if username == "root" || username == env.rootAccessKey {
        return [ADMIN_POLICY];
      }
      ghost var names;
      list, names := RowsOf(userPolicies, username);
    }

    method ListGroupPolicies(group: string) returns (list: seq<Policy>)
      ensures forall p :: p in list <==> AttachedToGroup(Snapshot(), group, p)
    {
      ghost var names;
      list, names := RowsOf(groupPolicies, group);
    }

    method CollectPolicies(username: string) returns (all: seq<Policy>)
      requires !IsRoot(env, username)
      ensures forall p :: p in all <==> SpeaksFor(Snapshot(), username, p)
    {
      hide AttachedToUser, AttachedToGroup;
      ghost var db := Snapshot();
      all := ListUserPolicies(username);
      var list := ListUserGroups(username);
      for i := 0 to |list|
        invariant forall p :: p in all <==>
          AttachedToUser(db, username, p) || exists k :: 0 <= k < i && AttachedToGroup(db, list[k], p)
      {
        var rows := ListGroupPolicies(list[i]);
        all := all + rows;
      }
      forall p ensures p in all <==> SpeaksFor(db, username, p) {
        if k :| 0 <= k < |list| && AttachedToGroup(db, list[k], p) {
          assert list[k] in list && AttachedVia(db, username, list[k], p);
        }
        if g :| AttachedVia(db, username, g, p) {
          var k :| 0 <= k < |list| && list[k] == g;
        }
      }
    }

    method FindInGroups(list: seq<string>, wanted: Effect, action: Action, resource: Resource)
      returns (hit: Option<(string, Policy)>)
      ensures hit.Some? ==>
        && hit.value.0 in list && AttachedToGroup(Snapshot(), hit.value.0, hit.value.1)
        && Verdict(hit.value.1.statements, action, resource) == Some(wanted)
      ensures hit.None? ==> forall g, p :: g in list && AttachedToGroup(Snapshot(), g, p) ==>
        Verdict(p.statements, action, resource) != Some(wanted)
    {
      hide Verdict, AttachedToGroup;
      for i := 0 to |list|
        invariant forall k, p :: 0 <= k < i && AttachedToGroup(Snapshot(), list[k], p) ==>
          Verdict(p.statements, action, resource) != Some(wanted)
      {
        var rows := ListGroupPolicies(list[i]);
        var found := FindVerdict(rows, wanted, action, resource);
        if found.Some? {
          return Some((list[i], found.value));
        }
      }
      return None;
    }

    /** One pass of the simulator: the user's own policies, then those of each group. */
    method FindPolicy(username: string, wanted: Effect, action: Action, resource: Resource)
      returns (hit: Option<(PolicySource, Policy)>)
      requires !IsRoot(env, username)
      ensures hit.Some? ==> && ComesFrom(Snapshot(), username, hit.value.0, hit.value.1)
                            && Verdict(hit.value.1.statements, action, resource) == Some(wanted)
      ensures hit.None? ==> !SomePolicySays(Snapshot(), username, wanted, action, resource)
    {
      hide Verdict, AttachedToUser, AttachedToGroup;
      var own := ListUserPolicies(username);
      var mine := FindVerdict(own, wanted, action, resource);
      if mine.Some? {
        return Some((FromUser(username), mine.value));
      }
      var list := ListUserGroups(username);
      var theirs := FindInGroups(list, wanted, action, resource);
      if theirs.Some? {
        var (g, p) := theirs.value;
        return Some((FromGroup(g), p));
      }
      return None;
    }

    /** The simulator's check: denials first, then allowances, each with its source. */
    method IsAuthorizedDetailed(username: string, action: Action, resource: Resource)
      returns (res: AuthorizationResult)
      ensures Explains(env, Snapshot(), username, action, resource, res)
    {
      hide Verdict, ComesFrom, SomePolicySays;
      if username == "root" || username == env.rootAccessKey {
        return AuthorizationResult(true, RootAccess, None, None);
      }
      var denied := FindPolicy(username, Deny, action, resource);
      if denied.Some? {
        var (source, p) := denied.value;
        return AuthorizationResult(false, ExplicitDeny, Some(p.name), Some(source));
      }
      var granted := FindPolicy(username, Allow, action, resource);
      if granted.Some? {
        var (source, p) := granted.value;
        return AuthorizationResult(true, ExplicitAllow, Some(p.name), Some(source));
      }
      return AuthorizationResult(false, ImplicitDeny, None, None);
    }

    method BucketPolicyEffect(bucket: string, who: Principal, action: Action, resource: Resource)
      returns (effect: Option<Effect>)
      ensures effect == if bucket !in bucketPolicies then None
                        else BucketVerdict(bucketPolicies[bucket].statements, who, action, resource, DEFAULT_CONTEXT)
    {
      if bucket !in bucketPolicies {
        return None;
      }
      effect := EvaluateBucket(bucketPolicies[bucket], who, action, resource, DEFAULT_CONTEXT);
    }
  }
}
