/** Authentication of a request and the decision whether it may proceed. */
module Requests {
  import opened Common
  import opened Policies
  import opened IamTables
  import opened IamInvariant
  import opened IamProvenance
  import opened IamOutcomes

  datatype S3Error = AccessDenied | InvalidAccessKeyId | ExpiredToken | InvalidArgument

  // ----- Credential lookups ---------------------------------------------------------

  datatype Credential = Credential(secret: string, username: string)

  function GetCredentials(env: Env, db: Db, key: string): Option<Credential> {
    if key == env.rootAccessKey then Some(Credential(env.rootSecretKey, "root"))
    else if && key in db.keys && db.keys[key].status == Active
            && db.keys[key].username in db.users && db.users[db.keys[key].username] == Active
    then Some(Credential(db.keys[key].secret, db.keys[key].username))
    else None
  }

  /** The row of an unexpired temporary credential and the status of its user. */
  function GetTempCredentials(db: Db, key: string, now: int): Option<(TempRow, Status)> {
    if && key in db.tempCredentials && db.tempCredentials[key].identity in db.users
       && db.tempCredentials[key].expiration > now
    then Some((db.tempCredentials[key], db.users[db.tempCredentials[key].identity]))
    else None
  }

  predicate SessionTokenValid(env: Env, db: Db, key: string, token: string, now: int) {
    && key in db.tempCredentials && db.tempCredentials[key].tokenHash == env.digest(token)
    && db.tempCredentials[key].expiration > now
  }

  predicate IsTemporary(key: string) {
    StartsWith(key, "ASIA")
  }

  // ----- Authentication -------------------------------------------------------------

  /** The secret against which the signature is checked. The clock is read twice. */
  function GetSecretKey(env: Env, db: Db, key: string, now: int, later: int): Result<string, S3Error> {
    if key == env.rootAccessKey then Ok(env.rootSecretKey)
    else if IsTemporary(key) then GetTempSecretKey(db, key, now, later)
    else
      match GetCredentials(env, db, key)
      case None => Err(InvalidAccessKeyId)
      case Some(cred) => Ok(cred.secret)
  }

  function GetTempSecretKey(db: Db, key: string, now: int, later: int): Result<string, S3Error> {
    match GetTempCredentials(db, key, now)
    case None => Err(InvalidAccessKeyId)
    case Some((row, status)) =>
      if row.expiration < later then Err(ExpiredToken)
      else if status != Active then Err(InvalidAccessKeyId)
      else Ok(row.secret)
  }

  // ----- The request check ----------------------------------------------------------

  /** Who is asking. `iam` is absent when the server runs without an identity store. */
  function GetUsername(env: Env, iam: Option<Db>, key: Option<string>, now: int): Result<string, S3Error> {
    if key.None? then Ok("anonymous")
    else if key.value == env.rootAccessKey then Ok("root")
    else if iam.None? then Err(AccessDenied)
    else if IsTemporary(key.value) then
      match GetTempCredentials(iam.value, key.value, now)
      case Some((row, _)) => Ok(row.identity)
      case None => Err(AccessDenied)
    else
      match GetCredentials(env, iam.value, key.value)
      case Some(cred) => Ok(cred.username)
      case None => Err(AccessDenied)
  }

  function ValidateSessionToken(env: Env, iam: Option<Db>, key: Option<string>, header: Option<string>,
                                now: int): Result<(), S3Error>
  {
    if key.None? || !IsTemporary(key.value) then Ok(())
    else if iam.None? || header.None? then Err(AccessDenied)
    else if SessionTokenValid(env, iam.value, key.value, header.value, now) then Ok(())
    else Err(AccessDenied)
  }

  function PrincipalOf(username: string): Principal {
    if username == "anonymous" then Anonymous else User(username)
  }

  ghost function BucketEffect(db: Db, bucket: string, username: string, a: Action, r: Resource): Option<Effect> {
    if bucket !in db.bucketPolicies then None
    else BucketVerdict(db.bucketPolicies[bucket].statements, PrincipalOf(username), a, r, DEFAULT_CONTEXT)
  }

  /** The decision for a known user: identity policies first, then the bucket's policy. */
  ghost function Decide(env: Env, db: Db, username: string, operation: string, bucket: Option<string>,
                        objectKey: Option<string>): Result<(), S3Error>
  {
    if bucket.None? && objectKey.Some? then Err(InvalidArgument)
    else
      var resource := Resource(bucket, objectKey);
      var action := CheckedAction(operation);
      if Authorized(env, db, username, action, resource) then Ok(())
      else if bucket.Some? && BucketEffect(db, bucket.value, username, action, resource) == Some(Allow) then Ok(())
      else Err(AccessDenied)
  }

  ghost function CheckAuthorization(env: Env, iam: Option<Db>, key: Option<string>, header: Option<string>,
                                    operation: string, bucket: Option<string>, objectKey: Option<string>,
                                    now: int): Result<(), S3Error>
  {
    match ValidateSessionToken(env, iam, key, header, now)
    case Err(e) => Err(e)
    case Ok(_) =>
      match GetUsername(env, iam, key, now)
      case Err(e) => Err(e)
      case Ok(username) =>
        if username == "root" then Ok(())
        else if iam.None? then Err(AccessDenied)
        else Decide(env, iam.value, username, operation, bucket, objectKey)
  }

  // ----- Root -----------------------------------------------------------------------

  /** In every reachable state the root key, and no other, is taken for the root user. */
  lemma OnlyRootKeyIsRoot(env: Env, ops: seq<Op>, key: Option<string>, now: int)
    ensures GetUsername(env, Some(Run(env, ops)), key, now) == Ok("root") <==> key == Some(env.rootAccessKey)
  {
    ReachableInv(env, ops);
  }

  /** A server without an identity store serves the root key alone. */
  lemma WithoutStore(env: Env, key: Option<string>, header: Option<string>, operation: string,
                     bucket: Option<string>, objectKey: Option<string>, now: int)
    ensures CheckAuthorization(env, None, key, header, operation, bucket, objectKey, now).Ok?
       <==> key == Some(env.rootAccessKey) && !IsTemporary(env.rootAccessKey)
  {
    hide Decide;
  }

  // ----- Where credentials come from ------------------------------------------------

  ghost predicate Injective(f: string -> string) {
    forall x, y :: f(x) == f(y) ==> x == y
  }

  /** Call `i` opened the session under this key, and its user was not deleted afterwards. */
  ghost predicate Opened(env: Env, ops: seq<Op>, i: nat, key: string) {
    && i < |ops| && ops[i].AssumeRole? && DoneAt(env, ops, i) && "ASIA" + ops[i].suffix == key
    && forall j :: i < j < |ops| && ops[j] == DeleteUser(ops[i].username) ==> !DoneAt(env, ops, j)
  }

  /** The end of the session that the call opens. */
  function SessionEnd(op: Op): int
    requires op.AssumeRole?
  {
    op.now + SessionSeconds(op.duration) * SECOND
  }

  lemma SessionRow(env: Env, ops: seq<Op>, key: string) returns (i: nat)
    requires key in Run(env, ops).tempCredentials
    ensures Opened(env, ops, i, key)
    ensures Run(env, ops).tempCredentials[key] ==
            TempRow(ops[i].secret, env.digest(ops[i].token), ops[i].username,
                    SessionEnd(ops[i]))
  {
    hide Run;
    var row := Run(env, ops).tempCredentials[key];
    var g := Session(row.identity, key, row.secret, row.tokenHash, row.expiration);
    i := Provenance(env, ops, g);
    assert forall j :: i < j < |ops| && ops[j] == DeleteUser(ops[i].username) ==> Revokes(ops[j], g);
  }

  /** Conversely the row of an opened session is there. */
  lemma OpenedRow(env: Env, ops: seq<Op>, i: nat, key: string)
    requires Opened(env, ops, i, key)
    ensures key in Run(env, ops).tempCredentials
    ensures Run(env, ops).tempCredentials[key] ==
            TempRow(ops[i].secret, env.digest(ops[i].token), ops[i].username, SessionEnd(ops[i]))
  {
    var op := ops[i];
    var g := Session(op.username, key, op.secret, env.digest(op.token), SessionEnd(op));
    SessionsAfter(env, Run(env, ops[..i]), op);
    hide Run, Step;
    assert IssuedAt(env, ops, i, g);
    IssuedHolds(env, ops, i, g);
  }

  /** Only a user that is active at the time can open a session. */
  lemma OpenedByActive(env: Env, ops: seq<Op>, i: nat, key: string)
    requires Opened(env, ops, i, key)
    ensures Traces(env, ops[..i], Account(ops[i].username, Active))
  {
    hide Run, Step, Traces;
    AnswerExact(env, ops[..i], ops[i]);
  }

  // ----- Who gets in, told by the calls ---------------------------------------------

  /** The user owns the permanent key with this secret; key and user are active. */
  ghost predicate KeyWorks(env: Env, ops: seq<Op>, u: string, key: string, secret: string) {
    && Traces(env, ops, Key(u, key, secret)) && Traces(env, ops, KeyStatus(u, key, Active))
    && Traces(env, ops, Account(u, Active))
  }

  /** Call `i` opened a session under this key that is not over. */
  ghost predicate Live(env: Env, ops: seq<Op>, i: nat, key: string, now: int) {
    Opened(env, ops, i, key) && now < SessionEnd(ops[i])
  }

  lemma KeyWorksExact(env: Env, ops: seq<Op>, u: string, key: string, secret: string)
    requires key != env.rootAccessKey
    ensures KeyWorks(env, ops, u, key, secret)
       <==> GetCredentials(env, Run(env, ops), key) == Some(Credential(secret, u))
  {
    hide Run, Traces;
    HoldsExactly(env, ops, Key(u, key, secret));
    HoldsExactly(env, ops, KeyStatus(u, key, Active));
    HoldsExactly(env, ops, Account(u, Active));
  }

  /** The temporary credential is found exactly while its session lives. */
  lemma TempExact(env: Env, ops: seq<Op>, key: string, now: int)
    ensures var found := GetTempCredentials(Run(env, ops), key, now);
            && (found.Some? <==> exists i: nat :: Live(env, ops, i, key, now))
            && (forall i: nat :: Live(env, ops, i, key, now) ==>
                  && found.value.0 == TempRow(ops[i].secret, env.digest(ops[i].token), ops[i].username,
                                              SessionEnd(ops[i]))
                  && (found.value.1 == Active <==> Traces(env, ops, Account(ops[i].username, Active))))
  {
    ReachableInv(env, ops);
    hide Run, Traces;
    if key in Run(env, ops).tempCredentials {
      var i := SessionRow(env, ops, key);
    }
    forall i: nat | Live(env, ops, i, key, now)
      ensures GetTempCredentials(Run(env, ops), key, now).Some?
      ensures var found := GetTempCredentials(Run(env, ops), key, now).value;
              && found.0 == TempRow(ops[i].secret, env.digest(ops[i].token), ops[i].username, SessionEnd(ops[i]))
              && (found.1 == Active <==> Traces(env, ops, Account(ops[i].username, Active)))
    {
      OpenedRow(env, ops, i, key);
      HoldsExactly(env, ops, Account(ops[i].username, Active));
    }
  }

  /** Authentication, told by the calls: the secret that a signature is checked against is the root
      secret for the root key; for a temporary key the secret of a live session of an active user; for
      any other key the secret issued with it, if key and user are active. */
  lemma SecretExact(env: Env, ops: seq<Op>, key: string, secret: string, now: int, later: int)
    ensures GetSecretKey(env, Run(env, ops), key, now, later) == Ok(secret) <==>
            if key == env.rootAccessKey then secret == env.rootSecretKey
            else if "ASIA" <= key then
              exists i: nat :: && Live(env, ops, i, key, now) && later <= SessionEnd(ops[i])
                               && secret == ops[i].secret && Traces(env, ops, Account(ops[i].username, Active))
            else exists u :: KeyWorks(env, ops, u, key, secret)
  {
    hide Run, Traces, Live, KeyWorks;
    if key != env.rootAccessKey {
      if "ASIA" <= key {
        TempExact(env, ops, key, now);
      } else {
        forall u ensures KeyWorks(env, ops, u, key, secret)
                    <==> GetCredentials(env, Run(env, ops), key) == Some(Credential(secret, u)) {
          KeyWorksExact(env, ops, u, key, secret);
        }
      }
    }
  }

  /** A key that authenticates nobody is reported as expired exactly if its session ends between the
      two clock readings, and otherwise as unknown. */
  lemma RefusalExact(env: Env, ops: seq<Op>, key: string, now: int, later: int)
    requires GetSecretKey(env, Run(env, ops), key, now, later).Err?
    ensures GetSecretKey(env, Run(env, ops), key, now, later).error ==
            if "ASIA" <= key && exists i: nat :: Live(env, ops, i, key, now) && SessionEnd(ops[i]) < later
            then ExpiredToken else InvalidAccessKeyId
  {
    hide Run, Traces, Live;
    TempExact(env, ops, key, now);
  }

  /** The user a request with this key is charged to. */
  ghost predicate ChargedTo(env: Env, ops: seq<Op>, key: Option<string>, u: string, now: int) {
    if key.None? then u == "anonymous"
    else if key.value == env.rootAccessKey then u == "root"
    else if "ASIA" <= key.value then exists i: nat :: Live(env, ops, i, key.value, now) && u == ops[i].username
    else exists secret :: KeyWorks(env, ops, u, key.value, secret)
  }

  lemma UsernameExact(env: Env, ops: seq<Op>, key: Option<string>, u: string, now: int)
    ensures GetUsername(env, Some(Run(env, ops)), key, now) == Ok(u) <==> ChargedTo(env, ops, key, u, now)
  {
    hide Run, Live, KeyWorks;
    if key.Some? && key.value != env.rootAccessKey {
      if "ASIA" <= key.value {
        TempExact(env, ops, key.value, now);
      } else {
        forall secret ensures KeyWorks(env, ops, u, key.value, secret)
                         <==> GetCredentials(env, Run(env, ops), key.value) == Some(Credential(secret, u)) {
          KeyWorksExact(env, ops, u, key.value, secret);
        }
      }
    }
  }

  /** The token a live session was opened with, and no other, is accepted for its key. */
  lemma TokenAccepted(env: Env, ops: seq<Op>, key: string, token: string, now: int)
    requires Injective(env.digest)
    ensures SessionTokenValid(env, Run(env, ops), key, token, now)
       <==> exists i: nat :: Live(env, ops, i, key, now) && token == ops[i].token
  {
    ReachableInv(env, ops);
    hide Run;
    TempExact(env, ops, key, now);
    if SessionTokenValid(env, Run(env, ops), key, token, now) {
      var i: nat :| Live(env, ops, i, key, now);
      assert env.digest(ops[i].token) == env.digest(token);
    }
  }

  /** A temporary key comes with the token of its live session. */
  ghost predicate TokenFits(env: Env, ops: seq<Op>, key: Option<string>, header: Option<string>, now: int) {
    key.Some? && "ASIA" <= key.value ==>
      exists i: nat :: Live(env, ops, i, key.value, now) && header == Some(ops[i].token)
  }

  /** The request check after any run, told by the calls: a temporary key needs the token of its live
      session, and then the root key passes, or the policies must let the user through that the key
      is charged to. */
  lemma RequestRule(env: Env, ops: seq<Op>, key: Option<string>, header: Option<string>, operation: string,
                    bucket: Option<string>, objectKey: Option<string>, now: int)
    requires Injective(env.digest)
    ensures CheckAuthorization(env, Some(Run(env, ops)), key, header, operation, bucket, objectKey, now).Ok? <==>
              && TokenFits(env, ops, key, header, now)
              && (|| key == Some(env.rootAccessKey)
                  || exists u :: && ChargedTo(env, ops, key, u, now)
                                 && Decide(env, Run(env, ops), u, operation, bucket, objectKey).Ok?)
  {
    OnlyRootKeyIsRoot(env, ops, key, now);
    hide Run, Decide, ChargedTo, TokenFits, GetUsername, ValidateSessionToken;
    TokenFitsExact(env, ops, key, header, now);
    forall u ensures GetUsername(env, Some(Run(env, ops)), key, now) == Ok(u) <==> ChargedTo(env, ops, key, u, now) {
      UsernameExact(env, ops, key, u, now);
    }
  }

  /** A refused request is malformed if it comes from a known user other than root and names an object
      without a bucket; otherwise access is denied. */
  lemma RequestRefusal(env: Env, ops: seq<Op>, key: Option<string>, header: Option<string>, operation: string,
                       bucket: Option<string>, objectKey: Option<string>, now: int)
    requires Injective(env.digest)
    requires CheckAuthorization(env, Some(Run(env, ops)), key, header, operation, bucket, objectKey, now).Err?
    ensures CheckAuthorization(env, Some(Run(env, ops)), key, header, operation, bucket, objectKey, now).error ==
            if && TokenFits(env, ops, key, header, now) && (exists u :: ChargedTo(env, ops, key, u, now))
               && bucket.None? && objectKey.Some?
            then InvalidArgument else AccessDenied
  {
    OnlyRootKeyIsRoot(env, ops, key, now);
    hide Run, Authorized, ChargedTo, TokenFits, GetUsername, ValidateSessionToken;
    TokenFitsExact(env, ops, key, header, now);
    IdentityRefusal(env, Run(env, ops), key, header, now);
    forall u ensures GetUsername(env, Some(Run(env, ops)), key, now) == Ok(u) <==> ChargedTo(env, ops, key, u, now) {
      UsernameExact(env, ops, key, u, now);
    }
  }

  lemma IdentityRefusal(env: Env, db: Db, key: Option<string>, header: Option<string>, now: int)
    ensures var check := ValidateSessionToken(env, Some(db), key, header, now);
            check.Err? ==> check.error == AccessDenied
    ensures var who := GetUsername(env, Some(db), key, now); who.Err? ==> who.error == AccessDenied
  {}

  lemma TokenFitsExact(env: Env, ops: seq<Op>, key: Option<string>, header: Option<string>, now: int)
    requires Injective(env.digest)
    ensures ValidateSessionToken(env, Some(Run(env, ops)), key, header, now).Ok?
       <==> TokenFits(env, ops, key, header, now)
  {
    hide Run, Live;
    if key.Some? && header.Some? {
      TokenAccepted(env, ops, key.value, header.value, now);
    }
  }

  /** A request with a temporary key that passes the check was opened by a role assumption that
      issued this key and this token to the user the request is charged to, less than its clamped
      duration ago, and the user was not deleted in between. */
  lemma SessionTraces(env: Env, ops: seq<Op>, key: string, header: Option<string>, operation: string,
                      bucket: Option<string>, objectKey: Option<string>, now: int) returns (i: nat)
    requires Injective(env.digest) && IsTemporary(key) && key != env.rootAccessKey
    requires CheckAuthorization(env, Some(Run(env, ops)), Some(key), header, operation, bucket, objectKey, now).Ok?
    ensures Opened(env, ops, i, key) && header == Some(ops[i].token)
    ensures GetUsername(env, Some(Run(env, ops)), Some(key), now) == Ok(ops[i].username)
    ensures now < SessionEnd(ops[i])
    ensures 900 <= SessionSeconds(ops[i].duration) <= 43200
  {
    hide Run, Decide;
    i := SessionRow(env, ops, key);
  }

  /** Generated temporary identifiers do not repeat. */
  ghost predicate FreshIds(env: Env, ops: seq<Op>) {
    forall i, j | 0 <= i < j < |ops| && ops[i].AssumeRole? && ops[j].AssumeRole? ::
      DoneAt(env, ops, i) && DoneAt(env, ops, j) ==> ops[i].suffix != ops[j].suffix
  }

  /** Authentication after `n` calls and the check at the end of the run trace back to one and the
      same role assumption: it issued the secret that signed the request, the token it carried and
      the identity it acted under, which was active when the request was authenticated. */
  lemma TemporaryRequestTraces(env: Env, ops: seq<Op>, n: nat, key: string, secret: string,
                               signedAt: int, later: int, header: Option<string>, operation: string,
                               bucket: Option<string>, objectKey: Option<string>, now: int) returns (i: nat)
    requires Injective(env.digest) && IsTemporary(key) && key != env.rootAccessKey
    requires n <= |ops| && FreshIds(env, ops)
    requires GetSecretKey(env, Run(env, ops[..n]), key, signedAt, later) == Ok(secret)
    requires CheckAuthorization(env, Some(Run(env, ops)), Some(key), header, operation, bucket, objectKey, now).Ok?
    ensures i < n && Opened(env, ops, i, key)
    ensures secret == ops[i].secret && header == Some(ops[i].token)
    ensures GetUsername(env, Some(Run(env, ops)), Some(key), now) == Ok(ops[i].username)
    ensures ops[i].username in Run(env, ops[..n]).users && Run(env, ops[..n]).users[ops[i].username] == Active
    ensures now < SessionEnd(ops[i])
    ensures signedAt < SessionEnd(ops[i])
  {
    hide Run, Decide, CheckAuthorization;
    i := SessionTraces(env, ops, key, header, operation, bucket, objectKey, now);
    var k := SessionRow(env, ops[..n], key);
    assert ops[..n][..k] == ops[..k];
    assert DoneAt(env, ops, k);
    assert ops[i].suffix == key[4..] == ops[k].suffix;
  }

  /** A request authenticated with a permanent key uses the secret that was issued with the key to
      a user that was not deleted since, and key and user are active. */
  lemma PermanentKeyTraces(env: Env, ops: seq<Op>, key: string, secret: string, now: int, later: int)
    returns (i: nat)
    requires !IsTemporary(key) && key != env.rootAccessKey
    requires GetSecretKey(env, Run(env, ops), key, now, later) == Ok(secret)
    ensures i < |ops| && ops[i].CreateAccessKey? && ops[i].id == key && ops[i].secret == secret
    ensures IssuedAt(env, ops, i, Key(ops[i].username, key, secret))
    ensures GetUsername(env, Some(Run(env, ops)), Some(key), now) == Ok(ops[i].username)
    ensures key in Run(env, ops).keys && Run(env, ops).keys[key].status == Active
    ensures ops[i].username in Run(env, ops).users && Run(env, ops).users[ops[i].username] == Active
  {
    hide Run;
    var row := Run(env, ops).keys[key];
    i := Provenance(env, ops, Key(row.username, key, row.secret));
  }
}
