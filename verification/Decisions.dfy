/** How the decision depends on the statements in force. */
module Decisions {
  import opened Common
  import opened Wildcard
  import opened Policies
  import opened IamTables
  import opened IamInvariant
  import opened Requests

  /** The statement is part of some policy that speaks for the user. */
  ghost predicate InForce(db: Db, u: string, s: Statement) {
    exists p :: SpeaksFor(db, u, p) && s in p.statements
  }

  ghost predicate InForceFor(db: Db, u: string, effect: Effect, a: Action, r: Resource) {
    exists s :: InForce(db, u, s) && s.effect == effect && Applies(s, a, r)
  }

  /** Some action pattern of the statement denotes the action and some resource pattern the resource. */
  ghost predicate Applies(s: Statement, a: Action, r: Resource) {
    && (exists p :: p in s.actions && Denotes(p, ActionText(a)))
    && (exists p :: p in s.resources && Denotes(p, ResourceText(r)))
  }

  lemma AppliesExact(s: Statement, a: Action, r: Resource)
    ensures Applies(s, a, r) <==> Matches(s, a, r)
  {
    hide Denotes, ActionText, ResourceText;
  }

  lemma PolicySaysDeny(db: Db, u: string, a: Action, r: Resource)
    ensures SomePolicySays(db, u, Deny, a, r) <==> InForceFor(db, u, Deny, a, r)
  {
    hide Matches, Applies, SpeaksFor, Verdict;
    forall s ensures Applies(s, a, r) <==> Matches(s, a, r) { AppliesExact(s, a, r); }
    if SomePolicySays(db, u, Deny, a, r) {
      var p :| SpeaksFor(db, u, p) && Verdict(p.statements, a, r) == Some(Deny);
      VerdictMeaning(p.statements, a, r);
      var s :| s in p.statements && s.effect == Deny && Matches(s, a, r);
      assert InForce(db, u, s);
    }
    if InForceFor(db, u, Deny, a, r) {
      var s :| InForce(db, u, s) && s.effect == Deny && Applies(s, a, r);
      var p :| SpeaksFor(db, u, p) && s in p.statements;
      VerdictMeaning(p.statements, a, r);
    }
  }

  lemma PolicySaysAllow(db: Db, u: string, a: Action, r: Resource)
    requires !SomePolicySays(db, u, Deny, a, r)
    ensures SomePolicySays(db, u, Allow, a, r) <==> InForceFor(db, u, Allow, a, r)
  {
    hide Matches, Applies, SpeaksFor, Verdict;
    forall s ensures Applies(s, a, r) <==> Matches(s, a, r) { AppliesExact(s, a, r); }
    if SomePolicySays(db, u, Allow, a, r) {
      var p :| SpeaksFor(db, u, p) && Verdict(p.statements, a, r) == Some(Allow);
      VerdictMeaning(p.statements, a, r);
      var s :| s in p.statements && s.effect == Allow && Matches(s, a, r);
      assert InForce(db, u, s);
    }
    if InForceFor(db, u, Allow, a, r) {
      var s :| InForce(db, u, s) && s.effect == Allow && Applies(s, a, r);
      var p :| SpeaksFor(db, u, p) && s in p.statements;
      VerdictMeaning(p.statements, a, r);
      assert Verdict(p.statements, a, r) != Some(Deny);
    }
  }

  /** The grouping of statements into policies, users and groups does not matter. */
  lemma AuthorizedByStatements(env: Env, db: Db, u: string, a: Action, r: Resource)
    requires !IsRoot(env, u)
    ensures Authorized(env, db, u, a, r) <==> InForceFor(db, u, Allow, a, r) && !InForceFor(db, u, Deny, a, r)
  {
    hide SomePolicySays, InForceFor;
    PolicySaysDeny(db, u, a, r);
    if !SomePolicySays(db, u, Deny, a, r) {
      PolicySaysAllow(db, u, a, r);
    }
  }

  /** The check is the verdict on one statement list that has the statements of all policies that
      speak for the user, merged and ordered in any way. */
  lemma AuthorizedIsMergedVerdict(env: Env, db: Db, u: string, stmts: seq<Statement>, a: Action, r: Resource)
    requires !IsRoot(env, u) && forall s :: s in stmts <==> InForce(db, u, s)
    ensures Authorized(env, db, u, a, r) <==> Verdict(stmts, a, r) == Some(Allow)
  {
    hide Matches, Applies, InForce, Verdict, Authorized;
    forall s ensures Applies(s, a, r) <==> Matches(s, a, r) { AppliesExact(s, a, r); }
    AuthorizedByStatements(env, db, u, a, r);
    VerdictMeaning(stmts, a, r);
  }

  // ----- Monotonicity ---------------------------------------------------------------

  ghost predicate BucketInForce(db: Db, bucket: string, s: BucketStatement) {
    bucket in db.bucketPolicies && s in db.bucketPolicies[bucket].statements
  }

  ghost predicate BucketLoosens(db: Db, db': Db, bucket: string) {
    && (forall s :: BucketInForce(db, bucket, s) && s.effect == Allow ==> BucketInForce(db', bucket, s))
    && (forall s :: BucketInForce(db', bucket, s) && s.effect == Deny ==> BucketInForce(db, bucket, s))
  }

  /** For this user and bucket, `db'` has every allowing statement of `db`, from whichever source,
      and no denying statement that `db` has not. */
  ghost predicate Loosens(db: Db, db': Db, u: string, bucket: Option<string>) {
    && (forall s :: InForce(db, u, s) && s.effect == Allow ==> InForce(db', u, s))
    && (forall s :: InForce(db', u, s) && s.effect == Deny ==> InForce(db, u, s))
    && (bucket.Some? ==> BucketLoosens(db, db', bucket.value))
  }

  lemma BucketAllowMonotone(db: Db, db': Db, u: string, bucket: string, a: Action, r: Resource)
    requires Loosens(db, db', u, Some(bucket)) && BucketEffect(db, bucket, u, a, r) == Some(Allow)
    ensures BucketEffect(db', bucket, u, a, r) == Some(Allow)
  {
    hide BucketMatches, BucketVerdict, InForce;
    var who := PrincipalOf(u);
    var stmts := db.bucketPolicies[bucket].statements;
    BucketVerdictMeaning(stmts, who, a, r, DEFAULT_CONTEXT);
    var s :| s in stmts && s.effect == Allow && BucketMatches(s, who, a, r, DEFAULT_CONTEXT);
    assert BucketInForce(db, bucket, s);
    var stmts' := db'.bucketPolicies[bucket].statements;
    BucketVerdictMeaning(stmts', who, a, r, DEFAULT_CONTEXT);
    assert forall t :: t in stmts' && t.effect == Deny ==> BucketInForce(db, bucket, t) by {
      assert forall t :: t in stmts' ==> BucketInForce(db', bucket, t);
    }
  }

  lemma AuthorizedMonotone(env: Env, db: Db, db': Db, u: string, a: Action, r: Resource)
    requires Loosens(db, db', u, None) && Authorized(env, db, u, a, r)
    ensures Authorized(env, db', u, a, r)
  {
    hide Applies, InForce, SomePolicySays;
    if !IsRoot(env, u) {
      AuthorizedByStatements(env, db, u, a, r);
      AuthorizedByStatements(env, db', u, a, r);
    }
  }

  /** Adding allowing statements or removing denying ones, in identity policies or in the bucket's
      policy, never turns an accepted request away; read from `db'` to `db`, removing allowing
      statements or adding denying ones never lets a refused request through. */
  lemma DecisionMonotone(env: Env, db: Db, db': Db, u: string, operation: string,
                         bucket: Option<string>, objectKey: Option<string>)
    requires Loosens(db, db', u, bucket)
    requires Decide(env, db, u, operation, bucket, objectKey).Ok?
    ensures Decide(env, db', u, operation, bucket, objectKey).Ok?
  {
    hide CheckedAction, Authorized, BucketEffect, InForce, BucketInForce;
    var resource := Resource(bucket, objectKey);
    var action := CheckedAction(operation);
    if Authorized(env, db, u, action, resource) {
      AuthorizedMonotone(env, db, db', u, action, resource);
    } else {
      BucketAllowMonotone(db, db', u, bucket.value, action, resource);
    }
  }

  ghost predicate AllHave(p: Policy, effect: Effect) {
    forall s :: s in p.statements ==> s.effect == effect
  }

  ghost predicate AttachesNew(db: Db, op: Op, p: Policy) {
    || (op.AttachUserPolicy? && op.policy == p && (op.username, p.name) !in db.userPolicies)
    || (op.AttachGroupPolicy? && op.policy == p && (op.group, p.name) !in db.groupPolicies)
  }

  /** Attaching a policy under a new name, to a user or a group, loosens every decision if all its
      statements allow and tightens every decision if all deny. */
  lemma AttachShifts(env: Env, db: Db, op: Op, p: Policy, effect: Effect, u: string, bucket: Option<string>)
    requires AllHave(p, effect)
    requires AttachesNew(db, op, p)
    ensures var db' := Step(env, db, op).0;
            if effect == Allow then Loosens(db, db', u, bucket) else Loosens(db', db, u, bucket)
  {
    var db' := Step(env, db, op).0;
    forall q | SpeaksFor(db, u, q) ensures SpeaksFor(db', u, q) {
      AttachKeeps(env, db, op, p, u, q);
    }
    forall q | SpeaksFor(db', u, q) ensures SpeaksFor(db, u, q) || q == p {
      AttachAddsOnly(env, db, op, p, u, q);
    }
    assert forall b, s :: BucketInForce(db, b, s) <==> BucketInForce(db', b, s);
    hide SpeaksFor, Step;
  }

  lemma AttachKeeps(env: Env, db: Db, op: Op, p: Policy, u: string, q: Policy)
    requires AttachesNew(db, op, p)
    requires SpeaksFor(db, u, q)
    ensures SpeaksFor(Step(env, db, op).0, u, q)
  {
    var db' := Step(env, db, op).0;
    if AttachedToUser(db, u, q) {
      var n :| (u, n) in db.userPolicies && db.userPolicies[(u, n)] == q;
      assert (u, n) in db'.userPolicies && db'.userPolicies[(u, n)] == q;
    } else {
      var g :| AttachedVia(db, u, g, q);
      var n :| (g, n) in db.groupPolicies && db.groupPolicies[(g, n)] == q;
      assert (g, n) in db'.groupPolicies && db'.groupPolicies[(g, n)] == q;
      assert AttachedVia(db', u, g, q);
    }
  }

  lemma AttachAddsOnly(env: Env, db: Db, op: Op, p: Policy, u: string, q: Policy)
    requires AttachesNew(db, op, p)
    requires SpeaksFor(Step(env, db, op).0, u, q)
    ensures SpeaksFor(db, u, q) || q == p
  {
    var db' := Step(env, db, op).0;
    if AttachedToUser(db', u, q) {
      var n :| (u, n) in db'.userPolicies && db'.userPolicies[(u, n)] == q;
      if q != p {
        assert (u, n) in db.userPolicies && db.userPolicies[(u, n)] == q;
      }
    } else {
      var g :| AttachedVia(db', u, g, q);
      var n :| (g, n) in db'.groupPolicies && db'.groupPolicies[(g, n)] == q;
      if q != p {
        assert (g, n) in db.groupPolicies && db.groupPolicies[(g, n)] == q;
        assert AttachedVia(db, u, g, q);
      }
    }
  }

  // ----- The rule -------------------------------------------------------------------

  /** The entry of a principal list names the user: by `*`, which names everybody, by the user's name, or
      by a text that ends in `user/` and the name. A caller without a key is named by `*` alone. */
  ghost predicate Names(entry: string, u: string) {
    entry == "*" || (u != "anonymous" && (entry == u || exists rest :: entry == rest + ("user/" + u)))
  }

  /** A bucket statement bears on the user's request; no request context is supplied to its condition. */
  ghost predicate Bears(s: BucketStatement, u: string, a: Action, r: Resource) {
    && (s.principal.Wildcard? || exists entry :: entry in s.principal.principals && Names(entry, u))
    && (exists p :: p in s.actions && Denotes(p, ActionText(a)))
    && (exists p :: p in s.resources && Denotes(p, ResourceText(r)))
    && (s.condition.Some? ==> s.condition.value(ConditionContext(None, None, false, None, None, None, map[])))
  }

  lemma NamesExact(entry: string, u: string)
    ensures Names(entry, u) <==> NamesPrincipal(entry, PrincipalOf(u))
  {
    var tail := "user/" + u;
    if EndsWith(entry, tail) {
      assert entry == entry[..|entry| - |tail|] + tail;
    }
  }

  lemma BearsExact(s: BucketStatement, u: string, a: Action, r: Resource)
    ensures Bears(s, u, a, r) <==> BucketMatches(s, PrincipalOf(u), a, r, DEFAULT_CONTEXT)
  {
    hide Denotes, ActionText, ResourceText, Names, NamesPrincipal;
    forall entry ensures Names(entry, u) <==> NamesPrincipal(entry, PrincipalOf(u)) { NamesExact(entry, u); }
  }

  ghost predicate BucketInForceFor(db: Db, bucket: string, u: string, effect: Effect, a: Action, r: Resource) {
    exists s :: BucketInForce(db, bucket, s) && s.effect == effect && Bears(s, u, a, r)
  }

  lemma BucketByStatements(db: Db, bucket: string, u: string, a: Action, r: Resource)
    ensures BucketEffect(db, bucket, u, a, r) == Some(Allow) <==>
            BucketInForceFor(db, bucket, u, Allow, a, r) && !BucketInForceFor(db, bucket, u, Deny, a, r)
  {
    hide BucketMatches, Bears, BucketVerdict;
    forall s ensures Bears(s, u, a, r) <==> BucketMatches(s, PrincipalOf(u), a, r, DEFAULT_CONTEXT) {
      BearsExact(s, u, a, r);
    }
    if bucket in db.bucketPolicies {
      var stmts := db.bucketPolicies[bucket].statements;
      BucketVerdictMeaning(stmts, PrincipalOf(u), a, r, DEFAULT_CONTEXT);
      assert forall s :: s in stmts <==> BucketInForce(db, bucket, s);
    }
  }

  /** The decision, statement by statement: a request is accepted when the identity statements allow
      and none of them denies, or the bucket's statements allow and none of them denies. A denial on
      one side does not reach the other. */
  lemma DecisionRule(env: Env, db: Db, u: string, operation: string, bucket: Option<string>,
                     objectKey: Option<string>)
    requires !IsRoot(env, u)
    ensures var a, r := CheckedAction(operation), Resource(bucket, objectKey);
            Decide(env, db, u, operation, bucket, objectKey).Ok? <==>
              && (objectKey.Some? ==> bucket.Some?)
              && (|| (InForceFor(db, u, Allow, a, r) && !InForceFor(db, u, Deny, a, r))
                  || (&& bucket.Some? && BucketInForceFor(db, bucket.value, u, Allow, a, r)
                      && !BucketInForceFor(db, bucket.value, u, Deny, a, r)))
  {
    hide CheckedAction, Authorized, BucketEffect, InForceFor, BucketInForceFor;
    var a, r := CheckedAction(operation), Resource(bucket, objectKey);
    AuthorizedByStatements(env, db, u, a, r);
    if bucket.Some? {
      BucketByStatements(db, bucket.value, u, a, r);
    }
  }

  /** A bucket whose policy is one unconditional allowance for one principal entry lets in exactly the
      users the entry names, beyond those that identity statements let in. */
  lemma NamedByBucket(env: Env, db: Db, u: string, entry: string, operation: string, bucket: string,
                      objectKey: Option<string>)
    requires u != "root" && u != env.rootAccessKey && u != "anonymous" && bucket in db.bucketPolicies
    requires db.bucketPolicies[bucket] == BucketPolicy([BucketStatement(Allow, Aws([entry]), ["*"], ["*"], None)])
    requires forall s :: !InForce(db, u, s)
    ensures Decide(env, db, u, operation, Some(bucket), objectKey).Ok?
       <==> entry == "*" || entry == u || exists rest :: entry == rest + ("user/" + u)
  {
    var a, r := CheckedAction(operation), Resource(Some(bucket), objectKey);
    var s := BucketStatement(Allow, Aws([entry]), ["*"], ["*"], None);
    DecisionRule(env, db, u, operation, Some(bucket), objectKey);
    hide Decide, CheckedAction, ActionText, ResourceText, Denotes, InForce;
    StarDenotes(ActionText(a));
    StarDenotes(ResourceText(r));
    assert "*" in ["*"] && entry in [entry];
    assert Bears(s, u, a, r) <==> Names(entry, u);
    hide Bears;
    assert BucketInForce(db, bucket, s);
    assert forall t :: BucketInForce(db, bucket, t) ==> t == s;
  }

  /** The rule as documented: any denial, on either side, refuses the request. */
  ghost predicate DocumentedRule(db: Db, u: string, a: Action, bucket: string, r: Resource) {
    && !InForceFor(db, u, Deny, a, r) && !BucketInForceFor(db, bucket, u, Deny, a, r)
    && (InForceFor(db, u, Allow, a, r) || BucketInForceFor(db, bucket, u, Allow, a, r))
  }

  /** One side allows undisputed while the other denies. */
  ghost predicate DenialOverruled(db: Db, u: string, a: Action, bucket: string, r: Resource) {
    || (&& InForceFor(db, u, Allow, a, r) && !InForceFor(db, u, Deny, a, r)
        && BucketInForceFor(db, bucket, u, Deny, a, r))
    || (&& BucketInForceFor(db, bucket, u, Allow, a, r) && !BucketInForceFor(db, bucket, u, Deny, a, r)
        && InForceFor(db, u, Deny, a, r))
  }

  /** The code follows the documented rule exactly where no side overrules the other's denial, and
      never refuses what the rule accepts. */
  lemma DocumentedRuleIff(env: Env, db: Db, u: string, operation: string, bucket: string, objectKey: Option<string>)
    requires !IsRoot(env, u)
    ensures var a, r := CheckedAction(operation), Resource(Some(bucket), objectKey);
            var accepted := Decide(env, db, u, operation, Some(bucket), objectKey).Ok?;
            && ((accepted <==> DocumentedRule(db, u, a, bucket, r)) <==> !DenialOverruled(db, u, a, bucket, r))
            && (DocumentedRule(db, u, a, bucket, r) ==> accepted)
  {
    DecisionRule(env, db, u, operation, Some(bucket), objectKey);
    hide Decide, InForceFor, BucketInForceFor, CheckedAction;
  }

  const DENY_ALL := Statement(Deny, ["*"], ["*"])
  const DENY_POLICY := Policy("DenyAll", "2012-10-17", [DENY_ALL])

  function OpenStatement(): BucketStatement {
    BucketStatement(Allow, PrincipalSpec.Wildcard, ["*"], ["*"], None)
  }

  /** A user with a key is denied everything, and a bucket's policy allows everybody everything. */
  function OverruledRun(u: string, id: string, secret: string): seq<Op> {
    [CreateUser(u), CreateAccessKey(u, id, secret), AttachUserPolicy(u, DENY_POLICY),
     SetBucketPolicy("b", BucketPolicy([OpenStatement()]))]
  }

  lemma OverruledState(env: Env, u: string, id: string, secret: string)
    requires !IsRoot(env, u)
    ensures Run(env, OverruledRun(u, id, secret)) ==
            EMPTY.(users := map[u := Active], keys := map[id := KeyRow(secret, u, Active)],
                   userPolicies := map[(u, "DenyAll") := DENY_POLICY],
                   bucketPolicies := map["b" := BucketPolicy([OpenStatement()])])
  {
    var ops := OverruledRun(u, id, secret);
    assert ops[..3] == [ops[0], ops[1], ops[2]] && ops[..3][..2] == [ops[0], ops[1]];
    assert [ops[0], ops[1]][..1] == [ops[0]] && [ops[0]][..0] == [];
    var db1 := EMPTY.(users := map[u := Active]);
    assert Run(env, [ops[0]]) == db1;
    assert KeysOf(db1, u) == {};
    var db2 := db1.(keys := map[id := KeyRow(secret, u, Active)]);
    assert Run(env, [ops[0], ops[1]]) == db2;
    assert Run(env, ops[..3]) == db2.(userPolicies := map[(u, "DenyAll") := DENY_POLICY]);
  }

  /** The documented rule fails in a reachable state: the denied user's request for an object of the
      open bucket passes the check. */
  lemma DenialIsOverruled(env: Env, u: string, id: string, secret: string, now: int)
    requires !IsRoot(env, u) && id != env.rootAccessKey && !IsTemporary(id)
    ensures var db := Run(env, OverruledRun(u, id, secret));
            && InForceFor(db, u, Deny, CheckedAction("GetObject"), Resource(Some("b"), Some("k")))
            && CheckAuthorization(env, Some(db), Some(id), None, "GetObject", Some("b"), Some("k"), now).Ok?
  {
    var db, a, r := Run(env, OverruledRun(u, id, secret)), CheckedAction("GetObject"), Resource(Some("b"), Some("k"));
    OverruledState(env, u, id, secret);
    hide CheckedAction, ActionText, ResourceText, Run;
    StarApplies(a, r, u);
    OverruledStatements(db, u, a, r);
    hide InForceFor, BucketInForceFor, Decide;
    DecisionRule(env, db, u, "GetObject", Some("b"), Some("k"));
  }

  lemma StarApplies(a: Action, r: Resource, u: string)
    ensures Applies(DENY_ALL, a, r) && Bears(OpenStatement(), u, a, r)
  {
    hide Denotes, ActionText, ResourceText;
    StarDenotes(ActionText(a));
    StarDenotes(ResourceText(r));
    assert "*" in ["*"];
  }

  lemma OverruledStatements(db: Db, u: string, a: Action, r: Resource)
    requires db.userPolicies == map[(u, "DenyAll") := DENY_POLICY]
    requires db.bucketPolicies == map["b" := BucketPolicy([OpenStatement()])]
    requires Applies(DENY_ALL, a, r) && Bears(OpenStatement(), u, a, r)
    ensures InForceFor(db, u, Deny, a, r)
    ensures BucketInForceFor(db, "b", u, Allow, a, r) && !BucketInForceFor(db, "b", u, Deny, a, r)
  {
    hide Applies, Bears;
    assert (u, "DenyAll") in db.userPolicies;
    assert AttachedToUser(db, u, DENY_POLICY) && DENY_ALL in DENY_POLICY.statements;
    assert InForce(db, u, DENY_ALL);
    assert BucketInForce(db, "b", OpenStatement());
    assert forall s :: BucketInForce(db, "b", s) ==> s == OpenStatement();
  }
}
