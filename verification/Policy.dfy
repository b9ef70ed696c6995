/** Identity policies and bucket policies: statements, matching and evaluation. */
module Policies {
  import opened Common
  import opened Wildcard

  // ----- Documents ------------------------------------------------------------------

  datatype Effect = Allow | Deny

  datatype Statement = Statement(effect: Effect, actions: seq<string>, resources: seq<string>)

  datatype Policy = Policy(name: string, version: string, statements: seq<Statement>)

  datatype Action =
    | CreateBucket | DeleteBucket | ListBucket | HeadBucket | GetBucketLocation
    | GetBucketVersioning | PutBucketVersioning
    | GetBucketTagging | PutBucketTagging | DeleteBucketTagging
    | GetObject | PutObject | DeleteObject | HeadObject | CopyObject
    | ListMultipartUploadParts | AbortMultipartUpload
    | ListAllMyBuckets | ListBucketMultipartUploads
    | All

  datatype Resource = Resource(bucket: Option<string>, key: Option<string>)

  datatype Principal = Anonymous | User(name: string) | Arn(arn: string)

  datatype PrincipalSpec = Wildcard | Aws(principals: seq<string>)

  datatype ConditionContext = ConditionContext(
    sourceIp: Option<string>, currentTime: Option<string>, secureTransport: bool,
    prefix: Option<string>, delimiter: Option<string>, maxKeys: Option<nat>,
    custom: map<string, string>)

  const DEFAULT_CONTEXT := ConditionContext(None, None, false, None, None, None, map[])

  /** A condition block is kept as the predicate it evaluates to. */
  datatype BucketStatement = BucketStatement(
    effect: Effect, principal: PrincipalSpec, actions: seq<string>, resources: seq<string>,
    condition: Option<ConditionContext -> bool>)

  datatype BucketPolicy = BucketPolicy(statements: seq<BucketStatement>)

  const ADMIN_POLICY := Policy("AdministratorAccess", "2012-10-17", [Statement(Allow, ["*"], ["*"])])

  // ----- Text forms -----------------------------------------------------------------

  function ActionName(a: Action): string {
    match a
    case CreateBucket => "CreateBucket"
    case DeleteBucket => "DeleteBucket"
    case ListBucket => "ListBucket"
    case HeadBucket => "HeadBucket"
    case GetBucketLocation => "GetBucketLocation"
    case GetBucketVersioning => "GetBucketVersioning"
    case PutBucketVersioning => "PutBucketVersioning"
    case GetBucketTagging => "GetBucketTagging"
    case PutBucketTagging => "PutBucketTagging"
    case DeleteBucketTagging => "DeleteBucketTagging"
    case GetObject => "GetObject"
    case PutObject => "PutObject"
    case DeleteObject => "DeleteObject"
    case HeadObject => "HeadObject"
    case CopyObject => "CopyObject"
    case ListMultipartUploadParts => "ListMultipartUploadParts"
    case AbortMultipartUpload => "AbortMultipartUpload"
    case ListAllMyBuckets => "ListAllMyBuckets"
    case ListBucketMultipartUploads => "ListBucketMultipartUploads"
    case All => "*"
  }

  function ActionText(a: Action): string {
    "s3:" + ActionName(a)
  }

  function FromOperation(op: string): Option<Action> {
    match FromBucketOperation(op)
    case Some(a) => Some(a)
    case None => FromObjectOperation(op)
  }

  function FromBucketOperation(op: string): Option<Action> {
    match op
    case "CreateBucket" => Some(CreateBucket)
    case "DeleteBucket" => Some(DeleteBucket)
    case "ListBucket" => Some(ListBucket)
    case "ListObjects" => Some(ListBucket)
    case "ListObjectsV2" => Some(ListBucket)
    case "HeadBucket" => Some(HeadBucket)
    case "GetBucketLocation" => Some(GetBucketLocation)
    case "GetBucketVersioning" => Some(GetBucketVersioning)
    case "PutBucketVersioning" => Some(PutBucketVersioning)
    case "GetBucketTagging" => Some(GetBucketTagging)
    case "PutBucketTagging" => Some(PutBucketTagging)
    case "DeleteBucketTagging" => Some(DeleteBucketTagging)
    case _ => None
  }

  function FromObjectOperation(op: string): Option<Action> {
    match op
    case "GetObject" => Some(GetObject)
    case "PutObject" => Some(PutObject)
    case "DeleteObject" => Some(DeleteObject)
    case "DeleteObjects" => Some(DeleteObject)
    case "HeadObject" => Some(HeadObject)
    case "CopyObject" => Some(CopyObject)
    case "ListParts" => Some(ListMultipartUploadParts)
    case "AbortMultipartUpload" => Some(AbortMultipartUpload)
    case "ListBuckets" => Some(ListAllMyBuckets)
    case "ListMultipartUploads" => Some(ListBucketMultipartUploads)
    case "*" => Some(All)
    case _ => None
  }

  /** The action an operation is checked as: an operation without one counts as all of them. */
  function CheckedAction(operation: string): Action {
    match FromOperation(operation) case Some(a) => a case None => All
  }

  const ARN_PREFIX := "arn:aws:s3:::"

  function ResourceText(r: Resource): string {
    match (r.bucket, r.key)
    case (None, _) => ARN_PREFIX + "*"
    case (Some(b), None) => ARN_PREFIX + b
    case (Some(b), Some(k)) => ARN_PREFIX + b + "/" + k
  }

  // ----- Matching -------------------------------------------------------------------

  /** Some pattern of the list denotes the text. */
  ghost predicate AnyDenotes(patterns: seq<string>, text: string) {
    exists p :: p in patterns && Denotes(p, text)
  }

  ghost predicate Matches(s: Statement, a: Action, r: Resource) {
    AnyDenotes(s.actions, ActionText(a)) && AnyDenotes(s.resources, ResourceText(r))
  }

  ghost predicate MatchesPrincipal(spec: PrincipalSpec, who: Principal) {
    spec.Wildcard? || exists p :: p in spec.principals && NamesPrincipal(p, who)
  }

  ghost predicate NamesPrincipal(p: string, who: Principal) {
    || p == "*"
    || (who.User? && (p == who.name || EndsWith(p, "user/" + who.name)))
    || (who.Arn? && Denotes(p, who.arn))
  }

  ghost predicate BucketMatches(s: BucketStatement, who: Principal, a: Action, r: Resource,
                                ctx: ConditionContext)
  {
    && MatchesPrincipal(s.principal, who)
    && AnyDenotes(s.actions, ActionText(a))
    && AnyDenotes(s.resources, ResourceText(r))
    && (s.condition.Some? ==> s.condition.value(ctx))
  }

  /** Every action is printed as `s3:` and a rest, so `s3:*` denotes it. */
  lemma ActionWildcard(a: Action)
    ensures Denotes("s3:*", ActionText(a))
  {
    hide ActionName, Denotes;
    PrefixDenotes("s3:", ActionName(a));
    assert "s3:" + "*" == "s3:*";
  }

  /** Whichever resource it is, the printed `Resource::all()` denotes it as a pattern. */
  lemma ResourceWildcard(r: Resource)
    ensures Denotes(ResourceText(Resource(None, None)), ResourceText(r))
  {
    var text := ResourceText(r);
    assert text == ARN_PREFIX + text[|ARN_PREFIX|..];
    PrefixDenotes(ARN_PREFIX, text[|ARN_PREFIX|..]);
  }

  /** The two shortcuts of the loop answer what the patterns mean. */
  method MatchesAction(actions: seq<string>, action: Action) returns (matched: bool)
    ensures matched <==> AnyDenotes(actions, ActionText(action))
  {
    var text := ActionText(action);
    for i := 0 to |actions|
      invariant forall k :: 0 <= k < i ==> !Denotes(actions[k], text)
    {
      var pattern := actions[i];
      if pattern == "*" || pattern == "s3:*" {
        ActionWildcard(action);
        StarDenotes(text);
        return true;
      }
      var hit := MatchesWildcard(pattern, text);
      if hit {
        return true;
      }
    }
    return false;
  }

  method MatchesResource(resources: seq<string>, resource: Resource) returns (matched: bool)
    ensures matched <==> AnyDenotes(resources, ResourceText(resource))
  {
    var text := ResourceText(resource);
    for i := 0 to |resources|
      invariant forall k :: 0 <= k < i ==> !Denotes(resources[k], text)
    {
      var pattern := resources[i];
      if pattern == "*" {
        StarDenotes(text);
        return true;
      }
      var hit := MatchesWildcard(pattern, text);
      if hit {
        return true;
      }
    }
    return false;
  }

  method MatchesStatement(s: Statement, action: Action, resource: Resource) returns (matched: bool)
    ensures matched <==> Matches(s, action, resource)
  {
    matched := MatchesAction(s.actions, action);
    if matched {
      matched := MatchesResource(s.resources, resource);
    }
  }

  method MatchesBucketStatement(s: BucketStatement, who: Principal, action: Action, resource: Resource,
                                ctx: ConditionContext) returns (matched: bool)
    ensures matched <==> BucketMatches(s, who, action, resource, ctx)
  {
    matched := PrincipalMatches(s.principal, who);
    if matched {
      matched := MatchesAction(s.actions, action);
    }
    if matched {
      matched := MatchesResource(s.resources, resource);
    }
    return matched && (s.condition.None? || s.condition.value(ctx));
  }

  method PrincipalMatches(spec: PrincipalSpec, who: Principal) returns (matched: bool)
    ensures matched <==> MatchesPrincipal(spec, who)
  {
    match spec
    case Wildcard => return true;
    case Aws(principals) =>
      for i := 0 to |principals|
        invariant forall k :: 0 <= k < i ==> !NamesPrincipal(principals[k], who)
      {
        var p := principals[i];
        if p == "*" {
          assert NamesPrincipal(principals[i], who);
          return true;
        }
        match who {
          case Anonymous =>
          case User(user) =>
            if p == user || EndsWith(p, "user/" + user) {
              assert NamesPrincipal(principals[i], who);
              return true;
            }
          case Arn(arn) =>
            var hit := MatchesWildcard(p, arn);
            SelfDenotes(arn);
            if p == arn || hit {
              assert NamesPrincipal(principals[i], who);
              return true;
            }
        }
      }
      return false;
  }

  /** Who a principal list names. An ARN caller is named by the patterns that denote it, of which the
      caller's own text and `*` are instances; a caller without a name by `*` alone. */
  lemma PrincipalMeaning(principals: seq<string>, arn: string)
    ensures MatchesPrincipal(Aws(principals), Arn(arn)) <==> AnyDenotes(principals, arn)
    ensures MatchesPrincipal(Aws(principals), Anonymous) <==> "*" in principals
  {
    hide Denotes;
    StarDenotes(arn);
  }

  // ----- Evaluation -----------------------------------------------------------------

  /** Deny overrides: what a list of opinions amounts to. */
  function Combine(opinions: seq<Option<Effect>>): Option<Effect> {
    if Some(Deny) in opinions then Some(Deny)
    else if Some(Allow) in opinions then Some(Allow)
    else None
  }

  /** One more opinion; this is the loop body of every evaluation. */
  lemma CombineNext(ops: seq<Option<Effect>>, i: nat)
    requires i < |ops|
    ensures Combine(ops[..i + 1]) ==
            if ops[i] == Some(Deny) || Combine(ops[..i]) == Some(Deny) then Some(Deny)
            else if ops[i] == Some(Allow) then Some(Allow)
            else Combine(ops[..i])
  {
    assert ops[..i + 1] == ops[..i] + [ops[i]];
  }

  /** A group of opinions may be replaced by what it amounts to, anywhere in the list. */
  lemma CombineGroup(xs: seq<Option<Effect>>, ys: seq<Option<Effect>>, zs: seq<Option<Effect>>)
    ensures Combine(xs + ys + zs) == Combine(xs + [Combine(ys)] + zs)
  {
    var before, after := xs + ys + zs, xs + [Combine(ys)] + zs;
    forall e | e == Deny || e == Allow
      ensures Some(e) in before <==> Some(e) in xs || Some(e) in ys || Some(e) in zs
      ensures Some(e) in after <==> Some(e) in xs || Some(e) == Combine(ys) || Some(e) in zs
    {}
  }

  /** What one statement says about a request: its effect if it applies, else nothing. */
  ghost function Opinion(s: Statement, a: Action, r: Resource): Option<Effect> {
    if Matches(s, a, r) then Some(s.effect) else None
  }

  ghost function Opinions(stmts: seq<Statement>, a: Action, r: Resource): (ops: seq<Option<Effect>>)
    ensures |ops| == |stmts|
  {
    seq(|stmts|, i requires 0 <= i < |stmts| => Opinion(stmts[i], a, r))
  }

  ghost function Verdict(stmts: seq<Statement>, a: Action, r: Resource): Option<Effect> {
    Combine(Opinions(stmts, a, r))
  }

  /** Some statement of the list applies and has the effect. */
  ghost predicate Speaks(stmts: seq<Statement>, effect: Effect, a: Action, r: Resource) {
    exists s :: s in stmts && s.effect == effect && Matches(s, a, r)
  }

  /** A denial stands whatever else applies; an allowance stands if nothing denies. Neither the
      order nor the repetition of statements matters. */
  lemma VerdictMeaning(stmts: seq<Statement>, a: Action, r: Resource)
    ensures Verdict(stmts, a, r) == Some(Deny) <==> Speaks(stmts, Deny, a, r)
    ensures Verdict(stmts, a, r) == Some(Allow) <==> Speaks(stmts, Allow, a, r) && !Speaks(stmts, Deny, a, r)
  {
    hide Speaks, Opinions;
    OpinionOccurs(stmts, Deny, a, r);
    OpinionOccurs(stmts, Allow, a, r);
  }

  lemma OpinionOccurs(stmts: seq<Statement>, e: Effect, a: Action, r: Resource)
    ensures Some(e) in Opinions(stmts, a, r) <==> Speaks(stmts, e, a, r)
  {
    hide Matches;
    var ops := Opinions(stmts, a, r);
    if Some(e) in ops {
      var i :| 0 <= i < |ops| && ops[i] == Some(e);
      assert stmts[i] in stmts && Matches(stmts[i], a, r);
    }
    if Speaks(stmts, e, a, r) {
      var s :| s in stmts && s.effect == e && Matches(s, a, r);
      var i :| 0 <= i < |stmts| && stmts[i] == s;
      assert ops[i] == Some(e);
    }
  }

  method Evaluate(policy: Policy, action: Action, resource: Resource) returns (result: Option<Effect>)
    ensures result == Verdict(policy.statements, action, resource)
  {
    hide Matches, ActionText, ResourceText;
    var stmts := policy.statements;
    ghost var ops := Opinions(stmts, action, resource);
    result := None;
    for i := 0 to |stmts|
      invariant result == Combine(ops[..i])
      invariant result != Some(Deny)
    {
      CombineNext(ops, i);
      var applies := MatchesStatement(stmts[i], action, resource);
      if applies {
        match stmts[i].effect {
          case Deny =>
            assert ops[i] == Some(Deny);
            return Some(Deny);
          case Allow => result := Some(Allow);
        }
      }
    }
    assert ops[..|stmts|] == ops;
  }

  ghost function BucketOpinion(s: BucketStatement, who: Principal, a: Action, r: Resource,
                               ctx: ConditionContext): Option<Effect>
  {
    if BucketMatches(s, who, a, r, ctx) then Some(s.effect) else None
  }

  ghost function BucketOpinions(stmts: seq<BucketStatement>, who: Principal, a: Action, r: Resource,
                                ctx: ConditionContext): (ops: seq<Option<Effect>>)
    ensures |ops| == |stmts|
  {
    seq(|stmts|, i requires 0 <= i < |stmts| => BucketOpinion(stmts[i], who, a, r, ctx))
  }

  ghost function BucketVerdict(stmts: seq<BucketStatement>, who: Principal, a: Action, r: Resource,
                               ctx: ConditionContext): Option<Effect>
  {
    Combine(BucketOpinions(stmts, who, a, r, ctx))
  }

  ghost predicate BucketSpeaks(stmts: seq<BucketStatement>, effect: Effect, who: Principal, a: Action,
                               r: Resource, ctx: ConditionContext)
  {
    exists s :: s in stmts && s.effect == effect && BucketMatches(s, who, a, r, ctx)
  }

  lemma BucketVerdictMeaning(stmts: seq<BucketStatement>, who: Principal, a: Action, r: Resource,
                             ctx: ConditionContext)
    ensures BucketVerdict(stmts, who, a, r, ctx) == Some(Deny) <==> BucketSpeaks(stmts, Deny, who, a, r, ctx)
    ensures BucketVerdict(stmts, who, a, r, ctx) == Some(Allow)
       <==> BucketSpeaks(stmts, Allow, who, a, r, ctx) && !BucketSpeaks(stmts, Deny, who, a, r, ctx)
  {
    hide BucketSpeaks, BucketOpinions;
    BucketOpinionOccurs(stmts, Deny, who, a, r, ctx);
    BucketOpinionOccurs(stmts, Allow, who, a, r, ctx);
  }

  lemma BucketOpinionOccurs(stmts: seq<BucketStatement>, e: Effect, who: Principal, a: Action, r: Resource,
                            ctx: ConditionContext)
    ensures Some(e) in BucketOpinions(stmts, who, a, r, ctx) <==> BucketSpeaks(stmts, e, who, a, r, ctx)
  {
    hide BucketMatches;
    var ops := BucketOpinions(stmts, who, a, r, ctx);
    if Some(e) in ops {
      var i :| 0 <= i < |ops| && ops[i] == Some(e);
      assert stmts[i] in stmts && BucketMatches(stmts[i], who, a, r, ctx);
    }
    if BucketSpeaks(stmts, e, who, a, r, ctx) {
      var s :| s in stmts && s.effect == e && BucketMatches(s, who, a, r, ctx);
      var i :| 0 <= i < |stmts| && stmts[i] == s;
      assert ops[i] == Some(e);
    }
  }

  method EvaluateBucket(policy: BucketPolicy, who: Principal, action: Action, resource: Resource,
                        ctx: ConditionContext) returns (result: Option<Effect>)
    ensures result == BucketVerdict(policy.statements, who, action, resource, ctx)
  {
    hide BucketMatches, ActionText, ResourceText;
    var stmts := policy.statements;
    ghost var ops := BucketOpinions(stmts, who, action, resource, ctx);
    result := None;
    for i := 0 to |stmts|
      invariant result == Combine(ops[..i])
      invariant result != Some(Deny)
    {
      CombineNext(ops, i);
      var applies := MatchesBucketStatement(stmts[i], who, action, resource, ctx);
      if applies {
        match stmts[i].effect {
          case Deny =>
            assert ops[i] == Some(Deny);
            return Some(Deny);
          case Allow => result := Some(Allow);
        }
      }
    }
    assert ops[..|stmts|] == ops;
  }

  // ----- Merging --------------------------------------------------------------------

  function Merge(policies: seq<Policy>): seq<Statement> {
    if policies == [] then [] else policies[0].statements + Merge(policies[1..])
  }

  ghost function Verdicts(policies: seq<Policy>, a: Action, r: Resource): (ops: seq<Option<Effect>>)
    ensures |ops| == |policies|
  {
    seq(|policies|, i requires 0 <= i < |policies| => Verdict(policies[i].statements, a, r))
  }

  /** Deny-overrides over the policies one by one is the verdict on one merged statement list. */
  lemma {:induction false} MergedVerdict(policies: seq<Policy>, a: Action, r: Resource)
    ensures Verdict(Merge(policies), a, r) == Combine(Verdicts(policies, a, r))
  {
    hide Matches, Opinion, Combine;
    if policies != [] {
      var first, rest := policies[0].statements, policies[1..];
      var x, ys, zs := Opinions(first, a, r), Opinions(Merge(rest), a, r), Verdicts(rest, a, r);
      MergedVerdict(rest, a, r);
      assert Opinions(first + Merge(rest), a, r) == [] + x + ys;
      CombineGroup([], x, ys);
      CombineGroup([Combine(x)], ys, []);
      assert [] + [Combine(x)] + ys == [Combine(x)] + ys + [];
      assert [Combine(x)] + [Combine(ys)] + [] == [Combine(x)] + [Combine(zs)] + [];
      CombineGroup([Combine(x)], zs, []);
      assert Verdicts(policies, a, r) == [Combine(x)] + zs + [];
    } else {
      assert Opinions(Merge(policies), a, r) == Verdicts(policies, a, r);
    }
  }

  /** The administrator policy, which is listed for root, allows everything. */
  lemma AdminAllows(a: Action, r: Resource)
    ensures Verdict(ADMIN_POLICY.statements, a, r) == Some(Allow)
  {
    hide Denotes, ActionText, ResourceText, Verdict;
    StarDenotes(ActionText(a));
    StarDenotes(ResourceText(r));
    VerdictMeaning(ADMIN_POLICY.statements, a, r);
    assert "*" in ["*"] && ADMIN_POLICY.statements[0] in ADMIN_POLICY.statements;
    assert Matches(ADMIN_POLICY.statements[0], a, r);
  }

  // ----- Fallback action and resource ----------------------------------------------

  /** Some pattern without `?` denotes the text. */
  ghost predicate PlainlyDenotes(patterns: seq<string>, text: string) {
    exists p :: p in patterns && '?' !in p && Denotes(p, text)
  }

  /** A statement that applies to the fallback action by a pattern without `?` applies to every action. */
  lemma FallbackActionCoversAll(s: Statement, a: Action)
    requires PlainlyDenotes(s.actions, ActionText(All))
    ensures AnyDenotes(s.actions, ActionText(a))
  {
    var p :| p in s.actions && '?' !in p && Denotes(p, ActionText(All));
    ActionWildcard(a);
    Subsumption(p, ActionText(All), ActionText(a));
  }

  /** A statement that applies to all buckets by a pattern without `?` applies to every resource. */
  lemma FallbackResourceCoversAll(s: Statement, r: Resource)
    requires PlainlyDenotes(s.resources, ResourceText(Resource(None, None)))
    ensures AnyDenotes(s.resources, ResourceText(r))
  {
    var p :| p in s.resources && '?' !in p && Denotes(p, ResourceText(Resource(None, None)));
    ResourceWildcard(r);
    Subsumption(p, ResourceText(Resource(None, None)), ResourceText(r));
  }

  /** With `?` the fallback is not a cover: `s3:?` applies to it and to no named action. */
  lemma QuestionMarkIsNoCover(a: Action)
    requires a != All
    ensures AnyDenotes(["s3:?"], ActionText(All)) && !AnyDenotes(["s3:?"], ActionText(a))
  {
    SelfDenotes("s3:");
    OneDenotes('?', "*");
    ConcatDenotes("s3:", "?", "s3:", "*");
    assert Denotes(["s3:?"][0], ActionText(All));
    if Denotes("s3:?", ActionText(a)) {
      var k := SplitDenotes("s3:", "?", ActionText(a));
      LiteralDenotes("s3:", ActionText(a)[..k]);
      OneDenotes('?', ActionText(a)[k..]);
    }
  }
}
