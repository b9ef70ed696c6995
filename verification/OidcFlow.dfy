/** Single sign-on: in-flight authorization requests, keyed by the opaque state value. */
module OidcFlow {
  import opened Common

  const FLOW_TTL := 600 * SECOND

  datatype Flow = Flow(nonce: string, provider: string, created: int)

  type Flows = map<string, Flow>

  datatype Query = Query(error: Option<string>, code: Option<string>, state: Option<string>)

  /** Claims of an ID token whose signature, audience, issuer and expiry have been verified. */
  datatype Claims = Claims(nonce: Option<string>, username: Option<string>)

  /** What an enabled provider, its token endpoint and the user store answer to one callback. */
  datatype Answer = Answer(
    discovered: bool, claims: Option<Claims>, userExists: bool, autoCreate: bool, created: bool, signed: bool)

  /** The answers per provider; absent when the provider is missing or disabled. */
  type World = string -> Option<Answer>

  datatype CallbackResult = Session(username: string) | Rejected

  function Elapsed(created: int, now: int): nat {
    if now < created then 0 else now - created
  }

  /** Token exchange and provisioning for a flow that was found and has not expired. */
  function Complete(flow: Flow, world: World): CallbackResult {
    match world(flow.provider)
    case None => Rejected
    case Some(answer) =>
      if !answer.discovered || answer.claims.None? then Rejected
      else if answer.claims.value.nonce != Some(flow.nonce) then Rejected
      else if answer.claims.value.username.None? then Rejected
      else if !answer.userExists && !(answer.autoCreate && answer.created) then Rejected
      else if !answer.signed then Rejected
      else Session(answer.claims.value.username.value)
  }

  /** The state value that a callback takes out of the table, if it is well formed. */
  function Taken(query: Query): Option<string> {
    if query.error.Some? || query.code.None? then None else query.state
  }

  function Callback(flows: Flows, query: Query, world: World, now: int): CallbackResult {
    match Taken(query)
    case None => Rejected
    case Some(s) =>
      if s !in flows || Elapsed(flows[s].created, now) >= FLOW_TTL then Rejected
      else Complete(flows[s], world)
  }

  class OidcState {
    var flows: Flows

    constructor ()
      ensures flows == map[]
    {
      flows := map[];
    }

    method SweepExpired(now: int)
      modifies this
      ensures flows == Apply(old(flows), Sweep(now))
    {
      flows := map s | s in flows && Elapsed(flows[s].created, now) < FLOW_TTL :: flows[s];
    }

    /** Sweeps, and starts a login if the provider is enabled and can be discovered. The clock is
        read again for the new flow. */
    method LoginOidc(provider: string, available: bool, state: string, nonce: string, now: int, later: int)
      modifies this
      ensures var swept := Apply(old(flows), Sweep(now));
              flows == if available then Apply(swept, Begin(state, nonce, provider, later)) else swept
    {
      SweepExpired(now);
      if available {
        flows := flows[state := Flow(nonce, provider, later)];
      }
    }

    /** The flow leaves the table whatever the outcome. */
    method AuthCallback(query: Query, world: World, now: int) returns (result: CallbackResult)
      modifies this
      ensures flows == Apply(old(flows), Call(query, world, now))
      ensures result == Callback(old(flows), query, world, now)
    {
      if query.error.Some? || query.code.None? || query.state.None? {
        return Rejected;
      }
      var s := query.state.value;
      if s !in flows {
        assert flows == flows - {s};
        return Rejected;
      }
      var flow := flows[s];
      flows := flows - {s};
      if Elapsed(flow.created, now) >= FLOW_TTL {
        return Rejected;
      }
      return Complete(flow, world);
    }
  }

  // ----- Runs -----------------------------------------------------------------------

  datatype Event =
    | Begin(state: string, nonce: string, provider: string, now: int)
    | Call(query: Query, world: World, now: int)
    | Sweep(now: int)

  function Apply(flows: Flows, ev: Event): Flows {
    match ev
    case Begin(s, nonce, provider, now) => flows[s := Flow(nonce, provider, now)]
    case Call(query, world, now) => if Taken(query).Some? then flows - {Taken(query).value} else flows
    case Sweep(now) => map s | s in flows && Elapsed(flows[s].created, now) < FLOW_TTL :: flows[s]
  }

  function Run(evs: seq<Event>): Flows {
    if evs == [] then map[] else Apply(Run(evs[..|evs| - 1]), evs[|evs| - 1])
  }

  ghost predicate Clocked(evs: seq<Event>) {
    forall i, j :: 0 <= i < j < |evs| ==> evs[i].now <= evs[j].now
  }

  /** Event `i` is a callback that mints a session. */
  ghost predicate Minted(evs: seq<Event>, i: nat, username: string) {
    && i < |evs| && evs[i].Call?
    && Callback(Run(evs[..i]), evs[i].query, evs[i].world, evs[i].now) == Session(username)
  }

  /** The query reports no error and has a code and this state. */
  ghost predicate Presents(query: Query, s: string) {
    query.error.None? && query.code.Some? && query.state == Some(s)
  }

  /** The event starts a login under the state value or takes it out again. */
  ghost predicate Touches(ev: Event, s: string) {
    (ev.Begin? && ev.state == s) || (ev.Call? && Presents(ev.query, s))
  }

  /** The provider is there and enabled, answers discovery and the token exchange with a token that
      carries this nonce and user name, the account exists or may be and is created, and a session
      token can be signed. */
  ghost predicate Vouches(answer: Option<Answer>, nonce: string, username: string) {
    && answer.Some? && answer.value.discovered
    && answer.value.claims == Some(Claims(Some(nonce), Some(username)))
    && (answer.value.userExists || (answer.value.autoCreate && answer.value.created))
    && answer.value.signed
  }

  lemma VouchesExact(flow: Flow, world: World, username: string)
    ensures Complete(flow, world) == Session(username) <==> Vouches(world(flow.provider), flow.nonce, username)
  {}

  /** Event `j` started a login under `s`, and no event before `i` has touched `s` since. */
  ghost predicate Pending(evs: seq<Event>, j: nat, i: nat, s: string) {
    && j < i <= |evs| && evs[j].Begin? && evs[j].state == s
    && forall k :: j < k < i ==> !Touches(evs[k], s)
  }

  /** A flow in the table was put there by a pending login start. */
  lemma {:induction false} FlowOrigin(evs: seq<Event>, s: string) returns (j: nat)
    requires s in Run(evs)
    ensures Pending(evs, j, |evs|, s) && Run(evs)[s] == Flow(evs[j].nonce, evs[j].provider, evs[j].now)
  {
    if evs != [] {
      var n := |evs| - 1;
      if evs[n].Begin? && evs[n].state == s {
        j := n;
      } else {
        j := FlowOrigin(evs[..n], s);
        assert evs[..n][j] == evs[j];
        forall k | j < k < |evs| ensures !Touches(evs[k], s) {
          if k < n { assert evs[..n][k] == evs[k]; }
        }
      }
    }
  }

  /** A pending login start that has not expired is in the table. */
  lemma {:induction false} FlowPresent(evs: seq<Event>, j: nat, i: nat, s: string, now: int)
    requires Clocked(evs) && Pending(evs, j, i, s)
    requires forall k :: 0 <= k < i ==> evs[k].now <= now
    requires Elapsed(evs[j].now, now) < FLOW_TTL
    ensures s in Run(evs[..i]) && Run(evs[..i])[s] == Flow(evs[j].nonce, evs[j].provider, evs[j].now)
    decreases i
  {
    assert evs[..i][..i - 1] == evs[..i - 1];
    if j < i - 1 {
      FlowPresent(evs, j, i - 1, s, evs[i - 1].now);
      assert !Touches(evs[i - 1], s);
    }
  }

  /** A callback mints a session exactly when it presents the state of a login start that is less
      than ten minutes old and was not used or replaced, and the provider named at that start vouches
      for the user with the nonce issued at that start. */
  lemma MintedExactly(evs: seq<Event>, i: nat, username: string)
    requires Clocked(evs)
    ensures Minted(evs, i, username) <==>
            && i < |evs| && evs[i].Call?
            && exists j: nat, s :: && Pending(evs, j, i, s) && Presents(evs[i].query, s)
                              && evs[i].now - evs[j].now < 600 * SECOND
                              && Vouches(evs[i].world(evs[j].provider), evs[j].nonce, username)
  {
    hide Complete, Vouches;
    if Minted(evs, i, username) {
      var s := Taken(evs[i].query).value;
      var j := FlowOrigin(evs[..i], s);
      PendingPrefix(evs, j, i, s);
      VouchesExact(Flow(evs[j].nonce, evs[j].provider, evs[j].now), evs[i].world, username);
      assert Presents(evs[i].query, s);
    }
    if i < |evs| && evs[i].Call? {
      forall j: nat, s | && Pending(evs, j, i, s) && Presents(evs[i].query, s)
                    && evs[i].now - evs[j].now < 600 * SECOND
                    && Vouches(evs[i].world(evs[j].provider), evs[j].nonce, username)
        ensures Minted(evs, i, username)
      {
        FlowPresent(evs, j, i, s, evs[i].now);
        VouchesExact(Flow(evs[j].nonce, evs[j].provider, evs[j].now), evs[i].world, username);
      }
    }
  }

  lemma PendingPrefix(evs: seq<Event>, j: nat, i: nat, s: string)
    requires i <= |evs| && Pending(evs[..i], j, i, s)
    ensures Pending(evs, j, i, s) && evs[..i][j] == evs[j]
  {
    forall k | j < k < i ensures !Touches(evs[k], s) {
      assert evs[..i][k] == evs[k];
    }
  }

  /** A session proves a recent login start with its state and provider whose nonce the accepted
      token carried. */
  lemma SessionAgrees(evs: seq<Event>, i: nat, username: string) returns (j: nat)
    requires Clocked(evs) && Minted(evs, i, username)
    ensures j < i && Taken(evs[i].query).Some? && Pending(evs, j, i, Taken(evs[i].query).value)
    ensures 0 <= evs[i].now - evs[j].now < 600 * SECOND
    ensures var answer := evs[i].world(evs[j].provider);
            answer.Some? && answer.value.claims == Some(Claims(Some(evs[j].nonce), Some(username)))
  {
    j := FlowOrigin(evs[..i], Taken(evs[i].query).value);
    PendingPrefix(evs, j, i, Taken(evs[i].query).value);
  }

  /** Two sessions never share a login start, with no assumption on how states are generated. */
  lemma SessionsInjective(evs: seq<Event>, i: nat, i': nat, j: nat, u: string, u': string)
    requires Clocked(evs) && Minted(evs, i, u) && Minted(evs, i', u')
    requires Taken(evs[i].query).Some? && Pending(evs, j, i, Taken(evs[i].query).value)
    requires Taken(evs[i'].query).Some? && Pending(evs, j, i', Taken(evs[i'].query).value)
    ensures i == i'
  {
    var s := evs[j].state;
    assert Touches(evs[i], s) && Touches(evs[i'], s);
  }

  // ----- Sweeping -------------------------------------------------------------------

  function WithoutSweeps(evs: seq<Event>): seq<Event> {
    if evs == [] then []
    else WithoutSweeps(evs[..|evs| - 1]) + if evs[|evs| - 1].Sweep? then [] else [evs[|evs| - 1]]
  }

  /** The second table has what the first has, and besides only expired flows. */
  ghost predicate SameButExpired(swept: Flows, full: Flows, now: int) {
    && (forall s :: s in swept ==> s in full && full[s] == swept[s])
    && (forall s :: s in full && s !in swept ==> Elapsed(full[s].created, now) >= FLOW_TTL)
  }

  lemma SweepStep(swept: Flows, full: Flows, ev: Event, now: int)
    requires SameButExpired(swept, full, ev.now) && ev.now <= now
    ensures SameButExpired(Apply(swept, ev), if ev.Sweep? then full else Apply(full, ev), now)
  {}

  lemma {:induction false} SweepsOnlyDropExpired(evs: seq<Event>, now: int)
    requires Clocked(evs) && forall i :: 0 <= i < |evs| ==> evs[i].now <= now
    ensures SameButExpired(Run(evs), Run(WithoutSweeps(evs)), now)
  {
    if evs != [] {
      var init, last := evs[..|evs| - 1], evs[|evs| - 1];
      assert forall i :: 0 <= i < |init| ==> init[i] == evs[i];
      SweepsOnlyDropExpired(init, last.now);
      SweepStep(Run(init), Run(WithoutSweeps(init)), last, now);
      hide SameButExpired, Apply;
      if last.Sweep? {
        assert WithoutSweeps(evs) == WithoutSweeps(init);
      } else {
        var rest := WithoutSweeps(evs);
        assert rest[..|rest| - 1] == WithoutSweeps(init) && rest[|rest| - 1] == last;
      }
    }
  }

  /** A sweep leaves exactly the flows younger than ten minutes, unchanged. */
  lemma SweepMeaning(flows: Flows, now: int, s: string)
    ensures var swept := Apply(flows, Sweep(now));
            && (s in swept <==> s in flows && now < flows[s].created + 600 * SECOND)
            && (s in swept ==> swept[s] == flows[s])
  {}

  /** Sweeping never changes which callbacks succeed, or for whom. */
  lemma SweepingInvisible(evs: seq<Event>, query: Query, world: World, now: int)
    requires Clocked(evs) && forall i :: 0 <= i < |evs| ==> evs[i].now <= now
    ensures Callback(Run(evs), query, world, now) == Callback(Run(WithoutSweeps(evs)), query, world, now)
  {
    SweepsOnlyDropExpired(evs, now);
  }
}
