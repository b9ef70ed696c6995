/** Webhook delivery with retries, and the dispatch of one event to a bucket's rules. */
module Dispatcher {
  import opened Common
  import opened Wildcard

  // ----- Delivery -------------------------------------------------------------------

  /** What one POST comes back with. */
  datatype Response = Http(code: nat) | TransportError(message: string)

  datatype DeliveryError = NonSuccessStatus(code: nat) | Transport(message: string) | NotSupported(kind: string)

  datatype DeliveryStatus = Success | Failed | Unsupported

  datatype Outcome = Outcome(
    attempts: nat, status: DeliveryStatus, responseCode: Option<nat>, lastError: Option<DeliveryError>)

  predicate IsSuccess(r: Response) {
    r.Http? && 200 <= r.code < 300
  }

  function ErrorOf(r: Response): DeliveryError {
    match r
    case Http(code) => NonSuccessStatus(code)
    case TransportError(message) => Transport(message)
  }

  /** The first success among the first `n` responses. */
  function FirstSuccess(respond: nat -> Response, n: nat): Option<nat> {
    if n == 0 then None
    else
      var earlier := FirstSuccess(respond, n - 1);
      if earlier.Some? then earlier else if IsSuccess(respond(n - 1)) then Some(n - 1) else None
  }

  /** The last status code among the first `n` responses, transport errors skipped. */
  function LastCode(respond: nat -> Response, n: nat): Option<nat> {
    if n == 0 then None
    else if respond(n - 1).Http? then Some(respond(n - 1).code)
    else LastCode(respond, n - 1)
  }

  function Deliver(respond: nat -> Response, maxRetries: nat): Outcome {
    match FirstSuccess(respond, maxRetries + 1)
    case Some(k) => Outcome(k + 1, Success, LastCode(respond, k + 1), None)
    case None => Outcome(maxRetries + 1, Failed, LastCode(respond, maxRetries + 1), Some(ErrorOf(respond(maxRetries))))
  }

  /** The pause after attempt `a`: the power is a 32-bit number, which wraps. */
  function Delay(base: nat, a: nat): nat {
    base * (Pow2(a) % Pow2(32))
  }

  function Delays(base: nat, n: nat): seq<nat> {
    if n == 0 then [] else Delays(base, n - 1) + [Delay(base, n - 1)]
  }

  method DeliverWebhook(respond: nat -> Response, maxRetries: nat, base: nat)
    returns (outcome: Outcome, sleeps: seq<nat>)
    ensures outcome == Deliver(respond, maxRetries)
    ensures sleeps == Delays(base, outcome.attempts - 1)
  {
    var lastCode: Option<nat>, lastError: Option<DeliveryError> := None, None;
    sleeps := [];
    for attempt := 0 to maxRetries + 1
      invariant FirstSuccess(respond, attempt) == None
      invariant lastCode == LastCode(respond, attempt)
      invariant lastError == if attempt == 0 then None else Some(ErrorOf(respond(attempt - 1)))
      invariant sleeps == Delays(base, if attempt <= maxRetries then attempt else maxRetries)
    {
      var r := respond(attempt);
      match r {
        case Http(code) =>
          if 200 <= code < 300 {
            SuccessStays(respond, attempt + 1, maxRetries + 1);
            return Outcome(attempt + 1, Success, Some(code), None), sleeps;
          }
          lastCode, lastError := Some(code), Some(NonSuccessStatus(code));
        case TransportError(message) =>
          lastError := Some(Transport(message));
      }
      if attempt < maxRetries {
        sleeps := sleeps + [Delay(base, attempt)];
      }
    }
    return Outcome(maxRetries + 1, Failed, lastCode, lastError), sleeps;
  }

  lemma {:induction false} SuccessStays(respond: nat -> Response, m: nat, n: nat)
    requires m <= n && FirstSuccess(respond, m).Some?
    ensures FirstSuccess(respond, n) == FirstSuccess(respond, m)
  {
    if m < n { SuccessStays(respond, m, n - 1); }
  }

  lemma {:induction false} FirstSuccessMeaning(respond: nat -> Response, n: nat)
    ensures match FirstSuccess(respond, n)
            case Some(k) => k < n && IsSuccess(respond(k)) && forall a :: 0 <= a < k ==> !IsSuccess(respond(a))
            case None => forall a :: 0 <= a < n ==> !IsSuccess(respond(a))
  {
    if n > 0 { FirstSuccessMeaning(respond, n - 1); }
  }

  /** `a` is the last of the first `n` attempts that got a status code at all. */
  ghost predicate LastAnswered(respond: nat -> Response, n: nat, a: nat) {
    a < n && respond(a).Http? && forall b :: a < b < n ==> respond(b).TransportError?
  }

  lemma {:induction false} LastCodeMeaning(respond: nat -> Response, n: nat) returns (a: nat)
    ensures LastCode(respond, n).Some? ==> LastAnswered(respond, n, a) && respond(a) == Http(LastCode(respond, n).value)
    ensures LastCode(respond, n).None? ==> forall b :: 0 <= b < n ==> respond(b).TransportError?
  {
    a := 0;
    if n > 0 {
      a := LastCodeMeaning(respond, n - 1);
      if respond(n - 1).Http? {
        a := n - 1;
      }
    }
  }

  /** What the outcome of a delivery says about the answers to its attempts. */
  ghost predicate Delivered(respond: nat -> Response, maxRetries: nat, o: Outcome) {
    && 1 <= o.attempts <= maxRetries + 1
    && (forall a :: 0 <= a < o.attempts - 1 ==> !Accepted(respond(a)))
    && (o.status == Success <==> Accepted(respond(o.attempts - 1)))
    && (o.status != Success ==> o.status == Failed && o.attempts == maxRetries + 1)
    && (o.responseCode.None? <==> forall a :: 0 <= a < o.attempts ==> respond(a).TransportError?)
    && (o.responseCode.Some? ==>
          exists a :: LastAnswered(respond, o.attempts, a) && respond(a) == Http(o.responseCode.value))
    && (o.status == Success <==> o.lastError.None?)
    && (o.lastError.Some? ==> TellsOf(o.lastError.value, respond(o.attempts - 1)))
  }

  /** A status code of the success class. */
  ghost predicate Accepted(r: Response) {
    r.Http? && r.code / 100 == 2
  }

  ghost predicate TellsOf(error: DeliveryError, r: Response) {
    match error
    case NonSuccessStatus(code) => r == Http(code)
    case Transport(message) => r == TransportError(message)
    case NotSupported(_) => false
  }

  /** Delivery stops at the first success and otherwise makes exactly `maxRetries + 1` attempts; a
      failed record keeps the last status code seen, even if the last attempt got none, and the error
      of the last attempt. */
  lemma DeliveryMeaning(respond: nat -> Response, maxRetries: nat)
    ensures Delivered(respond, maxRetries, Deliver(respond, maxRetries))
  {
    forall r ensures IsSuccess(r) <==> Accepted(r) {}
    hide IsSuccess, Accepted;
    FirstSuccessMeaning(respond, maxRetries + 1);
    var a := LastCodeMeaning(respond, Deliver(respond, maxRetries).attempts);
    hide FirstSuccess, LastCode;
  }

  // ----- Backoff --------------------------------------------------------------------

  function Sum(xs: seq<nat>): nat {
    if xs == [] then 0 else Sum(xs[..|xs| - 1]) + xs[|xs| - 1]
  }

  /** As long as no power wraps, `n` pauses add up to the base times `2^n - 1`. */
  lemma {:induction false} BackoffTotal(base: nat, n: nat)
    requires n <= 32
    ensures Sum(Delays(base, n)) == base * (Pow2(n) - 1)
  {
    if n > 0 {
      BackoffTotal(base, n - 1);
      NoWrap(n - 1, 32);
      var ds, p := Delays(base, n - 1), Pow2(n - 1);
      SumSnoc(ds, Delay(base, n - 1));
      Distribute(base, p);
      hide Sum, Delays;
    }
  }

  lemma SumSnoc(xs: seq<nat>, x: nat)
    ensures Sum(xs + [x]) == Sum(xs) + x
  {
    assert (xs + [x])[..|xs|] == xs;
  }

  lemma Distribute(base: nat, p: nat)
    ensures base * (p - 1) + base * p == base * (2 * p - 1)
  {}

  lemma NoWrap(a: nat, width: nat)
    ensures Pow2(a) % Pow2(width) == Pow2(a) <==> a < width
  {
    if a < width {
      Pow2Strict(a, width);
    } else {
      Pow2Monotone(width, a);
    }
    Remainder(Pow2(a), Pow2(width));
  }

  lemma Remainder(x: nat, m: nat)
    requires m > 0
    ensures x % m == x <==> x < m
  {}

  lemma {:induction false} Pow2Strict(a: nat, b: nat)
    requires a < b
    ensures Pow2(a) < Pow2(b)
  {
    if a + 1 < b { Pow2Strict(a, b - 1); }
  }

  /** The pauses double all the way exactly when there are at most 32 retries. */
  lemma BackoffExact(maxRetries: nat)
    ensures maxRetries <= 32 <==> forall a :: 0 <= a < maxRetries ==> Delay(1, a) == Pow2(a)
  {
    hide Pow2;
    forall a: nat ensures Delay(1, a) == Pow2(a) <==> a < 32 {
      NoWrap(a, 32);
    }
    if maxRetries > 32 {
      assert Delay(1, 32) != Pow2(32);
    }
  }

  // ----- Dispatch -------------------------------------------------------------------

  datatype EventType =
    | CreatedAll | CreatedPut | CreatedPost | CreatedCopy | CreatedCompleteMultipartUpload
    | RemovedAll | RemovedDelete | RemovedDeleteMarkerCreated

  datatype Event = Event(kind: EventType, bucket: string, key: string)

  datatype Destination =
    | Webhook(url: string)
    | Amqp(url: string)
    | Kafka(brokers: seq<string>, topic: string)
    | Redis(url: string, channel: string)

  datatype Rule = Rule(id: string, events: seq<EventType>, prefix: Option<string>, suffix: Option<string>,
                       destination: Destination)

  datatype Attempt = Attempt(bucket: string, ruleId: string, kind: string, target: string,
                             eventType: EventType, key: string, outcome: Outcome)

  predicate Covers(pattern: EventType, kind: EventType) {
    || pattern == kind
    || (pattern == CreatedAll && kind in {CreatedPut, CreatedPost, CreatedCopy, CreatedCompleteMultipartUpload})
    || (pattern == RemovedAll && kind in {RemovedDelete, RemovedDeleteMarkerCreated})
  }

  predicate MatchesRule(rule: Rule, event: Event) {
    && (exists e :: e in rule.events && Covers(e, event.kind))
    && (rule.prefix.Some? ==> StartsWith(event.key, rule.prefix.value))
    && (rule.suffix.Some? ==> EndsWith(event.key, rule.suffix.value))
  }

  function DescribeDestination(d: Destination): (string, string) {
    match d
    case Webhook(url) => ("webhook", url)
    case Amqp(url) => ("amqp", url)
    case Kafka(brokers, topic) => ("kafka", JoinWith(brokers, ",") + "/" + topic)
    case Redis(url, channel) => ("redis", url + "/" + channel)
  }

  /** The record of one matching rule. `respond` answers the attempts of this delivery. */
  function RecordOf(rule: Rule, event: Event, respond: nat -> Response, maxRetries: nat): Attempt {
    var (kind, target) := DescribeDestination(rule.destination);
    Attempt(event.bucket, rule.id, kind, target, event.kind, event.key,
            if rule.destination.Webhook? then Deliver(respond, maxRetries)
            else Outcome(0, Unsupported, None, Some(NotSupported(kind))))
  }

  /** What one rule adds to the log: its record if it matches. */
  function RuleRecords(rule: Rule, event: Event, respond: nat -> Response, maxRetries: nat): seq<Attempt> {
    if MatchesRule(rule, event) then [RecordOf(rule, event, respond, maxRetries)] else []
  }

  /** One record per matching rule, in rule order; answers are given per rule. */
  function Records(rules: seq<Rule>, event: Event, answers: nat -> nat -> Response, maxRetries: nat): seq<Attempt> {
    if rules == [] then []
    else
      var n := |rules| - 1;
      Records(rules[..n], event, answers, maxRetries) + RuleRecords(rules[n], event, answers(n), maxRetries)
  }

  function Alerts(records: seq<Attempt>): seq<Attempt> {
    if records == [] then []
    else
      var n := |records| - 1;
      Alerts(records[..n]) + if records[n].outcome.status != Success then [records[n]] else []
  }

  lemma NoRules(event: Event, answers: nat -> nat -> Response, maxRetries: nat)
    ensures Records([], event, answers, maxRetries) == [] && Alerts([]) == []
  {}

  /** One more rule carries a log and an alert list that are complete so far to the next rule. */
  lemma NextRule(rules: seq<Rule>, i: nat, event: Event, answers: nat -> nat -> Response, maxRetries: nat,
                 log: seq<Attempt>, alerts: seq<Attempt>)
    requires i < |rules|
    ensures var before, after := Records(rules[..i], event, answers, maxRetries),
                                 Records(rules[..i + 1], event, answers, maxRetries);
            var added := RuleRecords(rules[i], event, answers(i), maxRetries);
            && log + before + added == log + after
            && alerts + Alerts(before) + Alerts(added) == alerts + Alerts(after)
  {
    hide Records, RuleRecords, Alerts;
    var before, added := Records(rules[..i], event, answers, maxRetries),
                         RuleRecords(rules[i], event, answers(i), maxRetries);
    RecordsNext(rules, i, event, answers, maxRetries);
    AlertsAppend(before, added);
    Associative(log, before, added);
    Associative(alerts, Alerts(before), Alerts(added));
  }

  lemma RecordsNext(rules: seq<Rule>, i: nat, event: Event, answers: nat -> nat -> Response, maxRetries: nat)
    requires i < |rules|
    ensures Records(rules[..i + 1], event, answers, maxRetries)
         == Records(rules[..i], event, answers, maxRetries) + RuleRecords(rules[i], event, answers(i), maxRetries)
  {
    hide RuleRecords;
    assert rules[..i + 1][..i] == rules[..i];
  }

  lemma Associative<T>(xs: seq<T>, ys: seq<T>, zs: seq<T>)
    ensures xs + ys + zs == xs + (ys + zs)
  {}

  lemma {:induction false} AlertsAppend(xs: seq<Attempt>, ys: seq<Attempt>)
    ensures Alerts(xs + ys) == Alerts(xs) + Alerts(ys)
  {
    if ys == [] {
      assert xs + ys == xs;
    } else {
      var n := |ys| - 1;
      assert (xs + ys)[..|xs| + n] == xs + ys[..n];
      AlertsAppend(xs, ys[..n]);
    }
  }

  class Worker {
    const maxRetries: nat
    const base: nat
    var log: seq<Attempt>
    var alerts: seq<Attempt>

    constructor (maxRetries: nat, base: nat)
      ensures this.maxRetries == maxRetries && this.base == base && log == [] && alerts == []
    {
      this.maxRetries, this.base := maxRetries, base;
      log, alerts := [], [];
    }

    /** One dequeued event; `config` is absent when the bucket has none or it fails to load. */
    method Dispatch(event: Event, config: Option<seq<Rule>>, answers: nat -> nat -> Response)
      modifies this
      ensures log == old(log) + if config.None? then [] else Records(config.value, event, answers, maxRetries)
      ensures alerts == old(alerts)
        + if config.None? then [] else Alerts(Records(config.value, event, answers, maxRetries))
    {
      if config.None? {
        return;
      }
      var rules := config.value;
      hide RuleRecords, Records, Alerts;
      ghost var log0, alerts0 := log, alerts;
      NoRules(event, answers, maxRetries);
      assert rules[..0] == [];
      for i := 0 to |rules|
        invariant log == log0 + Records(rules[..i], event, answers, maxRetries)
        invariant alerts == alerts0 + Alerts(Records(rules[..i], event, answers, maxRetries))
      {
        HandleRule(rules[i], event, answers(i));
        NextRule(rules, i, event, answers, maxRetries, log0, alerts0);
      }
      assert rules[..|rules|] == rules;
    }

    /** One rule of the loop. */
    method HandleRule(rule: Rule, event: Event, respond: nat -> Response)
      modifies this
      ensures log == old(log) + RuleRecords(rule, event, respond, maxRetries)
      ensures alerts == old(alerts) + Alerts(RuleRecords(rule, event, respond, maxRetries))
    {
      hide MatchesRule, RecordOf;
      if MatchesRule(rule, event) {
        var attempt := Notify(rule, event, respond);
        assert [attempt][..0] == [];
        log := log + [attempt];
        if attempt.outcome.status != Success {
          alerts := alerts + [attempt];
        }
      }
    }

    method Notify(rule: Rule, event: Event, respond: nat -> Response) returns (attempt: Attempt)
      ensures attempt == RecordOf(rule, event, respond, maxRetries)
    {
      var (kind, target) := DescribeDestination(rule.destination);
      var outcome := Outcome(0, Unsupported, None, Some(NotSupported(kind)));
      if rule.destination.Webhook? {
        var sleeps;
        outcome, sleeps := DeliverWebhook(respond, maxRetries, base);
      }
      return Attempt(event.bucket, rule.id, kind, target, event.kind, event.key, outcome);
    }
  }

  ghost predicate Increasing(at: seq<nat>, bound: nat) {
    && (forall k :: 0 <= k < |at| ==> at[k] < bound)
    && (forall k, l :: 0 <= k < l < |at| ==> at[k] < at[l])
  }

  // ----- What the records mean ------------------------------------------------------

  const CREATED := {CreatedAll, CreatedPut, CreatedPost, CreatedCopy, CreatedCompleteMultipartUpload}

  function EventFamily(kind: EventType): string {
    if kind in CREATED then "s3:ObjectCreated:" else "s3:ObjectRemoved:"
  }

  function EventName(kind: EventType): string {
    match kind
    case CreatedAll => "*"
    case CreatedPut => "Put"
    case CreatedPost => "Post"
    case CreatedCopy => "Copy"
    case CreatedCompleteMultipartUpload => "CompleteMultipartUpload"
    case RemovedAll => "*"
    case RemovedDelete => "Delete"
    case RemovedDeleteMarkerCreated => "DeleteMarkerCreated"
  }

  /** The event type as it is written in rules and records. */
  function EventText(kind: EventType): string {
    EventFamily(kind) + EventName(kind)
  }

  /** A rule's event type covers an event exactly if its text, read as a pattern, denotes the event's. */
  lemma CoversExact(pattern: EventType, kind: EventType)
    ensures Covers(pattern, kind) <==> Denotes(EventText(pattern), EventText(kind))
  {
    EventTexts(pattern, kind);
    hide Denotes, EventFamily;
    if pattern in {CreatedAll, RemovedAll} {
      PrefixExact(EventFamily(pattern), EventText(kind));
    } else {
      LiteralDenotes(EventText(pattern), EventText(kind));
    }
  }

  lemma EventTexts(x: EventType, y: EventType)
    ensures '*' !in EventFamily(x) && '?' !in EventText(x)
    ensures '*' in EventText(x) <==> x in {CreatedAll, RemovedAll}
    ensures EventFamily(x) <= EventText(y) <==> (x in CREATED <==> y in CREATED)
    ensures EventText(x) == EventText(y) <==> x == y
  {
    EventFamilies(x, y);
    EventNames(x, y);
    hide EventFamily, EventName;
    assert EventText(x)[..17] == EventFamily(x) && EventText(x)[17..] == EventName(x);
    assert EventText(y)[..17] == EventFamily(y) && EventText(y)[17..] == EventName(y);
  }

  lemma EventFamilies(x: EventType, y: EventType)
    ensures |EventFamily(x)| == |EventFamily(y)| == 17 && '*' !in EventFamily(x) && '?' !in EventFamily(x)
    ensures EventFamily(x) == EventFamily(y) <==> (x in CREATED <==> y in CREATED)
  {
    assert EventFamily(x)[9] == if x in CREATED then 'C' else 'R';
    assert EventFamily(y)[9] == if y in CREATED then 'C' else 'R';
  }

  lemma EventNames(x: EventType, y: EventType)
    ensures '?' !in EventName(x) && ('*' in EventName(x) <==> x in {CreatedAll, RemovedAll})
    ensures x in CREATED && y in CREATED ==> (EventName(x) == EventName(y) <==> x == y)
    ensures x !in CREATED && y !in CREATED ==> (EventName(x) == EventName(y) <==> x == y)
  {
    NameLengths(x);
    NameLengths(y);
    assert EventName(CreatedPost)[0] == 'P' && EventName(CreatedCopy)[0] == 'C';
    hide EventName;
  }

  lemma NameLengths(x: EventType)
    ensures '?' !in EventName(x) && ('*' in EventName(x) <==> x in {CreatedAll, RemovedAll})
    ensures |EventName(x)| == match x
            case CreatedAll => 1 case CreatedPut => 3 case CreatedPost => 4 case CreatedCopy => 4
            case CreatedCompleteMultipartUpload => 23
            case RemovedAll => 1 case RemovedDelete => 6 case RemovedDeleteMarkerCreated => 19
  {}

  /** The rule asks for the event: one of its event types covers it, and the object's key begins and
      ends as the filters say. */
  ghost predicate Concerns(rule: Rule, event: Event) {
    && (exists e :: e in rule.events && Denotes(EventText(e), EventText(event.kind)))
    && (rule.prefix.Some? ==> exists rest :: event.key == rule.prefix.value + rest)
    && (rule.suffix.Some? ==> exists rest :: event.key == rest + rule.suffix.value)
  }

  lemma ConcernsExact(rule: Rule, event: Event)
    ensures MatchesRule(rule, event) <==> Concerns(rule, event)
  {
    hide Covers, EventText, Denotes;
    forall e ensures Covers(e, event.kind) <==> Denotes(EventText(e), EventText(event.kind)) {
      CoversExact(e, event.kind);
    }
    var key := event.key;
    if rule.prefix.Some? && StartsWith(key, rule.prefix.value) {
      assert key == rule.prefix.value + key[|rule.prefix.value|..];
    }
    if rule.suffix.Some? && EndsWith(key, rule.suffix.value) {
      assert key == key[..|key| - |rule.suffix.value|] + rule.suffix.value;
    }
  }

  /** The record is about this rule and event and tells how the delivery went. Only webhooks are
      delivered to; a record for any other destination says so. */
  ghost predicate Tells(record: Attempt, rule: Rule, event: Event, respond: nat -> Response, maxRetries: nat) {
    && record.bucket == event.bucket && record.key == event.key && record.eventType == event.kind
    && record.ruleId == rule.id
    && match rule.destination
       case Webhook(url) =>
         record.kind == "webhook" && record.target == url && Delivered(respond, maxRetries, record.outcome)
       case Amqp(url) => record.target == url && NotDelivered(record, "amqp")
       case Kafka(brokers, topic) =>
         record.target == JoinWith(brokers, ",") + "/" + topic && NotDelivered(record, "kafka")
       case Redis(url, channel) => record.target == url + "/" + channel && NotDelivered(record, "redis")
  }

  ghost predicate NotDelivered(record: Attempt, kind: string) {
    record.kind == kind && record.outcome == Outcome(0, Unsupported, None, Some(NotSupported(kind)))
  }

  lemma RecordTells(rule: Rule, event: Event, respond: nat -> Response, maxRetries: nat)
    ensures Tells(RecordOf(rule, event, respond, maxRetries), rule, event, respond, maxRetries)
  {
    hide Deliver, Delivered;
    DeliveryMeaning(respond, maxRetries);
  }

  /** One more position, if it is kept. */
  function Next(at: seq<nat>, n: nat, keep: bool): seq<nat> {
    at + if keep then [n] else []
  }

  lemma NextIncreases(at: seq<nat>, n: nat, keep: bool)
    requires Increasing(at, n)
    ensures Increasing(Next(at, n, keep), n + 1)
    ensures n in Next(at, n, keep) <==> keep
    ensures forall i :: 0 <= i < n ==> (i in Next(at, n, keep) <==> i in at)
  {}

  /** `part` has the elements of `whole` at the increasing positions `at`. */
  ghost predicate Picks<T>(at: seq<nat>, part: seq<T>, whole: seq<T>) {
    |at| == |part| && Increasing(at, |whole|) && forall k :: 0 <= k < |at| ==> part[k] == whole[at[k]]
  }

  lemma PicksNext<T>(at: seq<nat>, part: seq<T>, whole: seq<T>, x: T, keep: bool)
    requires Picks(at, part, whole)
    ensures Picks(Next(at, |whole|, keep), part + if keep then [x] else [], whole + [x])
    ensures forall i :: 0 <= i <= |whole| ==>
      (i in Next(at, |whole|, keep) <==> if i < |whole| then i in at else keep)
  {
    NextIncreases(at, |whole|, keep);
  }

  /** The records that the rules would give if all of them matched. */
  function EveryRecord(rules: seq<Rule>, event: Event, answers: nat -> nat -> Response,
                       maxRetries: nat): (all: seq<Attempt>)
    ensures |all| == |rules|
  {
    seq(|rules|, i requires 0 <= i < |rules| => RecordOf(rules[i], event, answers(i), maxRetries))
  }

  lemma {:induction false} RecordsPicked(rules: seq<Rule>, event: Event, answers: nat -> nat -> Response,
                                         maxRetries: nat) returns (at: seq<nat>)
    ensures Picks(at, Records(rules, event, answers, maxRetries), EveryRecord(rules, event, answers, maxRetries))
    ensures forall i :: 0 <= i < |rules| ==> (i in at <==> MatchesRule(rules[i], event))
  {
    hide MatchesRule, RecordOf;
    if rules == [] {
      at := [];
    } else {
      hide Picks, Next;
      var n := |rules| - 1;
      var init, last := rules[..n], RecordOf(rules[n], event, answers(n), maxRetries);
      var before := RecordsPicked(init, event, answers, maxRetries);
      var all := EveryRecord(init, event, answers, maxRetries);
      at := Next(before, n, MatchesRule(rules[n], event));
      PicksNext(before, Records(init, event, answers, maxRetries), all, last, MatchesRule(rules[n], event));
      assert EveryRecord(rules, event, answers, maxRetries) == all + [last];
    }
  }

  /** The records stand for exactly the rules that ask for the event: record `k` tells of rule
      `at[k]`, the positions increase, and every such rule has its position. */
  lemma RecordsMeaning(rules: seq<Rule>, event: Event, answers: nat -> nat -> Response, maxRetries: nat)
    returns (at: seq<nat>)
    ensures |at| == |Records(rules, event, answers, maxRetries)| && Increasing(at, |rules|)
    ensures forall i :: 0 <= i < |rules| ==> (i in at <==> Concerns(rules[i], event))
    ensures forall k :: 0 <= k < |at| ==>
      Tells(Records(rules, event, answers, maxRetries)[k], rules[at[k]], event, answers(at[k]), maxRetries)
  {
    hide MatchesRule, RecordOf, Concerns, Tells, Records;
    at := RecordsPicked(rules, event, answers, maxRetries);
    forall i | 0 <= i < |rules|
      ensures MatchesRule(rules[i], event) <==> Concerns(rules[i], event)
      ensures Tells(EveryRecord(rules, event, answers, maxRetries)[i], rules[i], event, answers(i), maxRetries)
    {
      ConcernsExact(rules[i], event);
      RecordTells(rules[i], event, answers(i), maxRetries);
    }
  }

  /** The alerts are exactly the records of unsuccessful deliveries, in their order. */
  lemma {:induction false} AlertsMeaning(records: seq<Attempt>) returns (at: seq<nat>)
    ensures Picks(at, Alerts(records), records)
    ensures forall i :: 0 <= i < |records| ==> (i in at <==> records[i].outcome.status in {Failed, Unsupported})
  {
    if records == [] {
      at := [];
    } else {
      hide Picks, Next;
      var n := |records| - 1;
      var init, last := records[..n], records[n];
      var before := AlertsMeaning(init);
      at := Next(before, n, last.outcome.status != Success);
      PicksNext(before, Alerts(init), init, last, last.outcome.status != Success);
      assert init + [last] == records;
    }
  }
}
