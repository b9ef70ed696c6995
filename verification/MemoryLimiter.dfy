/** The in-memory limiter: a map from address to a count and the instant of its first failure,
    pruned now and then while it is being asked. */
module MemoryLimiter {
  import opened Common

  const CLEANUP_INTERVAL := 300 * SECOND

  datatype Config = Config(maxAttempts: nat, window: nat, lockout: nat)

  datatype Entry = Entry(count: nat, first: int)

  type Table = map<string, Entry>

  function Lookup(table: Table, ip: string): Option<Entry> {
    if ip in table then Some(table[ip]) else None
  }

  /** Time since the first failure; a clock reading before it counts as none. */
  function Elapsed(e: Entry, now: int): nat {
    if now < e.first then 0 else now - e.first
  }

  predicate Limited(cfg: Config, e: Option<Entry>, now: int) {
    e.Some? && e.value.count >= cfg.maxAttempts && Elapsed(e.value, now) < cfg.lockout
  }

  function Remaining(cfg: Config, e: Option<Entry>, now: int): nat {
    if e.None? || Elapsed(e.value, now) > cfg.window then cfg.maxAttempts
    else if e.value.count > cfg.maxAttempts then 0
    else cfg.maxAttempts - e.value.count
  }

  function LockoutRemaining(cfg: Config, e: Option<Entry>, now: int): Option<nat> {
    if Limited(cfg, e, now) then Some((cfg.lockout - Elapsed(e.value, now)) / SECOND) else None
  }

  function Record(cfg: Config, e: Option<Entry>, now: int): Entry {
    if e.None? || Elapsed(e.value, now) > cfg.window then Entry(1, now)
    else e.value.(count := e.value.count + 1)
  }

  function Prune(cfg: Config, table: Table, now: int): Table {
    map ip | ip in table && Elapsed(table[ip], now) < cfg.lockout :: table[ip]
  }

  class RateLimiter {
    const cfg: Config
    var attempts: Table
    var lastCleanup: int

    constructor (cfg: Config, now: int)
      ensures this.cfg == cfg && attempts == map[] && lastCleanup == now
    {
      this.cfg := cfg;
      attempts, lastCleanup := map[], now;
    }

    method CleanupIfNeeded(now: int)
      modifies this
      ensures State(attempts, lastCleanup) == CleanIfDue(cfg, State(old(attempts), old(lastCleanup)), now)
    {
      if now - lastCleanup > CLEANUP_INTERVAL {
        attempts := map ip | ip in attempts && Elapsed(attempts[ip], now) < cfg.lockout :: attempts[ip];
        lastCleanup := now;
      }
    }

    method IsLimited(ip: string, now: int) returns (limited: bool)
      modifies this
      ensures State(attempts, lastCleanup) == CleanIfDue(cfg, State(old(attempts), old(lastCleanup)), now)
      ensures limited <==> Limited(cfg, old(Lookup(attempts, ip)), now)
    {
      CleanupIfNeeded(now);
      if ip !in attempts {
        return false;
      }
      var e := attempts[ip];
      return e.count >= cfg.maxAttempts && Elapsed(e, now) < cfg.lockout;
    }

    method RecordFailure(ip: string, now: int)
      modifies this`attempts
      ensures attempts == old(attempts)[ip := Record(cfg, old(Lookup(attempts, ip)), now)]
    {
      if ip !in attempts {
        attempts := attempts[ip := Entry(1, now)];
        return;
      }
      var e := attempts[ip];
      if Elapsed(e, now) > cfg.window {
        attempts := attempts[ip := Entry(1, now)];
      } else {
        attempts := attempts[ip := Entry(e.count + 1, e.first)];
      }
    }

    method ClearAttempts(ip: string)
      modifies this`attempts
      ensures attempts == old(attempts) - {ip}
    {
      attempts := attempts - {ip};
    }
  }

  // ----- Runs -----------------------------------------------------------------------

  datatype State = State(table: Table, lastCleanup: int)

  datatype Event = Fail(ip: string, now: int) | Clear(ip: string, now: int) | Ask(ip: string, now: int)

  function CleanIfDue(cfg: Config, st: State, now: int): State {
    if now - st.lastCleanup > CLEANUP_INTERVAL then State(Prune(cfg, st.table, now), now) else st
  }

  /** The limiter as it is: asking may prune. */
  function Run(cfg: Config, evs: seq<Event>): State {
    if evs == [] then State(map[], 0)
    else
      var st, ev := Run(cfg, evs[..|evs| - 1]), evs[|evs| - 1];
      match ev
      case Fail(ip, now) => st.(table := st.table[ip := Record(cfg, Lookup(st.table, ip), now)])
      case Clear(ip, now) => st.(table := st.table - {ip})
      case Ask(ip, now) => CleanIfDue(cfg, st, now)
  }

  /** One address in a limiter that never prunes, after a run that starts with the given entry. */
  function After(cfg: Config, start: Option<Entry>, evs: seq<Event>, ip: string): Option<Entry> {
    if evs == [] then start
    else
      var e, ev := After(cfg, start, evs[..|evs| - 1], ip), evs[|evs| - 1];
      if ev.Ask? || ev.ip != ip then e else if ev.Clear? then None else Some(Record(cfg, e, ev.now))
  }

  ghost predicate Clocked(evs: seq<Event>) {
    forall i, j :: 0 <= i < j < |evs| ==> evs[i].now <= evs[j].now
  }

  ghost predicate Past(evs: seq<Event>, now: int) {
    forall i :: 0 <= i < |evs| ==> evs[i].now <= now
  }

  /** All three questions get the same answer. */
  ghost predicate AnswersAlike(cfg: Config, x: Option<Entry>, y: Option<Entry>, now: int) {
    && (Limited(cfg, x, now) <==> Limited(cfg, y, now))
    && Remaining(cfg, x, now) == Remaining(cfg, y, now)
    && LockoutRemaining(cfg, x, now) == LockoutRemaining(cfg, y, now)
  }

  ghost predicate PruningInvisible(cfg: Config) {
    forall evs, ip, now :: Clocked(evs) && Past(evs, now) ==>
      AnswersAlike(cfg, Lookup(Run(cfg, evs).table, ip), After(cfg, None, evs, ip), now)
  }

  ghost predicate SameOrOld(cfg: Config, x: Option<Entry>, y: Option<Entry>, now: int) {
    x == y || (x.None? && y.Some? && Elapsed(y.value, now) >= cfg.lockout)
  }

  lemma {:induction false} PruningSimulates(cfg: Config, evs: seq<Event>, ip: string, now: int)
    requires cfg.lockout > cfg.window && Clocked(evs) && Past(evs, now)
    ensures SameOrOld(cfg, Lookup(Run(cfg, evs).table, ip), After(cfg, None, evs, ip), now)
  {
    if evs != [] {
      var init, last := evs[..|evs| - 1], evs[|evs| - 1];
      assert forall i :: 0 <= i < |init| ==> init[i] == evs[i];
      PruningSimulates(cfg, init, ip, last.now);
      assert last.now <= now;
    }
  }

  /** One failure, and long after it a question that prunes its entry away. */
  function Forgotten(cfg: Config): seq<Event> {
    [Fail("", CLEANUP_INTERVAL + 1), Ask("", CLEANUP_INTERVAL + 1 + cfg.lockout)]
  }

  lemma ForgottenRuns(cfg: Config)
    ensures Run(cfg, Forgotten(cfg)).table == map[]
    ensures After(cfg, None, Forgotten(cfg), "") == Some(Entry(1, CLEANUP_INTERVAL + 1))
    ensures Clocked(Forgotten(cfg)) && Past(Forgotten(cfg), CLEANUP_INTERVAL + 1 + cfg.lockout)
  {
    var evs := Forgotten(cfg);
    assert evs[..1][..0] == [] && evs[..1] == [evs[0]];
    assert Run(cfg, evs[..1]) == State(map["" := Entry(1, CLEANUP_INTERVAL + 1)], 0);
    assert After(cfg, None, evs[..1], "") == Some(Entry(1, CLEANUP_INTERVAL + 1));
  }

  /** Pruning changes no answer of any run exactly when the lockout exceeds the window, or when
      both limits are zero and no answer ever depends on an entry. */
  lemma PruningInvisibleIff(cfg: Config)
    ensures PruningInvisible(cfg) <==> cfg.lockout > cfg.window || (cfg.maxAttempts == 0 && cfg.lockout == 0)
  {
    if cfg.lockout > cfg.window {
      forall evs, ip, now | Clocked(evs) && Past(evs, now)
        ensures AnswersAlike(cfg, Lookup(Run(cfg, evs).table, ip), After(cfg, None, evs, ip), now)
      {
        PruningSimulates(cfg, evs, ip, now);
      }
    } else if cfg.maxAttempts > 0 {
      ForgottenRuns(cfg);
      var evs, now := Forgotten(cfg), CLEANUP_INTERVAL + 1 + cfg.lockout;
      assert !AnswersAlike(cfg, Lookup(Run(cfg, evs).table, ""), After(cfg, None, evs, ""), now);
    } else if cfg.lockout > 0 {
      ForgottenRuns(cfg);
      var now := CLEANUP_INTERVAL + 1 + cfg.lockout;
      var evs := Forgotten(cfg) + [Fail("", now)];
      assert evs[..|evs| - 1] == Forgotten(cfg);
      assert forall i :: 0 <= i < 2 ==> evs[i] == Forgotten(cfg)[i];
      assert Clocked(evs) && Past(evs, now);
      assert Lookup(Run(cfg, evs).table, "") == Some(Entry(1, now));
      assert After(cfg, None, evs, "") == Some(Entry(2, CLEANUP_INTERVAL + 1));
      assert !AnswersAlike(cfg, Lookup(Run(cfg, evs).table, ""), After(cfg, None, evs, ""), now);
    }
  }

  // ----- What the limiter tells -----------------------------------------------------

  /** The remaining attempts are the failures it takes to limit the address, if they come at once. */
  lemma {:induction false} RemainingMeaning(cfg: Config, e: Option<Entry>, ip: string, now: int, k: nat)
    requires cfg.lockout > cfg.window && k > 0
    ensures Limited(cfg, After(cfg, e, Repeat(Fail(ip, now), k), ip), now) <==> k >= Remaining(cfg, e, now)
  {
    FailuresAtOnce(cfg, e, ip, now, k);
  }

  /** Failures at one instant restart an entry whose window is over and then add up. */
  lemma {:induction false} FailuresAtOnce(cfg: Config, e: Option<Entry>, ip: string, now: int, k: nat)
    requires k > 0
    ensures After(cfg, e, Repeat(Fail(ip, now), k), ip) ==
            if e.Some? && now <= e.value.first + cfg.window then Some(Entry(e.value.count + k, e.value.first))
            else Some(Entry(k, now))
  {
    var init := Repeat(Fail(ip, now), k - 1);
    assert Repeat(Fail(ip, now), k) == init + [Fail(ip, now)];
    AfterFailure(cfg, e, init, ip, now);
    assert k == 1 ==> After(cfg, e, init, ip) == e;
    hide After, Repeat;
    if k > 1 {
      FailuresAtOnce(cfg, e, ip, now, k - 1);
    }
  }

  lemma AfterFailure(cfg: Config, e: Option<Entry>, init: seq<Event>, ip: string, now: int)
    ensures After(cfg, e, init + [Fail(ip, now)], ip) == Some(Record(cfg, After(cfg, e, init, ip), now))
  {
    assert (init + [Fail(ip, now)])[..|init|] == init;
  }

  /** Remaining lockout seconds are told exactly while the address is limited, and they are the whole
      seconds until the lockout length after its first failure. */
  lemma LockoutRemainingMeaning(cfg: Config, e: Entry, now: int)
    requires now >= e.first
    ensures var secs := LockoutRemaining(cfg, Some(e), now);
            && (secs.Some? <==> e.count >= cfg.maxAttempts && now < e.first + cfg.lockout)
            && (secs.Some? ==> now + secs.value * SECOND <= e.first + cfg.lockout < now + (secs.value + 1) * SECOND)
    ensures LockoutRemaining(cfg, None, now) == None
  {}

  /** A question drops an entry exactly if the last pruning is more than 300 seconds ago and the entry's
      lockout is over; it changes no entry. */
  lemma PruningMeaning(cfg: Config, st: State, now: int, ip: string)
    requires ip in st.table && now >= st.table[ip].first
    ensures Lookup(CleanIfDue(cfg, st, now).table, ip) ==
            if now > st.lastCleanup + 300 * SECOND && now >= st.table[ip].first + cfg.lockout then None
            else Some(st.table[ip])
  {}

  /** Clearing an address forgets it: what follows is as if nothing had come before. */
  lemma ClearForgets(cfg: Config, xs: seq<Event>, ip: string, now: int, ys: seq<Event>)
    ensures EntryAfter(cfg, xs + [Clear(ip, now)], ip) == None
    ensures After(cfg, None, xs + [Clear(ip, now)] + ys, ip) == After(cfg, None, ys, ip)
  {
    var zs := xs + [Clear(ip, now)];
    assert zs[..|zs| - 1] == xs;
    AfterAppend(cfg, None, zs, ys, ip);
  }

  // ----- Being limited is deserved --------------------------------------------------

  function Failures(evs: seq<Event>, ip: string, lo: int, hi: int): nat {
    if evs == [] then 0
    else
      var last := evs[|evs| - 1];
      Failures(evs[..|evs| - 1], ip, lo, hi)
      + if last.Fail? && last.ip == ip && lo <= last.now <= hi then 1 else 0
  }

  lemma {:induction false} EntryDeserved(cfg: Config, evs: seq<Event>, ip: string)
    requires Clocked(evs) && ip in Run(cfg, evs).table
    ensures var e := Run(cfg, evs).table[ip];
            && e.count <= Failures(evs, ip, e.first, e.first + cfg.window)
            && exists i :: 0 <= i < |evs| && evs[i] == Fail(ip, e.first)
  {
    if evs != [] {
      var n := |evs| - 1;
      var init, last := evs[..n], evs[n];
      assert forall i :: 0 <= i < |init| ==> init[i] == evs[i];
      if ip in Run(cfg, init).table {
        EntryDeserved(cfg, init, ip);
        var e := Run(cfg, init).table[ip];
        var i :| 0 <= i < |init| && init[i] == Fail(ip, e.first);
        assert evs[i] == Fail(ip, e.first) && evs[i].now <= last.now;
      }
      if last == Fail(ip, last.now) {
        assert evs[n] == Fail(ip, last.now);
      }
    }
  }

  /** An address is limited only if one window of the run, starting less than a lockout ago, has
      at least the limit's number of its failures. */
  lemma LimitedSound(cfg: Config, evs: seq<Event>, ip: string, now: int) returns (first: int)
    requires Clocked(evs) && Past(evs, now) && Limited(cfg, Lookup(Run(cfg, evs).table, ip), now)
    ensures now - cfg.lockout < first <= now
    ensures Failures(evs, ip, first, first + cfg.window) >= cfg.maxAttempts
  {
    EntryDeserved(cfg, evs, ip);
    first := Run(cfg, evs).table[ip].first;
  }

  // ----- No run of failures slips through -------------------------------------------

  /** The entry of an address after a run of the limiter as it is. */
  function EntryAfter(cfg: Config, evs: seq<Event>, ip: string): Option<Entry> {
    Lookup(Run(cfg, evs).table, ip)
  }

  /** In the run `xs + ys`, right after each of the address's failures in `ys` it is not limited. */
  ghost predicate NeverLimited(cfg: Config, xs: seq<Event>, ys: seq<Event>, ip: string) {
    forall i :: 0 <= i < |ys| && ys[i] == Fail(ip, ys[i].now) ==>
      !Limited(cfg, EntryAfter(cfg, xs + ys[..i + 1], ip), ys[i].now)
  }

  ghost predicate NoClear(evs: seq<Event>, ip: string) {
    forall i :: 0 <= i < |evs| && evs[i].Clear? ==> evs[i].ip != ip
  }

  ghost predicate InOneWindow(cfg: Config, evs: seq<Event>, ip: string, t: int) {
    && NoClear(evs, ip)
    && (forall i :: 0 <= i < |evs| && evs[i] == Fail(ip, evs[i].now) ==> t <= evs[i].now <= t + cfg.window)
  }

  /** What `c` failures that did not limit leave behind: a window not yet full, and before it at most
      one other, which a window of a single instant leaves no room for. */
  ghost predicate Room(cfg: Config, e: Option<Entry>, t: int, c: nat) {
    || (c == 0 && (e.Some? ==> e.value.count >= 1))
    || (&& e.Some? && e.value.count < cfg.maxAttempts
        && if cfg.window == 0 then e.value.first >= t && c <= e.value.count
           else c <= e.value.count - 1 || (e.value.first >= t && c <= cfg.maxAttempts - 2 + e.value.count))
  }

  lemma RoomStep(cfg: Config, e: Option<Entry>, now: int, t: int, c: nat)
    requires cfg.lockout > cfg.window && Room(cfg, e, t, c) && t <= now <= t + cfg.window
    requires !Limited(cfg, Some(Record(cfg, e, now)), now)
    ensures Room(cfg, Some(Record(cfg, e, now)), t, c + 1)
  {}

  /** The same for an address that starts with the given entry in a limiter that never prunes. */
  ghost predicate PlainNeverLimited(cfg: Config, start: Option<Entry>, ys: seq<Event>, ip: string) {
    forall i :: 0 <= i < |ys| && ys[i] == Fail(ip, ys[i].now) ==>
      !Limited(cfg, After(cfg, start, ys[..i + 1], ip), ys[i].now)
  }

  lemma {:induction false} UnlimitedLeavesRoom(cfg: Config, start: Option<Entry>, ys: seq<Event>, ip: string, t: int)
    requires cfg.lockout > cfg.window && (start.Some? ==> start.value.count >= 1)
    requires InOneWindow(cfg, ys, ip, t) && PlainNeverLimited(cfg, start, ys, ip)
    ensures Room(cfg, After(cfg, start, ys, ip), t, Failures(ys, ip, t, t + cfg.window))
  {
    hide Record, Limited;
    if ys != [] {
      var n := |ys| - 1;
      var init := ys[..n];
      assert forall i :: 0 <= i < n ==> init[i] == ys[i] && init[..i + 1] == ys[..i + 1];
      UnlimitedLeavesRoom(cfg, start, init, ip, t);
      if ys[n] == Fail(ip, ys[n].now) {
        assert ys[..n + 1] == ys;
        RoomStep(cfg, After(cfg, start, init, ip), ys[n].now, t, Failures(init, ip, t, t + cfg.window));
      }
    }
  }

  lemma {:induction false} CountsPositive(cfg: Config, evs: seq<Event>, ip: string)
    ensures var e := After(cfg, None, evs, ip); e.Some? ==> e.value.count >= 1
  {
    if evs != [] { CountsPositive(cfg, evs[..|evs| - 1], ip); }
  }

  lemma {:induction false} AfterAppend(cfg: Config, start: Option<Entry>, xs: seq<Event>, ys: seq<Event>, ip: string)
    ensures After(cfg, start, xs + ys, ip) == After(cfg, After(cfg, start, xs, ip), ys, ip)
  {
    if ys == [] {
      assert xs + ys == xs;
    } else {
      assert (xs + ys)[..|xs + ys| - 1] == xs + ys[..|ys| - 1];
      AfterAppend(cfg, start, xs, ys[..|ys| - 1], ip);
    }
  }

  lemma ClockedPrefix(evs: seq<Event>, k: nat)
    requires Clocked(evs) && k <= |evs|
    ensures Clocked(evs[..k]) && (k > 0 ==> Past(evs[..k], evs[k - 1].now))
  {
    var part := evs[..k];
    assert forall i :: 0 <= i < k ==> part[i] == evs[i];
  }

  /** Pruning or not, the address is limited alike. */
  lemma LimitedAlike(cfg: Config, xs: seq<Event>, ys: seq<Event>, i: nat, ip: string)
    requires cfg.lockout > cfg.window && Clocked(xs + ys) && i < |ys|
    ensures Limited(cfg, EntryAfter(cfg, xs + ys[..i + 1], ip), ys[i].now)
       <==> Limited(cfg, After(cfg, After(cfg, None, xs, ip), ys[..i + 1], ip), ys[i].now)
  {
    var evs := xs + ys[..i + 1];
    assert evs == (xs + ys)[..|evs|] && (xs + ys)[|evs| - 1] == ys[i];
    ClockedPrefix(xs + ys, |evs|);
    hide Clocked, Past, After, Run;
    PruningSimulates(cfg, evs, ip, ys[i].now);
    AfterAppend(cfg, None, xs, ys[..i + 1], ip);
  }

  /** How many failures within one window length cannot all leave the address unlimited. */
  function Bound(cfg: Config): nat {
    if cfg.maxAttempts < 2 then 1 else if cfg.window == 0 then cfg.maxAttempts else 2 * cfg.maxAttempts - 2
  }

  /** After any history, of `Bound` failures of one address within one window length at least one
      leaves the address limited. */
  lemma LimitBound(cfg: Config, xs: seq<Event>, ys: seq<Event>, ip: string, t: int)
    requires cfg.lockout > cfg.window && Clocked(xs + ys) && InOneWindow(cfg, ys, ip, t)
    requires Failures(ys, ip, t, t + cfg.window) >= Bound(cfg)
    ensures !NeverLimited(cfg, xs, ys, ip)
  {
    var start := After(cfg, None, xs, ip);
    CountsPositive(cfg, xs, ip);
    if NeverLimited(cfg, xs, ys, ip) {
      hide After, Limited, EntryAfter, Clocked;
      forall i | 0 <= i < |ys| && ys[i] == Fail(ip, ys[i].now)
        ensures !Limited(cfg, After(cfg, start, ys[..i + 1], ip), ys[i].now)
      {
        LimitedAlike(cfg, xs, ys, i, ip);
      }
      UnlimitedLeavesRoom(cfg, start, ys, ip, t);
    }
  }

  ghost predicate AlwaysCatches(cfg: Config) {
    forall xs, ys, ip, t :: Clocked(xs + ys) && InOneWindow(cfg, ys, ip, t)
                            && Failures(ys, ip, t, t + cfg.window) >= Bound(cfg)
      ==> !NeverLimited(cfg, xs, ys, ip)
  }

  /** `n` failures at one instant on top of a single one at 0. */
  function Late(now: int, n: nat): seq<Event> {
    [Fail("", 0)] + Repeat(Fail("", now), n)
  }

  lemma {:induction false} LateCounts(cfg: Config, now: int, n: nat)
    requires 0 <= now <= cfg.window
    ensures EntryAfter(cfg, Late(now, n), "") == Some(Entry(n + 1, 0))
  {
    var evs := Late(now, n);
    if n == 0 {
      assert evs == [Fail("", 0)] && evs[..|evs| - 1] == [];
      assert Run(cfg, []) == State(map[], 0);
    } else {
      LateCounts(cfg, now, n - 1);
      assert evs[..|evs| - 1] == Late(now, n - 1);
    }
  }

  lemma {:induction false} AllCounted(evs: seq<Event>, ip: string, lo: int, hi: int)
    requires forall i :: 0 <= i < |evs| ==> evs[i] == Fail(ip, evs[i].now) && lo <= evs[i].now <= hi
    ensures Failures(evs, ip, lo, hi) == |evs|
  {
    if evs != [] {
      AllCounted(evs[..|evs| - 1], ip, lo, hi);
    }
  }

  lemma {:induction false} RepeatPrefix(ev: Event, n: nat, k: nat)
    requires k <= n
    ensures |Repeat(ev, n)| == n && Repeat(ev, n)[..k] == Repeat(ev, k)
  {
    RepeatIs(ev, n);
    RepeatIs(ev, k);
  }

  /** With a lockout no longer than the window any number of failures can come after the lockout and
      still in the window, and none of them leaves the address limited. */
  lemma LateUnlimited(cfg: Config, n: nat)
    requires cfg.lockout <= cfg.window
    ensures var xs, ys := [Fail("", 0)], Repeat(Fail("", cfg.lockout), n);
            && Clocked(xs + ys) && InOneWindow(cfg, ys, "", cfg.lockout)
            && Failures(ys, "", cfg.lockout, cfg.lockout + cfg.window) == n
            && NeverLimited(cfg, xs, ys, "")
  {
    hide Clocked, InOneWindow, NeverLimited, Failures, Repeat;
    LateShape(cfg, n);
    LateNever(cfg, n);
    RepeatIs(Fail("", cfg.lockout), n);
    AllCounted(Repeat(Fail("", cfg.lockout), n), "", cfg.lockout, cfg.lockout + cfg.window);
  }

  lemma LateShape(cfg: Config, n: nat)
    ensures var xs, ys := [Fail("", 0)], Repeat(Fail("", cfg.lockout), n);
            Clocked(xs + ys) && InOneWindow(cfg, ys, "", cfg.lockout)
  {
    RepeatIs(Fail("", cfg.lockout), n);
    hide Repeat;
  }

  lemma LateNever(cfg: Config, n: nat)
    requires cfg.lockout <= cfg.window
    ensures NeverLimited(cfg, [Fail("", 0)], Repeat(Fail("", cfg.lockout), n), "")
  {
    hide Repeat, EntryAfter, Limited;
    var ys := Repeat(Fail("", cfg.lockout), n);
    RepeatIs(Fail("", cfg.lockout), n);
    forall i | 0 <= i < |ys| ensures !Limited(cfg, EntryAfter(cfg, [Fail("", 0)] + ys[..i + 1], ""), ys[i].now) {
      LateNotLimited(cfg, n, i);
    }
  }

  lemma LateNotLimited(cfg: Config, n: nat, i: nat)
    requires cfg.lockout <= cfg.window && i < n
    ensures |Repeat(Fail("", cfg.lockout), n)| == n
    ensures !Limited(cfg, EntryAfter(cfg, [Fail("", 0)] + Repeat(Fail("", cfg.lockout), n)[..i + 1], ""), cfg.lockout)
  {
    RepeatPrefix(Fail("", cfg.lockout), n, i + 1);
    hide Repeat, EntryAfter;
    LateCounts(cfg, cfg.lockout, i + 1);
  }

  /** The bound holds for every run exactly when the lockout exceeds the window. */
  lemma LimitBoundIff(cfg: Config)
    ensures AlwaysCatches(cfg) <==> cfg.lockout > cfg.window
  {
    if cfg.lockout > cfg.window {
      forall xs, ys, ip, t | Clocked(xs + ys) && InOneWindow(cfg, ys, ip, t)
                             && Failures(ys, ip, t, t + cfg.window) >= Bound(cfg)
        ensures !NeverLimited(cfg, xs, ys, ip)
      {
        LimitBound(cfg, xs, ys, ip, t);
      }
    } else {
      LateUnlimited(cfg, Bound(cfg));
    }
  }

  /** How many failures fit at the end of the window of a first failure at 0. */
  function AtEnd(cfg: Config): nat
    requires cfg.maxAttempts >= 2
  {
    if cfg.window == 0 then 0 else cfg.maxAttempts - 2
  }

  /** The failures that get through after a first one at 0: its window is filled at its end, unless
      that is the same instant, and the next window is filled one instant later. */
  function Slip(cfg: Config): seq<Event> {
    if cfg.maxAttempts < 2 then []
    else Repeat(Fail("", cfg.window), AtEnd(cfg)) + Repeat(Fail("", cfg.window + 1), cfg.maxAttempts - 1)
  }

  lemma SlipIs(cfg: Config)
    requires cfg.maxAttempts >= 2
    ensures |Slip(cfg)| == AtEnd(cfg) + cfg.maxAttempts - 1
    ensures forall i :: 0 <= i < |Slip(cfg)| ==>
      Slip(cfg)[i] == Fail("", if i < AtEnd(cfg) then cfg.window else cfg.window + 1)
  {
    RepeatIs(Fail("", cfg.window), AtEnd(cfg));
    RepeatIs(Fail("", cfg.window + 1), cfg.maxAttempts - 1);
    hide Repeat;
  }

  /** A failure past the window starts over, and those at the same instant add up on it. */
  lemma {:induction false} RefillCounts(cfg: Config, n: nat, k: nat)
    requires k > 0
    ensures EntryAfter(cfg, Late(cfg.window, n) + Repeat(Fail("", cfg.window + 1), k), "")
         == Some(Entry(k, cfg.window + 1))
  {
    var evs := Late(cfg.window, n) + Repeat(Fail("", cfg.window + 1), k);
    assert evs[..|evs| - 1] == Late(cfg.window, n) + Repeat(Fail("", cfg.window + 1), k - 1);
    hide Repeat, Late;
    if k == 1 {
      assert Late(cfg.window, n) + [] == Late(cfg.window, n);
      LateCounts(cfg, cfg.window, n);
    } else {
      RefillCounts(cfg, n, k - 1);
    }
  }

  lemma SlipShape(cfg: Config)
    requires cfg.maxAttempts >= 2
    ensures var xs, ys, t := [Fail("", 0)], Slip(cfg), cfg.window + if cfg.window == 0 then 1 else 0;
            && Clocked(xs + ys) && InOneWindow(cfg, ys, "", t)
            && Failures(ys, "", t, t + cfg.window) == Bound(cfg) - 1
  {
    SlipIs(cfg);
    hide Slip;
    AllCounted(Slip(cfg), "", cfg.window + if cfg.window == 0 then 1 else 0,
               2 * cfg.window + if cfg.window == 0 then 1 else 0);
  }

  lemma SlipNever(cfg: Config)
    requires cfg.maxAttempts >= 2
    ensures NeverLimited(cfg, [Fail("", 0)], Slip(cfg), "")
  {
    var ys := Slip(cfg);
    hide EntryAfter, Slip;
    forall i | 0 <= i < |ys| ensures !Limited(cfg, EntryAfter(cfg, [Fail("", 0)] + ys[..i + 1], ""), ys[i].now) {
      SlipCount(cfg, i);
    }
  }

  /** No count reaches the limit on the way. */
  lemma SlipCount(cfg: Config, i: nat)
    requires cfg.maxAttempts >= 2 && i < |Slip(cfg)|
    ensures var e := EntryAfter(cfg, [Fail("", 0)] + Slip(cfg)[..i + 1], ""); e.Some? && e.value.count < cfg.maxAttempts
  {
    SlipIs(cfg);
    SlipPrefix(cfg, i + 1);
    hide EntryAfter, Slip, Late, Repeat;
    if i < AtEnd(cfg) {
      LateCounts(cfg, cfg.window, i + 1);
    } else {
      RefillCounts(cfg, AtEnd(cfg), i + 1 - AtEnd(cfg));
    }
  }

  lemma SlipPrefix(cfg: Config, k: nat)
    requires cfg.maxAttempts >= 2 && k <= |Slip(cfg)|
    ensures var n, w := AtEnd(cfg), cfg.window;
            [Fail("", 0)] + Slip(cfg)[..k]
            == if k <= n then Late(w, k) else Late(w, n) + Repeat(Fail("", w + 1), k - n)
  {
    var n, w := AtEnd(cfg), cfg.window;
    SlipIs(cfg);
    RepeatIs(Fail("", w), if k <= n then k else n);
    if k > n { RepeatIs(Fail("", w + 1), k - n); }
    hide Slip, Repeat;
  }

  /** The bound is tight for every setting: after a single earlier failure, one failure fewer within
      one window length can leave the address unlimited throughout. */
  lemma LimitBoundTight(cfg: Config)
    ensures var xs, ys, t := [Fail("", 0)], Slip(cfg), cfg.window + if cfg.window == 0 then 1 else 0;
            && Clocked(xs + ys) && InOneWindow(cfg, ys, "", t)
            && Failures(ys, "", t, t + cfg.window) == Bound(cfg) - 1
            && NeverLimited(cfg, xs, ys, "")
  {
    if cfg.maxAttempts >= 2 {
      SlipShape(cfg);
      SlipNever(cfg);
    }
  }

  // ----- How long an address stays limited ------------------------------------------

  /** Whenever it is asked before `until`, at any point of `ys` after `xs`, the address is limited. */
  ghost predicate StaysLimited(cfg: Config, xs: seq<Event>, ys: seq<Event>, ip: string, until: int) {
    forall i, now :: 0 <= i <= |ys| && Past(xs + ys[..i], now) && now < until ==>
      Limited(cfg, EntryAfter(cfg, xs + ys[..i], ip), now)
  }

  /** The event is a failure of the address after the window that began at `first` and before the
      lockout counted from there is over. */
  ghost predicate Lifts(cfg: Config, ev: Event, ip: string, first: int) {
    ev == Fail(ip, ev.now) && first + cfg.window < ev.now < first + cfg.lockout
  }

  /** An undisturbed entry keeps its start and its count does not fall. */
  lemma {:induction false} EntryHeld(cfg: Config, xs: seq<Event>, ys: seq<Event>, ip: string, e: Entry)
    requires EntryAfter(cfg, xs, ip) == Some(e) && e.count >= cfg.maxAttempts && NoClear(ys, ip)
    requires forall i :: 0 <= i < |ys| ==>
      e.first <= ys[i].now < e.first + cfg.lockout && !Lifts(cfg, ys[i], ip, e.first)
    ensures var e' := EntryAfter(cfg, xs + ys, ip);
            e'.Some? && e'.value.first == e.first && e'.value.count >= cfg.maxAttempts
    decreases |ys|
  {
    if ys == [] {
      assert xs + ys == xs;
    } else {
      var n := |ys| - 1;
      var init, evs := ys[..n], xs + ys;
      assert forall i :: 0 <= i < n ==> init[i] == ys[i];
      assert evs[..|evs| - 1] == xs + init && evs[|evs| - 1] == ys[n];
      EntryHeld(cfg, xs, init, ip, e);
      assert !Lifts(cfg, ys[n], ip, e.first);
    }
  }

  lemma PrefixOfBoth(xs: seq<Event>, ys: seq<Event>, k: nat)
    requires k < |ys|
    ensures var evs := xs + ys[..k + 1];
            evs == (xs + ys)[..|evs|] && evs[..|evs| - 1] == xs + ys[..k] && evs[|evs| - 1] == ys[k]
  {}

  /** The first failure of that kind restarts the count, and with it the lockout is gone. */
  lemma {:induction false} EntryLifted(cfg: Config, xs: seq<Event>, ys: seq<Event>, ip: string, e: Entry, k: nat)
    requires cfg.maxAttempts >= 2 && Clocked(xs + ys) && NoClear(ys, ip)
    requires EntryAfter(cfg, xs, ip) == Some(e) && e.count >= cfg.maxAttempts
    requires k < |ys| && Lifts(cfg, ys[k], ip, e.first)
    requires forall i :: 0 <= i < |ys| ==> e.first <= ys[i].now
    ensures !StaysLimited(cfg, xs, ys, ip, e.first + cfg.lockout)
    decreases k
  {
    if j: nat :| j < k && Lifts(cfg, ys[j], ip, e.first) {
      EntryLifted(cfg, xs, ys, ip, e, j);
    } else {
      var init, evs, now := ys[..k], xs + ys[..k + 1], ys[k].now;
      PrefixOfBoth(xs, ys, k);
      ClockedPrefix(xs + ys, |evs|);
      forall i | 0 <= i < |init| ensures init[i] == ys[i] && ys[i].now < e.first + cfg.lockout {
        assert evs[|xs| + i] == ys[i];
      }
      EntryHeld(cfg, xs, init, ip, e);
      assert EntryAfter(cfg, evs, ip) == Some(Entry(1, now));
      assert !Limited(cfg, EntryAfter(cfg, evs, ip), now);
    }
  }

  /** Where a single failure limits, a restarted count limits as well. */
  lemma {:induction false} EntryRestarts(cfg: Config, xs: seq<Event>, ys: seq<Event>, ip: string, e: Entry)
    requires EntryAfter(cfg, xs, ip) == Some(e) && e.count >= cfg.maxAttempts && NoClear(ys, ip)
    requires cfg.maxAttempts < 2
    requires forall i :: 0 <= i < |ys| ==> e.first <= ys[i].now < e.first + cfg.lockout
    ensures var e' := EntryAfter(cfg, xs + ys, ip);
            e'.Some? && e'.value.first >= e.first && e'.value.count >= cfg.maxAttempts
    decreases |ys|
  {
    if ys == [] {
      assert xs + ys == xs;
    } else {
      var n := |ys| - 1;
      var init, evs := ys[..n], xs + ys;
      assert forall i :: 0 <= i < n ==> init[i] == ys[i];
      assert evs[..|evs| - 1] == xs + init && evs[|evs| - 1] == ys[n];
      EntryRestarts(cfg, xs, init, ip, e);
    }
  }

  /** A limited address stays limited for the rest of the lockout, counted from the first failure of
      its window, exactly when no further failure is recorded after that window and within the
      lockout; a failure there lifts the lockout, unless a single failure is enough to limit. */
  lemma StaysLimitedIff(cfg: Config, xs: seq<Event>, ys: seq<Event>, ip: string, now: int)
    requires Clocked(xs + ys) && NoClear(ys, ip) && Past(xs, now)
    requires Limited(cfg, EntryAfter(cfg, xs, ip), now)
    requires forall i :: 0 <= i < |ys| ==> now <= ys[i].now
    ensures var first := EntryAfter(cfg, xs, ip).value.first;
            StaysLimited(cfg, xs, ys, ip, first + cfg.lockout)
            <==> cfg.maxAttempts < 2 || forall i :: 0 <= i < |ys| ==> !Lifts(cfg, ys[i], ip, first)
  {
    var e := EntryAfter(cfg, xs, ip).value;
    assert e.count >= cfg.maxAttempts && cfg.lockout > 0;
    FirstIsPast(cfg, xs, ys, ip, now);
    if k: nat :| cfg.maxAttempts >= 2 && k < |ys| && Lifts(cfg, ys[k], ip, e.first) {
      EntryLifted(cfg, xs, ys, ip, e, k);
    } else {
      hide Limited;
      forall i, later | 0 <= i <= |ys| && Past(xs + ys[..i], later) && later < e.first + cfg.lockout
        ensures Limited(cfg, EntryAfter(cfg, xs + ys[..i], ip), later)
      {
        Undisturbed(cfg, xs, ys, ip, e, i, later);
      }
    }
  }

  lemma FirstIsPast(cfg: Config, xs: seq<Event>, ys: seq<Event>, ip: string, now: int)
    requires Clocked(xs + ys) && Past(xs, now) && EntryAfter(cfg, xs, ip).Some?
    ensures EntryAfter(cfg, xs, ip).value.first <= now
  {
    assert (xs + ys)[..|xs|] == xs;
    ClockedPrefix(xs + ys, |xs|);
    EntryDeserved(cfg, xs, ip);
  }

  lemma Undisturbed(cfg: Config, xs: seq<Event>, ys: seq<Event>, ip: string, e: Entry, i: nat, later: int)
    requires EntryAfter(cfg, xs, ip) == Some(e) && e.count >= cfg.maxAttempts && NoClear(ys, ip)
    requires forall k :: 0 <= k < |ys| ==> e.first <= ys[k].now
    requires cfg.maxAttempts < 2 || forall k :: 0 <= k < |ys| ==> !Lifts(cfg, ys[k], ip, e.first)
    requires i <= |ys| && Past(xs + ys[..i], later) && later < e.first + cfg.lockout && cfg.lockout > 0
    ensures Limited(cfg, EntryAfter(cfg, xs + ys[..i], ip), later)
  {
    var init := ys[..i];
    forall k | 0 <= k < |init| ensures init[k] == ys[k] && ys[k].now <= later {
      assert (xs + init)[|xs| + k] == ys[k];
    }
    if cfg.maxAttempts < 2 {
      EntryRestarts(cfg, xs, init, ip, e);
    } else {
      EntryHeld(cfg, xs, init, ip, e);
    }
  }

  /** Left alone, the lockout also ends on time. */
  lemma LockoutEnds(cfg: Config, xs: seq<Event>, ys: seq<Event>, ip: string, now: int)
    requires EntryAfter(cfg, xs, ip).Some?
    requires forall i :: 0 <= i < |ys| ==> ys[i].Ask? || ys[i].ip != ip
    requires now >= EntryAfter(cfg, xs, ip).value.first + cfg.lockout
    ensures !Limited(cfg, EntryAfter(cfg, xs + ys, ip), now)
  {
    EntrySameOrGone(cfg, xs, ys, ip);
  }

  lemma {:induction false} EntrySameOrGone(cfg: Config, xs: seq<Event>, ys: seq<Event>, ip: string)
    requires forall i :: 0 <= i < |ys| ==> ys[i].Ask? || ys[i].ip != ip
    ensures EntryAfter(cfg, xs + ys, ip) == EntryAfter(cfg, xs, ip) || EntryAfter(cfg, xs + ys, ip) == None
    decreases |ys|
  {
    if ys == [] {
      assert xs + ys == xs;
    } else {
      var n := |ys| - 1;
      var evs := xs + ys;
      assert evs[..|evs| - 1] == xs + ys[..n] && evs[|evs| - 1] == ys[n];
      EntrySameOrGone(cfg, xs, ys[..n], ip);
    }
  }
}
