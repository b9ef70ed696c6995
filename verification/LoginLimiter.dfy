/** The persistent login limiter: fixed windows, lockouts and cleanup, one row per key. */
module LoginLimiter {
  import opened Common

  // ----- One row --------------------------------------------------------------------

  /** An unsigned 32-bit number. */
  type U32 = x: nat | x < 0x1_0000_0000

  /** Limits as configured; the two lengths are whole seconds. */
  datatype Config = Config(maxAttempts: U32, windowSecs: nat, lockoutSecs: nat) {
    /** The limit as the code compares it, cast to a signed 32-bit number. */
    function Max(): int {
      if maxAttempts < 0x8000_0000 then maxAttempts else maxAttempts - 0x1_0000_0000
    }

    /** The configured limit counts as it stands: neither too small nor negative after the cast. */
    predicate Proper() { 2 <= maxAttempts < 0x8000_0000 }

    /** How many failures in one window lock a key: the configured number, and for improper limits
        two, since a first failure never locks. */
    function Threshold(): int { if Proper() then maxAttempts else 2 }

    /** How many failures within one window length cannot all stay unlocked: two fixed windows can
        share them, unless the window is a single instant. */
    function Bound(): int { if windowSecs == 0 then Threshold() else 2 * Threshold() - 2 }
  }

  datatype Row = Row(attempts: int, first: int, lockedUntil: Option<int>)

  datatype Report = Report(isLocked: bool, attempts: int, remainingSecs: Option<nat>)

  const CLEAR_REPORT := Report(false, 0, None)

  predicate LockedNow(row: Row, now: int) {
    row.lockedUntil.Some? && row.lockedUntil.value > now
  }

  function LockedReport(row: Row, now: int): Report
    requires LockedNow(row, now)
  {
    Report(true, row.attempts, Some((row.lockedUntil.value - now) / SECOND))
  }

  /** What a failed login does to its key's row, and what it reports. */
  function Record(cfg: Config, row: Option<Row>, now: int): (Row, Report) {
    match row
    case None => (Row(1, now, None), Report(false, 1, None))
    case Some(r) =>
      if LockedNow(r, now) then (r, LockedReport(r, now))
      else if r.first < now - cfg.windowSecs * SECOND then (Row(1, now, None), Report(false, 1, None))
      else if r.attempts + 1 >= cfg.Max() then
        (r.(attempts := r.attempts + 1, lockedUntil := Some(now + cfg.lockoutSecs * SECOND)),
         Report(true, r.attempts + 1, Some(cfg.lockoutSecs)))
      else (r.(attempts := r.attempts + 1), Report(false, r.attempts + 1, None))
  }

  function Query(cfg: Config, row: Option<Row>, now: int): Report {
    match row
    case None => CLEAR_REPORT
    case Some(r) =>
      if LockedNow(r, now) then LockedReport(r, now)
      else if r.first < now - cfg.windowSecs * SECOND then CLEAR_REPORT
      else Report(r.attempts >= cfg.Max(), r.attempts, None)
  }

  predicate Stale(row: Row, now: int) {
    row.lockedUntil.Some? && row.lockedUntil.value < now
  }

  // ----- The table ------------------------------------------------------------------

  type Table = map<string, Row>

  function Lookup(table: Table, key: string): Option<Row> {
    if key in table then Some(table[key]) else None
  }

  class Limiter {
    var rows: Table

    constructor ()
      ensures rows == map[]
    {
      rows := map[];
    }

    method RecordLoginFailure(key: string, cfg: Config, now: int) returns (report: Report)
      modifies this
      ensures rows == old(rows)[key := Record(cfg, old(Lookup(rows, key)), now).0]
      ensures report == Record(cfg, old(Lookup(rows, key)), now).1
    {
      if key !in rows {
        rows := rows[key := Row(1, now, None)];
        return Report(false, 1, None);
      }
      var r := rows[key];
      if r.lockedUntil.Some? && r.lockedUntil.value > now {
        report := Report(true, r.attempts, Some((r.lockedUntil.value - now) / SECOND));
        assert rows == rows[key := r];
        return;
      }
      if r.first < now - cfg.windowSecs * SECOND {
        rows := rows[key := Row(1, now, None)];
        return Report(false, 1, None);
      }
      var attempts := r.attempts + 1;
      if attempts >= cfg.Max() {
        rows := rows[key := Row(attempts, r.first, Some(now + cfg.lockoutSecs * SECOND))];
        return Report(true, attempts, Some(cfg.lockoutSecs));
      }
      rows := rows[key := Row(attempts, r.first, r.lockedUntil)];
      return Report(false, attempts, None);
    }

    method ClearLoginAttempts(key: string)
      modifies this
      ensures rows == old(rows) - {key}
    {
      rows := rows - {key};
    }

    method IsRateLimited(key: string, cfg: Config, now: int) returns (report: Report)
      ensures report == Query(cfg, Lookup(rows, key), now)
    {
      if key !in rows {
        return Report(false, 0, None);
      }
      var r := rows[key];
      if r.lockedUntil.Some? && r.lockedUntil.value > now {
        return Report(true, r.attempts, Some((r.lockedUntil.value - now) / SECOND));
      }
      if r.first < now - cfg.windowSecs * SECOND {
        return Report(false, 0, None);
      }
      return Report(r.attempts >= cfg.Max(), r.attempts, None);
    }

    method CleanupRateLimits(now: int) returns (deleted: nat)
      modifies this
      ensures rows == map k | k in old(rows) && !Stale(old(rows)[k], now) :: old(rows)[k]
      ensures deleted == |old(rows)| - |rows|
    {
      var gone := set k | k in rows && rows[k].lockedUntil.Some? && rows[k].lockedUntil.value < now;
      assert rows.Keys == (rows.Keys - gone) + gone;
      deleted := |gone|;
      rows := rows - gone;
      assert rows.Keys == old(rows).Keys - gone;
    }
  }

  // ----- Runs -----------------------------------------------------------------------

  datatype Event = Fail(key: string, now: int) | Clear(key: string, now: int) | Cleanup(now: int)

  function Apply(cfg: Config, table: Table, ev: Event): Table {
    match ev
    case Fail(key, now) => table[key := Record(cfg, Lookup(table, key), now).0]
    case Clear(key, now) => table - {key}
    case Cleanup(now) => map k | k in table && !Stale(table[k], now) :: table[k]
  }

  function RunTable(cfg: Config, evs: seq<Event>): Table {
    if evs == [] then map[] else Apply(cfg, RunTable(cfg, evs[..|evs| - 1]), evs[|evs| - 1])
  }

  /** The events as one key sees them. */
  function ApplyRow(cfg: Config, row: Option<Row>, ev: Event, key: string): Option<Row> {
    match ev
    case Fail(k, now) => if k == key then Some(Record(cfg, row, now).0) else row
    case Clear(k, now) => if k == key then None else row
    case Cleanup(now) => if row.Some? && Stale(row.value, now) then None else row
  }

  /** One key's row after a run that starts with the given row. */
  function After(cfg: Config, start: Option<Row>, evs: seq<Event>, key: string): Option<Row> {
    if evs == [] then start
    else ApplyRow(cfg, After(cfg, start, evs[..|evs| - 1], key), evs[|evs| - 1], key)
  }

  /** Keys do not influence each other. */
  lemma {:induction false} KeysIndependent(cfg: Config, evs: seq<Event>, key: string)
    ensures Lookup(RunTable(cfg, evs), key) == After(cfg, None, evs, key)
  {
    if evs != [] {
      KeysIndependent(cfg, evs[..|evs| - 1], key);
    }
  }

  ghost predicate Clocked(evs: seq<Event>) {
    forall i, j :: 0 <= i < j < |evs| ==> evs[i].now <= evs[j].now
  }

  /** `now` is not before any event of the run. */
  ghost predicate Past(evs: seq<Event>, now: int) {
    forall i :: 0 <= i < |evs| ==> evs[i].now <= now
  }

  lemma ClockedPrefix(evs: seq<Event>)
    requires Clocked(evs) && evs != []
    ensures Clocked(evs[..|evs| - 1]) && Past(evs[..|evs| - 1], evs[|evs| - 1].now)
  {
    var init := evs[..|evs| - 1];
    assert forall i :: 0 <= i < |init| ==> init[i] == evs[i];
  }

  /** How many failures of the key the run has with an instant in `lo..hi`. */
  function Failures(evs: seq<Event>, key: string, lo: int, hi: int): nat {
    if evs == [] then 0
    else
      var last := evs[|evs| - 1];
      Failures(evs[..|evs| - 1], key, lo, hi)
      + if last.Fail? && last.key == key && lo <= last.now <= hi then 1 else 0
  }

  // ----- A lockout is deserved ------------------------------------------------------

  /** What a row says about the run that led to it, up to the instant `now`. */
  ghost predicate RowDeserved(cfg: Config, evs: seq<Event>, key: string, row: Row, now: int) {
    && row.first <= now && 1 <= row.attempts <= Failures(evs, key, row.first, now)
    && (row.lockedUntil.Some? ==> row.attempts >= cfg.Threshold())
    && (row.lockedUntil.Some? ==>
          var lockedAt := row.lockedUntil.value - cfg.lockoutSecs * SECOND;
          && row.first <= lockedAt <= now
          && Failures(evs, key, lockedAt - cfg.windowSecs * SECOND, lockedAt) >= cfg.Threshold())
    && (row.lockedUntil.None? ==> row.attempts < cfg.Threshold())
  }

  lemma {:induction false} FailuresWiden(evs: seq<Event>, key: string, lo: int, hi: int, lo': int, hi': int)
    requires lo' <= lo && hi <= hi'
    ensures Failures(evs, key, lo, hi) <= Failures(evs, key, lo', hi')
  {
    if evs != [] {
      FailuresWiden(evs[..|evs| - 1], key, lo, hi, lo', hi');
    }
  }

  lemma {:induction false} RowsDeserved(cfg: Config, evs: seq<Event>, key: string)
    requires Clocked(evs) && evs != []
    ensures var row := After(cfg, None, evs, key);
            row.Some? ==> RowDeserved(cfg, evs, key, row.value, evs[|evs| - 1].now)
  {
    var n := |evs| - 1;
    var init, last := evs[..n], evs[n];
    ClockedPrefix(evs);
    var before := After(cfg, None, init, key);
    if init != [] {
      RowsDeserved(cfg, init, key);
      if before.Some? {
        DeservedLater(cfg, evs, key, before.value, init[n - 1].now);
      }
    }
    if last.Fail? && last.key == key && before.Some? {
      RecordDeserved(cfg, evs, key, before.value);
    }
  }

  /** A deserved row stays deserved when an event that does not change it is added. */
  lemma DeservedLater(cfg: Config, evs: seq<Event>, key: string, row: Row, earlier: int)
    requires evs != [] && RowDeserved(cfg, evs[..|evs| - 1], key, row, earlier) && earlier <= evs[|evs| - 1].now
    ensures RowDeserved(cfg, evs, key, row, evs[|evs| - 1].now)
    ensures var last := evs[|evs| - 1];
            last.Fail? && last.key == key ==> row.attempts + 1 <= Failures(evs, key, row.first, last.now)
  {
    FailuresWiden(evs[..|evs| - 1], key, row.first, earlier, row.first, evs[|evs| - 1].now);
  }

  lemma RecordDeserved(cfg: Config, evs: seq<Event>, key: string, row: Row)
    requires evs != [] && evs[|evs| - 1].Fail? && evs[|evs| - 1].key == key
    requires RowDeserved(cfg, evs, key, row, evs[|evs| - 1].now)
    requires row.attempts + 1 <= Failures(evs, key, row.first, evs[|evs| - 1].now)
    ensures var now := evs[|evs| - 1].now;
            RowDeserved(cfg, evs, key, Record(cfg, Some(row), now).0, now)
  {
    var now := evs[|evs| - 1].now;
    if !LockedNow(row, now) && row.first >= now - cfg.windowSecs * SECOND {
      FailuresWiden(evs, key, row.first, now, now - cfg.windowSecs * SECOND, now);
    }
  }

  /** A key is locked only if enough of its failures fell into one window: whenever a run leaves a
      lockout on a row, the failure that set it was at least the threshold's failure of the window
      that ends with it. */
  lemma LockoutSound(cfg: Config, evs: seq<Event>, key: string, until: int)
    requires Clocked(evs) && After(cfg, None, evs, key).Some?
    requires After(cfg, None, evs, key).value.lockedUntil == Some(until)
    ensures var lockedAt := until - cfg.lockoutSecs * SECOND;
            Failures(evs, key, lockedAt - cfg.windowSecs * SECOND, lockedAt) >= cfg.Threshold()
  {
    RowsDeserved(cfg, evs, key);
  }

  // ----- A lockout lasts exactly its length -----------------------------------------

  /** The latest failure of the key that reported a lockout while none was running. */
  function LockStart(cfg: Config, evs: seq<Event>, key: string): Option<int> {
    if evs == [] then None
    else
      var init, last := evs[..|evs| - 1], evs[|evs| - 1];
      var start := LockStart(cfg, init, key);
      if last.Clear? && last.key == key then None
      else if && last.Fail? && last.key == key && !Running(cfg, start, last.now)
              && Record(cfg, After(cfg, None, init, key), last.now).1.isLocked
      then Some(last.now)
      else start
  }

  predicate Running(cfg: Config, start: Option<int>, now: int) {
    start.Some? && now < start.value + cfg.lockoutSecs * SECOND
  }

  /** The query answers "locked" exactly while a lockout is running. */
  ghost predicate AnswersExactly(cfg: Config, evs: seq<Event>, key: string, now: int) {
    Query(cfg, After(cfg, None, evs, key), now).isLocked <==> Running(cfg, LockStart(cfg, evs, key), now)
  }

  /** The row's lockout and the latest lock start are the same, until the lockout is over. */
  ghost predicate Tracks(cfg: Config, row: Option<Row>, start: Option<int>, now: int) {
    && (row.Some? && row.value.lockedUntil.Some? ==>
          start == Some(row.value.lockedUntil.value - cfg.lockoutSecs * SECOND))
    && (Running(cfg, start, now) ==> row.Some? && row.value.lockedUntil == Some(start.value + cfg.lockoutSecs * SECOND))
  }

  lemma {:induction false} LockStartTracked(cfg: Config, evs: seq<Event>, key: string, now: int)
    requires Clocked(evs) && Past(evs, now)
    ensures Tracks(cfg, After(cfg, None, evs, key), LockStart(cfg, evs, key), now)
  {
    if evs != [] {
      ClockedPrefix(evs);
      LockStartTracked(cfg, evs[..|evs| - 1], key, evs[|evs| - 1].now);
    }
  }

  /** Later failures neither extend nor shorten a running lockout, and it ends on time. */
  lemma LockoutExact(cfg: Config, evs: seq<Event>, key: string, now: int)
    requires cfg.Proper() && cfg.lockoutSecs > cfg.windowSecs
    requires Clocked(evs) && Past(evs, now)
    ensures AnswersExactly(cfg, evs, key, now)
  {
    LockStartTracked(cfg, evs, key, now);
    if evs != [] {
      RowsDeserved(cfg, evs, key);
    }
  }

  /** What a burst of `n` failures at one instant leaves on an untouched key. */
  ghost predicate BurstRow(cfg: Config, row: Row, now: int, n: nat) {
    if n < cfg.Threshold() then row == Row(n, now, None)
    else && row.attempts >= cfg.Threshold() && row.first == now
         && row.lockedUntil == Some(now + cfg.lockoutSecs * SECOND)
         && (n == cfg.Threshold() ==> row.attempts == n)
  }

  lemma {:induction false} Burst(cfg: Config, key: string, now: int, n: nat)
    requires n > 0
    ensures var row := After(cfg, None, Repeat(Fail(key, now), n), key);
            row.Some? && BurstRow(cfg, row.value, now, n)
    ensures LockStart(cfg, Repeat(Fail(key, now), n), key) == if n < cfg.Threshold() then None else Some(now)
  {
    var evs := Repeat(Fail(key, now), n);
    assert evs[..|evs| - 1] == Repeat(Fail(key, now), n - 1);
    if n > 1 {
      Burst(cfg, key, now, n - 1);
      BurstStep(cfg, After(cfg, None, Repeat(Fail(key, now), n - 1), key).value, now, n);
      hide Record, BurstRow;
    } else {
      assert After(cfg, None, [], key) == None;
    }
  }

  lemma BurstStep(cfg: Config, row: Row, now: int, n: nat)
    requires n > 1 && BurstRow(cfg, row, now, n - 1)
    ensures var (after, report) := Record(cfg, Some(row), now);
            && BurstRow(cfg, after, now, n) && (report.isLocked <==> n >= cfg.Threshold())
            && (n <= cfg.Threshold() ==> report.attempts == n)
  {}

  /** Failures at one instant on a fresh key: with a proper limit the `maxAttempts`th is the first to
      report a lockout, and the first after which a query does. Any other limit, which is below two or
      turns negative in the cast, locks at the second failure, and queries at the first. */
  lemma FreshKeyLocks(cfg: Config, key: string, now: int, n: nat)
    requires n > 0
    ensures var before, after := After(cfg, None, Repeat(Fail(key, now), n - 1), key),
                                 After(cfg, None, Repeat(Fail(key, now), n), key);
            var limit := cfg.maxAttempts;
            var proper := 2 <= limit < 0x8000_0000;
            && (Record(cfg, before, now).1.isLocked <==> n >= if proper then limit else 2)
            && (Query(cfg, after, now).isLocked <==> n >= if proper then limit else 1)
            && (n <= limit && proper ==> Record(cfg, before, now).1.attempts == Query(cfg, after, now).attempts == n)
  {
    hide After, LockStart, Query, BurstRow;
    Burst(cfg, key, now, n);
    BurstQuery(cfg, After(cfg, None, Repeat(Fail(key, now), n), key).value, now, n);
    if n > 1 {
      hide Record;
      Burst(cfg, key, now, n - 1);
      BurstStep(cfg, After(cfg, None, Repeat(Fail(key, now), n - 1), key).value, now, n);
    } else {
      EmptyRun(cfg, None, key);
    }
  }

  lemma BurstQuery(cfg: Config, row: Row, now: int, n: nat)
    requires n > 0 && BurstRow(cfg, row, now, n)
    ensures var report := Query(cfg, Some(row), now);
            && (report.isLocked <==> n >= if cfg.Proper() then cfg.maxAttempts else 1)
            && (n <= cfg.Threshold() ==> report.attempts == n)
  {}

  lemma BurstClocked(key: string, n: nat, now: int)
    requires now >= 0
    ensures Clocked(Repeat(Fail(key, 0), n)) && Past(Repeat(Fail(key, 0), n), now)
  {
    RepeatIs(Fail(key, 0), n);
  }

  /** The settings under which the query is exact for every run: a limit of at least two and a
      lockout longer than the window. */
  lemma LockoutExactIff(cfg: Config)
    ensures cfg.Proper() && cfg.lockoutSecs > cfg.windowSecs <==>
            forall evs, key, now :: Clocked(evs) && Past(evs, now) ==> AnswersExactly(cfg, evs, key, now)
  {
    if cfg.Proper() && cfg.lockoutSecs > cfg.windowSecs {
      forall evs, key, now | Clocked(evs) && Past(evs, now) ensures AnswersExactly(cfg, evs, key, now) {
        LockoutExact(cfg, evs, key, now);
      }
    } else {
      var n := if cfg.Proper() then cfg.Threshold() else 1;
      var now := if cfg.Proper() then cfg.lockoutSecs * SECOND else 0;
      Burst(cfg, "", 0, n);
      BurstClocked("", n, now);
      assert !AnswersExactly(cfg, Repeat(Fail("", 0), n), "", now);
    }
  }

  // ----- The seconds reported -------------------------------------------------------

  /** `secs` is the whole number of seconds from `now` until `end`. */
  ghost predicate WholeSeconds(secs: nat, now: int, end: int) {
    now + secs * SECOND <= end < now + (secs + 1) * SECOND
  }

  /** Under every setting a query gives remaining seconds exactly while a lockout runs, and they are
      the whole seconds until the lockout length after the failure that set it. */
  lemma QuerySeconds(cfg: Config, evs: seq<Event>, key: string, now: int)
    requires Clocked(evs) && Past(evs, now)
    ensures var start, secs := LockStart(cfg, evs, key), Query(cfg, After(cfg, None, evs, key), now).remainingSecs;
            && (secs.Some? <==> Running(cfg, start, now))
            && (secs.Some? ==> WholeSeconds(secs.value, now, start.value + cfg.lockoutSecs * SECOND))
  {
    LockStartTracked(cfg, evs, key, now);
    hide After, LockStart, Clocked, Past;
  }

  /** A failure that reports a lockout gives the whole seconds until that lockout's end, whether it set
      the lockout or came upon it; any other failure gives none. */
  lemma RecordSeconds(cfg: Config, evs: seq<Event>, key: string, now: int)
    requires Clocked(evs) && Past(evs, now)
    ensures var start, report := LockStart(cfg, evs + [Fail(key, now)], key),
                                 Record(cfg, After(cfg, None, evs, key), now).1;
            && (report.remainingSecs.Some? <==> report.isLocked)
            && (report.isLocked ==>
                  && start.Some?
                  && WholeSeconds(report.remainingSecs.value, now, start.value + cfg.lockoutSecs * SECOND))
  {
    LockStartTracked(cfg, evs, key, now);
    assert (evs + [Fail(key, now)])[..|evs|] == evs;
    hide After, Clocked, Past;
  }

  // ----- No run of failures slips through -------------------------------------------

  /** Every failure of the key in the run is reported as not locked. */
  ghost predicate NeverLocked(cfg: Config, start: Option<Row>, evs: seq<Event>, key: string) {
    forall i :: 0 <= i < |evs| && evs[i] == Fail(key, evs[i].now) ==>
      !Record(cfg, After(cfg, start, evs[..i], key), evs[i].now).1.isLocked
  }

  /** The run does not clear the key and its failures fall within one window length. */
  ghost predicate InOneWindow(cfg: Config, evs: seq<Event>, key: string, t: int) {
    && (forall i :: 0 <= i < |evs| && evs[i].Clear? ==> evs[i].key != key)
    && (forall i :: 0 <= i < |evs| && evs[i] == Fail(key, evs[i].now) ==>
          t <= evs[i].now <= t + cfg.windowSecs * SECOND)
  }

  /** What `c` unlocked failures leave behind: the window they found was not yet full, and at most
      one new window was opened since. */
  ghost predicate Room(cfg: Config, row: Option<Row>, t: int, c: nat) {
    match row
    case None => c <= cfg.Threshold() - 2
    case Some(r) =>
      || (c <= r.attempts - 1 && (c > 0 ==> r.attempts < cfg.Threshold()))
      || (&& r.first >= t && r.lockedUntil.None?
          && r.attempts < cfg.Threshold() && c <= cfg.Threshold() - 2 + r.attempts)
  }

  lemma {:induction false} UnlockedLeavesRoom(cfg: Config, start: Option<Row>, evs: seq<Event>, key: string, t: int)
    requires start.Some? ==> start.value.attempts >= 1
    requires InOneWindow(cfg, evs, key, t) && NeverLocked(cfg, start, evs, key)
    ensures Room(cfg, After(cfg, start, evs, key), t, Failures(evs, key, t, t + cfg.windowSecs * SECOND))
  {
    if evs != [] {
      var n := |evs| - 1;
      var init := evs[..n];
      assert forall i :: 0 <= i < n ==> init[i] == evs[i] && init[..i] == evs[..i];
      UnlockedLeavesRoom(cfg, start, init, key, t);
      RoomStep(cfg, After(cfg, start, init, key), evs[n], key, t, Failures(init, key, t, t + cfg.windowSecs * SECOND));
    }
  }

  lemma RoomStep(cfg: Config, row: Option<Row>, ev: Event, key: string, t: int, c: nat)
    requires Room(cfg, row, t, c)
    requires ev.Clear? ==> ev.key != key
    requires ev == Fail(key, ev.now) ==>
               t <= ev.now <= t + cfg.windowSecs * SECOND && !Record(cfg, row, ev.now).1.isLocked
    ensures Room(cfg, ApplyRow(cfg, row, ev, key), t, if ev == Fail(key, ev.now) then c + 1 else c)
  {}

  /** Of `2 * threshold - 2` failures of one key within one window length at least one reports a
      lockout, whatever row they start from, even across two fixed windows and with other keys'
      events and cleanups in between. */
  lemma LockoutBound(cfg: Config, start: Option<Row>, evs: seq<Event>, key: string, t: int)
    requires start.Some? ==> start.value.attempts >= 1
    requires InOneWindow(cfg, evs, key, t)
    requires Failures(evs, key, t, t + cfg.windowSecs * SECOND) >= 2 * cfg.Threshold() - 2
    ensures !NeverLocked(cfg, start, evs, key)
  {
    if NeverLocked(cfg, start, evs, key) {
      UnlockedLeavesRoom(cfg, start, evs, key, t);
    }
  }

  /** With a window of a single instant no second window can take over. */
  ghost predicate InstantRoom(cfg: Config, row: Option<Row>, t: int, c: nat) {
    || (c == 0 && Sound(cfg, row))
    || (&& row.Some? && row.value.first >= t && row.value.lockedUntil.None?
        && c <= row.value.attempts < cfg.Threshold())
  }

  /** What every row of a run satisfies. */
  ghost predicate Sound(cfg: Config, row: Option<Row>) {
    row.Some? ==>
      row.value.attempts >= 1 && (row.value.lockedUntil.Some? ==> row.value.attempts >= cfg.Threshold())
  }

  lemma ReachableSound(cfg: Config, evs: seq<Event>, key: string)
    requires Clocked(evs)
    ensures Sound(cfg, After(cfg, None, evs, key))
  {
    if evs != [] {
      RowsDeserved(cfg, evs, key);
    }
  }

  lemma {:induction false} InstantLeavesRoom(cfg: Config, start: Option<Row>, evs: seq<Event>, key: string, t: int)
    requires cfg.windowSecs == 0 && Sound(cfg, start)
    requires InOneWindow(cfg, evs, key, t) && NeverLocked(cfg, start, evs, key)
    ensures InstantRoom(cfg, After(cfg, start, evs, key), t, Failures(evs, key, t, t + cfg.windowSecs * SECOND))
  {
    if evs != [] {
      var n := |evs| - 1;
      var init := evs[..n];
      assert forall i :: 0 <= i < n ==> init[i] == evs[i] && init[..i] == evs[..i];
      InstantLeavesRoom(cfg, start, init, key, t);
      InstantStep(cfg, After(cfg, start, init, key), evs[n], key, t,
                  Failures(init, key, t, t + cfg.windowSecs * SECOND));
    }
  }

  lemma InstantStep(cfg: Config, row: Option<Row>, ev: Event, key: string, t: int, c: nat)
    requires cfg.windowSecs == 0 && InstantRoom(cfg, row, t, c)
    requires ev.Clear? ==> ev.key != key
    requires ev == Fail(key, ev.now) ==> ev.now == t && !Record(cfg, row, ev.now).1.isLocked
    ensures InstantRoom(cfg, ApplyRow(cfg, row, ev, key), t, if ev == Fail(key, ev.now) then c + 1 else c)
  {}

  /** After any history, of `Bound` failures of one key within one window length at least one reports
      a lockout. */
  lemma LockoutBoundRun(cfg: Config, past: seq<Event>, evs: seq<Event>, key: string, t: int)
    requires Clocked(past) && InOneWindow(cfg, evs, key, t)
    requires Failures(evs, key, t, t + cfg.windowSecs * SECOND) >= cfg.Bound()
    ensures !NeverLocked(cfg, After(cfg, None, past, key), evs, key)
  {
    var start := After(cfg, None, past, key);
    ReachableSound(cfg, past, key);
    if cfg.windowSecs > 0 {
      LockoutBound(cfg, start, evs, key, t);
    } else if NeverLocked(cfg, start, evs, key) {
      InstantLeavesRoom(cfg, start, evs, key, t);
    }
  }

  /** `n` failures at one instant add up on a row that is neither locked nor about to be. */
  lemma {:induction false} Fill(cfg: Config, row: Row, key: string, now: int, n: nat)
    requires row.lockedUntil.None? && row.first >= now - cfg.windowSecs * SECOND
    requires row.attempts >= 1 && row.attempts + n < cfg.Threshold()
    ensures After(cfg, Some(row), Repeat(Fail(key, now), n), key) == Some(row.(attempts := row.attempts + n))
    ensures NeverLocked(cfg, Some(row), Repeat(Fail(key, now), n), key)
  {
    hide NeverLocked, After, Record;
    if n == 0 {
      EmptyRun(cfg, Some(row), key);
    } else {
      Fill(cfg, row, key, now, n - 1);
      RecordCounts(cfg, row.(attempts := row.attempts + n - 1), now);
      NeverLockedSnoc(cfg, Some(row), Repeat(Fail(key, now), n - 1), Fail(key, now), key);
    }
  }

  lemma EmptyRun(cfg: Config, start: Option<Row>, key: string)
    ensures After(cfg, start, [], key) == start && NeverLocked(cfg, start, [], key)
  {}

  lemma RecordCounts(cfg: Config, row: Row, now: int)
    requires row.lockedUntil.None? && row.first >= now - cfg.windowSecs * SECOND
    requires 1 <= row.attempts && row.attempts + 1 < cfg.Threshold()
    ensures Record(cfg, Some(row), now) == (row.(attempts := row.attempts + 1), Report(false, row.attempts + 1, None))
  {}

  /** One more event that is not a failure reporting a lockout. */
  lemma NeverLockedSnoc(cfg: Config, start: Option<Row>, init: seq<Event>, last: Event, key: string)
    requires NeverLocked(cfg, start, init, key)
    requires last == Fail(key, last.now) ==> !Record(cfg, After(cfg, start, init, key), last.now).1.isLocked
    ensures NeverLocked(cfg, start, init + [last], key)
    ensures After(cfg, start, init + [last], key) == ApplyRow(cfg, After(cfg, start, init, key), last, key)
  {
    hide Record;
    var evs := init + [last];
    assert evs[..|evs| - 1] == init;
    forall i | 0 <= i < |evs| && evs[i] == Fail(key, evs[i].now)
      ensures !Record(cfg, After(cfg, start, evs[..i], key), evs[i].now).1.isLocked
    {
      if i < |init| { assert evs[..i] == init[..i] && evs[i] == init[i]; }
    }
  }

  lemma {:induction false} AfterAppend(cfg: Config, start: Option<Row>, xs: seq<Event>, ys: seq<Event>, key: string)
    ensures After(cfg, start, xs + ys, key) == After(cfg, After(cfg, start, xs, key), ys, key)
  {
    if ys == [] {
      assert xs + ys == xs;
    } else {
      assert (xs + ys)[..|xs + ys| - 1] == xs + ys[..|ys| - 1];
      AfterAppend(cfg, start, xs, ys[..|ys| - 1], key);
    }
  }

  lemma NeverLockedAppend(cfg: Config, start: Option<Row>, xs: seq<Event>, ys: seq<Event>, key: string)
    requires NeverLocked(cfg, start, xs, key) && NeverLocked(cfg, After(cfg, start, xs, key), ys, key)
    ensures NeverLocked(cfg, start, xs + ys, key)
  {
    hide Record, After;
    var evs := xs + ys;
    forall i | 0 <= i < |evs| && evs[i] == Fail(key, evs[i].now)
      ensures !Record(cfg, After(cfg, start, evs[..i], key), evs[i].now).1.isLocked
    {
      if i < |xs| {
        assert evs[..i] == xs[..i] && evs[i] == xs[i];
      } else {
        assert evs[..i] == xs + ys[..i - |xs|] && evs[i] == ys[i - |xs|];
        AfterAppend(cfg, start, xs, ys[..i - |xs|], key);
      }
    }
  }

  /** Clearing a key forgets it: what follows is as if nothing had come before. */
  lemma ClearForgets(cfg: Config, start: Option<Row>, xs: seq<Event>, key: string, now: int, ys: seq<Event>)
    ensures After(cfg, start, xs + [Clear(key, now)] + ys, key) == After(cfg, None, ys, key)
  {
    var zs := xs + [Clear(key, now)];
    assert zs[..|zs| - 1] == xs;
    AfterAppend(cfg, start, zs, ys, key);
  }

  /** The instant from which one window length holds all the failures that get through. */
  function SlipStart(cfg: Config): int {
    if cfg.windowSecs == 0 then 1 else cfg.windowSecs * SECOND
  }

  /** The failures that get through after a first one at 0: its window is filled at its end, and the
      next window is filled one instant later. A window of a single instant is filled alone. */
  function Slip(cfg: Config, key: string): seq<Event> {
    var w := cfg.windowSecs * SECOND;
    (if cfg.windowSecs == 0 then [] else Repeat(Fail(key, w), cfg.Threshold() - 2))
    + [Fail(key, w + 1)] + Repeat(Fail(key, w + 1), cfg.Threshold() - 2)
  }

  lemma SlipUnlocked(cfg: Config, key: string)
    ensures NeverLocked(cfg, Some(Row(1, 0, None)), Slip(cfg, key), key)
  {
    hide NeverLocked, After, Repeat;
    var w, m := cfg.windowSecs * SECOND, cfg.Threshold();
    var start, next := Some(Row(1, 0, None)), Row(1, w + 1, None);
    var xs, zs := if cfg.windowSecs == 0 then [] else Repeat(Fail(key, w), m - 2), Repeat(Fail(key, w + 1), m - 2);
    if cfg.windowSecs == 0 {
      EmptyRun(cfg, start, key);
    } else {
      Fill(cfg, start.value, key, w, m - 2);
    }
    NeverLockedSnoc(cfg, start, xs, Fail(key, w + 1), key);
    Fill(cfg, next, key, w + 1, m - 2);
    NeverLockedAppend(cfg, start, xs + [Fail(key, w + 1)], zs, key);
  }

  lemma {:induction false} AllCounted(evs: seq<Event>, key: string, lo: int, hi: int)
    requires forall i :: 0 <= i < |evs| ==> evs[i] == Fail(key, evs[i].now) && lo <= evs[i].now <= hi
    ensures Failures(evs, key, lo, hi) == |evs|
  {
    if evs != [] {
      AllCounted(evs[..|evs| - 1], key, lo, hi);
    }
  }

  /** The bound is tight for every setting: one failure fewer can pass within one window length
      without a lockout, after a single earlier failure. */
  lemma LockoutBoundTight(cfg: Config, key: string)
    ensures var evs, t := Slip(cfg, key), SlipStart(cfg);
            && InOneWindow(cfg, evs, key, t)
            && Failures(evs, key, t, t + cfg.windowSecs * SECOND) == cfg.Bound() - 1
            && NeverLocked(cfg, After(cfg, None, [Fail(key, 0)], key), evs, key)
  {
    hide NeverLocked;
    SlipUnlocked(cfg, key);
    assert [Fail(key, 0)][..0] == [];
    assert After(cfg, None, [Fail(key, 0)], key) == Some(Row(1, 0, None));
    var evs, t := Slip(cfg, key), SlipStart(cfg);
    RepeatIs(Fail(key, cfg.windowSecs * SECOND), cfg.Threshold() - 2);
    RepeatIs(Fail(key, cfg.windowSecs * SECOND + 1), cfg.Threshold() - 2);
    hide Repeat, After;
    assert forall i :: 0 <= i < |evs| ==>
        evs[i] == Fail(key, evs[i].now) && t <= evs[i].now <= t + cfg.windowSecs * SECOND;
    AllCounted(evs, key, t, t + cfg.windowSecs * SECOND);
  }

  // ----- Cleanup is invisible -------------------------------------------------------

  function WithoutCleanup(evs: seq<Event>): seq<Event> {
    if evs == [] then []
    else WithoutCleanup(evs[..|evs| - 1]) + if evs[|evs| - 1].Cleanup? then [] else [evs[|evs| - 1]]
  }

  /** Both rows answer alike now: to a query and to a failure. */
  ghost predicate AnswersAlike(cfg: Config, x: Option<Row>, y: Option<Row>, now: int) {
    Query(cfg, x, now) == Query(cfg, y, now) && Record(cfg, x, now) == Record(cfg, y, now)
  }

  ghost predicate CleanupInvisible(cfg: Config) {
    forall evs, key, now :: Clocked(evs) && Past(evs, now) ==>
      AnswersAlike(cfg, After(cfg, None, evs, key), After(cfg, None, WithoutCleanup(evs), key), now)
  }

  /** The row's lockout and window are both over, so it is as good as absent. */
  ghost predicate Dead(cfg: Config, row: Row, now: int) {
    && row.first < now - cfg.windowSecs * SECOND
    && row.lockedUntil.Some? && row.lockedUntil.value < now
  }

  ghost predicate SameOrDead(cfg: Config, x: Option<Row>, y: Option<Row>, now: int) {
    || x == y
    || (x.None? && y.Some? && Dead(cfg, y.value, now))
  }

  lemma {:induction false} CleanupSimulates(cfg: Config, evs: seq<Event>, key: string, now: int)
    requires cfg.lockoutSecs >= cfg.windowSecs && Clocked(evs) && Past(evs, now)
    ensures SameOrDead(cfg, After(cfg, None, evs, key), After(cfg, None, WithoutCleanup(evs), key), now)
  {
    if evs != [] {
      var n := |evs| - 1;
      var init, last := evs[..n], evs[n];
      ClockedPrefix(evs);
      CleanupSimulates(cfg, init, key, last.now);
      if init != [] {
        RowsDeserved(cfg, init, key);
      }
      assert last.now <= now;
      if !last.Cleanup? {
        var rest := WithoutCleanup(evs);
        assert rest[..|rest| - 1] == WithoutCleanup(init) && rest[|rest| - 1] == last;
      } else {
        assert WithoutCleanup(evs) == WithoutCleanup(init);
      }
    }
  }

  lemma {:induction false} WithoutCleanupSame(evs: seq<Event>)
    requires forall i :: 0 <= i < |evs| ==> !evs[i].Cleanup?
    ensures WithoutCleanup(evs) == evs
  {
    if evs != [] {
      WithoutCleanupSame(evs[..|evs| - 1]);
    }
  }

  /** Cleanups at any points of any run change no later answer exactly when the lockout is at
      least as long as the window. */
  lemma CleanupInvisibleIff(cfg: Config)
    ensures CleanupInvisible(cfg) <==> cfg.lockoutSecs >= cfg.windowSecs
  {
    if cfg.lockoutSecs >= cfg.windowSecs {
      forall evs, key, now | Clocked(evs) && Past(evs, now)
        ensures AnswersAlike(cfg, After(cfg, None, evs, key), After(cfg, None, WithoutCleanup(evs), key), now)
      {
        CleanupSimulates(cfg, evs, key, now);
      }
    } else {
      var evs, now := CleanupShows(cfg);
    }
  }

  /** With a shorter lockout a cleanup can forget a window that is still open. */
  lemma CleanupShows(cfg: Config) returns (evs: seq<Event>, now: int)
    requires cfg.lockoutSecs < cfg.windowSecs
    ensures Clocked(evs) && Past(evs, now)
    ensures !AnswersAlike(cfg, After(cfg, None, evs, ""), After(cfg, None, WithoutCleanup(evs), ""), now)
  {
    hide After, WithoutCleanup, Clocked, Past;
    now := cfg.lockoutSecs * SECOND + 1;
    Burst(cfg, "", 0, cfg.Threshold());
    evs := BurstThenCleanup(cfg, cfg.Threshold(), now);
  }

  lemma BurstThenCleanup(cfg: Config, n: nat, now: int) returns (evs: seq<Event>)
    requires now >= 0
    ensures Clocked(evs) && Past(evs, now)
    ensures WithoutCleanup(evs) == Repeat(Fail("", 0), n)
    ensures After(cfg, None, evs, "")
         == ApplyRow(cfg, After(cfg, None, Repeat(Fail("", 0), n), ""), Cleanup(now), "")
  {
    hide ApplyRow;
    var burst := Repeat(Fail("", 0), n);
    evs := burst + [Cleanup(now)];
    RepeatIs(Fail("", 0), n);
    hide Repeat;
    assert evs[..|evs| - 1] == burst;
    WithoutCleanupSame(burst);
    assert WithoutCleanup(evs) == burst + [] == burst;
  }
}
