/** The per-user download quota of the bot (bot.py:20-56): a process-wide table
    from Telegram user id to a usage record, and `check_rate_limit`, which rolls
    the daily count over, creates records lazily, applies the daily limit and
    then the minimum interval between admitted requests.

    Time is an integer number of microseconds, the resolution of `datetime`;
    the clock read of bot.py:25 is the parameter `now`. */
module Quota {
  import opened Common

  type UserId = int
  type Time = int

  const MicrosPerSecond: int := 1000000
  const SecondsPerDay: int := 86400
  /** `timedelta(days=1)` in microseconds. */
  const OneDay: int := SecondsPerDay * MicrosPerSecond

  /** The two numeric bot settings `check_rate_limit` reads. */
  datatype Settings = Settings(maxDownloadsPerUser: int, rateLimit: int)

  /** The values config.py ships: 10 downloads a day, 30 seconds apart. */
  const Configured: Settings := Settings(10, 30)

  /** One entry of `user_downloads`: `last_time`, `daily_count`, `last_request`. */
  datatype Record = Record(lastTime: Time, dailyCount: nat, lastRequest: Option<Time>)

  type Table = map<UserId, Record>

  /** Why a request was admitted or refused; `TooSoon` carries the reported wait. */
  datatype Outcome = Admitted | DailyLimitReached | TooSoon(wait: nat)

  /** The outcome of one call together with the table it leaves behind. */
  datatype Step = Step(outcome: Outcome, table: Table)

  /** `timedelta.seconds` of an elapsed time: whole seconds with whole days dropped.
      Dafny's `/` and `%` by a positive divisor round toward minus infinity,
      as Python's timedelta normalisation does. */
  function TimedeltaSeconds(elapsed: int): (s: nat)
    ensures s < SecondsPerDay
    ensures 0 <= elapsed < OneDay ==> s == elapsed / MicrosPerSecond
  {
    (elapsed / MicrosPerSecond) % SecondsPerDay
  }

  /** Adding whole days to an elapsed time does not change `.seconds`. */
  lemma SecondsIgnoreWholeDays(elapsed: int, days: int)
    ensures TimedeltaSeconds(elapsed + days * OneDay) == TimedeltaSeconds(elapsed)
  {
    var q := elapsed / MicrosPerSecond;
    var r := elapsed % MicrosPerSecond;
    assert elapsed == q * MicrosPerSecond + r;
    assert elapsed + days * OneDay == (q + days * SecondsPerDay) * MicrosPerSecond + r;
    assert (elapsed + days * OneDay) / MicrosPerSecond == q + days * SecondsPerDay;
    assert (q + days * SecondsPerDay) % SecondsPerDay == q % SecondsPerDay;
  }

  const DailyLimitMessage: string :=
    "\U{274C}" + " You've reached your daily download limit. Try again tomorrow."

  const WaitPrefix: string := "\U{23F3} Please wait "
  const WaitSuffix: string := " seconds before another request."

  /** The refusal text of bot.py:49: the wait, printed in decimal, between a
      fixed prefix and suffix, so that it can be read back. */
  function WaitMessage(wait: nat): (r: string)
    ensures WaitPrefix <= r && |WaitPrefix| + |WaitSuffix| < |r|
    ensures r[|r| - |WaitSuffix|..] == WaitSuffix
    ensures var digits := r[|WaitPrefix|..|r| - |WaitSuffix|];
      && (forall i :: 0 <= i < |digits| ==> IsDigit(digits[i]))
      && (digits[0] == '0' ==> digits == "0")
      && DecimalValue(digits) == wait
  {
    var digits := NatToDecimal(wait);
    var r := WaitPrefix + digits + WaitSuffix;
    assert r[|WaitPrefix|..|r| - |WaitSuffix|] == digits;
    assert r[|r| - |WaitSuffix|..] == WaitSuffix;
    DecimalRoundTrip(wait);
    r
  }

  /** The second component `check_rate_limit` returns: empty exactly on
      admission (bot.py:56), otherwise the refusal text of bot.py:43 or 49. */
  function Message(outcome: Outcome): (r: string)
    ensures r == "" <==> outcome.Admitted?
  {
    match outcome
    case Admitted => ""
    case DailyLimitReached => DailyLimitMessage
    case TooSoon(wait) => WaitMessage(wait)
  }

  /** The message alone tells the caller what happened: it is empty exactly on
      admission, and different outcomes never share a message. */
  lemma MessageDeterminesOutcome(a: Outcome, b: Outcome)
    ensures Message(a) == "" <==> a.Admitted?
    ensures Message(a) == Message(b) ==> a == b
  {
    if a.TooSoon? {
      assert Message(a)[0] == WaitPrefix[0];
    }
    if b.TooSoon? {
      assert Message(b)[0] == WaitPrefix[0];
    }
  }

  /** Steps 1 and 2 (bot.py:27-39): the record the limit checks look at. An
      existing record whose `last_time` is more than one day old has its count
      reset; an unknown user gets a fresh record. */
  function Prepared(table: Table, user: UserId, now: Time): (rec: Record)
    ensures user in table ==>
      && rec.lastTime == table[user].lastTime
      && rec.lastRequest == table[user].lastRequest
      && rec.dailyCount <= table[user].dailyCount
      && (rec.dailyCount == 0 <==> table[user].dailyCount == 0 || now - table[user].lastTime > OneDay)
    ensures user !in table ==> rec.lastTime == now && rec.dailyCount == 0 && rec.lastRequest.None?
  {
    if user in table then
      if now - table[user].lastTime > OneDay then table[user].(dailyCount := 0) else table[user]
    else
      Record(now, 0, None)
  }

  /** Steps 3 and 4 (bot.py:41-49), in that order. */
  function Decide(rec: Record, now: Time, settings: Settings): (outcome: Outcome)
    ensures outcome.Admitted? ==> rec.dailyCount < settings.maxDownloadsPerUser
    ensures outcome.TooSoon? ==> rec.lastRequest.Some? && 1 <= outcome.wait <= settings.rateLimit
    ensures rec.lastRequest.None? && rec.dailyCount < settings.maxDownloadsPerUser ==> outcome.Admitted?
  {
    if rec.dailyCount >= settings.maxDownloadsPerUser then
      DailyLimitReached
    else if rec.lastRequest.Some? && TimedeltaSeconds(now - rec.lastRequest.value) < settings.rateLimit then
      TooSoon(settings.rateLimit - TimedeltaSeconds(now - rec.lastRequest.value))
    else
      Admitted
  }

  /** One call of `check_rate_limit` as a function of the table before it. Only
      an admission (bot.py:52-54) changes the record beyond steps 1 and 2. */
  function Evaluate(table: Table, user: UserId, now: Time, settings: Settings): (r: Step)
    ensures r.table.Keys == table.Keys + {user}
    ensures forall u :: u in table && u != user ==> r.table[u] == table[u]
  {
    var rec := Prepared(table, user, now);
    var outcome := Decide(rec, now, settings);
    var stored := if outcome.Admitted? then Record(now, rec.dailyCount + 1, Some(now)) else rec;
    Step(outcome, table[user := stored])
  }

  /** What holds of every record the bot ever stores. */
  predicate RecordInvariant(rec: Record, settings: Settings) {
    && (rec.dailyCount == 0 || rec.dailyCount <= settings.maxDownloadsPerUser)
    && (rec.lastRequest.None? ==> rec.dailyCount == 0)
    && (rec.lastRequest.Some? ==> rec.lastRequest.value == rec.lastTime)
  }

  predicate TableInvariant(table: Table, settings: Settings) {
    forall u :: u in table ==> RecordInvariant(table[u], settings)
  }

  /** The process-wide `user_downloads` table and the operation that reads and
      updates it in place. */
  class DownloadTracker {
    const settings: Settings
    var downloads: Table

    ghost predicate Valid()
      reads this
    {
      TableInvariant(downloads, settings)
    }

    /** `user_downloads = {}` (bot.py:21) with the configured limits. */
    constructor(settings: Settings)
      ensures this.settings == settings
      ensures downloads == map[]
      ensures Valid()
    {
      this.settings := settings;
      downloads := map[];
    }

    /** `check_rate_limit(user_id)` (bot.py:23-56) at time `now`. */
    method CheckRateLimit(userId: UserId, now: Time) returns (allowed: bool, msg: string)
      modifies this
      ensures var step := Evaluate(old(downloads), userId, now, settings);
        && downloads == step.table
        && allowed == step.outcome.Admitted?
        && msg == Message(step.outcome)
      ensures old(Valid()) ==> Valid()
    {
      ghost var before := downloads;
      if userId in downloads {
        var lastTime := downloads[userId].lastTime;
        if now - lastTime > OneDay {
          downloads := downloads[userId := downloads[userId].(dailyCount := 0)];
        }
      }
      if userId !in downloads {
        downloads := downloads[userId := Record(now, 0, None)];
      }
      ghost var rec := Prepared(before, userId, now);
      assert downloads == before[userId := rec];
      if TableInvariant(before, settings) {
        EvaluatePreservesInvariant(before, userId, now, settings);
      }

      if downloads[userId].dailyCount >= settings.maxDownloadsPerUser {
        assert Decide(rec, now, settings) == DailyLimitReached;
        return false, DailyLimitMessage;
      }

      var lastRequest := downloads[userId].lastRequest;
      if lastRequest.Some? && TimedeltaSeconds(now - lastRequest.value) < settings.rateLimit {
        var waitTime := settings.rateLimit - TimedeltaSeconds(now - lastRequest.value);
        assert Decide(rec, now, settings) == TooSoon(waitTime);
        return false, WaitMessage(waitTime);
      }

      assert Decide(rec, now, settings) == Admitted;
      downloads := downloads[userId := downloads[userId].(lastTime := now)];
      downloads := downloads[userId := downloads[userId].(dailyCount := downloads[userId].dailyCount + 1)];
      downloads := downloads[userId := downloads[userId].(lastRequest := Some(now))];
      assert downloads == before[userId := Record(now, rec.dailyCount + 1, Some(now))];
      return true, "";
    }
  }

  /** Every call keeps the invariant of every record, starting from any table
      that has it (the empty table included). */
  lemma EvaluatePreservesInvariant(table: Table, user: UserId, now: Time, settings: Settings)
    requires TableInvariant(table, settings)
    ensures TableInvariant(Evaluate(table, user, now, settings).table, settings)
  {
  }

  /** Rollover (bot.py:28-31): more than one day after `last_time` the count
      restarts from zero before either check, and the reset is stored even when
      the call then refuses. */
  lemma RolloverResetsCount(table: Table, user: UserId, now: Time, settings: Settings)
    requires user in table && now - table[user].lastTime > OneDay
    ensures var r := Evaluate(table, user, now, settings);
      && r.table[user].dailyCount == (if r.outcome.Admitted? then 1 else 0)
      && (r.outcome == DailyLimitReached <==> settings.maxDownloadsPerUser <= 0)
      && (!r.outcome.Admitted? ==> r.table[user] == table[user].(dailyCount := 0))
  {
  }

  /** No rollover (bot.py:30): up to and including exactly one day after
      `last_time`, the call sees the stored count unchanged, and a refusal
      leaves the whole table as it was. */
  lemma NoRolloverWithinOneDay(table: Table, user: UserId, now: Time, settings: Settings)
    requires user in table && now - table[user].lastTime <= OneDay
    ensures var r := Evaluate(table, user, now, settings);
      && (r.outcome == DailyLimitReached <==> table[user].dailyCount >= settings.maxDownloadsPerUser)
      && (!r.outcome.Admitted? ==> r.table == table)
      && (r.outcome.Admitted? ==> r.table[user].dailyCount == table[user].dailyCount + 1)
  {
  }

  /** A first-time user (bot.py:34-39) gets `{now, 0, None}`; with no previous
      request the interval check cannot refuse, so only the daily limit can. */
  lemma NewUserRecord(table: Table, user: UserId, now: Time, settings: Settings)
    requires user !in table
    ensures var r := Evaluate(table, user, now, settings);
      && (r.outcome.Admitted? <==> settings.maxDownloadsPerUser > 0)
      && r.table[user] == (if r.outcome.Admitted? then Record(now, 1, Some(now)) else Record(now, 0, None))
  {
  }

  /** The limit checks (bot.py:41-49), in order: the daily limit wins over the
      interval; the interval refuses exactly when an earlier admitted request
      is fewer than `rate_limit` `.seconds` ago; the reported wait is the rest
      of the interval and is never zero. */
  lemma LimitChecks(table: Table, user: UserId, now: Time, settings: Settings)
    ensures var rec := Prepared(table, user, now);
      var r := Evaluate(table, user, now, settings);
      && (r.outcome == DailyLimitReached <==> rec.dailyCount >= settings.maxDownloadsPerUser)
      && (r.outcome.TooSoon? <==>
            rec.dailyCount < settings.maxDownloadsPerUser && rec.lastRequest.Some?
            && TimedeltaSeconds(now - rec.lastRequest.value) < settings.rateLimit)
      && (r.outcome.TooSoon? ==>
            && r.outcome.wait == settings.rateLimit - TimedeltaSeconds(now - rec.lastRequest.value)
            && 1 <= r.outcome.wait <= settings.rateLimit)
  {
  }

  /** Refusals (bot.py:43, 49) return before the update of bot.py:52-54: the
      record is what steps 1 and 2 made of it. In particular `last_time` and
      `last_request` stay, and the count never grows. */
  lemma RefusalChangesNothing(table: Table, user: UserId, now: Time, settings: Settings)
    requires !Evaluate(table, user, now, settings).outcome.Admitted?
    ensures var r := Evaluate(table, user, now, settings);
      && r.table[user] == Prepared(table, user, now)
      && (user in table ==>
            && r.table[user].lastTime == table[user].lastTime
            && r.table[user].lastRequest == table[user].lastRequest
            && r.table[user].dailyCount <= table[user].dailyCount)
  {
  }

  /** Admission (bot.py:51-56): an empty message, the count up by exactly one,
      and both timestamps set to `now`. */
  lemma AdmissionUpdatesRecord(table: Table, user: UserId, now: Time, settings: Settings)
    requires Evaluate(table, user, now, settings).outcome.Admitted?
    ensures var r := Evaluate(table, user, now, settings);
      var rec := Prepared(table, user, now);
      && Message(r.outcome) == ""
      && r.table[user] == Record(now, rec.dailyCount + 1, Some(now))
      && rec.dailyCount < settings.maxDownloadsPerUser
  {
  }

  /** The interval, seen across two calls: after an admission at `t1`, a second
      request less than a day later is refused exactly when it comes fewer than
      `rate_limit` whole seconds after the first, with the rest as the wait. */
  lemma IntervalAfterAdmission(table: Table, user: UserId, t1: Time, t2: Time, settings: Settings)
    requires Evaluate(table, user, t1, settings).outcome.Admitted?
    requires Evaluate(table, user, t1, settings).table[user].dailyCount < settings.maxDownloadsPerUser
    requires 0 <= t2 - t1 < OneDay
    ensures var first := Evaluate(table, user, t1, settings);
      Evaluate(first.table, user, t2, settings).outcome ==
        if t2 - t1 < settings.rateLimit * MicrosPerSecond
        then TooSoon(settings.rateLimit - (t2 - t1) / MicrosPerSecond)
        else Admitted
  {
    var first := Evaluate(table, user, t1, settings);
    assert Prepared(first.table, user, t2) == first.table[user];
    var s := TimedeltaSeconds(t2 - t1);
    assert s == (t2 - t1) / MicrosPerSecond;
    assert s < settings.rateLimit <==> t2 - t1 < settings.rateLimit * MicrosPerSecond;
  }

  // ----- Sequences of calls -----

  /** One incoming message: who sent it and when. */
  datatype Request = Request(user: UserId, time: Time)

  /** The outcomes of a sequence of calls and the table they leave behind. */
  datatype Trace = Trace(outcomes: seq<Outcome>, table: Table)

  /** The calls of `check_rate_limit` for `requests`, one after another. */
  function Run(table: Table, requests: seq<Request>, settings: Settings): (r: Trace)
    ensures |r.outcomes| == |requests|
    ensures r.table.Keys == table.Keys + set i | 0 <= i < |requests| :: requests[i].user
    decreases |requests|
  {
    if requests == [] then Trace([], table)
    else
      var step := Evaluate(table, requests[0].user, requests[0].time, settings);
      var rest := Run(step.table, requests[1..], settings);
      assert (set i | 0 <= i < |requests| :: requests[i].user)
          == {requests[0].user} + set i | 0 <= i < |requests[1..]| :: requests[1..][i].user
      by {
        forall i | 0 <= i < |requests[1..]| ensures requests[1..][i] == requests[i + 1] { }
        forall i | 0 <= i < |requests| && i > 0 ensures requests[i] == requests[1..][i - 1] { }
      }
      Trace([step.outcome] + rest.outcomes, rest.table)
  }

  /** How many of `requests` from `user` were admitted. */
  function Admissions(requests: seq<Request>, outcomes: seq<Outcome>, user: UserId): nat
    requires |requests| == |outcomes|
    decreases |requests|
  {
    if requests == [] then 0
    else
      (if requests[0].user == user && outcomes[0].Admitted? then 1 else 0)
      + Admissions(requests[1..], outcomes[1..], user)
  }

  /** The invariant holds after any sequence of calls from the empty table. */
  lemma {:induction false} RunPreservesInvariant(table: Table, requests: seq<Request>, settings: Settings)
    requires TableInvariant(table, settings)
    ensures TableInvariant(Run(table, requests, settings).table, settings)
    decreases |requests|
  {
    if requests != [] {
      EvaluatePreservesInvariant(table, requests[0].user, requests[0].time, settings);
      var step := Evaluate(table, requests[0].user, requests[0].time, settings);
      RunPreservesInvariant(step.table, requests[1..], settings);
    }
  }

  /** Independence: requests from other users never touch a user's record. */
  lemma {:induction false} RunIndependence(table: Table, requests: seq<Request>, settings: Settings, user: UserId)
    requires forall i :: 0 <= i < |requests| ==> requests[i].user != user
    ensures var final := Run(table, requests, settings).table;
      && (user in final <==> user in table)
      && (user in table ==> final[user] == table[user])
    decreases |requests|
  {
    if requests != [] {
      var step := Evaluate(table, requests[0].user, requests[0].time, settings);
      RunIndependence(step.table, requests[1..], settings, user);
    }
  }

  /** Within one day window (every request of `user` at most a day after a time
      `start` no later than the record's `last_time`), the count grows by exactly
      the number of admitted requests; refusals never add to it. */
  lemma {:induction false} RunCountsAdmissions(
    table: Table, requests: seq<Request>, settings: Settings, user: UserId, start: Time)
    requires user in table && start <= table[user].lastTime
    requires forall i :: 0 <= i < |requests| && requests[i].user == user ==>
      start <= requests[i].time <= start + OneDay
    ensures var trace := Run(table, requests, settings);
      && user in trace.table
      && start <= trace.table[user].lastTime
      && trace.table[user].dailyCount
         == table[user].dailyCount + Admissions(requests, trace.outcomes, user)
    decreases |requests|
  {
    if requests != [] {
      var req := requests[0];
      var step := Evaluate(table, req.user, req.time, settings);
      if req.user == user {
        assert Prepared(table, user, req.time) == table[user];
      }
      assert step.table[user].dailyCount
          == table[user].dailyCount + (if req.user == user && step.outcome.Admitted? then 1 else 0);
      forall i | 0 <= i < |requests[1..]| && requests[1..][i].user == user
        ensures start <= requests[1..][i].time <= start + OneDay
      {
        assert requests[1..][i] == requests[i + 1];
      }
      RunCountsAdmissions(step.table, requests[1..], settings, user, start);
      var trace := Run(table, requests, settings);
      assert trace.outcomes[1..] == Run(step.table, requests[1..], settings).outcomes;
    }
  }

  // ----- Worked cases with the configured limits -----

  /** A request ten seconds after an admitted one is told to wait twenty. */
  lemma TenSecondsAfterAdmission(table: Table, user: UserId)
    requires user !in table
    ensures var first := Evaluate(table, user, 0, Configured);
      var second := Evaluate(first.table, user, 10 * MicrosPerSecond, Configured);
      && first.outcome == Admitted
      && second.outcome == TooSoon(20)
      && Message(second.outcome) == WaitPrefix + "20" + WaitSuffix
  {
    var first := Evaluate(table, user, 0, Configured);
    assert first.table[user] == Record(0, 1, Some(0));
    assert NatToDecimal(20) == "20";
  }

  /** `.seconds` drops whole days: returning one day and ten seconds after an
      admission resets the count and is still told to wait twenty seconds. */
  lemma OneDayAndTenSecondsLater(table: Table, user: UserId, t: Time)
    requires user in table && table[user] == Record(t, 1, Some(t))
    ensures var r := Evaluate(table, user, t + OneDay + 10 * MicrosPerSecond, Configured);
      && r.outcome == TooSoon(20)
      && r.table[user] == Record(t, 0, Some(t))
  {
  }
}
