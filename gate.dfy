/** The admission gate every public movie route passes through: it looks up
    the caller's API key, optionally checks a request signature, enforces the
    daily quota of 100 requests per key and UTC day, counts and logs the
    admitted request, and now and then purges usage logs older than 90 days.

    The durable store is modelled by three tables: the active API keys
    (`api_keys` rows with `is_active = 1`, key text to row id), the per-day
    counters (`daily_usage`, keyed by row id and UTC day number) and the usage
    log (`usage_logs`, in insertion order). Time is an injected clock in
    milliseconds since the Unix epoch; a storage call that throws is named by
    the `fault` parameter. */
module Gate {
  import opened Wrappers
  import opened JsText
  import opened Signature

  type KeyId = int

  const DayMs := 86400000
  /** The quota the gate enforces, whatever `daily_limit` the key's row holds. */
  const DailyLimit := 100
  const RetentionDays := 90
  const CleanupIntervalMs := 86400000
  /** The endpoint text of the bookkeeping rows that record a cleanup. */
  const CleanupMarker := "__cleanup__"
  const LoggedStatus := 200

  /** A row of `usage_logs`; `time` is the insertion time. */
  datatype LogEntry = LogEntry(keyId: KeyId, endpoint: string, status: int, time: int)

  datatype StoreState = StoreState(
    activeKeys: map<string, KeyId>,
    usage: map<(KeyId, int), nat>,
    logs: seq<LogEntry>)

  /** The calls of one gate invocation that can throw, in the order they run. */
  datatype Step =
    | LookupKey        // SELECT the active key row
    | ComputeDigest    // read the body, import the key, compute the HMAC
    | ReadUsage        // SELECT today's counter
    | IncrementUsage   // INSERT ... ON CONFLICT DO UPDATE the counter
    | InsertLog        // INSERT the usage log row
    | ReadLastCleanup  // SELECT MAX(timestamp) of the key's cleanup rows
    | DeleteOldLogs    // DELETE the rows older than the retention window
    | InsertMarker     // INSERT the cleanup row

  datatype Decision =
    | Allowed(remaining: int, resetTime: int, keyId: KeyId)
    | MissingKey                   // no X-API-Key header (checked by the route)
    | InvalidKey
    | BadSignature(verdict: Verdict)
    | RateLimited(resetTime: int)
    | Unavailable                  // a storage call threw
  {
    /** The HTTP status a route answers a refusal with. */
    function Status(): int
      requires !Allowed?
    {
      match this
      case MissingKey => 401
      case InvalidKey => 401
      case BadSignature(_) => 401
      case RateLimited(_) => 429
      case Unavailable => 500
    }

    /** The `remaining` field of the gate's answer, when it has one. */
    function Remaining(): Option<int> {
      match this
      case Allowed(r, _, _) => Some(r)
      case RateLimited(_) => Some(0)
      case _ => None
    }
  }

  /** The UTC day number of a time (`toISOString().split('T')[0]`). */
  function Today(now: int): int {
    now / DayMs
  }

  /** 00:00:00 UTC of the day after `now`: the first multiple of a day
      strictly after `now`. */
  function NextMidnight(now: int): (r: int)
    ensures r % DayMs == 0
    ensures now < r <= now + DayMs
  {
    (now / DayMs + 1) * DayMs
  }

  /** `usage?.request_count || 0`. */
  function CountOf(usage: map<(KeyId, int), nat>, id: KeyId, day: int): nat {
    if (id, day) in usage then usage[(id, day)] else 0
  }

  /** The upsert: insert 1 when there is no row, add 1 otherwise. Exactly one
      counter changes, by exactly one. */
  function Increment(usage: map<(KeyId, int), nat>, id: KeyId, day: int): (r: map<(KeyId, int), nat>)
    ensures CountOf(r, id, day) == CountOf(usage, id, day) + 1
    ensures forall i, d :: (i, d) != (id, day) ==> CountOf(r, i, d) == CountOf(usage, i, d)
    ensures r.Keys == usage.Keys + {(id, day)}
  {
    usage[(id, day) := CountOf(usage, id, day) + 1]
  }

  predicate IsMarkerOf(e: LogEntry, id: KeyId) {
    e.keyId == id && e.endpoint == CleanupMarker
  }

  /** `SELECT MAX(timestamp) ... WHERE api_key_id = ? AND endpoint = '__cleanup__'`:
      the latest cleanup row of the key, `None` when it has none. */
  function LastCleanup(logs: seq<LogEntry>, id: KeyId): (r: Option<int>)
    ensures r.None? <==> forall k :: 0 <= k < |logs| ==> !IsMarkerOf(logs[k], id)
    ensures r.Some? ==> forall k :: 0 <= k < |logs| && IsMarkerOf(logs[k], id) ==> logs[k].time <= r.value
    ensures r.Some? ==> exists k :: 0 <= k < |logs| && IsMarkerOf(logs[k], id) && logs[k].time == r.value
  {
    if logs == [] then None
    else
      var prev := LastCleanup(logs[..|logs| - 1], id);
      var e := logs[|logs| - 1];
      if !IsMarkerOf(e, id) then prev
      else if prev.Some? && prev.value >= e.time then prev
      else Some(e.time)
  }

  /** Cleanup is due when the key has no cleanup row, or its latest one is
      more than a day old. */
  predicate ShouldCleanup(logs: seq<LogEntry>, id: KeyId, now: int) {
    var last := LastCleanup(logs, id);
    last.None? || now - last.value > CleanupIntervalMs
  }

  /** The first UTC day whose rows survive a cleanup run at `now`. */
  function RetentionCutoff(now: int): int {
    Today(now) - RetentionDays
  }

  /** `DELETE FROM usage_logs WHERE DATE(timestamp) < cutoff`, for every key:
      what is left is exactly the rows dated on or after the cutoff day, each
      as often as before. */
  function Purge(logs: seq<LogEntry>, cutoffDay: int): (r: seq<LogEntry>)
    ensures |r| <= |logs|
    ensures forall e: LogEntry :: e in r <==> e in logs && Today(e.time) >= cutoffDay
  {
    if logs == [] then []
    else
      assert logs == [logs[0]] + logs[1..];
      var kept: seq<LogEntry> := if Today(logs[0].time) < cutoffDay then [] else [logs[0]];
      kept + Purge(logs[1..], cutoffDay)
  }

  /** The signature layer as the gate runs it: `None` lets the request go on,
      `Some(d)` ends it with `d`. It runs only when `X-Signature` is present
      and not empty; the digest is computed (and can throw) only once both
      headers are there and the timestamp is in the window. */
  function CheckSignature(req: Option<Request>, apiKey: string, now: int, mac: Mac, fault: Option<Step>): Option<Decision> {
    if req.None? || !Present(req.value.signature) then None
    else if !Present(req.value.timestamp) then Some(BadSignature(MissingHeader))
    else if Expired(now, ParseInt(req.value.timestamp.value)) then Some(BadSignature(TimestampExpired))
    else if fault == Some(ComputeDigest) then Some(Unavailable)
    else
      var verdict := VerifySignature(req.value, apiKey, now, mac);
      if verdict == Valid then None else Some(BadSignature(verdict))
  }

  /** `validateAPIKeyAndRateLimit`: the decision and the store afterwards. */
  function Admit(st: StoreState, apiKey: string, endpoint: string, req: Option<Request>,
                now: int, mac: Mac, fault: Option<Step>): (Decision, StoreState)
  {
    if fault == Some(LookupKey) then (Unavailable, st)
    else if apiKey !in st.activeKeys then (InvalidKey, st)
    else
      var id := st.activeKeys[apiKey];
      var sig := CheckSignature(req, apiKey, now, mac, fault);
      if sig.Some? then (sig.value, st)
      else if fault == Some(ReadUsage) then (Unavailable, st)
      else
        var count := CountOf(st.usage, id, Today(now));
        if count >= DailyLimit then (RateLimited(NextMidnight(now)), st)
        else Record(st, id, endpoint, now, count, fault)
  }

  /** The admitted part of the gate: count the request, log it, then tidy
      up. `count` is the counter read before. */
  function Record(st: StoreState, id: KeyId, endpoint: string, now: int, count: int,
                  fault: Option<Step>): (Decision, StoreState)
  {
    if fault == Some(IncrementUsage) then (Unavailable, st)
    else
      var st1 := st.(usage := Increment(st.usage, id, Today(now)));
      if fault == Some(InsertLog) then (Unavailable, st1)
      else
        var st2 := st1.(logs := st1.logs + [LogEntry(id, endpoint, LoggedStatus, now)]);
        Tidy(st2, id, now, Allowed(DailyLimit - count - 1, NextMidnight(now), id), fault)
  }

  /** The log cleanup that ends an admission answered with `allowed`. */
  function Tidy(st: StoreState, id: KeyId, now: int, allowed: Decision, fault: Option<Step>): (Decision, StoreState)
  {
    if fault == Some(ReadLastCleanup) then (Unavailable, st)
    else if !ShouldCleanup(st.logs, id, now) then (allowed, st)
    else if fault == Some(DeleteOldLogs) then (Unavailable, st)
    else
      var st3 := st.(logs := Purge(st.logs, RetentionCutoff(now)));
      if fault == Some(InsertMarker) then (Unavailable, st3)
      else (allowed, st3.(logs := st3.logs + [LogEntry(id, CleanupMarker, LoggedStatus, now)]))
  }

  /** The durable store, updated in place by the gate's storage calls. */
  class Store {
    var activeKeys: map<string, KeyId>
    var usage: map<(KeyId, int), nat>
    var logs: seq<LogEntry>

    function State(): StoreState
      reads this
    {
      StoreState(activeKeys, usage, logs)
    }

    constructor (keys: map<string, KeyId>)
      ensures State() == StoreState(keys, map[], [])
    {
      activeKeys, usage, logs := keys, map[], [];
    }

    method UpsertUsage(id: KeyId, day: int)
      modifies this`usage
      ensures usage == Increment(old(usage), id, day)
    {
      usage := usage[(id, day) := CountOf(usage, id, day) + 1];
    }

    method AppendLog(e: LogEntry)
      modifies this`logs
      ensures logs == old(logs) + [e]
    {
      logs := logs + [e];
    }

    method DeleteLogsBefore(cutoffDay: int)
      modifies this`logs
      ensures logs == Purge(old(logs), cutoffDay)
    {
      logs := Purge(logs, cutoffDay);
    }

    /** One call of the gate, storage call by storage call. */
    method Authorize(apiKey: string, endpoint: string, req: Option<Request>,
                     now: int, mac: Mac, fault: Option<Step>) returns (d: Decision)
      modifies this
      ensures (d, State()) == Admit(old(State()), apiKey, endpoint, req, now, mac, fault)
    {
      if fault == Some(LookupKey) { return Unavailable; }
      if apiKey !in activeKeys { return InvalidKey; }
      var id := activeKeys[apiKey];
      var sig := CheckSignature(req, apiKey, now, mac, fault);
      if sig.Some? { return sig.value; }

      if fault == Some(ReadUsage) { return Unavailable; }
      var today := Today(now);
      var currentCount := CountOf(usage, id, today);
      if currentCount >= DailyLimit { return RateLimited(NextMidnight(now)); }

      d := RecordAdmitted(id, endpoint, now, currentCount, fault);
    }

    /** The storage calls after the quota check, one at a time. */
    method RecordAdmitted(id: KeyId, endpoint: string, now: int, count: int, fault: Option<Step>)
      returns (d: Decision)
      modifies this
      ensures (d, State()) == Record(old(State()), id, endpoint, now, count, fault)
    {
      if fault == Some(IncrementUsage) { return Unavailable; }
      UpsertUsage(id, Today(now));
      if fault == Some(InsertLog) { return Unavailable; }
      AppendLog(LogEntry(id, endpoint, LoggedStatus, now));
      d := Cleanup(id, now, Allowed(DailyLimit - count - 1, NextMidnight(now), id), fault);
    }

    /** The cleanup, one storage call at a time. */
    method Cleanup(id: KeyId, now: int, allowed: Decision, fault: Option<Step>) returns (d: Decision)
      modifies this
      ensures (d, State()) == Tidy(old(State()), id, now, allowed, fault)
    {
      if fault == Some(ReadLastCleanup) { return Unavailable; }
      var last := LastCleanup(logs, id);
      if last.None? || now - last.value > CleanupIntervalMs {
        if fault == Some(DeleteOldLogs) { return Unavailable; }
        DeleteLogsBefore(RetentionCutoff(now));
        if fault == Some(InsertMarker) { return Unavailable; }
        AppendLog(LogEntry(id, CleanupMarker, LoggedStatus, now));
      }
      d := allowed;
    }

    /** A public route: no (or an empty) `X-API-Key` header is refused with 401
        before the store is touched; otherwise the gate decides. */
    method HandleRoute(apiKeyHeader: Option<string>, endpoint: string, req: Option<Request>,
                       now: int, mac: Mac, fault: Option<Step>) returns (d: Decision)
      modifies this
      ensures !Present(apiKeyHeader) ==> d == MissingKey && State() == old(State())
      ensures Present(apiKeyHeader) ==>
        (d, State()) == Admit(old(State()), apiKeyHeader.value, endpoint, req, now, mac, fault)
    {
      if !Present(apiKeyHeader) { return MissingKey; }
      d := Authorize(apiKeyHeader.value, endpoint, req, now, mac, fault);
    }
  }
}
