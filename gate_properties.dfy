/** What the admission gate promises: which paths change the store and by
    exactly how much, which storage calls each path makes, the quota arithmetic
    over a day, and how often the log cleanup runs. */
module GateProperties {
  import opened Wrappers
  import opened JsText
  import opened Signature
  import opened Gate

  /** A key without an active row is refused with 401 and nothing after the
      lookup runs: whichever later call would throw, the answer and the store
      are the same, so the counters and the log are neither read nor written. */
  lemma UnknownKeyTouchesNothing(st: StoreState, apiKey: string, endpoint: string,
                                 req: Option<Request>, now: int, mac: Mac, fault: Option<Step>)
    requires apiKey !in st.activeKeys
    requires fault != Some(LookupKey)
    ensures Admit(st, apiKey, endpoint, req, now, mac, fault) == (InvalidKey, st)
    ensures InvalidKey.Status() == 401
  {
  }

  /** Without an `X-Signature` header (or with an empty one) the request
      context plays no part in the decision. */
  lemma UnsignedRequestSkipsSignature(st: StoreState, apiKey: string, endpoint: string,
                                      req: Option<Request>, now: int, mac: Mac, fault: Option<Step>)
    requires req.None? || !Present(req.value.signature)
    ensures Admit(st, apiKey, endpoint, req, now, mac, fault) == Admit(st, apiKey, endpoint, None, now, mac, fault)
  {
  }

  /** A signed request whose signature the verifier refuses (missing
      timestamp, stale timestamp, wrong digest) is answered 401 with the
      verifier's reason before any quota call: the store is unchanged and no
      counter or log call runs. */
  lemma RefusedSignatureCostsNothing(st: StoreState, apiKey: string, endpoint: string,
                                     req: Option<Request>, now: int, mac: Mac, fault: Option<Step>)
    requires apiKey in st.activeKeys
    requires fault != Some(LookupKey) && fault != Some(ComputeDigest)
    requires req.Some? && Present(req.value.signature)
    requires VerifySignature(req.value, apiKey, now, mac) != Valid
    ensures Admit(st, apiKey, endpoint, req, now, mac, fault)
         == (BadSignature(VerifySignature(req.value, apiKey, now, mac)), st)
    ensures BadSignature(VerifySignature(req.value, apiKey, now, mac)).Status() == 401
  {
  }

  /** At 100 or more requests today the answer is 429 with nothing remaining
      and the reset at the next UTC midnight; no write is attempted, so the
      counter and the log stay as they were. */
  lemma ExhaustedQuotaRefused(st: StoreState, apiKey: string, endpoint: string,
                              req: Option<Request>, now: int, mac: Mac, fault: Option<Step>)
    requires apiKey in st.activeKeys
    requires CountOf(st.usage, st.activeKeys[apiKey], Today(now)) >= DailyLimit
    requires CheckSignature(req, apiKey, now, mac, fault).None?
    requires fault != Some(LookupKey) && fault != Some(ReadUsage)
    ensures Admit(st, apiKey, endpoint, req, now, mac, fault) == (RateLimited(NextMidnight(now)), st)
    ensures RateLimited(NextMidnight(now)).Status() == 429
    ensures RateLimited(NextMidnight(now)).Remaining() == Some(0)
  {
  }

  /** An admitted request: today's counter of its key goes up by exactly one
      (from nothing to 1 on the first request of the day), no other counter
      changes, exactly one log row (key, endpoint, 200) is appended before the
      cleanup decision, `remaining` is 99 minus the count read and lies in
      0..99, and the reset is the next UTC midnight. */
  lemma AdmittedRequestEffects(st: StoreState, apiKey: string, endpoint: string,
                               req: Option<Request>, now: int, mac: Mac, fault: Option<Step>)
    requires Admit(st, apiKey, endpoint, req, now, mac, fault).0.Allowed?
    ensures apiKey in st.activeKeys
    ensures
      var (d, after) := Admit(st, apiKey, endpoint, req, now, mac, fault);
      var id := st.activeKeys[apiKey];
      var day := Today(now);
      var count := CountOf(st.usage, id, day);
      var logged := st.logs + [LogEntry(id, endpoint, LoggedStatus, now)];
      && d.keyId == id
      && count < DailyLimit
      && CountOf(after.usage, id, day) == count + 1
      && (forall i, dd :: (i, dd) != (id, day) ==> CountOf(after.usage, i, dd) == CountOf(st.usage, i, dd))
      && d.remaining == DailyLimit - 1 - count
      && 0 <= d.remaining < DailyLimit
      && d.resetTime == NextMidnight(now)
      && after.activeKeys == st.activeKeys
      && after.logs == if ShouldCleanup(logged, id, now)
                       then Purge(logged, RetentionCutoff(now)) + [LogEntry(id, CleanupMarker, LoggedStatus, now)]
                       else logged
  {
  }

  /** Without a storage failure the gate never answers 500. */
  lemma NoFaultNoOutage(st: StoreState, apiKey: string, endpoint: string,
                        req: Option<Request>, now: int, mac: Mac)
    ensures Admit(st, apiKey, endpoint, req, now, mac, None).0 != Unavailable
  {
  }

  /** A failure in the signature layer can only be the digest's, and it
      ends the request with 500. */
  lemma SignatureFault(req: Option<Request>, apiKey: string, now: int, mac: Mac, f: Step)
    ensures f != ComputeDigest ==>
      CheckSignature(req, apiKey, now, mac, Some(f)) == CheckSignature(req, apiKey, now, mac, None)
    ensures CheckSignature(req, apiKey, now, mac, Some(f)) == Some(Unavailable)
         || CheckSignature(req, apiKey, now, mac, Some(f)) == CheckSignature(req, apiKey, now, mac, None)
  {
  }

  /** A failure during the cleanup ends the request with 500 or is not
      reached; the cleanup query always runs. */
  lemma TidyFault(st: StoreState, id: KeyId, now: int, allowed: Decision, f: Step)
    ensures var r := Tidy(st, id, now, allowed, Some(f));
      r.0 == Unavailable || r == Tidy(st, id, now, allowed, None)
    ensures f == ReadLastCleanup ==> Tidy(st, id, now, allowed, Some(f)).0 == Unavailable
  {
    if f != ReadLastCleanup && ShouldCleanup(st.logs, id, now) {
      assert f == DeleteOldLogs || f == InsertMarker || Tidy(st, id, now, allowed, Some(f)) == Tidy(st, id, now, allowed, None);
    }
  }

  /** The same for the counting and logging of an admitted request. */
  lemma RecordFault(st: StoreState, id: KeyId, endpoint: string, now: int, count: int, f: Step)
    ensures var r := Record(st, id, endpoint, now, count, Some(f));
      r.0 == Unavailable || r == Record(st, id, endpoint, now, count, None)
    ensures f == IncrementUsage || f == InsertLog || f == ReadLastCleanup ==>
      Record(st, id, endpoint, now, count, Some(f)).0 == Unavailable
  {
    var st1 := st.(usage := Increment(st.usage, id, Today(now)));
    var st2 := st1.(logs := st1.logs + [LogEntry(id, endpoint, LoggedStatus, now)]);
    TidyFault(st2, id, now, Allowed(DailyLimit - count - 1, NextMidnight(now), id), f);
  }

  /** A failing storage call either ends the request with 500 or is never
      reached, in which case everything happens as if nothing had failed: a
      failure is never turned into an admission or a refusal of its own. */
  lemma FaultEndsWithOutageOrIsUnreached(st: StoreState, apiKey: string, endpoint: string,
                                         req: Option<Request>, now: int, mac: Mac, f: Step)
    ensures
      var r := Admit(st, apiKey, endpoint, req, now, mac, Some(f));
      r.0 == Unavailable || r == Admit(st, apiKey, endpoint, req, now, mac, None)
  {
    SignatureFault(req, apiKey, now, mac, f);
    if apiKey in st.activeKeys {
      RecordFault(st, st.activeKeys[apiKey], endpoint, now, CountOf(st.usage, st.activeKeys[apiKey], Today(now)), f);
    }
  }

  /** An admission is only reported once the lookup, the counter read, the
      upsert, the log insert and the cleanup query have all succeeded: if any
      of them fails, the answer is 500, never an admission. */
  lemma AdmissionNeedsEveryCall(st: StoreState, apiKey: string, endpoint: string,
                                req: Option<Request>, now: int, mac: Mac, f: Step)
    requires Admit(st, apiKey, endpoint, req, now, mac, None).0.Allowed?
    requires f in {LookupKey, ReadUsage, IncrementUsage, InsertLog, ReadLastCleanup}
    ensures Admit(st, apiKey, endpoint, req, now, mac, Some(f)).0 == Unavailable
  {
    SignatureFault(req, apiKey, now, mac, f);
    RecordFault(st, st.activeKeys[apiKey], endpoint, now, CountOf(st.usage, st.activeKeys[apiKey], Today(now)), f);
  }

  /** Every row dated on or after the cutoff is kept, so a log with no older
      row comes through a purge unchanged. */
  lemma {:induction false} PurgeKeepsRecent(logs: seq<LogEntry>, cutoffDay: int)
    requires forall k :: 0 <= k < |logs| ==> Today(logs[k].time) >= cutoffDay
    ensures Purge(logs, cutoffDay) == logs
  {
    if logs != [] {
      var rest := logs[1..];
      assert forall k :: 0 <= k < |rest| ==> rest[k] == logs[k + 1];
      PurgeKeepsRecent(rest, cutoffDay);
      assert Today(logs[0].time) >= cutoffDay;
      assert logs == [logs[0]] + rest;
    }
  }

  /** A row dated on or after the cutoff survives as often as it occurred;
      together with `Purge`'s own contract, the rows kept are exactly the
      recent ones, duplicates included. */
  lemma {:induction false} PurgeKeepsMultiplicity(logs: seq<LogEntry>, cutoffDay: int, e: LogEntry)
    requires Today(e.time) >= cutoffDay
    ensures multiset(Purge(logs, cutoffDay))[e] == multiset(logs)[e]
  {
    if logs != [] {
      var rest := logs[1..];
      PurgeKeepsMultiplicity(rest, cutoffDay, e);
      assert logs == [logs[0]] + rest;
      assert multiset(logs) == multiset([logs[0]]) + multiset(rest);
    }
  }

  /** Purging twice with the same cutoff purges nothing more. */
  lemma PurgeIdempotent(logs: seq<LogEntry>, cutoffDay: int)
    ensures Purge(Purge(logs, cutoffDay), cutoffDay) == Purge(logs, cutoffDay)
  {
    var once := Purge(logs, cutoffDay);
    forall k | 0 <= k < |once|
      ensures Today(once[k].time) >= cutoffDay
    {
      assert once[k] in once;
    }
    PurgeKeepsRecent(once, cutoffDay);
  }

  /** A row of the key's cleanup at time `t` makes its latest cleanup at least `t`. */
  lemma MarkerBoundsLastCleanup(logs: seq<LogEntry>, k: int, id: KeyId)
    requires 0 <= k < |logs| && IsMarkerOf(logs[k], id)
    ensures LastCleanup(logs, id).Some? && LastCleanup(logs, id).value >= logs[k].time
  {
  }

  /** After a request that ran the cleanup, another admitted request for the
      same key within the next 24 hours deletes nothing: it only appends its
      own log row. */
  lemma CleanupAtMostOncePerDay(st: StoreState, apiKey: string, ep1: string, ep2: string,
                                req1: Option<Request>, req2: Option<Request>,
                                now1: int, now2: int, mac: Mac)
    requires apiKey in st.activeKeys
    requires Admit(st, apiKey, ep1, req1, now1, mac, None).0.Allowed?
    requires ShouldCleanup(st.logs + [LogEntry(st.activeKeys[apiKey], ep1, LoggedStatus, now1)],
                           st.activeKeys[apiKey], now1)
    requires now2 - now1 <= CleanupIntervalMs
    ensures
      var s1 := Admit(st, apiKey, ep1, req1, now1, mac, None).1;
      var (d2, s2) := Admit(s1, apiKey, ep2, req2, now2, mac, None);
      d2.Allowed? ==> s2.logs == s1.logs + [LogEntry(d2.keyId, ep2, LoggedStatus, now2)]
  {
    var id := st.activeKeys[apiKey];
    AdmittedRequestEffects(st, apiKey, ep1, req1, now1, mac, None);
    var s1 := Admit(st, apiKey, ep1, req1, now1, mac, None).1;
    var marker := LogEntry(id, CleanupMarker, LoggedStatus, now1);
    assert s1.logs[|s1.logs| - 1] == marker;
    var d2 := Admit(s1, apiKey, ep2, req2, now2, mac, None).0;
    if d2.Allowed? {
      AdmittedRequestEffects(s1, apiKey, ep2, req2, now2, mac, None);
      var logged2 := s1.logs + [LogEntry(id, ep2, LoggedStatus, now2)];
      MarkerBoundsLastCleanup(logged2, |s1.logs| - 1, id);
    }
  }

  /** One unsigned call of the gate: the route it asks for and the time it
      arrives. */
  datatype Call = Call(endpoint: string, time: int)

  /** The calls in order for one key, none signed, none failing: the last
      decision and the store after them. */
  function Run(st: StoreState, apiKey: string, calls: seq<Call>, mac: Mac): (Decision, StoreState)
    requires |calls| >= 1
  {
    var before := if |calls| == 1 then st else Run(st, apiKey, calls[..|calls| - 1], mac).1;
    var c := calls[|calls| - 1];
    Admit(before, apiKey, c.endpoint, None, c.time, mac, None)
  }

  /** Every call falls on the UTC day `day`. */
  predicate SameDay(calls: seq<Call>, day: int) {
    forall k :: 0 <= k < |calls| ==> Today(calls[k].time) == day
  }

  /** An active key whose signature check passes and whose counter for today
      is under the quota is admitted when no storage call fails. */
  lemma ActiveUnderQuotaAdmitted(st: StoreState, apiKey: string, endpoint: string,
                                 req: Option<Request>, now: int, mac: Mac)
    requires apiKey in st.activeKeys
    requires CheckSignature(req, apiKey, now, mac, None).None?
    requires CountOf(st.usage, st.activeKeys[apiKey], Today(now)) < DailyLimit
    ensures Admit(st, apiKey, endpoint, req, now, mac, None).0.Allowed?
  {
  }

  /** Starting a day with no counter, the n-th call of that day (n = 1..100),
      whatever its route and time within the day, is admitted with 100 - n
      remaining: the first reports 99, the hundredth 0. */
  lemma {:induction false} DailyQuotaCountsDown(st: StoreState, apiKey: string, calls: seq<Call>,
                                                mac: Mac, day: int)
    requires apiKey in st.activeKeys
    requires CountOf(st.usage, st.activeKeys[apiKey], day) == 0
    requires 1 <= |calls| <= DailyLimit && SameDay(calls, day)
    ensures Run(st, apiKey, calls, mac).0
         == Allowed(DailyLimit - |calls|, NextMidnight(calls[|calls| - 1].time), st.activeKeys[apiKey])
    ensures Run(st, apiKey, calls, mac).1.activeKeys == st.activeKeys
    ensures CountOf(Run(st, apiKey, calls, mac).1.usage, st.activeKeys[apiKey], day) == |calls|
  {
    var n := |calls|;
    var c := calls[n - 1];
    var before := st;
    if n > 1 {
      var front := calls[..n - 1];
      assert SameDay(front, day) by {
        forall k | 0 <= k < |front| ensures Today(front[k].time) == day {
          assert front[k] == calls[k];
        }
      }
      DailyQuotaCountsDown(st, apiKey, front, mac, day);
      before := Run(st, apiKey, front, mac).1;
    }
    assert Today(c.time) == day;
    ActiveUnderQuotaAdmitted(before, apiKey, c.endpoint, None, c.time, mac);
    AdmittedRequestEffects(before, apiKey, c.endpoint, None, c.time, mac, None);
  }

  /** ... and from the 101st call of the day on, at any time before the next
      UTC midnight, the answer is 429 with the reset at that midnight. */
  lemma HundredAndFirstCallRefused(st: StoreState, apiKey: string, calls: seq<Call>, mac: Mac, day: int)
    requires apiKey in st.activeKeys
    requires CountOf(st.usage, st.activeKeys[apiKey], day) == 0
    requires |calls| == DailyLimit + 1 && SameDay(calls, day)
    ensures Run(st, apiKey, calls, mac).0 == RateLimited((day + 1) * DayMs)
  {
    var front := calls[..DailyLimit];
    assert SameDay(front, day) by {
      forall k | 0 <= k < |front| ensures Today(front[k].time) == day {
        assert front[k] == calls[k];
      }
    }
    DailyQuotaCountsDown(st, apiKey, front, mac, day);
    var c := calls[DailyLimit];
    assert Today(c.time) == day;
    NextMidnightOfDay(c.time);
  }

  /** The reset time of a call is the midnight that ends its UTC day. */
  lemma NextMidnightOfDay(now: int)
    ensures NextMidnight(now) == (Today(now) + 1) * DayMs
  {
  }

  /** The reset time is the start of the next UTC day, and the only multiple
      of a day in (now, now + 1 day]. */
  lemma NextMidnightIsTomorrow(now: int, m: int)
    requires m % DayMs == 0 && now < m <= now + DayMs
    ensures m == NextMidnight(now)
    ensures Today(NextMidnight(now)) == Today(now) + 1
  {
    var q := m / DayMs;
    assert m == q * DayMs;
    var t := now / DayMs;
    assert t * DayMs <= now < t * DayMs + DayMs;
    assert q == t + 1;
  }

  /** A call at 2025-03-01T15:30:00Z resets at 2025-03-02T00:00:00Z. */
  lemma ResetTimeExample()
    ensures NextMidnight(1740843000000) == 1740873600000
  {
  }
}
