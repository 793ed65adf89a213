/** The per-client sliding-window rate limiter that guards the `/api/`
    endpoints. The clock (`time.monotonic()`) is a `now` parameter. */
module RateLimit {
  import opened Text

  /** Length of the sliding window, in seconds. */
  const Window: real := 60.0
  /** Minimum time between two sweeps of idle clients, in seconds. */
  const CleanupInterval: real := 300.0

  /* ---------------------------------------------------------------------
     One client's log of admission timestamps
     --------------------------------------------------------------------- */

  predicate Sorted(log: seq<real>) {
    forall i, j :: 0 <= i <= j < |log| ==> log[i] <= log[j]
  }

  predicate AllAtMost(log: seq<real>, now: real) {
    forall k :: 0 <= k < |log| ==> log[k] <= now
  }

  /** The `while timestamps and timestamps[0] < cutoff: pop(0)` loop: drop
      the leading entries older than `cutoff`. */
  function Pruned(log: seq<real>, cutoff: real): seq<real> {
    if log != [] && log[0] < cutoff then Pruned(log[1..], cutoff) else log
  }

  /** Pruning leaves a suffix of the log that starts at or after the cutoff,
      and everything it removed was older than the cutoff. */
  lemma {:induction false} PrunedShape(log: seq<real>, cutoff: real)
    ensures var r := Pruned(log, cutoff);
            && |r| <= |log| && r == log[|log| - |r|..]
            && (r != [] ==> r[0] >= cutoff)
            && (forall k :: 0 <= k < |log| - |r| ==> log[k] < cutoff)
  {
    if log != [] && log[0] < cutoff {
      PrunedShape(log[1..], cutoff);
      var r := Pruned(log, cutoff);
      forall k | 0 <= k < |log| - |r| ensures log[k] < cutoff {
        if k > 0 {
          assert log[k] == log[1..][k - 1];
        }
      }
    }
  }

  /** Reference definition: the entries of `log` that are at or after `cutoff`. */
  function Recent(log: seq<real>, cutoff: real): seq<real> {
    if log == [] then []
    else (if log[0] >= cutoff then [log[0]] else []) + Recent(log[1..], cutoff)
  }

  /** On a time-ordered log, pruning keeps exactly the entries at or after the
      cutoff; in particular an entry equal to the cutoff survives. */
  lemma {:induction false} PrunedIsRecent(log: seq<real>, cutoff: real)
    requires Sorted(log)
    ensures Pruned(log, cutoff) == Recent(log, cutoff)
    ensures forall k :: 0 <= k < |Pruned(log, cutoff)| ==> Pruned(log, cutoff)[k] >= cutoff
  {
    if log != [] {
      assert Sorted(log[1..]);
      PrunedIsRecent(log[1..], cutoff);
      if log[0] >= cutoff {
        RecentAllKept(log, cutoff);
      }
    }
  }

  lemma {:induction false} RecentAllKept(log: seq<real>, cutoff: real)
    requires forall k :: 0 <= k < |log| ==> log[k] >= cutoff
    ensures Recent(log, cutoff) == log
  {
    if log != [] {
      RecentAllKept(log[1..], cutoff);
    }
  }

  /** What `_is_rate_limited` answers. `Fault` stands for the `IndexError` the
      source raises when the limit is zero or negative and the log is empty. */
  datatype Verdict = Admitted(remaining: int) | Limited(retryAfter: int) | Fault

  /** `max(int(oldest - cutoff) + 1, 1)`; the argument of `int` is never
      negative here, so truncation is the floor. */
  function RetryAfter(oldest: real, cutoff: real): (r: int)
    ensures r >= 1
  {
    var retry := (oldest - cutoff).Floor + 1;
    if retry > 1 then retry else 1
  }

  /** The decision taken on the pruned log `log` at time `now`. */
  function Decide(log: seq<real>, now: real, rpm: int): (v: Verdict)
    ensures v.Admitted? <==> |log| < rpm
    ensures v.Admitted? ==> v.remaining >= 0 && v.remaining + |log| + 1 == rpm
    ensures v.Fault? <==> rpm <= 0 && log == []
    ensures v.Limited? ==> v.retryAfter >= 1
  {
    if |log| >= rpm then
      if log == [] then Fault
      else Limited(RetryAfter(log[0], now - Window))
    else Admitted(rpm - (|log| + 1))
  }

  /** The log after the decision: `now` is appended on admission only. */
  function After(log: seq<real>, v: Verdict, now: real): seq<real> {
    if v.Admitted? then log + [now] else log
  }

  /** The log left behind by one call, and the verdict. */
  function LogStep(log: seq<real>, now: real, rpm: int): (seq<real>, Verdict) {
    var p := Pruned(log, now - Window);
    var v := Decide(p, now, rpm);
    (After(p, v, now), v)
  }

  /** `Retry-After` lies in [1, window + 1] when every logged entry is no later
      than `now`. */
  lemma RetryAfterBounds(log: seq<real>, now: real, rpm: int)
    requires AllAtMost(log, now)
    ensures var v := LogStep(log, now, rpm).1;
            v.Limited? ==> 1 <= v.retryAfter <= Window.Floor + 1
  {
    PrunedShape(log, now - Window);
    var p := Pruned(log, now - Window);
    if p != [] {
      assert p[0] == log[|log| - |p|];
      assert 0.0 <= p[0] - (now - Window) <= Window;
    }
  }

  /** `Retry-After` is the least whole number of seconds after which the oldest
      entry of the pruned log has left the window. */
  lemma RetryAfterIsLeast(log: seq<real>, now: real, rpm: int)
    requires AllAtMost(log, now)
    ensures var p := Pruned(log, now - Window);
            var v := Decide(p, now, rpm);
            v.Limited? ==>
              (p[0] < (now + v.retryAfter as real) - Window
               && p[0] >= (now + (v.retryAfter - 1) as real) - Window)
  {
    PrunedShape(log, now - Window);
    var p := Pruned(log, now - Window);
    if p != [] {
      assert p[0] == log[|log| - |p|];
    }
  }

  /** A client idle for longer than the window is admitted again, whatever it
      was told before. */
  lemma IdleClientAdmitted(log: seq<real>, now: real, rpm: int)
    requires Sorted(log) && rpm >= 1
    requires log != [] ==> log[|log| - 1] < now - Window
    ensures LogStep(log, now, rpm).1 == Admitted(rpm - 1)
    ensures LogStep(log, now, rpm).0 == [now]
  {
    PrunedEmptyWhenStale(log, now - Window);
  }

  /** A time-ordered log whose newest entry is older than the cutoff is
      pruned to nothing. */
  lemma PrunedEmptyWhenStale(log: seq<real>, cutoff: real)
    requires Sorted(log) && IsStale(log, cutoff)
    ensures Pruned(log, cutoff) == []
  {
    PrunedShape(log, cutoff);
  }

  /** Successive verdicts for calls at `times` from one client whose log is
      `log` (cleanup never changes a verdict: see `CleanupKeepsVerdict`). */
  function Run(log: seq<real>, times: seq<real>, rpm: int): (vs: seq<Verdict>)
    ensures |vs| == |times|
    decreases |times|
  {
    if times == [] then []
    else
      var step := LogStep(log, times[0], rpm);
      [step.1] + Run(step.0, times[1..], rpm)
  }

  /** Pruning removes nothing when no entry is older than the cutoff. */
  lemma NothingPruned(log: seq<real>, cutoff: real)
    requires forall k :: 0 <= k < |log| ==> log[k] >= cutoff
    ensures Pruned(log, cutoff) == log
  {
  }

  /** Inside one window (every call and every logged entry between `c` and
      `c + Window`), calls are admitted exactly while fewer than `rpm` entries
      are logged; after that every call is rejected. */
  lemma {:induction false} RunInOneWindow(log: seq<real>, times: seq<real>, rpm: int, c: real)
    requires rpm >= 1 && |log| <= rpm
    requires forall k :: 0 <= k < |log| ==> log[k] >= c
    requires forall k :: 0 <= k < |times| ==> c <= times[k] <= c + Window
    ensures forall k :: 0 <= k < |times| ==> (Run(log, times, rpm)[k].Admitted? <==> |log| + k < rpm)
    ensures forall k :: 0 <= k < |times| ==> (Run(log, times, rpm)[k].Limited? <==> |log| + k >= rpm)
    decreases |times|
  {
    if times != [] {
      var now := times[0];
      NothingPruned(log, now - Window);
      var step := LogStep(log, now, rpm);
      var log' := step.0;
      assert |log'| == if |log| < rpm then |log| + 1 else |log|;
      assert forall k :: 0 <= k < |log'| ==> log'[k] >= c;
      RunInOneWindow(log', times[1..], rpm, c);
      var rest := Run(log', times[1..], rpm);
      assert Run(log, times, rpm) == [step.1] + rest;
      forall k | 0 <= k < |times|
        ensures (Run(log, times, rpm)[k].Admitted? <==> |log| + k < rpm)
        ensures (Run(log, times, rpm)[k].Limited? <==> |log| + k >= rpm)
      {
        if k > 0 {
          assert Run(log, times, rpm)[k] == rest[k - 1];
        }
      }
    }
  }

  /** `rpm` back-to-back calls inside one window are admitted, the next one is
      rejected. */
  lemma BurstLimit(times: seq<real>, rpm: int)
    requires rpm >= 1 && |times| == rpm + 1
    requires Sorted(times) && times[rpm] - times[0] <= Window
    ensures forall k :: 0 <= k < rpm ==> Run([], times, rpm)[k].Admitted?
    ensures Run([], times, rpm)[rpm].Limited?
  {
    RunInOneWindow([], times, rpm, times[0]);
  }

  /* ---------------------------------------------------------------------
     The map of all clients
     --------------------------------------------------------------------- */

  /** A client is idle when it has no entry or its newest entry has left the
      window. */
  predicate IsStale(log: seq<real>, cutoff: real) {
    log == [] || log[|log| - 1] < cutoff
  }

  /** The sweep of `_cleanup_stale` once it is due. */
  function Swept(m: map<string, seq<real>>, cutoff: real): map<string, seq<real>> {
    map ip | ip in m && !IsStale(m[ip], cutoff) :: m[ip]
  }

  /** `_cleanup_stale(now)`: sweep only when the interval has elapsed. */
  function Cleaned(m: map<string, seq<real>>, last: real, now: real): map<string, seq<real>> {
    if now - last < CleanupInterval then m else Swept(m, now - Window)
  }

  function LastCleanup(last: real, now: real): real {
    if now - last < CleanupInterval then last else now
  }

  function LogOf(m: map<string, seq<real>>, ip: string): seq<real> {
    if ip in m then m[ip] else []
  }

  /** The map after one call for `ip` at `now` (`defaultdict` inserts an empty
      log for an unknown client, so `ip` is always present afterwards). */
  function MapStep(m: map<string, seq<real>>, last: real, ip: string, now: real, rpm: int): map<string, seq<real>> {
    var c := Cleaned(m, last, now);
    c[ip := LogStep(LogOf(c, ip), now, rpm).0]
  }

  function VerdictStep(m: map<string, seq<real>>, last: real, ip: string, now: real, rpm: int): Verdict {
    LogStep(LogOf(Cleaned(m, last, now), ip), now, rpm).1
  }

  /** One log is time-ordered, no later than the clock and at most `rpm` long. */
  predicate LogOk(log: seq<real>, now: real, rpm: int) {
    Sorted(log) && AllAtMost(log, now) && |log| <= if rpm < 0 then 0 else rpm
  }

  /** The invariant the limiter keeps while the clock does not go backwards. */
  predicate Bounded(m: map<string, seq<real>>, now: real, rpm: int) {
    forall ip :: ip in m ==> LogOk(m[ip], now, rpm)
  }

  lemma SweptIsSubmap(m: map<string, seq<real>>, cutoff: real)
    ensures forall ip :: ip in Swept(m, cutoff) ==> ip in m && Swept(m, cutoff)[ip] == m[ip]
  {
  }

  lemma CleanedKeepsBounded(m: map<string, seq<real>>, last: real, now: real, rpm: int)
    requires Bounded(m, now, rpm)
    ensures Bounded(Cleaned(m, last, now), now, rpm)
  {
    SweptIsSubmap(m, now - Window);
  }

  lemma PrunedKeepsBounds(log: seq<real>, cutoff: real, now: real)
    requires Sorted(log) && AllAtMost(log, now)
    ensures Sorted(Pruned(log, cutoff)) && AllAtMost(Pruned(log, cutoff), now)
  {
    PrunedShape(log, cutoff);
    var p := Pruned(log, cutoff);
    forall k | 0 <= k < |p| ensures p[k] == log[|log| - |p| + k] { }
  }

  lemma AppendKeepsOrder(p: seq<real>, now: real)
    requires Sorted(p) && AllAtMost(p, now)
    ensures Sorted(p + [now]) && AllAtMost(p + [now], now)
  {
    var q := p + [now];
    forall i, j | 0 <= i <= j < |q| ensures q[i] <= q[j] {
      if j == |p| {
        assert q[j] == now;
      } else {
        assert q[i] == p[i] && q[j] == p[j];
      }
    }
  }

  lemma LogStepKeepsOk(log: seq<real>, now: real, rpm: int)
    requires LogOk(log, now, rpm)
    ensures LogOk(LogStep(log, now, rpm).0, now, rpm)
  {
    var p := Pruned(log, now - Window);
    PrunedShape(log, now - Window);
    PrunedKeepsBounds(log, now - Window, now);
    if |p| < rpm {
      AppendKeepsOrder(p, now);
    }
  }

  lemma UpdateKeepsBounded(c: map<string, seq<real>>, ip: string, log: seq<real>, now: real, rpm: int)
    requires Bounded(c, now, rpm) && LogOk(log, now, rpm)
    ensures Bounded(c[ip := log], now, rpm)
  {
  }

  /** One call keeps the invariant, provided the clock has not gone back
      since the entries were logged. */
  lemma StepKeepsBounded(m: map<string, seq<real>>, last: real, ip: string, now: real, rpm: int)
    ensures Bounded(m, now, rpm) ==> Bounded(MapStep(m, last, ip, now, rpm), now, rpm)
  {
    if !Bounded(m, now, rpm) {
      return;
    }
    var c := Cleaned(m, last, now);
    CleanedKeepsBounded(m, last, now, rpm);
    var log := LogOf(c, ip);
    assert LogOk(log, now, rpm);
    LogStepKeepsOk(log, now, rpm);
    UpdateKeepsBounded(c, ip, LogStep(log, now, rpm).0, now, rpm);
  }

  /** Cleanup never changes a client's verdict: a swept client's pruned log
      would have been empty anyway. */
  lemma CleanupKeepsVerdict(m: map<string, seq<real>>, last: real, ip: string, now: real)
    requires ip in m ==> Sorted(m[ip])
    ensures Pruned(LogOf(Cleaned(m, last, now), ip), now - Window) == Pruned(LogOf(m, ip), now - Window)
  {
    if ip in m && IsStale(m[ip], now - Window) {
      PrunedEmptyWhenStale(m[ip], now - Window);
    }
  }

  /** A call touches no other client's log, except through the sweep. */
  lemma OtherClientsUntouched(m: map<string, seq<real>>, last: real, ip: string, other: string, now: real, rpm: int)
    requires other != ip
    ensures var m' := MapStep(m, last, ip, now, rpm);
            (other in m' <==> other in Cleaned(m, last, now))
            && (other in m' ==> m'[other] == m[other])
  {
    SweptIsSubmap(m, now - Window);
  }

  /* ---------------------------------------------------------------------
     Requests at the middleware
     --------------------------------------------------------------------- */

  /** The parts of an incoming request the middleware reads. */
  datatype Request = Request(
    path: string,
    forwardedFor: Option<string>,   // X-Forwarded-For
    realIp: Option<string>,         // X-Real-IP
    clientHost: Option<string>)     // socket peer, when known

  /** `forwarded.split(",")[0].strip()` */
  function FirstHop(forwarded: string): (r: string)
    ensures ',' !in r && Contains(forwarded, r)
    ensures r != [] ==> !IsPySpace(r[0]) && !IsPySpace(r[|r| - 1])
  {
    var first := Split(forwarded, ',')[0];
    FirstPartIsPrefix(forwarded, ',');
    var r := Strip(first);
    ContainsTrans(forwarded, first, r);
    r
  }

  /** `_get_client_ip`. A header counts only when present and non-empty. */
  function ClientIp(req: Request): (ip: string)
    ensures req.forwardedFor.Some? && req.forwardedFor.value != "" ==>
              ',' !in ip && Contains(req.forwardedFor.value, ip)
    ensures (req.forwardedFor.None? || req.forwardedFor.value == "") && req.realIp.Some? && req.realIp.value != "" ==>
              ip == Strip(req.realIp.value)
    ensures ip != [] && ((req.forwardedFor.Some? && req.forwardedFor.value != "") || (req.realIp.Some? && req.realIp.value != "")) ==>
              !IsPySpace(ip[0]) && !IsPySpace(ip[|ip| - 1])
    ensures (req.forwardedFor.None? || req.forwardedFor.value == "") && (req.realIp.None? || req.realIp.value == "") ==>
              ip == (if req.clientHost.Some? then req.clientHost.value else "unknown")
  {
    if req.forwardedFor.Some? && req.forwardedFor.value != "" then FirstHop(req.forwardedFor.value)
    else if req.realIp.Some? && req.realIp.value != "" then Strip(req.realIp.value)
    else if req.clientHost.Some? then req.clientHost.value
    else "unknown"
  }

  lemma FirstPartIsPrefix(s: string, c: char)
    ensures StartsWith(s, Split(s, c)[0])
  {
  }

  lemma ContainsTrans(a: string, b: string, r: string)
    requires StartsWith(a, b) && Contains(b, r)
    ensures Contains(a, r)
  {
    var i :| 0 <= i <= |b| - |r| && StartsWith(b[i..], r);
    assert a[i..][..|r|] == b[i..][..|r|];
    assert StartsWith(a[i..], r);
  }

  /** The identity is the first hop of `X-Forwarded-For`, when the header was
      written as a comma-separated list of hops. */
  lemma ClientIpIsFirstHop(req: Request, hops: seq<string>)
    requires |hops| >= 1 && forall k :: 0 <= k < |hops| ==> ',' !in hops[k]
    requires req.forwardedFor == Some(Join(hops, ',')) && Join(hops, ',') != ""
    ensures ClientIp(req) == Strip(hops[0])
  {
    SplitJoin(hops, ',');
  }

  lemma {:induction false} SplitJoin(parts: seq<string>, c: char)
    requires |parts| >= 1 && forall k :: 0 <= k < |parts| ==> c !in parts[k]
    ensures Split(Join(parts, c), c) == parts
  {
    if |parts| == 1 {
      SplitNone(parts[0], c);
    } else {
      SplitJoin(parts[1..], c);
      SplitCons(parts[0], Join(parts[1..], c), c);
    }
  }

  /** `dispatch` skips the limiter for these paths. */
  function Bypassed(path: string): (r: bool)
    ensures r <==> !StartsWith(path, "/api/")
  {
    assert "/health"[..5][1] != "/api/"[1];
    assert "/favicon.ico"[..5][1] != "/api/"[1];
    path == "/health" || path == "/favicon.ico" || !StartsWith(path, "/api/")
  }

  /** What the middleware does with a request. */
  datatype Gate =
    | PassThrough
      // forwarded to the application without touching the limiter
    | TooManyRequests(status: int, errorType: string, headers: map<string, string>)
      // the 429 response built by the middleware
    | Forward(headers: map<string, string>)
      // forwarded; these headers are added to the application's response
    | InternalError
      // the limiter raised

  const RateLimitHeaders := {"Retry-After", "X-RateLimit-Limit", "X-RateLimit-Remaining"}
  const QuotaHeaders := {"X-RateLimit-Limit", "X-RateLimit-Remaining"}

  /** A limited request is answered 429 `rate_limit` with the delay, the
      limit and no remaining quota; an admitted one is forwarded and its
      response carries the limit and the remaining quota; a fault of the
      limiter is an internal error. */
  function GateFor(v: Verdict, rpm: int): (g: Gate)
    ensures v.Limited? <==> g.TooManyRequests?
    ensures v.Admitted? <==> g.Forward?
    ensures v.Fault? <==> g.InternalError?
    ensures v.Limited? ==>
              g.status == 429 && g.errorType == "rate_limit" && g.headers.Keys == RateLimitHeaders
              && g.headers["Retry-After"] == IntToString(v.retryAfter)
              && g.headers["X-RateLimit-Limit"] == IntToString(rpm)
              && g.headers["X-RateLimit-Remaining"] == "0"
    ensures v.Admitted? ==>
              g.headers.Keys == QuotaHeaders
              && g.headers["X-RateLimit-Limit"] == IntToString(rpm)
              && g.headers["X-RateLimit-Remaining"] == IntToString(v.remaining)
  {
    match v
    case Limited(retry) =>
      TooManyRequests(429, "rate_limit",
        map["Retry-After" := IntToString(retry),
            "X-RateLimit-Limit" := IntToString(rpm),
            "X-RateLimit-Remaining" := "0"])
    case Admitted(remaining) =>
      Forward(map["X-RateLimit-Limit" := IntToString(rpm),
                  "X-RateLimit-Remaining" := IntToString(remaining)])
    case Fault => InternalError
  }

  /** The `Retry-After` header reads back as the limiter's delay in seconds. */
  lemma RetryAfterHeader(v: Verdict, rpm: int)
    requires v.Limited? && v.retryAfter >= 0
    ensures ParseNat(GateFor(v, rpm).headers["Retry-After"]) == Some(v.retryAfter)
  {
    ParseNatToString(v.retryAfter);
  }

  /** The quota headers read back as the limit and, on an admitted request,
      the remaining quota; on a 429 the remaining quota reads as zero. */
  lemma QuotaHeadersReadBack(v: Verdict, rpm: nat)
    requires v.Limited? || (v.Admitted? && v.remaining >= 0)
    ensures var h := GateFor(v, rpm).headers;
      ParseNat(h["X-RateLimit-Limit"]) == Some(rpm)
      && ParseNat(h["X-RateLimit-Remaining"]) == Some(if v.Admitted? then v.remaining else 0)
  {
    ParseNatToString(rpm);
    if v.Admitted? {
      ParseNatToString(v.remaining);
    } else {
      ParseNatToString(0);
    }
  }

  /** The middleware's state: one log of admission timestamps per client. */
  class RateLimiter {
    const rpm: int
    var requests: map<string, seq<real>>
    var lastCleanup: real

    /** `now` is the clock reading at construction. */
    constructor (rpm: int, now: real)
      ensures this.rpm == rpm && requests == map[] && lastCleanup == now
    {
      this.rpm := rpm;
      requests := map[];
      lastCleanup := now;
    }

    /** `_cleanup_stale` */
    method CleanupStale(now: real)
      modifies this
      ensures requests == Cleaned(old(requests), old(lastCleanup), now)
      ensures lastCleanup == LastCleanup(old(lastCleanup), now)
    {
      if now - lastCleanup < CleanupInterval {
        return;
      }
      lastCleanup := now;
      var staleKeys: set<string> := {};
      var pending := requests.Keys;
      while pending != {}
        invariant pending <= requests.Keys
        invariant requests == old(requests) && lastCleanup == now
        invariant staleKeys == set ip | ip in requests.Keys - pending && IsStale(requests[ip], now - Window)
        decreases pending
      {
        var ip :| ip in pending;
        if IsStale(requests[ip], now - Window) {
          staleKeys := staleKeys + {ip};
        }
        pending := pending - {ip};
      }
      var doomed := staleKeys;
      while doomed != {}
        invariant doomed <= staleKeys
        invariant requests == old(requests) - (staleKeys - doomed)
        invariant lastCleanup == now
        decreases doomed
      {
        var key :| key in doomed;
        requests := requests - {key};
        doomed := doomed - {key};
      }
      assert requests == Swept(old(requests), now - Window);
    }

    /** `_is_rate_limited` */
    method IsRateLimited(ip: string, now: real) returns (v: Verdict)
      modifies this
      ensures requests == MapStep(old(requests), old(lastCleanup), ip, now, rpm)
      ensures v == VerdictStep(old(requests), old(lastCleanup), ip, now, rpm)
      ensures lastCleanup == LastCleanup(old(lastCleanup), now)
      ensures old(Bounded(requests, now, rpm)) ==> Bounded(requests, now, rpm)
    {
      StepKeepsBounded(requests, lastCleanup, ip, now, rpm);
      CleanupStale(now);
      v := PruneAndDecide(ip, now);
    }

    /** The body of `_is_rate_limited` after the sweep: prune the client's
        log, then admit and record `now`, or reject. */
    method PruneAndDecide(ip: string, now: real) returns (v: Verdict)
      modifies this
      ensures requests == old(requests)[ip := LogStep(LogOf(old(requests), ip), now, rpm).0]
      ensures v == LogStep(LogOf(old(requests), ip), now, rpm).1
      ensures lastCleanup == old(lastCleanup)
    {
      var cutoff := now - Window;
      var timestamps := if ip in requests then requests[ip] else [];
      requests := requests[ip := timestamps];
      ghost var log0 := timestamps;
      // the list is popped in place inside the map; the map is written once
      while timestamps != [] && timestamps[0] < cutoff
        invariant Pruned(timestamps, cutoff) == Pruned(log0, cutoff)
        decreases |timestamps|
      {
        timestamps := timestamps[1..];
      }
      requests := requests[ip := timestamps];
      ghost var p := Pruned(log0, cutoff);
      assert timestamps == p;
      ghost var step := LogStep(log0, now, rpm);
      assert step == (After(p, Decide(p, now, rpm), now), Decide(p, now, rpm));
      if |timestamps| >= rpm {
        if timestamps == [] {
          v := Fault;
        } else {
          v := Limited(RetryAfter(timestamps[0], cutoff));
        }
      } else {
        timestamps := timestamps + [now];
        requests := requests[ip := timestamps];
        v := Admitted(rpm - |timestamps|);
      }
      assert v == Decide(p, now, rpm);
    }

    /** `dispatch`, up to handing the request on. */
    method Dispatch(req: Request, now: real) returns (g: Gate)
      modifies this
      ensures Bypassed(req.path) ==> g == PassThrough && requests == old(requests) && lastCleanup == old(lastCleanup)
      ensures !Bypassed(req.path) ==>
                var ip := ClientIp(req);
                g == GateFor(VerdictStep(old(requests), old(lastCleanup), ip, now, rpm), rpm)
                && requests == MapStep(old(requests), old(lastCleanup), ip, now, rpm)
                && lastCleanup == LastCleanup(old(lastCleanup), now)
    {
      var path := req.path;
      if path == "/health" || path == "/favicon.ico" {
        return PassThrough;
      }
      if !StartsWith(path, "/api/") {
        return PassThrough;
      }
      var ip := ClientIp(req);
      var v := IsRateLimited(ip, now);
      g := GateFor(v, rpm);
    }
  }
}
