/** The fixed-window rate limiter: a process-local map from a requester key
    to a window entry, updated on every request and swept of expired
    windows. */
module RateLimiting {
  import opened Wrappers
  import opened Text
  import opened Errors

  /** `RATE_LIMIT_WINDOW_MS` and `RATE_LIMIT_MAX_REQUESTS` when unset. */
  const DefaultWindowMs: nat := 900000
  const DefaultMaxRequests: nat := 100
  const TooManyRequests: string := "Too many requests. Please try again later."

  datatype Config = Config(windowMs: nat, maxRequests: nat)

  /** One key's window: requests counted so far and the instant it ends. */
  datatype Entry = Entry(count: nat, resetTime: int)

  /** The `X-RateLimit-Limit`, `-Remaining` and `-Reset` header values. */
  datatype Info = Info(limit: nat, remaining: nat, reset: int)

  /** The middleware's effect on one request: the headers it sets, and
      whether it calls `next()` or throws. */
  datatype Verdict = Allowed(headers: Info) | Rejected(headers: Info, error: Error)

  type Store = map<string, Entry>

  /** What the limiter sees of a request: the user id the authentication
      middleware attached (if it ran first), `req.ip` and the socket's
      remote address. */
  datatype Requester = Requester(userId: Option<int>, ip: Option<string>, remoteAddress: Option<string>)

  /** `req.ip || req.socket.remoteAddress` rendered in a template literal. */
  function Address(req: Requester): (a: string)
    ensures req.ip.Some? && req.ip.value != "" ==> a == req.ip.value
    ensures !(req.ip.Some? && req.ip.value != "") && req.remoteAddress.Some? ==> a == req.remoteAddress.value
    ensures !(req.ip.Some? && req.ip.value != "") && req.remoteAddress.None? ==> a == "undefined"
  {
    if req.ip.Some? && req.ip.value != "" then req.ip.value
    else if req.remoteAddress.Some? then req.remoteAddress.value
    else "undefined"
  }

  /** `getKey`: the user's bucket when a truthy user id is attached, else the
      address's bucket. */
  function Key(req: Requester): (k: string)
    ensures req.userId.Some? && req.userId.value != 0 ==> k == "user:" + IntToString(req.userId.value)
    ensures !(req.userId.Some? && req.userId.value != 0) ==> k == "ip:" + Address(req)
  {
    if req.userId.Some? && req.userId.value != 0 then "user:" + IntToString(req.userId.value)
    else "ip:" + Address(req)
  }

  /** Two requesters share a bucket only if both are the same user, or both
      are anonymous (or user 0) with the same address. */
  lemma KeySeparatesRequesters(a: Requester, b: Requester)
    requires Key(a) == Key(b)
    ensures (a.userId.Some? && a.userId.value != 0) == (b.userId.Some? && b.userId.value != 0)
    ensures a.userId.Some? && a.userId.value != 0 ==> a.userId == b.userId
    ensures !(a.userId.Some? && a.userId.value != 0) ==> Address(a) == Address(b)
  {
    var ka, kb := Key(a), Key(b);
    var ua := a.userId.Some? && a.userId.value != 0;
    var ub := b.userId.Some? && b.userId.value != 0;
    if ua && ub {
      assert ka[5..] == IntToString(a.userId.value);
      assert kb[5..] == IntToString(b.userId.value);
      IntToStringInjective(a.userId.value, b.userId.value);
    } else if !ua && !ub {
      assert ka[3..] == Address(a) && kb[3..] == Address(b);
    } else {
      KeyTag(a);
      KeyTag(b);
    }
  }

  /** The first character of a key tells user buckets from address buckets. */
  lemma KeyTag(r: Requester)
    ensures Key(r)[0] == if r.userId.Some? && r.userId.value != 0 then 'u' else 'i'
  {
  }

  /** The routes that mount the limiter. */
  datatype Route = Register | Login | Logout | Me | IssueRoutes | UserRoutes

  /** Issue and user routes authenticate before limiting; every auth route
      limits first, so `req.user` is not yet set there. */
  predicate AuthenticatesBeforeLimiting(route: Route) {
    route == IssueRoutes || route == UserRoutes
  }

  /** The request as the limiter sees it on `route`, for a caller whose token
      (if valid) names `tokenUser`. */
  function OnRoute(route: Route, tokenUser: Option<int>, ip: Option<string>, remote: Option<string>): (r: Requester)
    ensures !AuthenticatesBeforeLimiting(route) ==> Key(r) == "ip:" + Address(r)
    ensures AuthenticatesBeforeLimiting(route) && tokenUser.Some? && tokenUser.value != 0 ==>
              Key(r) == "user:" + IntToString(tokenUser.value)
  {
    Requester(if AuthenticatesBeforeLimiting(route) then tokenUser else None, ip, remote)
  }

  /** A window is over only once the clock is strictly past its end. */
  predicate Expired(e: Entry, now: int) {
    e.resetTime < now
  }

  /** `getRateLimitInfo`. */
  function InfoOf(cfg: Config, store: Store, key: string, now: int): (info: Info)
    ensures info.limit == cfg.maxRequests && info.remaining <= cfg.maxRequests
    ensures key !in store ==> info.remaining == cfg.maxRequests && info.reset == now + cfg.windowMs
    ensures key in store ==> info.reset == store[key].resetTime
    ensures key in store ==> info.remaining == if store[key].count <= cfg.maxRequests then cfg.maxRequests - store[key].count else 0
  {
    if key !in store then Info(cfg.maxRequests, cfg.maxRequests, now + cfg.windowMs)
    else
      var e := store[key];
      Info(cfg.maxRequests, if cfg.maxRequests - e.count < 0 then 0 else cfg.maxRequests - e.count, e.resetTime)
  }

  /** One request through the middleware: the new store and the verdict.
      Only the request's own key changes. */
  function Step(cfg: Config, store: Store, key: string, now: int): (r: (Store, Verdict))
    ensures key in r.0
    ensures forall k :: k != key ==> (k in r.0 <==> k in store)
    ensures forall k :: k != key && k in store ==> r.0[k] == store[k]
  {
    if key !in store || Expired(store[key], now) then
      var s := store[key := Entry(1, now + cfg.windowMs)];
      (s, Allowed(InfoOf(cfg, s, key, now)))
    else
      var e := store[key].(count := store[key].count + 1);
      var s := store[key := e];
      if e.count > cfg.maxRequests then
        (s, Rejected(InfoOf(cfg, s, key, now).(remaining := 0), RateLimitError(TooManyRequests)))
      else
        (s, Allowed(InfoOf(cfg, s, key, now)))
  }

  /** A request with no live window opens one with count 1 and passes,
      whatever the limit (even 0). */
  lemma OpeningRequestPasses(cfg: Config, store: Store, key: string, now: int)
    requires key !in store || Expired(store[key], now)
    ensures Step(cfg, store, key, now).0[key] == Entry(1, now + cfg.windowMs)
    ensures Step(cfg, store, key, now).1.Allowed?
  {
  }

  /** Inside a live window each request adds exactly one, keeps the window's
      end, and is rejected iff the new count exceeds the limit. */
  lemma LiveWindowCounts(cfg: Config, store: Store, key: string, now: int)
    requires key in store && !Expired(store[key], now)
    ensures Step(cfg, store, key, now).0[key] == Entry(store[key].count + 1, store[key].resetTime)
    ensures Step(cfg, store, key, now).1.Rejected? <==> store[key].count + 1 > cfg.maxRequests
  {
  }

  /** At the very instant a window ends it is still live. */
  lemma ResetInstantStillCounts(cfg: Config, store: Store, key: string)
    requires key in store
    ensures Step(cfg, store, key, store[key].resetTime).0[key].count == store[key].count + 1
  {
  }

  /** Reported remaining lies in [0, limit]; it is the limit minus the count
      when passing and 0 when rejecting; the error is a 429 rate-limit error. */
  lemma HeadersReported(cfg: Config, store: Store, key: string, now: int)
    ensures var (s, v) := Step(cfg, store, key, now);
      && v.headers.limit == cfg.maxRequests
      && v.headers.reset == s[key].resetTime
      && (v.Allowed? ==> s[key].count <= cfg.maxRequests || s[key].count == 1)
      && (v.Allowed? && s[key].count <= cfg.maxRequests ==> v.headers.remaining == cfg.maxRequests - s[key].count)
      && (v.Rejected? ==> v.headers.remaining == 0 && v.error.RateLimitError? && v.error.StatusCode() == 429)
  {
  }

  /** A run of requests from one key at the given instants. */
  function Run(cfg: Config, store: Store, key: string, times: seq<int>): (r: (Store, seq<Verdict>))
    ensures |r.1| == |times|
    decreases |times|
  {
    if times == [] then (store, [])
    else
      var (s, v) := Step(cfg, store, key, times[0]);
      var (s', vs) := Run(cfg, s, key, times[1..]);
      (s', [v] + vs)
  }

  /** Requests that all fall inside one live window, counted from `c`:
      request i passes iff c + i + 1 does not exceed the limit. */
  lemma {:induction false} RunInsideWindow(cfg: Config, store: Store, key: string, times: seq<int>, c: nat, reset: int)
    requires key in store && store[key] == Entry(c, reset)
    requires forall i :: 0 <= i < |times| ==> times[i] <= reset
    ensures key in Run(cfg, store, key, times).0
    ensures Run(cfg, store, key, times).0[key] == Entry(c + |times|, reset)
    ensures forall i :: 0 <= i < |times| ==>
              (Run(cfg, store, key, times).1[i].Allowed? <==> c + i + 1 <= cfg.maxRequests)
  {
    if times != [] {
      LiveWindowCounts(cfg, store, key, times[0]);
      var s := Step(cfg, store, key, times[0]).0;
      RunInsideWindow(cfg, s, key, times[1..], c + 1, reset);
      var vs := Run(cfg, s, key, times[1..]).1;
      forall i | 1 <= i < |times|
        ensures Run(cfg, store, key, times).1[i] == vs[i - 1]
      {
      }
    }
  }

  /** With limit N and window W, of the requests a key makes from the one
      that opens a window until W has elapsed, the first N pass (the first
      one always) and every later one is rejected. */
  lemma WindowAdmitsFirstN(cfg: Config, store: Store, key: string, times: seq<int>)
    requires times != []
    requires key !in store || Expired(store[key], times[0])
    requires forall i :: 0 <= i < |times| ==> times[i] <= times[0] + cfg.windowMs
    ensures forall i :: 0 <= i < |times| ==>
              (Run(cfg, store, key, times).1[i].Allowed? <==> i == 0 || i + 1 <= cfg.maxRequests)
    ensures key in Run(cfg, store, key, times).0
    ensures Run(cfg, store, key, times).0[key] == Entry(|times|, times[0] + cfg.windowMs)
  {
    OpeningRequestPasses(cfg, store, key, times[0]);
    var s := Step(cfg, store, key, times[0]).0;
    RunInsideWindow(cfg, s, key, times[1..], 1, times[0] + cfg.windowMs);
    var vs := Run(cfg, s, key, times[1..]).1;
    forall i | 1 <= i < |times|
      ensures Run(cfg, store, key, times).1[i] == vs[i - 1]
    {
    }
  }

  /** `cleanup`: the entries whose window is not over. */
  function Sweep(store: Store, now: int): (r: Store)
    ensures r.Keys <= store.Keys
    ensures forall k :: k in r ==> r[k] == store[k]
  {
    map k | k in store && !Expired(store[k], now) :: store[k]
  }

  /** The sweep removes exactly the expired entries; one whose window ends
      now stays. */
  lemma SweepRemovesExactlyExpired(store: Store, now: int, key: string)
    requires key in store
    ensures key in Sweep(store, now) <==> now <= store[key].resetTime
  {
  }

  /** A sweep is invisible to later requests: at any later instant, the
      request's verdict and its own new entry are the same with or without
      the sweep. */
  lemma SweepUnobservable(cfg: Config, store: Store, key: string, swept: int, now: int)
    requires swept <= now
    ensures Step(cfg, Sweep(store, swept), key, now).1 == Step(cfg, store, key, now).1
    ensures Step(cfg, Sweep(store, swept), key, now).0[key] == Step(cfg, store, key, now).0[key]
  {
  }

  /** The limiter singleton: its configuration and its store. */
  class RateLimiter {
    const cfg: Config
    var store: Store

    constructor(cfg: Config)
      ensures this.cfg == cfg && store == map[]
    {
      this.cfg := cfg;
      store := map[];
    }

    /** `getRateLimitInfo` on the current store. */
    function Info(key: string, now: int): (info: Info)
      reads this
      ensures info.limit == cfg.maxRequests && info.remaining <= cfg.maxRequests
      ensures key !in store ==> info.reset == now + cfg.windowMs && info.remaining == cfg.maxRequests
    {
      InfoOf(cfg, store, key, now)
    }

    /** `cleanup`: walks the keys, deleting each entry whose window is over. */
    method Cleanup(now: int)
      modifies this
      ensures store == Sweep(old(store), now)
    {
      var pending := store.Keys;
      while pending != {}
        invariant pending <= old(store).Keys
        invariant forall k :: k in store <==> k in old(store) && (k in pending || !Expired(old(store)[k], now))
        invariant forall k :: k in store ==> store[k] == old(store)[k]
        decreases pending
      {
        var k :| k in pending;
        if store[k].resetTime < now {
          store := store - {k};
        }
        pending := pending - {k};
      }
    }

    /** The middleware on one request at instant `now`. */
    method Handle(req: Requester, now: int) returns (v: Verdict)
      modifies this
      ensures (store, v) == Step(cfg, old(store), Key(req), now)
    {
      var key := Key(req);
      if key !in store || store[key].resetTime < now {
        store := store[key := Entry(1, now + cfg.windowMs)];
      } else {
        var entry := store[key];
        entry := entry.(count := entry.count + 1);
        store := store[key := entry];
        if entry.count > cfg.maxRequests {
          var info := Info(key, now);
          v := Rejected(info.(remaining := 0), RateLimitError(TooManyRequests));
          return;
        }
      }
      v := Allowed(Info(key, now));
    }
  }
}
