/** The race between the origin and the cache, and the freshness rules: src/cache_control.cpp.

    The text of header fields is not modelled: a "Cache-Control" value is the list of its directives,
    with the numbers of "max-age" and "s-maxage" already parsed (None where that failed). */
module CacheFetch {
  import opened Options

  type Time = int

  datatype Directive = MaxAge(seconds: Option<nat>) | SMaxAge(seconds: Option<nat>)
                     | NoCache | NoStore | Private | OtherDirective

  datatype Response = Response(status: nat, cacheControl: Option<seq<Directive>>, expires: Option<Time>,
                               etag: Option<string>, warnings: seq<nat>, body: string)

  /** A stored response; the time stamp may not be a date, and then no time compares as later. */
  datatype Entry = Entry(timeStamp: Option<Time>, response: Response)

  datatype Request = Request(ifNoneMatch: Option<string>, cacheControl: Option<seq<Directive>>)

  datatype Error = OperationAborted | OtherError(code: nat)

  datatype Fetched<T> = Got(value: T) | Failed(error: Error)

  datatype Outcome = Fresh(response: Response) | Revalidated(response: Response) | Stored(response: Response)
                   | Err(error: Error)

  /** What the outside does during one fetch.  The two fetches end in steps `originAt` and `storedAt`,
      counted in wake-ups of the waiting coroutine; `retried` answers the conditional request, and
      `ageReadAt` and `expiryReadAt` are the times read by the two freshness tests. */
  datatype World = World(origin: Fetched<Response>, stored: Fetched<Entry>, retried: Fetched<Response>,
                         originAt: nat, storedAt: nat, ageReadAt: Time, expiryReadAt: Time)

  const FOUND: nat := 302
  const NOT_MODIFIED: nat := 304
  const TEMPORARY_REDIRECT: nat := 307
  const STALE: nat := 110
  const REVALIDATION_FAILED: nat := 111

  // ---------------------------------------------------------------- Ages

  /** The readable numbers of the "s-maxage" directives. */
  ghost function SharedAges(ds: seq<Directive>): set<nat> {
    set i | 0 <= i < |ds| && ds[i].SMaxAge? && ds[i].seconds.Some? :: ds[i].seconds.value
  }

  /** The readable numbers of the "max-age" directives. */
  ghost function PrivateAges(ds: seq<Directive>): set<nat> {
    set i | 0 <= i < |ds| && ds[i].MaxAge? && ds[i].seconds.Some? :: ds[i].seconds.value
  }

  ghost predicate IsGreatest(r: Option<nat>, s: set<nat>) {
    if r.None? then s == {} else r.value in s && forall x :: x in s ==> x <= r.value
  }

  /** The age that governs: the greatest "s-maxage" if there is one, else the greatest "max-age". */
  ghost predicate IsMaxAge(r: Option<nat>, ds: seq<Directive>) {
    IsGreatest(r, if SharedAges(ds) != {} then SharedAges(ds) else PrivateAges(ds))
  }

  method UpdateMaxAge(maxAge: Option<nat>, value: Option<nat>, ghost seen: set<nat>) returns (r: Option<nat>)
    requires IsGreatest(maxAge, seen)
    ensures IsGreatest(r, if value.Some? then seen + {value.value} else seen)
  {
    if value == None {
      return maxAge;
    }
    if maxAge == None || maxAge.value < value.value {
      return value;
    }
    return maxAge;
  }

  method GetMaxAge(ds: seq<Directive>) returns (r: Option<nat>)
    ensures IsMaxAge(r, ds)
  {
    var maxAge, sMaxAge := None, None;
    for i := 0 to |ds|
      invariant IsGreatest(sMaxAge, SharedAges(ds[..i]))
      invariant IsGreatest(maxAge, PrivateAges(ds[..i]))
    {
      AgesSnoc(ds[..i], ds[i]);
      assert ds[..i + 1] == ds[..i] + [ds[i]];
      if ds[i].SMaxAge? {
        sMaxAge := UpdateMaxAge(sMaxAge, ds[i].seconds, SharedAges(ds[..i]));
      }
      if ds[i].MaxAge? {
        maxAge := UpdateMaxAge(maxAge, ds[i].seconds, PrivateAges(ds[..i]));
      }
    }
    assert ds[..|ds|] == ds;
    return if sMaxAge.Some? then sMaxAge else maxAge;
  }

  lemma AgesSnoc(ds: seq<Directive>, d: Directive)
    ensures SharedAges(ds + [d]) == SharedAges(ds) + if d.SMaxAge? && d.seconds.Some? then {d.seconds.value} else {}
    ensures PrivateAges(ds + [d]) == PrivateAges(ds) + if d.MaxAge? && d.seconds.Some? then {d.seconds.value} else {}
  {
    var all := ds + [d];
    assert forall i :: 0 <= i < |ds| ==> all[i] == ds[i];
    assert all[|ds|] == d;
  }

  // ---------------------------------------------------------------- Freshness

  /** Past the governing age; where there is none, past the "Expires" date, or there is none either. */
  ghost predicate Expired(e: Entry, now: Time) {
    if e.response.cacheControl.Some? && exists a: nat :: IsMaxAge(Some(a), e.response.cacheControl.value) then
      forall a: nat :: IsMaxAge(Some(a), e.response.cacheControl.value) ==>
        e.timeStamp.Some? && now > e.timeStamp.value + a
    else e.response.expires.None? || e.response.expires.value < now
  }

  method IsExpired(e: Entry, now: Time) returns (r: bool)
    ensures r == Expired(e, now)
  {
    if e.response.cacheControl.Some? {
      var maxAge := GetMaxAge(e.response.cacheControl.value);
      if maxAge.Some? {
        return e.timeStamp.Some? && now > e.timeStamp.value + maxAge.value;
      }
    }
    return e.response.expires.None? || e.response.expires.value < now;
  }

  predicate Has(cacheControl: Option<seq<Directive>>, d: Directive) {
    cacheControl.Some? && d in cacheControl.value
  }

  /** `maxCachedAge` is None where the source uses -1 seconds for "never". */
  predicate OlderThan(e: Entry, maxCachedAge: Option<int>, now: Time) {
    maxCachedAge.Some? && e.timeStamp.Some? && now - e.timeStamp.value > maxCachedAge.value
  }

  /** A stored response that the origin is asked about first, expired or not. */
  predicate Distrusted(e: Entry, maxCachedAge: Option<int>, now: Time) {
    || Has(e.response.cacheControl, Private)
    || OlderThan(e, maxCachedAge, now)
    || e.response.status == FOUND || e.response.status == TEMPORARY_REDIRECT
  }

  /** The request asks for an answer from the origin. */
  ghost predicate Forces(rq: Request) {
    || rq.ifNoneMatch.Some?
    || Has(rq.cacheControl, NoCache) || Has(rq.cacheControl, NoStore)
    || (rq.cacheControl.Some? && IsMaxAge(Some(0), rq.cacheControl.value))
  }

  method MustRevalidate(rq: Request) returns (r: bool)
    ensures r == Forces(rq)
  {
    if rq.ifNoneMatch.Some? {
      return true;
    }
    if rq.cacheControl.Some? {
      var ds := rq.cacheControl.value;
      var maxAge := GetMaxAge(ds);
      if maxAge == Some(0) {
        return true;
      }
      for i := 0 to |ds|
        invariant NoCache !in ds[..i] && NoStore !in ds[..i]
      {
        if ds[i] == NoCache || ds[i] == NoStore {
          return true;
        }
      }
      assert ds[..|ds|] == ds;
    }
    return false;
  }

  // ---------------------------------------------------------------- Fetch

  function Warned(r: Response, code: nat): Response {
    r.(warnings := r.warnings + [code])
  }

  /** Nothing but an error came back. */
  ghost predicate Fails(rq: Request, w: World) {
    w.origin.Failed? && (w.stored.Failed? || (Forces(rq) && w.origin.error == OperationAborted))
  }

  /** The cache answered before a good answer of the origin, in a fetch that may use it. */
  ghost predicate StoredWins(rq: Request, w: World) {
    !Forces(rq) && w.stored.Got? && (w.origin.Failed? || w.storedAt < w.originAt)
  }

  /** The cached response is expired, and has the tag needed to ask whether it changed. */
  ghost predicate AsksAgain(rq: Request, w: World, maxCachedAge: Option<int>) {
    && StoredWins(rq, w)
    && !Distrusted(w.stored.value, maxCachedAge, w.ageReadAt)
    && Expired(w.stored.value, w.expiryReadAt)
    && w.stored.value.response.etag.Some?
  }

  /** The origin is asked once the cache has won: its answer is preferred if there is one. */
  ghost predicate WaitsForOrigin(rq: Request, w: World, maxCachedAge: Option<int>) {
    && StoredWins(rq, w)
    && !AsksAgain(rq, w, maxCachedAge)
    && (Distrusted(w.stored.value, maxCachedAge, w.ageReadAt) || Expired(w.stored.value, w.expiryReadAt))
  }

  ghost function WithDueWarning(rq: Request, w: World, maxCachedAge: Option<int>): Response
    requires w.stored.Got?
  {
    var e := w.stored.value;
    if Forces(rq) then Warned(e.response, REVALIDATION_FAILED)
    else if Expired(e, w.expiryReadAt) && !(AsksAgain(rq, w, maxCachedAge) && w.retried.Got?) then
      Warned(e.response, STALE)
    else e.response
  }

  method WaitForFirst(w: World) returns (t: nat)
    ensures || (w.origin.Got? && w.originAt <= t) || (w.stored.Got? && w.storedAt <= t)
            || (w.originAt <= t && w.storedAt <= t)
    // The step before did not suffice.
    ensures (w.origin.Got? ==> t <= w.originAt) && (w.stored.Got? ==> t <= w.storedAt)
  {
    t := 0;
    while true
      invariant w.origin.Got? ==> t <= w.originAt
      invariant w.stored.Got? ==> t <= w.storedAt
      invariant t <= w.originAt || t <= w.storedAt
      decreases w.originAt + w.storedAt - t
    {
      var originDone, storedDone := w.originAt <= t, w.storedAt <= t;
      if originDone && w.origin.Got? { break; }
      if storedDone && w.stored.Got? { break; }
      if originDone && storedDone { break; }
      t := t + 1;
    }
  }

  method Fetch(rq: Request, w: World, maxCachedAge: Option<int>) returns (r: Outcome)
    // It errs only when there is nothing to serve, or the origin fetch of a forced revalidation was aborted.
    ensures r.Err? <==> Fails(rq, w)
    ensures r.Err? ==>
              r.error == if Forces(rq) && w.origin.error != OperationAborted then w.stored.error else w.origin.error
    // The origin's answer is served whenever there is one, unless the cache won and needs no second opinion.
    ensures r.Fresh? <==> w.origin.Got? && (StoredWins(rq, w) ==> WaitsForOrigin(rq, w, maxCachedAge))
    ensures r.Fresh? ==> w.origin == Got(r.response)
    ensures r.Revalidated? <==>
            AsksAgain(rq, w, maxCachedAge) && w.retried.Got? && w.retried.value.status != NOT_MODIFIED
    ensures r.Revalidated? ==> w.retried == Got(r.response)
    // A stored response gets the warning that is due, and no other change.
    ensures r.Stored? ==> w.stored.Got? && r.response == WithDueWarning(rq, w, maxCachedAge)
    // Expired and served without a warning: only after "not modified".
    ensures r.Stored? && r.response == w.stored.value.response && Expired(w.stored.value, w.expiryReadAt) ==>
              w.retried.Got? && w.retried.value.status == NOT_MODIFIED
  {
    hide Expired;
    var force := MustRevalidate(rq);
    if force {
      if w.origin.Got? {
        return Fresh(w.origin.value);
      }
      if w.origin.error == OperationAborted {
        return Err(w.origin.error);
      }
      if w.stored.Got? {
        return Stored(Warned(w.stored.value.response, REVALIDATION_FAILED));
      }
      return Err(w.stored.error);
    }

    var t := WaitForFirst(w);
    var originDone, storedDone := w.originAt <= t, w.storedAt <= t;
    if originDone && w.origin.Failed? && storedDone && w.stored.Failed? {
      return Err(w.origin.error);
    }
    if originDone && w.origin.Got? {
      return Fresh(w.origin.value);
    }

    var entry := w.stored.value;
    if Distrusted(entry, maxCachedAge, w.ageReadAt) {
      t := WaitForOrigin(w, t);
      if w.origin.Got? {
        return Fresh(w.origin.value);
      }
      var stale := IsExpired(entry, w.expiryReadAt);
      return Stored(if stale then Warned(entry.response, STALE) else entry.response);
    }

    var expired := IsExpired(entry, w.expiryReadAt);
    if !expired {
      return Stored(entry.response);
    }
    if entry.response.etag.Some? && rq.ifNoneMatch.None? {
      if w.retried.Failed? {
        return Stored(Warned(entry.response, STALE));
      }
      if w.retried.value.status == NOT_MODIFIED {
        return Stored(entry.response);
      }
      return Revalidated(w.retried.value);
    }
    t := WaitForOrigin(w, t);
    if w.origin.Failed? {
      return Stored(Warned(entry.response, STALE));
    }
    return Fresh(w.origin.value);
  }

  method WaitForOrigin(w: World, now: nat) returns (t: nat)
    ensures now <= t && w.originAt <= t
  {
    t := now;
    while !(w.originAt <= t)
      invariant now <= t
      decreases w.originAt - t
    {
      t := t + 1;
    }
  }
}
