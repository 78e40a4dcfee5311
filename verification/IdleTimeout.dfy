/**
 The idle timer of middleware/sessions.go: the save body stamps the session with the
 current second, and CheckSessionIdleNoAuth stops a request whose stamp is too old.
 Clocks are nanoseconds since the epoch.
 */
module IdleTimeout {
  import opened Wrappers
  import opened SessionValues
  import opened SplitCookies
  import opened SplitLimits

  /** `time.Since` of a second: a difference that does not fit an int64 becomes the nearest that does. */
  function Since(now: int, second: int): int {
    var gap := now - second * NANOS;
    if gap >= INT64_LIMIT then INT64_LIMIT - 1 else if gap < -INT64_LIMIT then -INT64_LIMIT else gap
  }

  predicate Idle(values: Values, now: int, idleTTL: int) {
    LastActivity(values).Some? && Since(now, LastActivity(values).value) > idleTTL
  }

  /** `CheckSessionIdleNoAuth`: `stopped` says that onIdle ran instead of the next handler. */
  method CheckSessionIdle(session: Session?, now: int, idleTTL: int) returns (stopped: bool)
    modifies session
    ensures stopped <==> session != null && Idle(old(session.values), now, idleTTL)
    ensures -INT64_LIMIT <= idleTTL < INT64_LIMIT ==>
              (stopped <==>
               && session != null && LastActivityKey in old(session.values)
               && exists i :: i != 0 && old(session.values)[LastActivityKey] == Int64(i)
                              && idleTTL < INT64_LIMIT - 1 && now - i * 1_000_000_000 > idleTTL)
    ensures session != null ==> session.values == LastActivityRead(old(session.values))
  {
    if session != null {
      var t := ReadLastActivity(session);
      if t.Some? && Since(now, t.value) > idleTTL {
        return true;
      }
    }
    return false;
  }

  /**
   A request through RequireSession and CheckSessionIdleNoAuth: when its idle check reads the
   clock, what its handler leaves in the session, when and in which order its save body saves
   it, and whether the cookies got to the browser.
   */
  datatype Request = Request(checked: int, values: Values, saved: int, order: seq<Key>, ok: bool)

  ghost predicate History(keys: seq<Key>, requests: seq<Request>) {
    && (forall i :: 0 <= i < |requests| ==> 0 <= requests[i].checked <= requests[i].saved)
    && (forall i, j :: 0 <= i < j < |requests| ==> requests[i].saved <= requests[j].checked)
    && (forall i :: 0 <= i < |requests| ==> IterationOrder(requests[i].order, keys))
  }

  /** The cookies that request `n` comes with. */
  ghost function CookiesAt(start: Cookies, main: string, keys: seq<Key>, requests: seq<Request>, n: nat): Cookies
    requires History(keys, requests) && n <= |requests|
  {
    if n == 0 then start
    else
      var cookies, r := CookiesAt(start, main, keys, requests, n - 1), requests[n - 1];
      if r.ok then Served(cookies, main, keys, r.values, r.order, r.saved) else cookies
  }

  /** The session that request `n` finds. */
  ghost function Found(start: Cookies, main: string, keys: seq<Key>, requests: seq<Request>, n: nat): Values
    requires History(keys, requests) && n <= |requests|
  {
    Load(CookiesAt(start, main, keys, requests, n), main, keys)[main]
  }

  /** When the session that request `n` finds was really saved. */
  function LastSave(requests: seq<Request>, n: nat): Option<int>
    requires n <= |requests|
  {
    if n == 0 then None
    else if requests[n - 1].ok then Some(requests[n - 1].saved)
    else LastSave(requests, n - 1)
  }

  /**
   Every save that reaches the browser restarts the timer, and nothing that handlers do does:
   over saving, splitting, joining and loading the next request finds the second of the save.
   */
  lemma {:induction false} TimerIsLastSave(start: Cookies, main: string, keys: seq<Key>, requests: seq<Request>, n: nat)
    requires History(keys, requests) && n <= |requests| && StampInMain(main, keys)
    ensures LastSave(requests, n).None? ==> CookiesAt(start, main, keys, requests, n) == start
    ensures LastSave(requests, n).Some? ==>
              && 0 <= LastSave(requests, n).value
              && (n < |requests| ==> LastSave(requests, n).value <= requests[n].checked)
              && LastActivityKey in Found(start, main, keys, requests, n)
              && Found(start, main, keys, requests, n)[LastActivityKey] == Int64(LastSave(requests, n).value / NANOS)
  {
    if n > 0 {
      var r := requests[n - 1];
      if r.ok {
        StampRestored(CookiesAt(start, main, keys, requests, n - 1), main, keys, r.values, r.order, r.saved);
      } else {
        TimerIsLastSave(start, main, keys, requests, n - 1);
      }
    }
  }

  /**
   A request is stopped exactly when the gap since the last save exceeds the ttl less the
   fraction of a second that the stamp dropped; a save within the first second after the
   epoch counts as none, and no gap exceeds the longest ttl.
   */
  lemma StoppedExactly(start: Cookies, main: string, keys: seq<Key>, requests: seq<Request>, n: nat, idleTTL: int)
    requires History(keys, requests) && n < |requests| && LastSave(requests, n).Some? && StampInMain(main, keys)
    ensures var save := LastSave(requests, n).value;
            Idle(Found(start, main, keys, requests, n), requests[n].checked, idleTTL)
            <==> && save >= NANOS
                 && requests[n].checked - save > idleTTL - save % NANOS
                 && idleTTL < INT64_LIMIT - 1
  {
    TimerIsLastSave(start, main, keys, requests, n);
    var save := LastSave(requests, n).value;
    assert save / NANOS * NANOS == save - save % NANOS;
    assert save / NANOS == 0 <==> save < NANOS;
  }

  /**
   A session without a stamp is never stopped, nor is one whose stamp is no second or is zero; in
   particular no first request of a browser.
   */
  lemma UnstampedPasses(start: Cookies, main: string, keys: seq<Key>, requests: seq<Request>, n: nat, idleTTL: int)
    requires History(keys, requests) && n < |requests|
    requires var found := Found(start, main, keys, requests, n);
             LastActivityKey in found ==> !found[LastActivityKey].Int64? || found[LastActivityKey].i == 0
    ensures !Idle(Found(start, main, keys, requests, n), requests[n].checked, idleTTL)
  {
  }

  /** A browser whose cookies hold no stamp finds none until a save has reached it, and is not stopped. */
  lemma FirstRequestPasses(start: Cookies, main: string, keys: seq<Key>, requests: seq<Request>, n: nat, idleTTL: int)
    requires History(keys, requests) && n < |requests| && StampInMain(main, keys) && LastSave(requests, n).None?
    requires Unstamped(start)
    ensures LastActivityKey !in Found(start, main, keys, requests, n)
    ensures !Idle(Found(start, main, keys, requests, n), requests[n].checked, idleTTL)
  {
    TimerIsLastSave(start, main, keys, requests, n);
    NoStampJoined(start, Opened(start, map[], main), main, keys);
    UnstampedPasses(start, main, keys, requests, n, idleTTL);
  }

  ghost predicate Unstamped(objects: map<string, Values>) {
    forall m <- objects :: LastActivityKey !in objects[m]
  }

  lemma {:induction false} NoStampJoined(cookies: Cookies, objects: Objects, main: string, keys: seq<Key>)
    requires Unstamped(cookies) && Unstamped(objects) && main in objects
    ensures Unstamped(JoinAll(cookies, objects, main, keys))
  {
    if keys != [] {
      NoStampJoined(cookies, objects, main, keys[..|keys| - 1]);
      NoStampStep(cookies, JoinAll(cookies, objects, main, keys[..|keys| - 1]), main, keys[|keys| - 1]);
    }
  }

  lemma NoStampStep(cookies: Cookies, objects: Objects, main: string, key: Key)
    requires Unstamped(cookies) && Unstamped(objects) && main in objects
    ensures Unstamped(Joined(cookies, objects, main, key))
  {
  }

  /** So a true gap over a ttl but the longest stops a request, and one of at most the ttl less a second never does. */
  lemma StoppedAndPassed(start: Cookies, main: string, keys: seq<Key>, requests: seq<Request>, n: nat, idleTTL: int)
    requires History(keys, requests) && n < |requests| && LastSave(requests, n).Some? && StampInMain(main, keys)
    ensures var save := LastSave(requests, n).value;
            var stopped := Idle(Found(start, main, keys, requests, n), requests[n].checked, idleTTL);
            && (save >= NANOS && requests[n].checked - save > idleTTL && idleTTL < INT64_LIMIT - 1 ==> stopped)
            && (requests[n].checked - save <= idleTTL - NANOS ==> !stopped)
  {
    StoppedExactly(start, main, keys, requests, n, idleTTL);
  }
}
