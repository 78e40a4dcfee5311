/**
 The session objects of one request in middleware/sessions.go, in place: the store's
 registry hands out one `Session` per cookie name, splitting and joining move values
 between objects, and the map of split sessions is walked in any order.
 */
module RequestSessions {
  import opened SessionValues
  import opened SplitCookies

  /** The browser's side of the store. */
  class CookieJar {
    var cookies: Cookies

    constructor (cookies: Cookies)
      ensures this.cookies == cookies
    {
      this.cookies := cookies;
    }
  }

  class Registry {
    var sessions: map<string, Session>
    const jar: CookieJar

    constructor (jar: CookieJar)
      ensures this.jar == jar && Valid() && Contents() == map[]
    {
      this.jar := jar;
      sessions := map[];
    }

    /** Different names, different objects. */
    ghost predicate Valid()
      reads this
    {
      forall n <- sessions, m <- sessions :: sessions[n] == sessions[m] ==> n == m
    }

    ghost function Contents(): Objects
      reads this, sessions.Values
    {
      map n | n in sessions :: sessions[n].values
    }

    /** `store.Get`. */
    method Get(n: string) returns (session: Session)
      requires Valid()
      modifies this
      ensures Valid() && Contents() == Opened(jar.cookies, old(Contents()), n)
      ensures n in sessions && session == sessions[n]
      ensures forall m <- old(sessions) :: m in sessions && sessions[m] == old(sessions[m])
      ensures forall s <- sessions.Values :: s in old(sessions.Values) || fresh(s)
    {
      if n in sessions {
        return sessions[n];
      }
      session := new Session(Stored(jar.cookies, n));
      sessions := sessions[n := session];
    }

    /** One object changes, and with it what its name holds. */
    method Put(n: string, values: Values)
      requires Valid() && n in sessions
      modifies sessions[n]
      ensures Contents() == old(Contents())[n := values]
    {
      sessions[n].values := values;
    }

    method Join(main: string, key: Key)
      requires Valid() && main in sessions
      modifies this, sessions.Values
      ensures Valid() && main in sessions && Contents() == Joined(jar.cookies, old(Contents()), main, key)
      ensures forall s <- sessions.Values :: s in old(sessions.Values) || fresh(s)
    {
      var split := Get(CookieName(key));
      Move(main, split, CookieName(key), key);
    }

    /** The value of a companion is put back into the main session. */
    method Move(main: string, split: Session, n: string, key: Key)
      requires Valid() && main in sessions && n in sessions && sessions[n] == split
      modifies sessions[main]
      ensures Contents() == Rejoined(old(Contents()), main, n, key)
    {
      if key in split.values {
        Put(main, sessions[main].values[key := split.values[key]]);
      }
    }

    /** The start of the handler that buildHandler makes. */
    method LoadAll(main: string, keys: seq<Key>)
      requires Valid() && sessions == map[]
      modifies this
      ensures Valid() && Contents() == Load(jar.cookies, main, keys)
      ensures fresh(sessions.Values)
    {
      var _ := Get(main);
      ghost var start := Contents();
      for i := 0 to |keys|
        invariant Valid() && main in sessions && fresh(sessions.Values)
        invariant Contents() == JoinAll(jar.cookies, start, main, keys[..i])
      {
        JoinAllNext(jar.cookies, start, main, keys, i);
        Join(main, keys[i]);
      }
      assert keys[..|keys|] == keys;
    }

    /** `splitSessionCookie`. */
    method Split(main: string, key: Key)
      requires Valid() && main in sessions && CookieName(key) in sessions
      modifies sessions.Values
      ensures Contents() == SplitOff(old(Contents()), main, key)
    {
      var n := CookieName(key);
      Put(n, map[]);
      var values := sessions[main].values;
      assert values == Contents()[main];
      if key in values {
        Put(n, map[key := values[key]]);
        Put(main, values - {key});
      }
    }

    method SaveSplit(main: string, key: Key)
      requires Valid() && main in sessions && CookieName(key) in sessions
      modifies jar, sessions.Values
      ensures Contents() == SplitOff(old(Contents()), main, key)
      ensures jar.cookies == old(jar.cookies)[CookieName(key) := Contents()[CookieName(key)]]
    {
      Split(main, key);
      jar.cookies := jar.cookies[CookieName(key) := sessions[CookieName(key)].values];
    }

    /** The split-and-save loop: the map iteration takes the keys in any order. */
    method SaveSplitsLoop(main: string, keys: seq<Key>) returns (ghost order: seq<Key>)
      requires Valid() && main in sessions && forall k <- keys :: CookieName(k) in sessions
      modifies jar, sessions.Values
      ensures IterationOrder(order, keys)
      ensures (Contents(), jar.cookies) == SaveSplits(old(Contents()), old(jar.cookies), main, order)
    {
      order := [];
      var todo := set k | k in keys;
      while todo != {}
        invariant forall k :: k in todo <==> k in keys && k !in order
        invariant Distinct(order) && forall k <- order :: k in keys
        invariant (Contents(), jar.cookies) == SaveSplits(old(Contents()), old(jar.cookies), main, order)
        decreases |todo|
      {
        var key :| key in todo;
        todo := todo - {key};
        ghost var longer := order + [key];
        SaveSplitsMore(old(Contents()), old(jar.cookies), main, order, key);
        SaveSplit(main, key);
        order := longer;
      }
    }

    /** The save body. */
    method SaveAll(main: string, keys: seq<Key>, now: int) returns (ghost order: seq<Key>)
      requires Valid() && main in sessions && forall k <- keys :: CookieName(k) in sessions
      modifies jar, sessions.Values
      ensures IterationOrder(order, keys)
      ensures jar.cookies == Save(old(Contents()), old(jar.cookies), main, order, now)
    {
      order := SaveSplitsLoop(main, keys);
      StoreLastActivity(sessions[main], now);
      jar.cookies := jar.cookies[main := sessions[main].values];
    }
  }

  /**
   Two requests in a row: a handler that leaves `values` in the session, and what the session
   of the next request holds.
   */
  method TwoRequests(jar: CookieJar, main: string, keys: seq<Key>, values: Values, now: int) returns (back: Values)
    modifies jar
    ensures SeparateCookies(main, keys) ==> back - {LastActivityKey} == values - {LastActivityKey}
    ensures SeparateCookies(main, keys) && LastActivityKey !in keys ==>
              LastActivityKey in back && back[LastActivityKey] == Int64(now / NANOS)
  {
    var first := new Registry(jar);
    first.LoadAll(main, keys);
    ghost var loaded, cookies := first.Contents(), jar.cookies;
    assert first.sessions[main] in first.sessions.Values;
    first.Put(main, values);
    ghost var order := first.SaveAll(main, keys, now);
    var second := new Registry(jar);
    second.LoadAll(main, keys);
    back := second.sessions[main].values;
    assert back == second.Contents()[main] == Restored(cookies, main, keys, values, order, now);
    if SeparateCookies(main, keys) {
      RestoredIsSaved(cookies, main, keys, values, order, now);
    }
  }
}
