/**
 How middleware/sessions.go spreads a session over cookies: values under the split keys
 get companion cookies on save and are folded back in on load.  Within a request the
 cookie store hands out one session object per cookie name, so two keys with one cookie
 name, or a key whose cookie name is the main one, share an object.  The functions keep
 the objects of a request in a map from cookie name to values, which has exactly that
 sharing; `RequestSessions` keeps them as objects on the heap.
 */
module SplitCookies {
  import opened SessionValues
  import Decimal

  /** The browser: the values last saved under each cookie name. */
  type Cookies = map<string, Values>

  /** The session objects of one request. */
  type Objects = map<string, Values>

  /** What `%v` makes of a key: the int 1 and the string "1" look the same. */
  function Printed(key: Key): string {
    match key
    case CsrfTokenKey => "csrfToken"
    case LastActivityKey => "lastActivity"
    case NonceKey => "nonce"
    case RegionKey => "region"
    case AppKey(name) => name
    case IntKey(n) => if n < 0 then "-" + Decimal.Format(-n) else Decimal.Format(n)
  }

  function CookieName(key: Key): string {
    "_gbs-" + Printed(key)
  }

  /** The names of the companion cookies. */
  lemma CookieNames(name: string)
    ensures CookieName(CsrfTokenKey) == "_gbs-csrfToken" && CookieName(LastActivityKey) == "_gbs-lastActivity"
    ensures CookieName(NonceKey) == "_gbs-nonce" && CookieName(RegionKey) == "_gbs-region"
    ensures CookieName(AppKey(name)) == "_gbs-" + name
  {
  }

  /** Two keys share a cookie exactly when one of them is a string that reads as the other is printed. */
  lemma SharedCookieExactly(k: Key, l: Key)
    ensures CookieName(k) == CookieName(l)
            <==> k == l || (k.AppKey? && k.name == Printed(l)) || (l.AppKey? && l.name == Printed(k))
  {
    assert CookieName(k) == CookieName(l) <==> Printed(k) == Printed(l) by {
      assert CookieName(k)[5..] == Printed(k) && CookieName(l)[5..] == Printed(l);
    }
    FirstPrinted(k);
    FirstPrinted(l);
    if k.IntKey? && l.IntKey? && Printed(k) == Printed(l) {
      SameInt(k.n, l.n);
    }
  }

  /** How what is printed starts. */
  lemma FirstPrinted(k: Key)
    ensures !k.AppKey? ==> Printed(k) != ""
    ensures k.CsrfTokenKey? ==> Printed(k)[0] == 'c'
    ensures k.LastActivityKey? ==> Printed(k)[0] == 'l'
    ensures k.NonceKey? ==> Printed(k)[0] == 'n'
    ensures k.RegionKey? ==> Printed(k)[0] == 'r'
    ensures k.IntKey? ==> if k.n < 0 then Printed(k)[0] == '-' else '0' <= Printed(k)[0] <= '9'
  {
  }

  lemma SameInt(n: int, m: int)
    requires Printed(IntKey(n)) == Printed(IntKey(m))
    ensures n == m
  {
    var a, b := if n < 0 then -n else n, if m < 0 then -m else m;
    assert n < 0 ==> Printed(IntKey(n))[1..] == Decimal.Format(a);
    assert m < 0 ==> Printed(IntKey(m))[1..] == Decimal.Format(b);
    FirstPrinted(IntKey(n));
    FirstPrinted(IntKey(m));
    Decimal.FormatInjective(a, b);
  }

  function Stored(cookies: Cookies, n: string): Values {
    if n in cookies then cookies[n] else map[]
  }

  /** `store.Get`: the object already handed out for the name, or a new one from the cookie. */
  function Opened(cookies: Cookies, objects: Objects, n: string): Objects {
    if n in objects then objects else objects[n := Stored(cookies, n)]
  }

  /** The value of the companion `n`, if it has one, is put back into the main session. */
  function Rejoined(objects: Objects, main: string, n: string, key: Key): (o: Objects)
    requires main in objects && n in objects
    ensures o.Keys == objects.Keys
  {
    if key in objects[n] then objects[main := objects[main][key := objects[n][key]]] else objects
  }

  /** `joinSplitSessionCookie`. */
  function Joined(cookies: Cookies, objects: Objects, main: string, key: Key): (o: Objects)
    requires main in objects
    ensures main in o && CookieName(key) in o && objects.Keys <= o.Keys
  {
    Rejoined(Opened(cookies, objects, CookieName(key)), main, CookieName(key), key)
  }

  function JoinAll(cookies: Cookies, objects: Objects, main: string, keys: seq<Key>): (o: Objects)
    requires main in objects
    ensures main in o && objects.Keys <= o.Keys
    ensures forall k <- keys :: CookieName(k) in o
  {
    if keys == [] then objects
    else Joined(cookies, JoinAll(cookies, objects, main, keys[..|keys| - 1]), main, keys[|keys| - 1])
  }

  lemma JoinAllNext(cookies: Cookies, objects: Objects, main: string, keys: seq<Key>, i: nat)
    requires main in objects && i < |keys|
    ensures JoinAll(cookies, objects, main, keys[..i + 1])
            == Joined(cookies, JoinAll(cookies, objects, main, keys[..i]), main, keys[i])
  {
    assert keys[..i + 1][..i] == keys[..i];
  }

  /** The start of a request: the main session and every companion. */
  function Load(cookies: Cookies, main: string, keys: seq<Key>): (o: Objects)
    ensures main in o && forall k <- keys :: CookieName(k) in o
  {
    JoinAll(cookies, Opened(cookies, map[], main), main, keys)
  }

  /** `splitSessionCookie`. The companion is emptied first, even when it is the main object itself. */
  function SplitOff(objects: Objects, main: string, key: Key): (o: Objects)
    requires main in objects && CookieName(key) in objects
    ensures o.Keys == objects.Keys
  {
    var o := objects[CookieName(key) := map[]];
    if key in o[main] then o[CookieName(key) := map[key := o[main][key]]][main := o[main] - {key}] else o
  }

  /** The split-and-save loop, in the order in which the map iteration takes the keys. */
  function SaveSplits(objects: Objects, cookies: Cookies, main: string, order: seq<Key>): (r: (Objects, Cookies))
    requires main in objects && forall k <- order :: CookieName(k) in objects
    ensures r.0.Keys == objects.Keys
  {
    if order == [] then (objects, cookies)
    else
      var (o, c) := SaveSplits(objects, cookies, main, order[..|order| - 1]);
      var key := order[|order| - 1];
      var o' := SplitOff(o, main, key);
      (o', c[CookieName(key) := o'[CookieName(key)]])
  }

  /** The save body of the session middleware, at clock `now` in nanoseconds. */
  function Save(objects: Objects, cookies: Cookies, main: string, order: seq<Key>, now: int): Cookies
    requires main in objects && forall k <- order :: CookieName(k) in objects
  {
    var (o, c) := SaveSplits(objects, cookies, main, order);
    c[main := o[main][LastActivityKey := Int64(now / NANOS)]]
  }

  /** Each split key once, in some order. */
  ghost predicate IterationOrder(order: seq<Key>, keys: seq<Key>) {
    && (forall k :: k in order <==> k in keys)
    && Distinct(order)
  }

  /** The cookies after a request whose handler left `values` in the session. */
  function Served(cookies: Cookies, main: string, keys: seq<Key>, values: Values, order: seq<Key>, now: int): Cookies
    requires forall k <- order :: k in keys
  {
    Save(Load(cookies, main, keys)[main := values], cookies, main, order, now)
  }

  /** The session that the next request finds. */
  function Restored(cookies: Cookies, main: string, keys: seq<Key>, values: Values, order: seq<Key>, now: int): Values
    requires forall k <- order :: k in keys
  {
    Load(Served(cookies, main, keys, values, order, now), main, keys)[main]
  }

  /** No two split keys share a cookie, and none shares the main one. */
  ghost predicate SeparateCookies(main: string, keys: seq<Key>) {
    && (forall k <- keys :: CookieName(k) != main)
    && (forall k <- keys, l <- keys :: CookieName(k) == CookieName(l) ==> k == l)
  }

  /** What a companion cookie holds. */
  function Companion(values: Values, key: Key): Values {
    if key in values then map[key := values[key]] else map[]
  }

  function KeySet(keys: seq<Key>): set<Key> {
    set k | k in keys
  }

  lemma SplitOffMoves(objects: Objects, main: string, key: Key)
    requires main in objects && CookieName(key) in objects && CookieName(key) != main
    ensures var o := SplitOff(objects, main, key);
            o[main] == objects[main] - {key} && o[CookieName(key)] == Companion(objects[main], key)
  {
  }

  lemma SaveSplitsSnoc(objects: Objects, cookies: Cookies, main: string, order: seq<Key>)
    requires main in objects && order != [] && forall k <- order :: CookieName(k) in objects
    ensures var init, key := order[..|order| - 1], order[|order| - 1];
            var (o, c) := SaveSplits(objects, cookies, main, init);
            SaveSplits(objects, cookies, main, order)
            == (SplitOff(o, main, key), c[CookieName(key) := SplitOff(o, main, key)[CookieName(key)]])
  {
  }

  lemma SaveSplitsMore(objects: Objects, cookies: Cookies, main: string, order: seq<Key>, key: Key)
    requires main in objects && CookieName(key) in objects && forall k <- order :: CookieName(k) in objects
    requires Distinct(order) && key !in order
    ensures Distinct(order + [key]) && forall k :: k in order + [key] <==> k in order || k == key
    ensures var (o, c) := SaveSplits(objects, cookies, main, order);
            SaveSplits(objects, cookies, main, order + [key])
            == (SplitOff(o, main, key), c[CookieName(key) := SplitOff(o, main, key)[CookieName(key)]])
  {
    var longer := order + [key];
    assert longer[..|longer| - 1] == order && longer[|longer| - 1] == key;
    SaveSplitsSnoc(objects, cookies, main, longer);
  }

  ghost predicate Distinct(order: seq<Key>) {
    forall i, j :: 0 <= i < j < |order| ==> order[i] != order[j]
  }

  /** Every key of `order` has moved from the main session to its companion cookie. */
  ghost predicate Moved(o: Objects, c: Cookies, main: string, order: seq<Key>, values: Values) {
    && main in o && o[main] == values - KeySet(order)
    && (forall k <- order :: CookieName(k) in c && c[CookieName(k)] == Companion(values, k))
  }

  lemma {:induction false} SplitsSaved(objects: Objects, cookies: Cookies, main: string, order: seq<Key>,
                                       keys: seq<Key>)
    requires main in objects && (forall k <- order :: k in keys) && (forall k <- order :: CookieName(k) in objects)
    requires SeparateCookies(main, keys) && Distinct(order)
    ensures var (o, c) := SaveSplits(objects, cookies, main, order);
            Moved(o, c, main, order, objects[main])
  {
    if order == [] {
      assert objects[main] - KeySet(order) == objects[main];
    } else {
      var init, key, values := order[..|order| - 1], order[|order| - 1], objects[main];
      SplitsSaved(objects, cookies, main, init, keys);
      SaveSplitsSnoc(objects, cookies, main, order);
      var (o, c) := SaveSplits(objects, cookies, main, init);
      LastIsNew(order);
      MovedOneMore(o, c, main, init, key, keys, values);
    }
  }

  lemma LastIsNew(order: seq<Key>)
    requires Distinct(order) && order != []
    ensures var init, key := order[..|order| - 1], order[|order| - 1];
            order == init + [key] && key !in init && Distinct(init)
  {
  }

  lemma KeySetSnoc(init: seq<Key>, key: Key)
    ensures KeySet(init + [key]) == KeySet(init) + {key}
  {
    assert forall k :: k in init + [key] <==> k in init || k == key;
  }

  lemma MovedOneMore(o: Objects, c: Cookies, main: string, init: seq<Key>, key: Key, keys: seq<Key>, values: Values)
    requires Moved(o, c, main, init, values) && CookieName(key) in o
    requires SeparateCookies(main, keys) && key in keys && key !in init && forall k <- init :: k in keys
    ensures var o' := SplitOff(o, main, key);
            Moved(o', c[CookieName(key) := o'[CookieName(key)]], main, init + [key], values)
  {
    SplitOffMoves(o, main, key);
    KeySetSnoc(init, key);
    assert o[main] - {key} == values - KeySet(init + [key]);
    assert key in o[main] <==> key in values;
  }

  /** The companion cookies hold what was split off `values`. */
  ghost predicate Companions(cookies: Cookies, keys: seq<Key>, values: Values) {
    forall k <- keys :: CookieName(k) in cookies && cookies[CookieName(k)] == Companion(values, k)
  }

  /** What the main session holds once `done` are joined. */
  function Merged(base: Values, values: Values, done: set<Key>): Values {
    base + (map k | k in values && k in done :: values[k])
  }

  /** What has been joined is in the main session, and the companions that were opened still hold theirs. */
  ghost predicate JoinedSoFar(o: Objects, base: Values, main: string, keys: seq<Key>, values: Values, done: seq<Key>) {
    && main in o && o[main] == Merged(base, values, KeySet(done))
    && forall k <- keys :: CookieName(k) in o ==> o[CookieName(k)] == Companion(values, k)
  }

  /** Joining the keys one by one from cookies that hold what was split off. */
  lemma {:induction false} JoinedBack(cookies: Cookies, objects: Objects, main: string, keys: seq<Key>,
                                      values: Values, done: seq<Key>)
    requires SeparateCookies(main, keys) && forall k <- done :: k in keys
    requires Companions(cookies, keys, values)
    requires main in objects && JoinedSoFar(objects, objects[main], main, keys, values, [])
    ensures JoinedSoFar(JoinAll(cookies, objects, main, done), objects[main], main, keys, values, done)
  {
    if done != [] {
      var init, key := done[..|done| - 1], done[|done| - 1];
      JoinedBack(cookies, objects, main, keys, values, init);
      assert done == init + [key];
      JoinOneMore(cookies, JoinAll(cookies, objects, main, init), objects[main], main, keys, values, init, key);
    }
  }

  lemma JoinOneMore(cookies: Cookies, objects: Objects, base: Values, main: string, keys: seq<Key>, values: Values,
                    init: seq<Key>, key: Key)
    requires SeparateCookies(main, keys) && main in objects && key in keys
    requires Companions(cookies, keys, values)
    requires JoinedSoFar(objects, base, main, keys, values, init)
    ensures JoinedSoFar(Joined(cookies, objects, main, key), base, main, keys, values, init + [key])
  {
    JoinOne(cookies, objects, main, keys, values, key);
    MergedOneMore(base, values, init, key);
  }

  lemma MergedOneMore(base: Values, values: Values, init: seq<Key>, key: Key)
    ensures Merged(Merged(base, values, KeySet(init)), values, {key}) == Merged(base, values, KeySet(init + [key]))
  {
    KeySetSnoc(init, key);
  }

  lemma JoinOne(cookies: Cookies, objects: Objects, main: string, keys: seq<Key>, values: Values, key: Key)
    requires SeparateCookies(main, keys) && main in objects && key in keys
    requires Companions(cookies, keys, values)
    requires forall k <- keys :: CookieName(k) in objects ==> objects[CookieName(k)] == Companion(values, k)
    ensures var o := Joined(cookies, objects, main, key);
            && o[main] == Merged(objects[main], values, {key})
            && (forall k <- keys :: CookieName(k) in o ==> o[CookieName(k)] == Companion(values, k))
  {
    RejoinOne(cookies, objects, main, CookieName(key), values, key);
  }

  lemma RejoinOne(cookies: Cookies, objects: Objects, main: string, n: string, values: Values, key: Key)
    requires main in objects && n != main && n in cookies && cookies[n] == Companion(values, key)
    requires n in objects ==> objects[n] == cookies[n]
    ensures var o := Rejoined(Opened(cookies, objects, n), main, n, key);
            && o[main] == Merged(objects[main], values, {key}) && n in o && o[n] == cookies[n]
            && (forall m :: m in o && m != main && m != n ==> m in objects && o[m] == objects[m])
  {
    var o := Opened(cookies, objects, n);
    assert o[n] == Companion(values, key) && o[main] == objects[main];
  }

  /**
   Saving and then loading restores every session value except the last activity, for any
   iteration order and whatever cookies the browser had before; the last activity is the
   second of the save unless it is a split key.
   */
  lemma RestoredIsSaved(cookies: Cookies, main: string, keys: seq<Key>, values: Values, order: seq<Key>, now: int)
    requires SeparateCookies(main, keys) && IterationOrder(order, keys)
    ensures var back := Restored(cookies, main, keys, values, order, now);
            && back - {LastActivityKey} == values - {LastActivityKey}
            && (LastActivityKey !in keys ==> LastActivityKey in back && back[LastActivityKey] == Int64(now / NANOS))
            && (LastActivityKey in keys && LastActivityKey in values ==>
                  LastActivityKey in back && back[LastActivityKey] == values[LastActivityKey])
  {
    SavedCookies(cookies, main, keys, values, order, now);
    var saved := Served(cookies, main, keys, values, order, now);
    var objects := Opened(saved, map[], main);
    assert Merged(saved[main], values, {}) == saved[main];
    JoinedBack(saved, objects, main, keys, values, keys);
    MergedBack(saved[main], values, KeySet(keys), now);
  }

  lemma MergedBack(base: Values, values: Values, split: set<Key>, now: int)
    requires base == (values - split)[LastActivityKey := Int64(now / NANOS)]
    ensures Merged(base, values, split) - {LastActivityKey} == values - {LastActivityKey}
    ensures LastActivityKey in Merged(base, values, split)
    ensures Merged(base, values, split)[LastActivityKey]
            == if LastActivityKey in split && LastActivityKey in values then values[LastActivityKey]
                else Int64(now / NANOS)
  {
  }

  /** The cookies after a request: the split keys in their companions, the rest and the clock in the main one. */
  lemma SavedCookies(cookies: Cookies, main: string, keys: seq<Key>, values: Values, order: seq<Key>, now: int)
    requires SeparateCookies(main, keys) && IterationOrder(order, keys)
    ensures var saved := Served(cookies, main, keys, values, order, now);
            && main in saved && saved[main] == (values - KeySet(keys))[LastActivityKey := Int64(now / NANOS)]
            && Companions(saved, keys, values)
  {
    var objects := Load(cookies, main, keys)[main := values];
    SplitsSaved(objects, cookies, main, order, keys);
    assert KeySet(order) == KeySet(keys);
  }

  /** Each value sits in exactly one cookie of those the request saved: its companion's, or the main one. */
  lemma OneCookieEach(cookies: Cookies, main: string, keys: seq<Key>, values: Values, order: seq<Key>, now: int,
                      key: Key)
    requires SeparateCookies(main, keys) && IterationOrder(order, keys)
    requires key in values && key != LastActivityKey
    ensures var saved := Served(cookies, main, keys, values, order, now);
            && main in saved && (key in saved[main] <==> key !in keys)
            && (forall k <- keys :: CookieName(k) in saved && (key in saved[CookieName(k)] <==> k == key))
  {
    SavedCookies(cookies, main, keys, values, order, now);
  }
}
