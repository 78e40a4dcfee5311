/**
 What the spreading of a session over cookies can lose: exactly which sets of split keys are
 restored whole, and exactly which restart the idle timer.
 */
module SplitLimits {
  import opened SessionValues
  import opened SplitCookies

  // ---- Values ---------------------------------------------------------------------------

  /** Saving then loading restores every value but the last activity, always. */
  ghost predicate RestoresAll(main: string, keys: seq<Key>) {
    forall cookies, values, order, now | IterationOrder(order, keys) ::
      Restored(cookies, main, keys, values, order, now) - {LastActivityKey} == values - {LastActivityKey}
  }

  /** Saving then loading yields the second of the save as the last activity, always. */
  ghost predicate RestartsTimer(main: string, keys: seq<Key>) {
    forall cookies, values, order, now | IterationOrder(order, keys) ::
      var back := Restored(cookies, main, keys, values, order, now);
      LastActivityKey in back && back[LastActivityKey] == Int64(now / NANOS)
  }

  /** One companion joined: the main session gets no value for another key, nor one that the companion does not hold. */
  lemma JoinMiss(cookies: Cookies, objects: Objects, main: string, key: Key, lost: Key)
    requires main in objects && lost !in objects[main]
    ensures key != lost ==> lost !in Joined(cookies, objects, main, key)[main]
    ensures var n, o := CookieName(lost), Joined(cookies, objects, main, key);
            lost !in Stored(cookies, n) && (n in objects ==> lost !in objects[n]) ==>
              lost !in o[main] && (n in o ==> lost !in o[n])
  {
  }

  /** A value that is in no companion for its key does not come back. */
  lemma {:induction false} NoneToJoin(cookies: Cookies, objects: Objects, main: string, keys: seq<Key>, lost: Key)
    requires main in objects && lost !in objects[main]
    requires lost !in Stored(cookies, CookieName(lost))
    requires CookieName(lost) in objects ==> lost !in objects[CookieName(lost)]
    ensures var o := JoinAll(cookies, objects, main, keys);
            lost !in o[main] && (CookieName(lost) in o ==> lost !in o[CookieName(lost)])
  {
    if keys != [] {
      var init := keys[..|keys| - 1];
      NoneToJoin(cookies, objects, main, init, lost);
      JoinMiss(cookies, JoinAll(cookies, objects, main, init), main, keys[|keys| - 1], lost);
    }
  }

  /** Neither does one whose key is not split. */
  lemma {:induction false} NeverJoined(cookies: Cookies, objects: Objects, main: string, keys: seq<Key>, lost: Key)
    requires main in objects && lost !in objects[main] && lost !in keys
    ensures lost !in JoinAll(cookies, objects, main, keys)[main]
  {
    if keys != [] {
      var init := keys[..|keys| - 1];
      NeverJoined(cookies, objects, main, init, lost);
      JoinMiss(cookies, JoinAll(cookies, objects, main, init), main, keys[|keys| - 1], lost);
    }
  }

  /** The key is split off, or a companion is the main object itself. */
  ghost predicate Wiped(main: string, order: seq<Key>, key: Key) {
    exists i :: 0 <= i < |order| && (order[i] == key || CookieName(order[i]) == main)
  }

  lemma WipedLater(main: string, order: seq<Key>, key: Key)
    requires Wiped(main, order, key)
    ensures order != []
    ensures var last := order[|order| - 1];
              Wiped(main, order[..|order| - 1], key) || last == key || CookieName(last) == main
  {
    var i :| 0 <= i < |order| && (order[i] == key || CookieName(order[i]) == main);
    assert i < |order| - 1 ==> order[..|order| - 1][i] == order[i];
  }

  /**
   A key that has been split off is gone from the main session, and so is all else if a companion
   is the main object.
   */
  lemma {:induction false} GoneFromMain(objects: Objects, cookies: Cookies, main: string, order: seq<Key>, key: Key)
    requires main in objects && forall k <- order :: CookieName(k) in objects
    requires Wiped(main, order, key)
    ensures key !in SaveSplits(objects, cookies, main, order).0[main]
  {
    var init, last := order[..|order| - 1], order[|order| - 1];
    SaveSplitsSnoc(objects, cookies, main, order);
    WipedLater(main, order, key);
    if Wiped(main, init, key) {
      GoneFromMain(objects, cookies, main, init, key);
    }
    SplitOffMain(SaveSplits(objects, cookies, main, init).0, main, last, key);
  }

  lemma SplitOffMain(objects: Objects, main: string, last: Key, key: Key)
    requires main in objects && CookieName(last) in objects
    ensures key !in objects[main] || key == last || CookieName(last) == main ==>
              key !in SplitOff(objects, main, last)[main]
  {
  }

  function Names(keys: seq<Key>): string {
    if keys == [] then "" else Printed(keys[0]) + Names(keys[1..])
  }

  lemma {:induction false} NamesLong(keys: seq<Key>)
    ensures forall k <- keys :: |Printed(k)| <= |Names(keys)|
  {
    if keys != [] {
      NamesLong(keys[1..]);
      assert forall k <- keys :: k == keys[0] || k in keys[1..];
    }
  }

  function Without(keys: seq<Key>, key: Key): seq<Key> {
    if keys == [] then []
    else (if keys[0] == key || keys[0] in keys[1..] then [] else [keys[0]]) + Without(keys[1..], key)
  }

  /** The keys can be taken in an order that has `last` at its end. */
  lemma {:induction false} WithoutIsOrder(keys: seq<Key>, last: Key)
    ensures forall k :: k in Without(keys, last) <==> k in keys && k != last
    ensures Distinct(Without(keys, last))
    decreases |keys|
  {
    if keys != [] {
      WithoutIsOrder(keys[1..], last);
      assert forall k :: k in keys <==> k == keys[0] || k in keys[1..];
    }
  }

  lemma OrderEndingIn(keys: seq<Key>, last: Key) returns (order: seq<Key>)
    requires last in keys
    ensures IterationOrder(order, keys) && order != [] && order[|order| - 1] == last
  {
    WithoutIsOrder(keys, last);
    var init := Without(keys, last);
    order := init + [last];
    assert forall k :: k in order <==> k in init || k == last;
    assert forall i :: 0 <= i < |init| ==> init[i] in init;
  }

  /** One value in the session that the next request does not find. */
  lemma LosesOne(main: string, keys: seq<Key>, order: seq<Key>, lost: Key)
    requires IterationOrder(order, keys) && lost != LastActivityKey
    requires lost !in Restored(map[], main, keys, map[lost := Int64(1)], order, 0)
    ensures !RestoresAll(main, keys)
  {
    var values: Values := map[lost := Int64(1)];
    DiffersAt(Restored(map[], main, keys, values, order, 0), values, lost);
  }

  lemma DiffersAt(back: Values, values: Values, lost: Key)
    requires lost in values && lost !in back && lost != LastActivityKey
    ensures back - {LastActivityKey} != values - {LastActivityKey}
  {
    assert lost in values - {LastActivityKey} && lost !in back - {LastActivityKey};
  }

  /** A split key whose cookie is the main one wipes the whole session. */
  lemma MainCookieShared(main: string, keys: seq<Key>, shared: Key)
    requires shared in keys && CookieName(shared) == main
    ensures !RestoresAll(main, keys)
  {
    var lost := AppKey(Names(keys) + "x");
    NamesLong(keys);
    assert lost !in keys;
    var order := OrderEndingIn(keys, shared);
    var values: Values := map[lost := Int64(1)];
    GoneFromMain(Load(map[], main, keys)[main := values], map[], main, order, lost);
    var saved := Served(map[], main, keys, values, order, 0);
    NeverJoined(saved, Opened(saved, map[], main), main, keys, lost);
    LosesOne(main, keys, order, lost);
  }

  /** Of two split keys with one cookie, the value of the one that is saved first is lost. */
  lemma CompanionShared(main: string, keys: seq<Key>, lost: Key, other: Key)
    requires lost in keys && other in keys && lost != other && CookieName(lost) == CookieName(other) != main
    requires lost != LastActivityKey
    ensures !RestoresAll(main, keys)
  {
    var order := OrderEndingIn(keys, other);
    var values: Values := map[lost := Int64(1)];
    var objects := Load(map[], main, keys)[main := values];
    GoneFromMain(objects, map[], main, order, lost);
    SaveSplitsSnoc(objects, map[], main, order);
    var saved := Served(map[], main, keys, values, order, 0);
    assert lost !in saved[CookieName(lost)] && lost !in saved[main];
    NoneToJoin(saved, Opened(saved, map[], main), main, keys, lost);
    LosesOne(main, keys, order, lost);
  }

  /** Splitting loses nothing exactly when all the cookies are separate. */
  lemma RestoresAllExactly(main: string, keys: seq<Key>)
    ensures RestoresAll(main, keys) <==> SeparateCookies(main, keys)
  {
    if SeparateCookies(main, keys) {
      forall cookies, values, order, now | IterationOrder(order, keys)
        ensures Restored(cookies, main, keys, values, order, now) - {LastActivityKey} == values - {LastActivityKey}
      {
        RestoredIsSaved(cookies, main, keys, values, order, now);
      }
    } else if shared :| shared in keys && CookieName(shared) == main {
      MainCookieShared(main, keys, shared);
    } else {
      var k, l :| k in keys && l in keys && CookieName(k) == CookieName(l) && k != l;
      if k != LastActivityKey {
        CompanionShared(main, keys, k, l);
      } else {
        CompanionShared(main, keys, l, k);
      }
    }
  }

  // ---- The idle timer ------------------------------------------------------------------

  /** The stamp of the save is in no companion, or the companion is the main cookie itself. */
  predicate StampInMain(main: string, keys: seq<Key>) {
    LastActivityKey !in keys || CookieName(LastActivityKey) == main
  }

  lemma {:induction false} JoinKeepsStamp(cookies: Cookies, objects: Objects, main: string, keys: seq<Key>,
                                          stamp: Value)
    requires StampInMain(main, keys)
    requires main in objects && LastActivityKey in objects[main] && objects[main][LastActivityKey] == stamp
    ensures var back := JoinAll(cookies, objects, main, keys)[main];
            LastActivityKey in back && back[LastActivityKey] == stamp
  {
    if keys != [] {
      var init, last := keys[..|keys| - 1], keys[|keys| - 1];
      JoinKeepsStamp(cookies, objects, main, init, stamp);
      StampStep(cookies, JoinAll(cookies, objects, main, init), main, last, CookieName(last), stamp);
    }
  }

  lemma StampStep(cookies: Cookies, objects: Objects, main: string, last: Key, n: string, stamp: Value)
    requires last == LastActivityKey ==> n == main
    requires main in objects && LastActivityKey in objects[main] && objects[main][LastActivityKey] == stamp
    ensures var back := Rejoined(Opened(cookies, objects, n), main, n, last)[main];
            LastActivityKey in back && back[LastActivityKey] == stamp
  {
  }

  /** The next request then finds the second of the save, whatever else shares a cookie. */
  lemma StampRestored(cookies: Cookies, main: string, keys: seq<Key>, values: Values, order: seq<Key>, now: int)
    requires StampInMain(main, keys) && forall k <- order :: k in keys
    ensures var back := Restored(cookies, main, keys, values, order, now);
            LastActivityKey in back && back[LastActivityKey] == Int64(now / NANOS)
  {
    var saved := Served(cookies, main, keys, values, order, now);
    JoinKeepsStamp(saved, Opened(saved, map[], main), main, keys, Int64(now / NANOS));
  }

  lemma DistinctGrows(before: seq<Key>, key: Key, after: seq<Key>, more: Key)
    requires Distinct(before + [key] + after) && more !in before + [key] + after
    ensures Distinct(([more] + before) + [key] + after) && Distinct(before + [key] + (after + [more]))
    ensures forall k :: k in ([more] + before) + [key] + after <==> k == more || k in before + [key] + after
    ensures forall k :: k in before + [key] + (after + [more]) <==> k == more || k in before + [key] + after
  {
    var order := before + [key] + after;
    assert ([more] + before) + [key] + after == [more] + order;
    assert before + [key] + (after + [more]) == order + [more];
  }

  lemma FirstOfRest(others: seq<Key>, i: nat)
    requires Distinct(others) && i < |others|
    ensures others[i] !in others[..i] && others[i] in others
    ensures forall k :: k in others[..i + 1] <==> k == others[i] || k in others[..i]
  {
    assert others[..i + 1] == others[..i] + [others[i]];
  }

  /** An iteration order that takes the keys with one cookie in a row, `key` as the last of them. */
  lemma OrderWithLast(keys: seq<Key>, key: Key) returns (before: seq<Key>, after: seq<Key>)
    requires key in keys
    ensures IterationOrder(before + [key] + after, keys)
    ensures forall k <- before :: CookieName(k) == CookieName(key) && k != key
    ensures forall k <- after :: CookieName(k) != CookieName(key)
  {
    WithoutIsOrder(keys, key);
    var others := Without(keys, key);
    before, after := [], [];
    var i := 0;
    while i < |others|
      invariant i <= |others|
      invariant forall k :: k in before + [key] + after <==> k == key || k in others[..i]
      invariant Distinct(before + [key] + after)
      invariant forall k <- before :: CookieName(k) == CookieName(key) && k != key
      invariant forall k <- after :: CookieName(k) != CookieName(key)
    {
      var k := others[i];
      FirstOfRest(others, i);
      DistinctGrows(before, key, after, k);
      if CookieName(k) == CookieName(key) {
        before := [k] + before;
      } else {
        after := after + [k];
      }
      i := i + 1;
    }
    assert others[..i] == others;
  }

  /** Splitting off other keys into other cookies than the main one leaves a value where it is. */
  lemma {:induction false} StaysInMain(objects: Objects, cookies: Cookies, main: string, order: seq<Key>, key: Key)
    requires main in objects && key in objects[main]
    requires forall k <- order :: CookieName(k) in objects && CookieName(k) != main && k != key
    ensures var o := SaveSplits(objects, cookies, main, order).0;
            key in o[main] && o[main][key] == objects[main][key]
  {
    if order != [] {
      var init, last := order[..|order| - 1], order[|order| - 1];
      StaysInMain(objects, cookies, main, init, key);
      SaveSplitsSnoc(objects, cookies, main, order);
      SplitOffMoves(SaveSplits(objects, cookies, main, init).0, main, last);
    }
  }

  /** The keys of `before` went into the companion of `key` first, so that it ends up with the value of `key`. */
  lemma {:induction false} SplitIntoCompanion(objects: Objects, cookies: Cookies, main: string,
                                              before: seq<Key>, key: Key)
    requires main in objects && key in objects[main] && CookieName(key) != main && CookieName(key) in objects
    requires forall k <- before :: CookieName(k) == CookieName(key) && k != key
    ensures forall k <- before + [key] :: CookieName(k) in objects
    ensures var c := SaveSplits(objects, cookies, main, before + [key]).1;
            CookieName(key) in c && c[CookieName(key)] == map[key := objects[main][key]]
  {
    var order := before + [key];
    assert order[..|order| - 1] == before;
    StaysInMain(objects, cookies, main, before, key);
    SaveSplitsSnoc(objects, cookies, main, order);
    SplitOffMoves(SaveSplits(objects, cookies, main, before).0, main, key);
  }

  /** What a cookie holds after the first `m` keys stays there while keys with other cookies follow. */
  lemma {:induction false} StaysInCompanion(objects: Objects, cookies: Cookies, main: string, order: seq<Key>, m: nat,
                                            n: string)
    requires main in objects && m <= |order| && forall k <- order :: CookieName(k) in objects
    requires forall i :: m <= i < |order| ==> CookieName(order[i]) != n
    ensures var c, c' := SaveSplits(objects, cookies, main, order[..m]).1,
                         SaveSplits(objects, cookies, main, order).1;
            n in c ==> n in c' && c'[n] == c[n]
  {
    if m == |order| {
      assert order[..m] == order;
    } else {
      var init := order[..|order| - 1];
      StaysInCompanion(objects, cookies, main, init, m, n);
      assert init[..m] == order[..m];
      SaveSplitsSnoc(objects, cookies, main, order);
    }
  }

  /** What a companion cookie holds is put back into the main session and stays there. */
  lemma {:induction false} CompanionJoined(cookies: Cookies, objects: Objects, main: string, keys: seq<Key>, key: Key)
    requires main in objects && CookieName(key) != main
    requires CookieName(key) in cookies && key in cookies[CookieName(key)]
    requires CookieName(key) in objects ==> objects[CookieName(key)] == cookies[CookieName(key)]
    ensures var n, o := CookieName(key), JoinAll(cookies, objects, main, keys);
            && (n in o ==> o[n] == cookies[n])
            && (key in keys ==> key in o[main] && o[main][key] == cookies[n][key])
  {
    if keys != [] {
      var init, last := keys[..|keys| - 1], keys[|keys| - 1];
      CompanionJoined(cookies, objects, main, init, key);
      assert key in keys ==> key == last || key in init;
      CompanionStep(cookies, JoinAll(cookies, objects, main, init), main, last, key);
    }
  }

  lemma CompanionStep(cookies: Cookies, objects: Objects, main: string, last: Key, key: Key)
    requires main in objects && CookieName(key) != main
    requires CookieName(key) in cookies && key in cookies[CookieName(key)]
    requires CookieName(key) in objects ==> objects[CookieName(key)] == cookies[CookieName(key)]
    ensures var n, o := CookieName(key), Joined(cookies, objects, main, last);
            && (n in o ==> o[n] == cookies[n])
            && (last == key || (key in objects[main] && objects[main][key] == cookies[n][key]) ==>
                  key in o[main] && o[main][key] == cookies[n][key])
  {
  }

  /** With a companion of its own the last activity that the handler left outlives the stamp. */
  lemma StampOutlived(main: string, keys: seq<Key>)
    requires LastActivityKey in keys && CookieName(LastActivityKey) != main
    ensures !RestartsTimer(main, keys)
  {
    var stale: Values := map[LastActivityKey := Int64(1)];
    var order := StaleSaved(main, keys, stale);
    var saved := Served(map[], main, keys, stale, order, 0);
    CompanionJoined(saved, Opened(saved, map[], main), main, keys, LastActivityKey);
    assert Restored(map[], main, keys, stale, order, 0)[LastActivityKey] == Int64(1);
  }

  lemma StaleSaved(main: string, keys: seq<Key>, stale: Values) returns (order: seq<Key>)
    requires LastActivityKey in keys && CookieName(LastActivityKey) != main && LastActivityKey in stale
    ensures IterationOrder(order, keys)
    ensures var n, saved := CookieName(LastActivityKey), Served(map[], main, keys, stale, order, 0);
            n in saved && saved[n] == map[LastActivityKey := stale[LastActivityKey]]
  {
    var before, after := OrderWithLast(keys, LastActivityKey);
    order := before + [LastActivityKey] + after;
    var objects := Load(map[], main, keys)[main := stale];
    SplitIntoCompanion(objects, map[], main, before, LastActivityKey);
    assert order[..|before| + 1] == before + [LastActivityKey];
    StaysInCompanion(objects, map[], main, order, |before| + 1, CookieName(LastActivityKey));
  }

  /** Every save restarts the idle timer exactly when the stamp is in the main cookie, whatever cookies are shared. */
  lemma RestartsTimerExactly(main: string, keys: seq<Key>)
    ensures RestartsTimer(main, keys) <==> LastActivityKey !in keys || CookieName(LastActivityKey) == main
  {
    if StampInMain(main, keys) {
      forall cookies, values, order, now | IterationOrder(order, keys)
        ensures var back := Restored(cookies, main, keys, values, order, now);
                LastActivityKey in back && back[LastActivityKey] == Int64(now / NANOS)
      {
        StampRestored(cookies, main, keys, values, order, now);
      }
    } else {
      StampOutlived(main, keys);
    }
  }
}
