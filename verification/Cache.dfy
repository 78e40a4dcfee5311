/**
 The data of cache/cache.go: what each critical section of the cache does to the
 shared map.  The functions say it on values; the methods of `Cache` do it in place,
 as the Go methods do while they hold the lock.  Who holds the lock, and when, is the
 subject of CacheProtocol.dfy, which is built from the same functions.
 */
module CacheData {
  import opened Wrappers

  const SECOND: int := 1_000_000_000

  /** The int64 that `Time.UnixNano` yields for a time `n` nanoseconds after the epoch. */
  function Wrap64(n: int): (w: int)
    ensures -INT64_LIMIT <= w < INT64_LIMIT
    ensures exists k: int :: w == n + k * (2 * INT64_LIMIT)
  {
    var w := (n + INT64_LIMIT) % (2 * INT64_LIMIT) - INT64_LIMIT;
    assert w == n + (-((n + INT64_LIMIT) / (2 * INT64_LIMIT))) * (2 * INT64_LIMIT);
    w
  }

  datatype Item<+T> = Item(value: T, expiresAt: int)

  type Data<+T> = map<string, Item<T>>

  /** `time.Now().Add(expireAfter).UnixNano()` read at clock `now`. */
  function Deadline(now: int, ttl: int): int {
    Wrap64(now + ttl)
  }

  /** A deadline is the true sum exactly while the sum fits an int64; past that it is already over. */
  lemma DeadlineWraps(now: int, ttl: int)
    requires 0 <= now < INT64_LIMIT && 0 <= ttl < INT64_LIMIT
    ensures now + ttl < INT64_LIMIT <==> Deadline(now, ttl) == now + ttl
    ensures now + ttl >= INT64_LIMIT <==> Deadline(now, ttl) < now
  {
    if now + ttl < INT64_LIMIT {
      assert (now + ttl + INT64_LIMIT) / (2 * INT64_LIMIT) == 0;
    } else {
      assert (now + ttl + INT64_LIMIT) / (2 * INT64_LIMIT) == 1;
    }
  }

  /** What a lookup at clock `now` answers: the entry, if there is one whose deadline is not over. */
  function Find<T>(data: Data<T>, name: string, now: int): Option<T> {
    if name in data && now <= data[name].expiresAt then Some(data[name].value) else None
  }

  /** The purge that a lookup leaves behind when it meets an expired entry. */
  function Scheduled<T>(data: Data<T>, name: string, now: int): multiset<(string, int)> {
    if name in data && data[name].expiresAt < now then multiset{(name, data[name].expiresAt)} else multiset{}
  }

  /** The keys that the first phase of a sweep at time `t` collects. */
  function Expirable<T>(data: Data<T>, t: int): set<string> {
    set k | k in data && data[k].expiresAt < t
  }

  /** `data` after the second phase of a sweep: of the collected keys, those still expired are gone. */
  function Swept<T>(data: Data<T>, keys: set<string>, t: int): Data<T> {
    data - (keys * Expirable(data, t))
  }

  /** `data` after a purge scheduled for the deadline `expected`. */
  function Purged<T>(data: Data<T>, name: string, expected: int): Data<T> {
    if name in data && data[name].expiresAt == expected then data - {name} else data
  }

  /** `data` after a value is stored with a deadline stamped at clock `stamped`. */
  function Stored<T>(data: Data<T>, name: string, value: T, stamped: int, ttl: int): Data<T> {
    data[name := Item(value, Deadline(stamped, ttl))]
  }

  function Elements(keys: seq<string>): set<string> {
    set k | k in keys
  }

  lemma ElementsAppend(keys: seq<string>, k: string)
    ensures Elements(keys + [k]) == Elements(keys) + {k}
  {
    forall q ensures q in Elements(keys + [k]) <==> q in Elements(keys) + {k} {
      assert q in keys + [k] <==> q in keys || q == k;
    }
  }

  /** How often the background goroutine sweeps. A ticker needs a positive interval. */
  function MarkInterval(expireAfter: int): (interval: int)
    requires 0 <= expireAfter
    ensures 0 < interval
    ensures interval < expireAfter || (expireAfter <= 1 && interval == 1_000_000_000)
    ensures expireAfter > 1 ==> 2 * interval <= expireAfter < 2 * interval + 2
  {
    if expireAfter / 2 <= 0 then SECOND else expireAfter / 2
  }

  class Cache<T> {
    var data: map<string, Item<T>>
    var pending: multiset<(string, int)>  // purge goroutines started and not yet run
    const expireAfter: int

    constructor (expireAfter: int)
      requires 0 <= expireAfter
      ensures this.expireAfter == expireAfter && data == map[] && pending == multiset{}
    {
      this.expireAfter := expireAfter;
      data := map[];
      pending := multiset{};
    }

    /** The unlocked `lookup`; `now` is what the clock read inside it returned. */
    method Lookup(name: string, now: int) returns (value: Option<T>)
      modifies this`pending
      ensures value == Find(data, name, now)
      ensures value.Some? <==> name in data && now <= data[name].expiresAt
      ensures value.Some? ==> value.value == data[name].value
      ensures pending == old(pending) + Scheduled(data, name, now)
      ensures name in data && data[name].expiresAt < now ==>
                pending == old(pending) + multiset{(name, data[name].expiresAt)}
      ensures value.Some? || name !in data ==> pending == old(pending)
    {
      if name in data && data[name].expiresAt < now {
        pending := pending + multiset{(name, data[name].expiresAt)};
        return None;
      } else if name in data {
        return Some(data[name].value);
      }
      return None;
    }

    /**
     The write-locked half of `WriteThruLookup`. `check` and `stamp` are its two clock
     reads and `primary` what primaryLookup would answer; `called` says whether it ran.
     */
    method WriteThruLocked<E>(name: string, check: int, primary: Result<T, E>, stamp: int)
      returns (r: Result<T, E>, called: bool)
      modifies this
      ensures called <==> name !in old(data) || old(data)[name].expiresAt < check
      ensures called <==> Find(old(data), name, check).None?
      ensures !called ==> r == Ok(Find(old(data), name, check).value)
      ensures called ==> r == primary
      ensures data == if called && primary.Ok?
                      then Stored(old(data), name, primary.value, stamp, expireAfter) else old(data)
      ensures called && primary.Ok? ==> data == old(data)[name := Item(primary.value, Deadline(stamp, expireAfter))]
      ensures pending == old(pending) + Scheduled(old(data), name, check)
    {
      var hit := Lookup(name, check);
      if hit.Some? {
        return Ok(hit.value), false;
      }
      if primary.Err? {
        return primary, true;
      }
      data := data[name := Item(primary.value, Deadline(stamp, expireAfter))];
      return primary, true;
    }

    method Set(name: string, value: T, stamp: int)
      modifies this`data
      ensures data == Stored(old(data), name, value, stamp, expireAfter)
      ensures data == old(data)[name := Item(value, Deadline(stamp, expireAfter))]
    {
      data := data[name := Item(value, Deadline(stamp, expireAfter))];
    }

    method Clear()
      modifies this`data
      ensures data == map[]
    {
      data := map[];
    }

    /** First phase of `mark`: a map iteration in any order that appends the expired keys. */
    method CollectExpired(t: int) returns (expired: seq<string>)
      ensures Elements(expired) == Expirable(data, t)
      ensures forall k :: k in expired <==> k in data && data[k].expiresAt < t
      ensures forall i, j :: 0 <= i < j < |expired| ==> expired[i] != expired[j]
    {
      expired := [];
      var todo := data.Keys;
      while todo != {}
        invariant todo <= data.Keys
        invariant Elements(expired) == Expirable(data, t) - todo
        invariant forall i, j :: 0 <= i < j < |expired| ==> expired[i] != expired[j]
        decreases |todo|
      {
        var k :| k in todo;
        todo := todo - {k};
        if t > data[k].expiresAt {
          assert k !in Elements(expired);
          ElementsAppend(expired, k);
          expired := expired + [k];
        }
      }
      assert forall k :: k in expired <==> k in Elements(expired);
    }

    /** Second phase of `mark`: each collected key is re-checked before it is deleted. */
    method DeleteExpired(expired: seq<string>, t: int)
      modifies this`data
      ensures data == Swept(old(data), Elements(expired), t)
      ensures forall k :: k in data <==> k in old(data) && !(k in expired && old(data)[k].expiresAt < t)
      ensures forall k <- data :: data[k] == old(data)[k]
    {
      var i := 0;
      while i < |expired|
        invariant 0 <= i <= |expired|
        invariant data == Swept(old(data), Elements(expired[..i]), t)
      {
        var k := expired[i];
        if k in data && t > data[k].expiresAt {
          data := data - {k};
        }
        assert expired[..i + 1] == expired[..i] + [k];
        ElementsAppend(expired[..i], k);
        i := i + 1;
      }
      assert expired[..i] == expired;
    }

    method PurgeExpired(name: string, expected: int)
      modifies this`data
      ensures data == Purged(old(data), name, expected)
      ensures name in data <==> name in old(data) && old(data)[name].expiresAt != expected
      ensures forall k :: k != name ==> (k in data <==> k in old(data))
      ensures forall k <- data :: data[k] == old(data)[k]
    {
      if name in data && data[name].expiresAt == expected {
        data := data - {name};
      }
    }
  }
}
