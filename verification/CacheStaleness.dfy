/**
 secrets/cacher.go: a cache that only `Cacher.GetSecretValue` fills.  How old a value it
 returns can be, and exactly when the age is at most the ttl.
 */
module CacheStaleness {
  import opened CacheData
  import opened CacheProtocol
  import opened CacheSafety
  import opened CacheTiming

  /** `GetSecretValue` only calls WriteThruLookup; the only other goroutines are the cache's own. */
  predicate CacherOnly<T>(run: seq<Action<T>>) {
    forall i :: 0 <= i < |run| && run[i].Begin? ==> run[i].op.FastStart? || run[i].op.MarkStart?
  }

  /** The wrapped manager returned `value` for `name` at `finished`, no later than the deadline was stamped. */
  ghost predicate Sourced<T>(trace: seq<Event<T>>, name: string, value: T, finished: int, stamped: int) {
    PrimaryReturned(name, value, finished) in trace && finished <= stamped
  }

  /** Everything a goroutine carries came from the wrapped manager; nobody calls Set. */
  ghost predicate Backed<T>(trace: seq<Event<T>>, pc: PC<T>, now: int) {
    match pc
    case SetStart(_, _) => false
    case SetHeld(_, _) => false
    case Fetched(name, value, finished) => PrimaryReturned(name, value, finished) in trace
    case Storing(name, value, stamped) => 0 <= stamped <= now && exists f :: Sourced(trace, name, value, f, stamped)
    case _ => true
  }

  /** And so did everything in the map. */
  ghost predicate Traced<T>(trace: seq<Event<T>>, name: string, item: Item<T>, ttl: int, now: int) {
    exists f, stamped :: Sourced(trace, name, item.value, f, stamped) && Wrote(name, item.value, stamped) in trace
                         && 0 <= stamped <= now && item.expiresAt == Deadline(stamped, ttl)
  }

  ghost predicate Provenance<T>(s: State<T>, trace: seq<Event<T>>) {
    && (forall tid <- s.threads :: Backed(trace, s.threads[tid], s.now))
    && (forall k <- s.data :: Traced(trace, k, s.data[k], s.ttl, s.now))
  }

  lemma BackedLater<T>(trace: seq<Event<T>>, e: Event<T>, pc: PC<T>, now: int, later: int)
    requires Backed(trace, pc, now) && now <= later
    ensures Backed(trace + [e], pc, later)
  {
    if pc.Storing? {
      var f :| Sourced(trace, pc.name, pc.value, f, pc.stamped);
      assert Sourced(trace + [e], pc.name, pc.value, f, pc.stamped);
    }
  }

  lemma TracedLater<T>(trace: seq<Event<T>>, e: Event<T>, name: string, item: Item<T>, ttl: int, now: int, later: int)
    requires Traced(trace, name, item, ttl, now) && now <= later
    ensures Traced(trace + [e], name, item, ttl, later)
  {
    var f, stamped :| Sourced(trace, name, item.value, f, stamped) && Wrote(name, item.value, stamped) in trace
                      && 0 <= stamped <= now && item.expiresAt == Deadline(stamped, ttl);
    assert Sourced(trace + [e], name, item.value, f, stamped);
  }

  /** A goroutine is where it was, or where an action that is no Set took it. */
  lemma BackedStep<T>(s: State<T>, a: Action<T>, trace: seq<Event<T>>, tid: Tid)
    requires ClockInv(s) && Provenance(s, trace) && Enabled(s, a)
    requires a.Begin? ==> a.op.FastStart? || a.op.MarkStart?
    requires tid in Apply(s, a).threads
    ensures Backed(trace + [Emitted(s, a)], Apply(s, a).threads[tid], Apply(s, a).now)
  {
    Moved(s, a, tid);
    if tid in s.threads {
      if a.Run? && a.tid == tid {
        BackedRun(s, s.threads[tid], trace, Emitted(s, a));
      } else {
        BackedLater(trace, Emitted(s, a), s.threads[tid], s.now, Apply(s, a).now);
      }
    }
  }

  /** A goroutine that ran its critical section. */
  lemma BackedRun<T>(s: State<T>, pc: PC<T>, trace: seq<Event<T>>, e: Event<T>)
    requires ClockInv(s) && Timely(pc, s.now) && Backed(trace, pc, s.now) && NextPC(s, pc).Some?
    ensures Backed(trace + [e], NextPC(s, pc).value, s.now)
  {
    if pc.Fetched? {
      assert Sourced(trace + [e], pc.name, pc.value, pc.finished, s.now);
    }
  }

  lemma ProvenanceStep<T>(s: State<T>, a: Action<T>, trace: seq<Event<T>>)
    requires ClockInv(s) && Provenance(s, trace) && Enabled(s, a)
    requires a.Begin? ==> a.op.FastStart? || a.op.MarkStart?
    ensures Provenance(Apply(s, a), trace + [Emitted(s, a)])
  {
    var s', e := Apply(s, a), Emitted(s, a);
    forall tid | tid in s'.threads
      ensures Backed(trace + [e], s'.threads[tid], s'.now)
    {
      BackedStep(s, a, trace, tid);
    }
    forall k | k in s'.data
      ensures Traced(trace + [e], k, s'.data[k], s'.ttl, s'.now)
    {
      DataOrigin(s, a, k);
      if k in s.data && s'.data[k] == s.data[k] {
        TracedLater(trace, e, k, s.data[k], s.ttl, s.now, s'.now);
      } else {
        var pc := s.threads[a.tid];
        var f :| Sourced(trace, pc.name, pc.value, f, pc.stamped);
        assert Sourced(trace + [e], k, s'.data[k].value, f, pc.stamped);
      }
    }
  }

  lemma {:induction false} RunProvenance<T>(ttl: int, start: int, run: seq<Action<T>>)
    requires IsRun(ttl, start, run) && CacherOnly(run)
    ensures Provenance(End(ttl, start, run), Events(ttl, start, run))
  {
    if run != [] {
      RunStep(ttl, start, run);
      var init := run[..|run| - 1];
      RunKeeps(ttl, start, init);
      RunProvenance(ttl, start, init);
      ProvenanceStep(End(ttl, start, init), run[|run| - 1], Events(ttl, start, init));
    }
  }

  /**
   Bounded staleness: a cached answer of `GetSecretValue` at clock `at` is what the wrapped
   manager returned for that same name, at `finished`, and the deadline it was stored under
   was stamped no more than ttl before `at`.  No clock has to stay clear of overflow: a
   deadline that wraps is already over.
   */
  lemma BoundedStaleness<T>(ttl: int, start: int, run: seq<Action<T>>, i: nat) returns (finished: int, stamped: int)
    requires IsRun(ttl, start, run) && CacherOnly(run)
    requires i < |run| && Events(ttl, start, run)[i].Checked? && Events(ttl, start, run)[i].result.Some?
    ensures var e := Events(ttl, start, run)[i];
            && PrimaryReturned(e.name, e.result.value, finished) in Events(ttl, start, run)[..i]
            && Wrote(e.name, e.result.value, stamped) in Events(ttl, start, run)[..i]
            && finished <= stamped <= e.at <= stamped + ttl
  {
    EventAt(ttl, start, run, i);
    RunKeeps(ttl, start, run[..i]);
    RunProvenance(ttl, start, run[..i]);
    finished, stamped := HitSourced(End(ttl, start, run[..i]), run[i], Events(ttl, start, run[..i]));
  }

  /** A hit in a state in which everything came from the wrapped manager. */
  lemma HitSourced<T>(s: State<T>, a: Action<T>, trace: seq<Event<T>>) returns (finished: int, stamped: int)
    requires ClockInv(s) && Provenance(s, trace) && Enabled(s, a)
    requires Emitted(s, a).Checked? && Emitted(s, a).result.Some?
    ensures var e := Emitted(s, a);
            && PrimaryReturned(e.name, e.result.value, finished) in trace
            && Wrote(e.name, e.result.value, stamped) in trace
            && finished <= stamped <= e.at <= stamped + s.ttl
  {
    var e := Emitted(s, a);
    var item := s.data[e.name];
    assert Traced(trace, e.name, item, s.ttl, s.now);
    finished, stamped :| Sourced(trace, e.name, item.value, finished, stamped)
                         && Wrote(e.name, item.value, stamped) in trace
                         && 0 <= stamped <= s.now && item.expiresAt == Deadline(stamped, s.ttl);
    DeadlineWraps(stamped, s.ttl);
  }
}
