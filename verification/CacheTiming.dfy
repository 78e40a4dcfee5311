/**
 The timing promises of the cache: coalescing, complete sweeps and bounded staleness,
 each with the exact clock condition under which it holds.
 */
module CacheTiming {
  import opened Wrappers
  import opened CacheData
  import opened CacheProtocol
  import opened CacheSafety

  // ---- Deadlines -------------------------------------------------------------------

  /** No deadline, of what was kept or stamped by the goroutine about to store, is past now + ttl. */
  ghost predicate Bounded<T>(s: State<T>, kept: Data<T>) {
    && (forall k <- kept :: kept[k].expiresAt <= s.now + s.ttl)
    && (forall tid <- s.threads :: s.threads[tid].Storing? ==>
          forall k <- kept :: kept[k].expiresAt <= s.threads[tid].stamped + s.ttl)
  }

  lemma BoundedStep<T>(s: State<T>, a: Action<T>, kept: Data<T>)
    requires Inv(s) && Bounded(s, kept) && Enabled(s, a) && Apply(s, a).now + s.ttl < INT64_LIMIT
    ensures Bounded(Apply(s, a), KeptStep(kept, Emitted(s, a), s.ttl))
  {
    var s', kept' := Apply(s, a), KeptStep(kept, Emitted(s, a), s.ttl);
    if a.Run? && s.threads[a.tid].Storing? {
      DeadlineWraps(s.threads[a.tid].stamped, s.ttl);
      assert forall tid <- s'.threads :: !s'.threads[tid].Storing?;
    } else {
      OnlyWritesCount(s, a, kept);
      forall tid | tid in s'.threads && s'.threads[tid].Storing?
        ensures forall k <- kept' :: kept'[k].expiresAt <= s'.threads[tid].stamped + s.ttl
      {
        StampOrigin(s, a, tid);
      }
    }
  }

  /** Only a stored value or a Clear changes what is kept. */
  lemma OnlyWritesCount<T>(s: State<T>, a: Action<T>, kept: Data<T>)
    requires Enabled(s, a) && !(a.Run? && s.threads[a.tid].Storing?)
    ensures KeptStep(kept, Emitted(s, a), s.ttl) == if Emitted(s, a) == Cleared then map[] else kept
    ensures s.now <= Apply(s, a).now && s.ttl == Apply(s, a).ttl
  {
  }

  lemma {:induction false} RunBounded<T>(ttl: int, start: int, run: seq<Action<T>>)
    requires IsRun(ttl, start, run) && End(ttl, start, run).now + ttl < INT64_LIMIT
    ensures Bounded(End(ttl, start, run), Kept(Events(ttl, start, run), ttl))
  {
    if run != [] {
      RunStep(ttl, start, run);
      var init := run[..|run| - 1];
      RunKeeps(ttl, start, init);
      RunBounded(ttl, start, init);
      BoundedStep(End(ttl, start, init), run[|run| - 1], Kept(Events(ttl, start, init), ttl));
    }
  }

  // ---- Coalescing ------------------------------------------------------------------

  /** A value that was written covers its name until its deadline, whatever is written later. */
  lemma {:induction false} RunCovers<T>(ttl: int, start: int, run: seq<Action<T>>, i: nat)
    requires IsRun(ttl, start, run) && End(ttl, start, run).now + ttl < INT64_LIMIT
    requires i < |run| && Events(ttl, start, run)[i].Wrote? && Cleared !in Events(ttl, start, run)[i..]
    ensures var e, kept := Events(ttl, start, run)[i], Kept(Events(ttl, start, run), ttl);
            e.name in kept && e.stamped + ttl <= kept[e.name].expiresAt
  {
    RunStep(ttl, start, run);
    var init := run[..|run| - 1];
    var s, a, tr := End(ttl, start, init), run[|run| - 1], Events(ttl, start, run);
    RunKeeps(ttl, start, init);
    WroteFits(s, a);
    if i < |run| - 1 {
      assert tr[i..] == Events(ttl, start, init)[i..] + [Emitted(s, a)];
      assert Emitted(s, a) in tr[i..];
      RunCovers(ttl, start, init, i);
      RunBounded(ttl, start, init);
      CoversStep(s, a, Kept(Events(ttl, start, init), ttl), tr[i].name, tr[i].stamped + ttl);
    }
  }

  lemma CoversStep<T>(s: State<T>, a: Action<T>, kept: Data<T>, name: string, deadline: int)
    requires Inv(s) && Bounded(s, kept) && Enabled(s, a) && Apply(s, a).now + s.ttl < INT64_LIMIT
    requires Emitted(s, a) != Cleared && name in kept && deadline <= kept[name].expiresAt
    ensures var kept' := KeptStep(kept, Emitted(s, a), s.ttl);
            name in kept' && deadline <= kept'[name].expiresAt
  {
    WroteFits(s, a);
  }

  /**
   Coalescing over whole runs: once a value is in the map for a name, stored by a fetch or by
   Set, no primaryLookup for that name starts until the clock is past the deadline it was
   stored with or Clear has run, whatever Sets, sweeps and purges come between.
   */
  lemma Coalesced<T>(ttl: int, start: int, run: seq<Action<T>>, i: nat, j: nat)
    requires IsRun(ttl, start, run) && End(ttl, start, run).now + ttl < INT64_LIMIT
    requires i < j < |run|
    requires Events(ttl, start, run)[i].Wrote? && Events(ttl, start, run)[j].PrimaryStarted?
    requires Events(ttl, start, run)[i].name == Events(ttl, start, run)[j].name
    requires Cleared !in Events(ttl, start, run)[i..j]
    ensures Events(ttl, start, run)[j].at > Events(ttl, start, run)[i].stamped + ttl
  {
    EventAt(ttl, start, run, j);
    var tr := Events(ttl, start, run);
    assert tr[..j][i..] == tr[i..j] && tr[..j][i] == tr[i];
    RunCovers(ttl, start, run[..j], i);
    RemovalIsInvisible(ttl, start, run, j);
  }

  /** The value that was fetched at `at` has not been stored yet. */
  predicate OnItsWay<T(==)>(pc: PC<T>, name: string, value: T, at: int) {
    match pc
    case Fetched(n, v, _) => n == name && v == value
    case Storing(n, v, stamped) => n == name && v == value && at <= stamped
    case _ => false
  }

  /** The value that was fetched at position i has been stored since, under a later clock read. */
  ghost predicate Landed<T>(trace: seq<Event<T>>, i: nat, k: nat) {
    && i < k < |trace| && trace[i].PrimaryReturned? && trace[k].Wrote?
    && trace[k].name == trace[i].name && trace[k].value == trace[i].value && trace[i].at <= trace[k].stamped
  }

  lemma LandingStep<T>(s: State<T>, a: Action<T>, tid: Tid, name: string, value: T, at: int)
    requires Inv(s) && Enabled(s, a) && at <= s.now && tid in s.threads && OnItsWay(s.threads[tid], name, value, at)
    ensures || (tid in Apply(s, a).threads && OnItsWay(Apply(s, a).threads[tid], name, value, at))
            || (Emitted(s, a).Wrote? && Emitted(s, a).name == name && Emitted(s, a).value == value
                && at <= Emitted(s, a).stamped)
  {
    if a.Run? && a.tid == tid && s.threads[tid].Fetched? {
      assert Apply(s, a).threads[tid] == Storing(name, value, s.now);
    } else if !(a.Run? && a.tid == tid) {
      assert Apply(s, a).threads[tid] == s.threads[tid];
    }
  }

  /** Some goroutine carries what primaryLookup returned. */
  ghost predicate Underway<T>(s: State<T>, e: Event<T>) {
    e.PrimaryReturned? && exists tid <- s.threads :: OnItsWay(s.threads[tid], e.name, e.value, e.at)
  }

  lemma UnderwayStep<T>(s: State<T>, a: Action<T>, e: Event<T>)
    requires Inv(s) && Enabled(s, a) && Underway(s, e) && e.at <= s.now
    ensures var w := Emitted(s, a);
            Underway(Apply(s, a), e) || (w.Wrote? && w.name == e.name && w.value == e.value && e.at <= w.stamped)
  {
    var tid :| tid in s.threads && OnItsWay(s.threads[tid], e.name, e.value, e.at);
    LandingStep(s, a, tid, e.name, e.value, e.at);
  }

  /** A fetched value is on its way into the map or has been stored. */
  ghost predicate Lands<T>(s: State<T>, trace: seq<Event<T>>, i: nat) {
    && i < |trace| && trace[i].PrimaryReturned? && trace[i].at <= s.now
    && (Underway(s, trace[i]) || exists k :: Landed(trace, i, k))
  }

  lemma LandsStep<T>(s: State<T>, a: Action<T>, trace: seq<Event<T>>, i: nat)
    requires Inv(s) && Enabled(s, a) && Lands(s, trace, i)
    ensures Lands(Apply(s, a), trace + [Emitted(s, a)], i)
  {
    var longer := trace + [Emitted(s, a)];
    assert longer[i] == trace[i];
    if k :| Landed(trace, i, k) {
      assert Landed(longer, i, k);
    } else {
      UnderwayStep(s, a, trace[i]);
      assert Underway(Apply(s, a), trace[i]) || Landed(longer, i, |trace|);
    }
  }

  lemma LandsFirst<T>(s: State<T>, a: Action<T>, trace: seq<Event<T>>)
    requires Enabled(s, a) && Emitted(s, a).PrimaryReturned?
    ensures Lands(Apply(s, a), trace + [Emitted(s, a)], |trace|)
  {
    var e := Emitted(s, a);
    assert OnItsWay(Apply(s, a).threads[a.tid], e.name, e.value, e.at);
  }

  lemma {:induction false} RunLands<T>(ttl: int, start: int, run: seq<Action<T>>, i: nat)
    requires IsRun(ttl, start, run) && i < |run| && Events(ttl, start, run)[i].PrimaryReturned?
    ensures Lands(End(ttl, start, run), Events(ttl, start, run), i)
  {
    RunStep(ttl, start, run);
    var init := run[..|run| - 1];
    var s, a := End(ttl, start, init), run[|run| - 1];
    if i < |run| - 1 {
      RunKeeps(ttl, start, init);
      RunLands(ttl, start, init, i);
      LandsStep(s, a, Events(ttl, start, init), i);
    } else {
      LandsFirst(s, a, Events(ttl, start, init));
    }
  }

  /**
   So a primaryLookup that succeeded keeps others for its name away until the deadline of its
   own value: between its return and the next start that value was stored.
   */
  lemma CoalescedFetch<T>(ttl: int, start: int, run: seq<Action<T>>, i: nat, j: nat) returns (k: nat)
    requires IsRun(ttl, start, run) && End(ttl, start, run).now + ttl < INT64_LIMIT
    requires i < j < |run|
    requires Events(ttl, start, run)[i].PrimaryReturned? && Events(ttl, start, run)[j].PrimaryStarted?
    requires Events(ttl, start, run)[i].name == Events(ttl, start, run)[j].name
    requires Cleared !in Events(ttl, start, run)[i..j]
    ensures k < j && Landed(Events(ttl, start, run), i, k)
    ensures Events(ttl, start, run)[j].at > Events(ttl, start, run)[k].stamped + ttl
  {
    EventAt(ttl, start, run, j);
    var s, tr := End(ttl, start, run[..j]), Events(ttl, start, run);
    RunKeeps(ttl, start, run[..j]);
    RunLands(ttl, start, run[..j], i);
    NobodyOnTheWay(s, run[j]);
    k :| Landed(tr[..j], i, k);
    assert Landed(tr, i, k);
    assert Cleared !in tr[k..j] by {
      forall x | k <= x < j
        ensures tr[x] != Cleared
      {
        assert tr[x] == tr[i..j][x - i];
      }
    }
    Coalesced(ttl, start, run, k, j);
  }

  /** Whoever starts a primaryLookup is alone inside. */
  lemma NobodyOnTheWay<T>(s: State<T>, a: Action<T>)
    requires Inv(s) && Enabled(s, a) && Emitted(s, a).PrimaryStarted?
    ensures forall tid <- s.threads :: !s.threads[tid].Fetched? && !s.threads[tid].Storing?
  {
    assert HoldsWrite(s.threads[a.tid]);
  }

  /** The event at position `j` of a run is what its action does to the state before it. */
  lemma EventAt<T>(ttl: int, start: int, run: seq<Action<T>>, j: nat)
    requires IsRun(ttl, start, run) && j < |run|
    ensures IsRun(ttl, start, run[..j]) && End(ttl, start, run[..j]).now <= End(ttl, start, run).now
    ensures Enabled(End(ttl, start, run[..j]), run[j])
    ensures Events(ttl, start, run)[j] == Emitted(End(ttl, start, run[..j]), run[j])
    ensures Events(ttl, start, run[..j]) == Events(ttl, start, run)[..j]
  {
    NeverEarlier(ttl, start, run, j);
    ExecPrefix(Init<T>(ttl, start), run, j);
    ExecPrefix(Init<T>(ttl, start), run, j + 1);
    RunStep(ttl, start, run[..j + 1]);
    assert run[..j + 1][..j] == run[..j];
  }

  /** The clock of a run never goes backwards. */
  lemma {:induction false} NeverEarlier<T>(ttl: int, start: int, run: seq<Action<T>>, n: nat)
    requires IsRun(ttl, start, run) && n <= |run|
    ensures IsRun(ttl, start, run[..n])
    ensures End(ttl, start, run[..n]).now <= End(ttl, start, run).now
  {
    if n < |run| {
      RunStep(ttl, start, run);
      NeverEarlier(ttl, start, run[..|run| - 1], n);
      assert run[..|run| - 1][..n] == run[..n];
    } else {
      assert run[..n] == run;
    }
  }

  // ---- Sweeps ----------------------------------------------------------------------

  predicate InSweep<T>(pc: PC<T>) {
    pc.Between? || pc.Sweeping?
  }

  /** What is expired for a sweep between or in its phases, it has collected; nothing older is on its way in. */
  ghost predicate Collected<T>(s: State<T>) {
    forall tid <- s.threads | InSweep(s.threads[tid]) ::
      && Expirable(s.data, s.threads[tid].t) <= s.threads[tid].expired
      && (forall other <- s.threads :: s.threads[other].Storing? ==> s.threads[tid].t <= s.threads[other].stamped)
  }

  /** A sweep that is under way was under way before the step, or has just collected under the read lock. */
  lemma SweepOrigin<T>(s: State<T>, a: Action<T>, tid: Tid)
    requires Disciplined(s.lock, s.threads) && Enabled(s, a)
    requires tid in Apply(s, a).threads && InSweep(Apply(s, a).threads[tid])
    ensures tid in s.threads
    ensures var pc, pc' := s.threads[tid], Apply(s, a).threads[tid];
            || (InSweep(pc) && pc'.t == pc.t && pc'.expired == pc.expired)
            || (pc == Collecting(pc'.t) && pc'.expired == Expirable(s.data, pc'.t)
                && Apply(s, a).data == s.data && s.lock.Read?)
  {
    Moved(s, a, tid);
    if a.Run? && a.tid == tid {
      SweepStarts(s, s.threads[tid]);
      assert s.threads[tid].Collecting? ==> NextData(s, s.threads[tid]) == s.data;
    }
  }

  lemma SweepStarts<T>(s: State<T>, pc: PC<T>)
    ensures NextPC(s, pc).Some? && InSweep(NextPC(s, pc).value) ==>
              pc.Collecting? && NextPC(s, pc).value == Between(pc.t, Expirable(s.data, pc.t))
  {
  }

  lemma CollectedStep<T>(s: State<T>, a: Action<T>)
    requires Inv(s) && Collected(s) && Enabled(s, a) && Apply(s, a).now + s.ttl < INT64_LIMIT
    ensures Collected(Apply(s, a))
  {
    var s' := Apply(s, a);
    forall tid | tid in s'.threads && InSweep(s'.threads[tid])
      ensures Expirable(s'.data, s'.threads[tid].t) <= s'.threads[tid].expired
      ensures forall other <- s'.threads :: s'.threads[other].Storing? ==>
                s'.threads[tid].t <= s'.threads[other].stamped
    {
      forall k | k in Expirable(s'.data, s'.threads[tid].t)
        ensures k in s'.threads[tid].expired
      {
        CollectedKey(s, a, tid, k);
      }
      forall other | other in s'.threads && s'.threads[other].Storing?
        ensures s'.threads[tid].t <= s'.threads[other].stamped
      {
        SweepBeforeStamp(s, a, tid, other);
      }
    }
  }

  /** What has become expired for a sweep under way would have been stamped before its t. */
  lemma CollectedKey<T>(s: State<T>, a: Action<T>, tid: Tid, k: string)
    requires Inv(s) && Collected(s) && Enabled(s, a) && Apply(s, a).now + s.ttl < INT64_LIMIT
    requires tid in Apply(s, a).threads && InSweep(Apply(s, a).threads[tid])
    requires k in Expirable(Apply(s, a).data, Apply(s, a).threads[tid].t)
    ensures k in Apply(s, a).threads[tid].expired
  {
    SweepOrigin(s, a, tid);
    DataOrigin(s, a, k);
    if a.Run? && s.threads[a.tid].Storing? {
      DeadlineWraps(s.threads[a.tid].stamped, s.ttl);
    }
  }

  lemma SweepBeforeStamp<T>(s: State<T>, a: Action<T>, tid: Tid, other: Tid)
    requires Inv(s) && Collected(s) && Enabled(s, a)
    requires tid in Apply(s, a).threads && InSweep(Apply(s, a).threads[tid])
    requires other in Apply(s, a).threads && Apply(s, a).threads[other].Storing?
    ensures Apply(s, a).threads[tid].t <= Apply(s, a).threads[other].stamped
  {
    SweepOrigin(s, a, tid);
    StampOrigin(s, a, other);
    assert Timely(s.threads[tid], s.now);
  }

  lemma {:induction false} RunCollected<T>(ttl: int, start: int, run: seq<Action<T>>)
    requires IsRun(ttl, start, run) && End(ttl, start, run).now + ttl < INT64_LIMIT
    ensures Collected(End(ttl, start, run))
  {
    if run != [] {
      RunStep(ttl, start, run);
      var init := run[..|run| - 1];
      RunKeeps(ttl, start, init);
      RunCollected(ttl, start, init);
      CollectedStep(End(ttl, start, init), run[|run| - 1]);
    }
  }

  /**
   `mark(t)` is complete and precise although it drops the lock between its phases: in the
   state where it finishes no entry expired before t is left, whatever other goroutines did
   in between, and its deleting step kept every entry with a deadline of t or later.
   */
  lemma MarkCompleteAndPrecise<T>(ttl: int, start: int, run: seq<Action<T>>, j: nat)
    requires IsRun(ttl, start, run) && End(ttl, start, run).now + ttl < INT64_LIMIT
    requires j < |run| && Events(ttl, start, run)[j].MarkDone?
    ensures IsRun(ttl, start, run[..j]) && IsRun(ttl, start, run[..j + 1])
    ensures var t := Events(ttl, start, run)[j].t;
            var before, after := End(ttl, start, run[..j]).data, End(ttl, start, run[..j + 1]).data;
            && (forall k <- after :: t <= after[k].expiresAt)
            && (forall k <- before :: t <= before[k].expiresAt ==> k in after && after[k] == before[k])
  {
    EventAt(ttl, start, run, j);
    NeverEarlier(ttl, start, run, j + 1);
    RunStep(ttl, start, run[..j + 1]);
    assert run[..j + 1][..j] == run[..j];
    RunKeeps(ttl, start, run[..j]);
    RunCollected(ttl, start, run[..j]);
    MarkStep(End(ttl, start, run[..j]), run[j]);
  }

  lemma MarkStep<T>(s: State<T>, a: Action<T>)
    requires Inv(s) && Collected(s) && Enabled(s, a) && Emitted(s, a).MarkDone?
    ensures var t, after := Emitted(s, a).t, Apply(s, a).data;
            && (forall k <- after :: t <= after[k].expiresAt)
            && (forall k <- s.data :: t <= s.data[k].expiresAt ==> k in after && after[k] == s.data[k])
  {
    var t := Emitted(s, a).t;
    assert a.Run? && (InSweep(s.threads[a.tid]) ==> Expirable(s.data, t) <= s.threads[a.tid].expired);
    forall k | k in Apply(s, a).data
      ensures t <= Apply(s, a).data[k].expiresAt
    {
      assert k in s.data && (s.data[k].expiresAt < t ==> k in Expirable(s.data, t));
    }
  }
}
