/**
 Where the promises of the cache stop: runs that break each of them, and with them the
 exact conditions.  A clock within ttl of the end of int64 breaks the agreement with the
 ideal map, complete sweeps and coalescing; a delay between the return of primaryLookup and
 the stamping of the deadline makes a cached value older than ttl.
 */
module CacheLimits {
  import opened Wrappers
  import opened CacheData
  import opened CacheProtocol
  import opened CacheSafety
  import opened CacheTiming
  import opened CacheStaleness

  ghost predicate Step<T>(s: State<T>, a: Action<T>, s': State<T>, e: Event<T>) {
    Enabled(s, a) && Apply(s, a) == s' && Emitted(s, a) == e
  }

  /** The actions `p` lead through `states` and show `shown`. */
  ghost predicate IsPath<T>(states: seq<State<T>>, p: seq<Action<T>>, shown: seq<Event<T>>) {
    && |states| == |p| + 1 == |shown| + 1
    && forall i | 0 <= i < |p| :: Step(states[i], p[i], states[i + 1], shown[i])
  }

  /** A path from an empty cache is a run. */
  lemma PathIsRun<T>(ttl: int, start: int, states: seq<State<T>>, run: seq<Action<T>>, shown: seq<Event<T>>)
    requires 0 <= ttl < INT64_LIMIT && 0 <= start < INT64_LIMIT
    requires IsPath(states, run, shown) && states[0] == Init(ttl, start)
    ensures IsRun(ttl, start, run) && End(ttl, start, run) == states[|run|] && Events(ttl, start, run) == shown
  {
    var i := 0;
    while i < |run|
      invariant i <= |run| && IsRun(ttl, start, run[..i])
      invariant End(ttl, start, run[..i]) == states[i] && Events(ttl, start, run[..i]) == shown[..i]
    {
      assert Step(states[i], run[i], states[i + 1], shown[i]);
      RunGrows(ttl, start, run[..i], run[i], states[i + 1], shown[i]);
      Prefix(run, i);
      Prefix(shown, i);
      i := i + 1;
    }
    assert run[..i] == run && shown[..i] == shown;
  }

  lemma Prefix<X>(s: seq<X>, i: nat)
    requires i < |s|
    ensures s[..i] + [s[i]] == s[..i + 1]
  {
  }

  lemma RunGrows<T>(ttl: int, start: int, run: seq<Action<T>>, a: Action<T>, s': State<T>, e: Event<T>)
    requires IsRun(ttl, start, run) && Step(End(ttl, start, run), a, s', e)
    ensures IsRun(ttl, start, run + [a]) && End(ttl, start, run + [a]) == s'
    ensures Events(ttl, start, run + [a]) == Events(ttl, start, run) + [e]
  {
    ExecSnoc(Init<T>(ttl, start), run, a);
  }

  lemma OneStep<T>(s0: State<T>, a: Action<T>, s1: State<T>, e: Event<T>)
    requires Step(s0, a, s1, e)
    ensures IsPath([s0, s1], [a], [e])
  {
  }

  lemma TwoSteps<T>(s0: State<T>, a: Action<T>, s1: State<T>, e: Event<T>, b: Action<T>, s2: State<T>, f: Event<T>)
    requires Step(s0, a, s1, e) && Step(s1, b, s2, f)
    ensures IsPath([s0, s1, s2], [a, b], [e, f])
  {
  }

  lemma PathAppend<T>(states: seq<State<T>>, p: seq<Action<T>>, shown: seq<Event<T>>,
                      more: seq<State<T>>, q: seq<Action<T>>, next: seq<Event<T>>)
    requires IsPath(states, p, shown) && IsPath(more, q, next) && states[|p|] == more[0]
    ensures IsPath(states + more[1..], p + q, shown + next)
    ensures (states + more[1..])[0] == states[0] && (states + more[1..])[|p| + |q|] == more[|q|]
  {
    var all := states + more[1..];
    forall i | 0 <= i < |p| + |q|
      ensures Step(all[i], (p + q)[i], all[i + 1], (shown + next)[i])
    {
      if i < |p| {
        assert Step(states[i], p[i], states[i + 1], shown[i]);
      } else {
        assert Step(more[i - |p|], q[i - |p|], more[i - |p| + 1], next[i - |p|]);
      }
    }
  }

  /** A goroutine calls an operation and gets the lock at once. */
  lemma EnterPath<T>(s: State<T>, tid: Tid, op: PC<T>) returns (states: seq<State<T>>, p: seq<Action<T>>)
    requires s.lock.Free? && tid !in s.threads && IsStart(op) && (op.MarkStart? ==> op.t <= s.now)
    ensures IsPath(states, p, [Silent, Silent]) && p == [Begin(tid, op), Acquire(tid)] && states[0] == s
    ensures states[2] == s.(lock := if HoldsRead(Acquired(op)) then Read({tid}) else Write(tid),
                            threads := s.threads[tid := Acquired(op)])
  {
    var s1 := s.(threads := s.threads[tid := op]);
    assert s1.threads[tid := Acquired(op)] == s.threads[tid := Acquired(op)];
    states, p := [s, s1, Apply(s1, Acquire(tid))], [Begin(tid, op), Acquire(tid)];
  }

  /** A goroutine that has its value stamps the deadline and stores it. */
  lemma StorePath<T>(s: State<T>, tid: Tid, name: string, v: T) returns (states: seq<State<T>>, p: seq<Action<T>>)
    requires s.lock == Write(tid) && tid in s.threads
    requires var pc := s.threads[tid];
             pc == SetHeld(name, v) || (pc.Fetched? && pc.name == name && pc.value == v)
    ensures IsPath(states, p, [Silent, Wrote(name, v, s.now)]) && p == [Run(tid), Run(tid)] && states[0] == s
    ensures states[2] == s.(lock := Free, threads := s.threads - {tid}, data := Stored(s.data, name, v, s.now, s.ttl))
  {
    var s1 := s.(threads := s.threads[tid := Storing(name, v, s.now)]);
    var s2 := s.(lock := Free, threads := s.threads - {tid}, data := Stored(s.data, name, v, s.now, s.ttl));
    assert s.pending + multiset{} == s.pending;
    assert Step(s, Run(tid), s1, Silent);
    LastStep(s1, tid, Storing(name, v, s.now));
    assert s1.threads - {tid} == s2.threads;
    TwoSteps(s, Run(tid), s1, Silent, Run(tid), s2, Wrote(name, v, s.now));
    states, p := [s, s1, s2], [Run(tid), Run(tid)];
  }

  /** A goroutine that holds the write lock does its last step. */
  lemma LastStep<T>(s: State<T>, tid: Tid, pc: PC<T>)
    requires s.lock == Write(tid) && tid in s.threads && s.threads[tid] == pc && (pc.Storing? || pc.Sweeping?)
    ensures Step(s, Run(tid), s.(lock := Free, threads := s.threads - {tid}, data := NextData(s, pc)), Seen(s, pc))
  {
    assert s.pending + multiset{} == s.pending;
  }

  /** The only reader gives up the lock and wants it again. */
  lemma ReleaseStep<T>(s: State<T>, tid: Tid, pc: PC<T>, next: PC<T>)
    requires s.lock == Read({tid}) && s.threads == map[tid := pc] && HoldsRead(pc)
    requires NextPC(s, pc) == Some(next) && Waiting(next)
    ensures Step(s, Run(tid), s.(lock := Free, threads := map[tid := next], pending := s.pending + Left(s, pc)),
                 Seen(s, pc))
  {
  }

  /** A goroutine calls Set; nothing else happens. */
  lemma SetPath<T>(s: State<T>, tid: Tid, name: string, v: T) returns (states: seq<State<T>>, p: seq<Action<T>>)
    requires s.lock.Free? && tid !in s.threads
    ensures IsPath(states, p, [Silent, Silent, Silent, Wrote(name, v, s.now)])
    ensures states[0] == s && states[4] == s.(data := Stored(s.data, name, v, s.now, s.ttl))
  {
    var st1, p1 := EnterPath(s, tid, SetStart(name, v));
    var st2, p2 := StorePath(st1[2], tid, name, v);
    PathAppend(st1, p1, [Silent, Silent], st2, p2, [Silent, Wrote(name, v, s.now)]);
    assert s.threads[tid := SetHeld(name, v)] - {tid} == s.threads;
    assert [Silent, Silent] + [Silent, Wrote(name, v, s.now)] == [Silent, Silent, Silent, Wrote(name, v, s.now)];
    states, p := st1 + st2[1..], p1 + p2;
  }

  /** A goroutine alone in the cache that misses its first check and waits for the write lock. */
  lemma FastMissPath<T>(s: State<T>, name: string) returns (states: seq<State<T>>, p: seq<Action<T>>)
    requires s.lock == Read({0}) && s.threads == map[0 := FastHeld(name)] && Find(s.data, name, s.now).None?
    ensures IsPath(states, p, [Checked(name, None, s.now), Silent]) && p == [Run(0), Acquire(0)] && states[0] == s
    ensures states[2] == s.(lock := Write(0), threads := map[0 := SlowHeld(name)],
                            pending := s.pending + Scheduled(s.data, name, s.now))
  {
    var s1 := s.(lock := Free, threads := map[0 := SlowStart(name)],
                 pending := s.pending + Scheduled(s.data, name, s.now));
    var s2 := s1.(lock := Write(0), threads := map[0 := SlowHeld(name)]);
    ReleaseStep(s, 0, FastHeld(name), SlowStart(name));
    TwoSteps(s, Run(0), s1, Checked(name, None, s.now), Acquire(0), s2, Silent);
    states, p := [s, s1, s2], [Run(0), Acquire(0)];
  }

  lemma SlowMissPath<T>(s: State<T>, name: string) returns (states: seq<State<T>>, p: seq<Action<T>>)
    requires s.lock == Write(0) && s.threads == map[0 := SlowHeld(name)] && Find(s.data, name, s.now).None?
    ensures IsPath(states, p, [PrimaryStarted(name, s.now)]) && p == [Run(0)] && states[0] == s
    ensures states[1] == s.(threads := map[0 := PrimaryRunning(name)],
                            pending := s.pending + Scheduled(s.data, name, s.now))
  {
    states, p := [s, Apply(s, Run(0))], [Run(0)];
  }

  /** A goroutine alone calls WriteThruLookup, misses twice and starts primaryLookup. */
  lemma MissPath<T>(s: State<T>, name: string) returns (states: seq<State<T>>, p: seq<Action<T>>)
    requires s.lock.Free? && s.threads == map[] && Find(s.data, name, s.now).None?
    ensures IsPath(states, p, [Silent, Silent, Checked(name, None, s.now), Silent, PrimaryStarted(name, s.now)])
    ensures CacherOnly(p) && states[0] == s
    ensures states[5] == s.(lock := Write(0), threads := map[0 := PrimaryRunning(name)], pending := states[5].pending)
  {
    var st1, p1 := EnterPath(s, 0, FastStart(name));
    var st2, p2 := FastMissPath(st1[2], name);
    var st3, p3 := SlowMissPath(st2[2], name);
    var enter: seq<Event<T>>, fast: seq<Event<T>> := [Silent, Silent], [Checked(name, None, s.now), Silent];
    PathAppend(st1, p1, enter, st2, p2, fast);
    PathAppend(st1 + st2[1..], p1 + p2, enter + fast, st3, p3, [PrimaryStarted(name, s.now)]);
    assert enter + fast + [PrimaryStarted(name, s.now)]
        == [Silent, Silent, Checked(name, None, s.now), Silent, PrimaryStarted(name, s.now)];
    states, p := st1 + st2[1..] + st3[1..], p1 + p2 + p3;
  }

  /** A primaryLookup that returns at once; the deadline will be stamped at `stamped`. */
  lemma AnswerPath<T>(s: State<T>, name: string, v: T, stamped: int) returns (states: seq<State<T>>, p: seq<Action<T>>)
    requires s.lock == Write(0) && s.threads == map[0 := PrimaryRunning(name)] && s.now <= stamped < INT64_LIMIT
    ensures IsPath(states, p, [PrimaryReturned(name, v, s.now), Silent]) && p == [Answer(0, Some(v)), Tick(stamped)]
    ensures states[0] == s
    ensures states[2] == s.(now := stamped, threads := map[0 := Fetched(name, v, s.now)])
  {
    var s1 := s.(threads := map[0 := Fetched(name, v, s.now)]);
    states, p := [s, s1, s1.(now := stamped)], [Answer(0, Some(v)), Tick(stamped)];
  }

  lemma FetchPath<T>(s: State<T>, name: string, v: T, stamped: int) returns (states: seq<State<T>>, p: seq<Action<T>>)
    requires s.lock == Write(0) && s.threads == map[0 := PrimaryRunning(name)] && s.now <= stamped < INT64_LIMIT
    ensures IsPath(states, p, [PrimaryReturned(name, v, s.now), Silent, Silent, Wrote(name, v, stamped)])
    ensures CacherOnly(p) && states[0] == s
    ensures states[4] == s.(now := stamped, lock := Free, threads := map[],
                            data := Stored(s.data, name, v, stamped, s.ttl))
  {
    var st1, p1 := AnswerPath(s, name, v, stamped);
    var st2, p2 := StorePath(st1[2], 0, name, v);
    PathAppend(st1, p1, [PrimaryReturned(name, v, s.now), Silent], st2, p2, [Silent, Wrote(name, v, stamped)]);
    assert [PrimaryReturned(name, v, s.now), Silent] + [Silent, Wrote(name, v, stamped)]
        == [PrimaryReturned(name, v, s.now), Silent, Silent, Wrote(name, v, stamped)];
    states, p := st1 + st2[1..], p1 + p2;
  }

  lemma TickPath<T>(s: State<T>, to: int) returns (states: seq<State<T>>, p: seq<Action<T>>)
    requires s.now <= to < INT64_LIMIT
    ensures IsPath(states, p, [Silent]) && CacherOnly(p) && states == [s, s.(now := to)]
  {
    states, p := [s, s.(now := to)], [Tick(to)];
  }

  /**
   From an empty cache: a WriteThruLookup that fetches at `start` and stamps at `stamped`; then
   the clock moves to `to`.
   */
  lemma FilledPath<T>(ttl: int, start: int, stamped: int, to: int, name: string, v: T)
      returns (states: seq<State<T>>, p: seq<Action<T>>, shown: seq<Event<T>>)
    requires 0 <= ttl < INT64_LIMIT && 0 <= start <= stamped <= to < INT64_LIMIT
    ensures IsPath(states, p, shown) && CacherOnly(p) && states[0] == Init(ttl, start)
    ensures var s := states[|p|];
            && s.ttl == ttl && s.now == to && s.lock.Free? && s.threads == map[]
            && s.data == Stored(map[], name, v, stamped, ttl)
    ensures shown == [Silent, Silent, Checked(name, None, start), Silent, PrimaryStarted(name, start),
                      PrimaryReturned(name, v, start), Silent, Silent, Wrote(name, v, stamped), Silent]
  {
    var miss := [Silent, Silent, Checked(name, None, start), Silent, PrimaryStarted(name, start)];
    var got := [PrimaryReturned(name, v, start), Silent, Silent, Wrote(name, v, stamped)];
    var st1, p1 := MissPath(Init<T>(ttl, start), name);
    var st2, p2 := FetchPath(st1[5], name, v, stamped);
    PathAppend(st1, p1, miss, st2, p2, got);
    var st3, p3 := TickPath(st2[4], to);
    PathAppend(st1 + st2[1..], p1 + p2, miss + got, st3, p3, [Silent]);
    states, p, shown := st1 + st2[1..] + st3[1..], p1 + p2 + p3, miss + got + [Silent];
  }

  // ---- Sweeps ----------------------------------------------------------------------

  /** Every sweep of every run that ends at clock `now` has left nothing that was expired for it. */
  ghost predicate SweepsComplete<T(!new)>(ttl: int, now: int) {
    forall start, run: seq<Action<T>>, j: nat
      | IsRun(ttl, start, run) && End(ttl, start, run).now == now && j < |run| && Events(ttl, start, run)[j].MarkDone?
      :: IsRun(ttl, start, run[..j + 1])
         && Expirable(End(ttl, start, run[..j + 1]).data, Events(ttl, start, run)[j].t) == {}
  }

  /** Two Sets around the first phase of a sweep, at a clock where their deadlines wrap. */
  lemma IncompleteSweep<T>(ttl: int, now: int, v: T) returns (run: seq<Action<T>>)
    requires 0 <= ttl < INT64_LIMIT && 0 <= now < INT64_LIMIT <= now + ttl
    ensures IsRun(ttl, now, run) && |run| == 13 && End(ttl, now, run).now == now
    ensures Events(ttl, now, run)[12] == MarkDone(now)
    ensures "b" in End(ttl, now, run).data && End(ttl, now, run).data["b"].expiresAt < now
  {
    DeadlineWraps(now, ttl);
    var over := Item(v, Deadline(now, ttl));
    var s0 := Init<T>(ttl, now);
    var quiet: seq<Event<T>> := [Silent, Silent, Silent];
    var wroteA, wroteB := quiet + [Wrote("a", v, now)], quiet + [Wrote("b", v, now)];
    assert wroteA == [Silent, Silent, Silent, Wrote("a", v, now)];
    assert wroteB == [Silent, Silent, Silent, Wrote("b", v, now)];
    var st1, p1 := SetPath(s0, 0, "a", v);
    var st2, p2 := CollectPath(st1[4], "a");
    PathAppend(st1, p1, wroteA, st2, p2, quiet);
    var st3, p3 := SetPath(st2[3], 0, "b", v);
    PathAppend(st1 + st2[1..], p1 + p2, wroteA + quiet, st3, p3, wroteB);
    var st4, p4 := SweepPath(st3[4], "a");
    PathAppend(st1 + st2[1..] + st3[1..], p1 + p2 + p3, wroteA + quiet + wroteB, st4, p4, [Silent, MarkDone(now)]);
    run := p1 + p2 + p3 + p4;
    PathIsRun(ttl, now, st1 + st2[1..] + st3[1..] + st4[1..], run, wroteA + quiet + wroteB + [Silent, MarkDone(now)]);
  }

  lemma CollectStep<T>(s: State<T>, name: string)
    requires s.lock.Free? && Expirable(s.data, s.now) == {name}
    ensures Step(s.(lock := Read({1}), threads := map[1 := Collecting(s.now)]), Run(1),
              s.(threads := map[1 := Between(s.now, {name})]), Silent)
  {
    ReleaseStep(s.(lock := Read({1}), threads := map[1 := Collecting(s.now)]), 1, Collecting(s.now),
                Between(s.now, {name}));
    assert s.pending + multiset{} == s.pending;
  }

  /** The first phase of a sweep, with one expired entry to collect. */
  lemma CollectPath<T>(s: State<T>, name: string) returns (states: seq<State<T>>, p: seq<Action<T>>)
    requires s.lock.Free? && s.threads == map[] && Expirable(s.data, s.now) == {name}
    ensures IsPath(states, p, [Silent, Silent, Silent])
    ensures states[0] == s && states[3] == s.(threads := map[1 := Between(s.now, {name})])
  {
    var st1, p1 := EnterPath(s, 1, MarkStart(s.now));
    var s3 := s.(threads := map[1 := Between(s.now, {name})]);
    CollectStep(s, name);
    assert st1[2] == s.(lock := Read({1}), threads := map[1 := Collecting(s.now)]) by {
      assert s.threads[1 := Collecting(s.now)] == map[1 := Collecting(s.now)];
    }
    OneStep(st1[2], Run(1), s3, Silent);
    var enter: seq<Event<T>> := [Silent, Silent];
    PathAppend(st1, p1, enter, [st1[2], s3], [Run(1)], [Silent]);
    assert enter + [Silent] == [Silent, Silent, Silent];
    states, p := st1 + [st1[2], s3][1..], p1 + [Run(1)];
  }

  /** Its second phase. */
  lemma SweepPath<T>(s: State<T>, name: string) returns (states: seq<State<T>>, p: seq<Action<T>>)
    requires s.lock.Free? && s.threads == map[1 := Between(s.now, {name})]
    ensures IsPath(states, p, [Silent, MarkDone(s.now)])
    ensures states[0] == s && states[2] == s.(threads := map[], data := Swept(s.data, {name}, s.now))
  {
    var s1 := s.(lock := Write(1), threads := map[1 := Sweeping(s.now, {name})]);
    var s2 := s.(threads := map[], data := Swept(s.data, {name}, s.now));
    LastStep(s1, 1, Sweeping(s.now, {name}));
    assert s1.threads - {1} == map[];
    TwoSteps(s, Acquire(1), s1, Silent, Run(1), s2, MarkDone(s.now));
    states, p := [s, s1, s2], [Acquire(1), Run(1)];
  }

  /** Sweeps are complete exactly while a deadline stamped now would not wrap. */
  lemma SweepsCompleteExactly<T(!new)>(ttl: int, now: int, v: T)
    requires 0 <= ttl < INT64_LIMIT && 0 <= now < INT64_LIMIT
    ensures SweepsComplete<T>(ttl, now) <==> now + ttl < INT64_LIMIT
  {
    if now + ttl < INT64_LIMIT {
      forall start, run: seq<Action<T>>, j: nat
        | IsRun(ttl, start, run) && End(ttl, start, run).now == now && j < |run| && Events(ttl, start, run)[j].MarkDone?
        ensures IsRun(ttl, start, run[..j + 1])
        ensures Expirable(End(ttl, start, run[..j + 1]).data, Events(ttl, start, run)[j].t) == {}
      {
        MarkCompleteAndPrecise(ttl, start, run, j);
      }
    } else {
      var run := IncompleteSweep(ttl, now, v);
      assert run[..12 + 1] == run;
      assert "b" in Expirable(End(ttl, now, run).data, now);
    }
  }

  // ---- Agreement -------------------------------------------------------------------

  /** In every run that ends at clock `now`, all lookups answer as the ideal map. */
  ghost predicate AgreesAlways<T(!new)>(ttl: int, now: int) {
    forall start, run: seq<Action<T>>, i: nat
      | IsRun(ttl, start, run) && End(ttl, start, run).now == now && i < |run|
      :: Agrees(Ideal(Events(ttl, start, run)[..i], ttl), Events(ttl, start, run)[i])
  }

  /** A goroutine alone calls Lookup. */
  lemma LookupPath<T>(s: State<T>, name: string) returns (states: seq<State<T>>, p: seq<Action<T>>)
    requires s.lock.Free? && s.threads == map[]
    ensures IsPath(states, p, [Silent, Silent, Checked(name, Find(s.data, name, s.now), s.now)])
    ensures states[0] == s && states[3].now == s.now
  {
    var st1, p1 := EnterPath(s, 0, LookupStart(name));
    var answer := Checked(name, Find(s.data, name, s.now), s.now);
    var s3 := Apply(st1[2], Run(0));
    OneStep(st1[2], Run(0), s3, answer);
    PathAppend(st1, p1, [Silent, Silent], [st1[2], s3], [Run(0)], [answer]);
    assert [Silent, Silent] + [answer] == [Silent, Silent, answer];
    states, p := st1 + [st1[2], s3][1..], p1 + [Run(0)];
  }

  lemma IdealSnoc<T>(trace: seq<Event<T>>, e: Event<T>, ttl: int)
    ensures Ideal(trace + [e], ttl) == IdealStep(Ideal(trace, ttl), e, ttl)
  {
    assert (trace + [e])[..|trace|] == trace;
  }

  /** A value that is stored under a deadline that wraps is not found at that very instant. */
  lemma MissAtOnce<T>(ttl: int, now: int, v: T) returns (run: seq<Action<T>>)
    requires 0 <= ttl < INT64_LIMIT && 0 <= now < INT64_LIMIT <= now + ttl
    ensures IsRun(ttl, now, run) && End(ttl, now, run).now == now
    ensures Events(ttl, now, run)
            == [Silent, Silent, Silent, Wrote("k", v, now)] + [Silent, Silent, Checked("k", None, now)]
  {
    DeadlineWraps(now, ttl);
    var wrote, missed := [Silent, Silent, Silent, Wrote("k", v, now)], [Silent, Silent, Checked("k", None, now)];
    var st1, p1 := SetPath(Init<T>(ttl, now), 0, "k", v);
    var st2, p2 := LookupPath(st1[4], "k");
    PathAppend(st1, p1, wrote, st2, p2, missed);
    run := p1 + p2;
    PathIsRun(ttl, now, st1 + st2[1..], run, wrote + missed);
  }

  /** But the ideal map has it. */
  lemma IdealHits<T>(ttl: int, now: int, v: T, trace: seq<Event<T>>)
    requires 0 <= ttl
    requires trace == [Silent, Silent, Silent, Wrote("k", v, now)] + [Silent, Silent, Checked("k", None, now)]
    ensures !Agrees(Ideal(trace[..6], ttl), trace[6])
  {
    IdealSnoc(trace[..3], Wrote("k", v, now), ttl);
    IdealSnoc(trace[..4], Silent, ttl);
    IdealSnoc(trace[..5], Silent, ttl);
    assert trace[..3] + [trace[3]] == trace[..4];
    assert trace[..4] + [trace[4]] == trace[..5];
    assert trace[..5] + [trace[5]] == trace[..6];
  }

  /** Lookups agree with the ideal map exactly while a deadline stamped now would not wrap. */
  lemma AgreesExactly<T(!new)>(ttl: int, now: int, v: T)
    requires 0 <= ttl < INT64_LIMIT && 0 <= now < INT64_LIMIT
    ensures AgreesAlways<T>(ttl, now) <==> now + ttl < INT64_LIMIT
  {
    if now + ttl < INT64_LIMIT {
      forall start, run: seq<Action<T>>, i: nat
        | IsRun(ttl, start, run) && End(ttl, start, run).now == now && i < |run|
        ensures Agrees(Ideal(Events(ttl, start, run)[..i], ttl), Events(ttl, start, run)[i])
      {
        LookupsAnswerAsIdeal(ttl, start, run, i);
      }
    } else {
      var run := MissAtOnce(ttl, now, v);
      IdealHits(ttl, now, v, Events(ttl, now, run));
    }
  }

  // ---- Coalescing ------------------------------------------------------------------

  /** In every run that ends at clock `now`, a stored value keeps fetches for its name away until its deadline. */
  ghost predicate Coalesces<T(!new)>(ttl: int, now: int) {
    forall start, run: seq<Action<T>>, i: nat, j: nat
      | IsRun(ttl, start, run) && End(ttl, start, run).now == now && i < j < |run|
        && Refetch(Events(ttl, start, run), i, j)
      :: Events(ttl, start, run)[i].stamped + ttl < Events(ttl, start, run)[j].at
  }

  /** Position j starts a primaryLookup for the name that was written at i, without a Clear between. */
  ghost predicate Refetch<T>(trace: seq<Event<T>>, i: nat, j: nat)
    requires i < j < |trace|
  {
    && trace[i].Wrote? && trace[j].PrimaryStarted? && trace[i].name == trace[j].name
    && Cleared !in trace[i..j]
  }

  /** A value is fetched while its deadline fits, a later Set wraps and so uncovers the name again. */
  lemma EarlyRun<T>(ttl: int, start: int, now: int, v: T) returns (run: seq<Action<T>>)
    requires 0 <= ttl < INT64_LIMIT && start == INT64_LIMIT - 1 - ttl && 0 <= now < INT64_LIMIT <= now + ttl
    ensures IsRun(ttl, start, run) && End(ttl, start, run).now == now
    ensures Events(ttl, start, run) == EarlyEvents(start, now, v)
  {
    DeadlineWraps(now, ttl);
    var wrote := [Silent, Silent, Silent, Wrote("k", v, now)];
    var miss := [Silent, Silent, Checked("k", None, now), Silent, PrimaryStarted("k", now)];
    var st1, p1, shown := FilledPath(ttl, start, start, now, "k", v);
    var st2, p2 := SetPath(st1[|p1|], 0, "k", v);
    PathAppend(st1, p1, shown, st2, p2, wrote);
    var st3, p3 := MissPath(st2[4], "k");
    PathAppend(st1 + st2[1..], p1 + p2, shown + wrote, st3, p3, miss);
    run := p1 + p2 + p3;
    PathIsRun(ttl, start, st1 + st2[1..] + st3[1..], run, shown + wrote + miss);
  }

  function EarlyEvents<T>(start: int, now: int, v: T): seq<Event<T>> {
    [Silent, Silent, Checked("k", None, start), Silent, PrimaryStarted("k", start),
     PrimaryReturned("k", v, start), Silent, Silent, Wrote("k", v, start), Silent]
    + [Silent, Silent, Silent, Wrote("k", v, now)]
    + [Silent, Silent, Checked("k", None, now), Silent, PrimaryStarted("k", now)]
  }

  lemma EarlyRefetch<T>(ttl: int, now: int, v: T) returns (start: int, run: seq<Action<T>>)
    requires 0 <= ttl < INT64_LIMIT && 0 <= now < INT64_LIMIT <= now + ttl
    ensures IsRun(ttl, start, run) && End(ttl, start, run).now == now && |run| == 19
    ensures Refetch(Events(ttl, start, run), 8, 18)
    ensures Events(ttl, start, run)[18].at <= Events(ttl, start, run)[8].stamped + ttl
  {
    start := INT64_LIMIT - 1 - ttl;
    run := EarlyRun(ttl, start, now, v);
    assert |EarlyEvents(start, now, v)| == 19;
  }

  /** Coalescing holds exactly while a deadline stamped now would not wrap. */
  lemma CoalescesExactly<T(!new)>(ttl: int, now: int, v: T)
    requires 0 <= ttl < INT64_LIMIT && 0 <= now < INT64_LIMIT
    ensures Coalesces<T>(ttl, now) <==> now + ttl < INT64_LIMIT
  {
    if now + ttl < INT64_LIMIT {
      forall start, run: seq<Action<T>>, i: nat, j: nat
        | IsRun(ttl, start, run) && End(ttl, start, run).now == now && i < j < |run|
          && Refetch(Events(ttl, start, run), i, j)
        ensures Events(ttl, start, run)[i].stamped + ttl < Events(ttl, start, run)[j].at
      {
        Coalesced(ttl, start, run, i, j);
      }
    } else {
      var start, run := EarlyRefetch(ttl, now, v);
    }
  }

  // ---- Staleness -------------------------------------------------------------------

  /** The wrapped call that position k stored the value of returned at `f`, at most `delay` before the stamp. */
  ghost predicate ReturnedAt<T>(trace: seq<Event<T>>, k: nat, f: int, delay: int) {
    && k < |trace| && trace[k].Wrote?
    && PrimaryReturned(trace[k].name, trace[k].value, f) in trace[..k] && f <= trace[k].stamped <= f + delay
  }

  /** No deadline is stamped more than `delay` after the wrapped call returned. */
  ghost predicate Delayed<T(!new)>(trace: seq<Event<T>>, delay: int) {
    forall k: nat | k < |trace| && trace[k].Wrote? :: exists f :: ReturnedAt(trace, k, f, delay)
  }

  /** Position i answers from the cache with what the wrapped manager returned at `f`. */
  ghost predicate AnswersWith<T>(trace: seq<Event<T>>, i: nat, f: int) {
    && i < |trace| && trace[i].Checked? && trace[i].result.Some?
    && PrimaryReturned(trace[i].name, trace[i].result.value, f) in trace[..i]
  }

  /** Every cached answer of every such run of `GetSecretValue` is at most `bound` old. */
  ghost predicate AgeWithin<T(!new)>(ttl: int, delay: int, bound: int) {
    forall start, run: seq<Action<T>>, i: nat
      | IsRun(ttl, start, run) && CacherOnly(run) && Delayed(Events(ttl, start, run), delay)
        && i < |run| && Events(ttl, start, run)[i].Checked? && Events(ttl, start, run)[i].result.Some?
      :: exists f :: AnswersWith(Events(ttl, start, run), i, f) && Events(ttl, start, run)[i].at <= f + bound
  }

  /** However many fetches there are, an answer is no older than the delay and the ttl together. */
  lemma AgeBounded<T(!new)>(ttl: int, start: int, run: seq<Action<T>>, i: nat, delay: int) returns (f: int)
    requires IsRun(ttl, start, run) && CacherOnly(run) && Delayed(Events(ttl, start, run), delay)
    requires i < |run| && Events(ttl, start, run)[i].Checked? && Events(ttl, start, run)[i].result.Some?
    ensures AnswersWith(Events(ttl, start, run), i, f)
    ensures 0 <= f && Events(ttl, start, run)[i].at <= f + delay + ttl && Events(ttl, start, run)[i].at < INT64_LIMIT
  {
    var finished, stamped := BoundedStaleness(ttl, start, run, i);
    f := SourceOf(Events(ttl, start, run), i, stamped, delay);
    ClockShown(ttl, start, run, i);
    var tr := Events(ttl, start, run);
    var m :| 0 <= m < i && tr[..i][m] == PrimaryReturned(tr[i].name, tr[i].result.value, f);
    ClockShown(ttl, start, run, m);
  }

  lemma SourceOf<T(!new)>(trace: seq<Event<T>>, i: nat, stamped: int, delay: int) returns (f: int)
    requires Delayed(trace, delay) && i < |trace| && trace[i].Checked? && trace[i].result.Some?
    requires Wrote(trace[i].name, trace[i].result.value, stamped) in trace[..i]
    ensures AnswersWith(trace, i, f) && f <= stamped <= f + delay
  {
    var k :| 0 <= k < i && trace[..i][k] == Wrote(trace[i].name, trace[i].result.value, stamped);
    f :| ReturnedAt(trace, k, f, delay);
    var m :| 0 <= m < k && trace[..k][m] == PrimaryReturned(trace[i].name, trace[i].result.value, f);
    assert trace[..i][m] == trace[m];
  }

  /** Events show int64 clock readings that are not negative. */
  lemma ClockShown<T>(ttl: int, start: int, run: seq<Action<T>>, i: nat)
    requires IsRun(ttl, start, run) && i < |run|
    ensures var e := Events(ttl, start, run)[i]; e.Checked? || e.PrimaryReturned? ==> 0 <= e.at < INT64_LIMIT
  {
    EventAt(ttl, start, run, i);
    RunKeeps(ttl, start, run[..i]);
  }

  /** A fetch, and a hit at the last instant of its deadline. */
  lemma OldestRun<T>(ttl: int, finished: int, stamped: int, v: T) returns (run: seq<Action<T>>)
    requires 0 <= ttl && 0 <= finished <= stamped && stamped + ttl < INT64_LIMIT
    ensures IsRun(ttl, finished, run) && CacherOnly(run)
    ensures Events(ttl, finished, run) == OldestEvents(ttl, finished, stamped, v)
  {
    var st1, p1, shown := FilledPath(ttl, finished, stamped, stamped + ttl, "k", v);
    var st2, p2, hit := LastHit(st1[|p1|], ttl, stamped, "k", v);
    PathAppend(st1, p1, shown, st2, p2, hit);
    run := p1 + p2;
    CacherAppend(p1, p2);
    OldestShown(ttl, finished, stamped, v, shown, hit);
    PathIsRun(ttl, finished, st1 + st2[1..], run, shown + hit);
  }

  /** A hit at the last instant of a deadline. */
  lemma LastHit<T>(s: State<T>, ttl: int, stamped: int, name: string, v: T)
      returns (states: seq<State<T>>, p: seq<Action<T>>, hit: seq<Event<T>>)
    requires s.lock.Free? && s.threads == map[] && s.now == stamped + ttl < INT64_LIMIT && 0 <= ttl && 0 <= stamped
    requires s.data == Stored(map[], name, v, stamped, ttl)
    ensures IsPath(states, p, hit) && CacherOnly(p) && states[0] == s
    ensures hit == [Silent, Silent, Checked(name, Some(v), stamped + ttl)]
  {
    DeadlineWraps(stamped, ttl);
    states, p := HitPath(s, name);
    hit := [Silent, Silent, Checked(name, Some(v), stamped + ttl)];
  }

  lemma OldestShown<T>(ttl: int, finished: int, stamped: int, v: T, shown: seq<Event<T>>, hit: seq<Event<T>>)
    requires shown == [Silent, Silent, Checked("k", None, finished), Silent, PrimaryStarted("k", finished),
                       PrimaryReturned("k", v, finished), Silent, Silent, Wrote("k", v, stamped), Silent]
    requires hit == [Silent, Silent, Checked("k", Some(v), stamped + ttl)]
    ensures shown + hit == OldestEvents(ttl, finished, stamped, v)
  {
  }

  lemma CacherAppend<T>(p: seq<Action<T>>, q: seq<Action<T>>)
    requires CacherOnly(p) && CacherOnly(q)
    ensures CacherOnly(p + q)
  {
  }

  /** The oldest answer there can be: stamped as late as the delay allows, asked for at the last instant. */
  lemma OldestAnswer<T(!new)>(ttl: int, finished: int, stamped: int, v: T) returns (run: seq<Action<T>>)
    requires 0 <= ttl && 0 <= finished <= stamped && stamped + ttl < INT64_LIMIT
    ensures IsRun(ttl, finished, run) && CacherOnly(run) && |run| == 13
    ensures Delayed(Events(ttl, finished, run), stamped - finished)
    ensures Events(ttl, finished, run)[12] == Checked("k", Some(v), stamped + ttl)
    ensures forall f :: AnswersWith(Events(ttl, finished, run), 12, f) ==> f == finished
  {
    run := OldestRun(ttl, finished, stamped, v);
    OldestDelayed(ttl, finished, stamped, v);
    OldestSource(ttl, finished, stamped, v);
  }

  function OldestEvents<T>(ttl: int, finished: int, stamped: int, v: T): seq<Event<T>> {
    [Silent, Silent, Checked("k", None, finished), Silent, PrimaryStarted("k", finished),
     PrimaryReturned("k", v, finished), Silent, Silent, Wrote("k", v, stamped), Silent,
     Silent, Silent, Checked("k", Some(v), stamped + ttl)]
  }

  lemma OldestDelayed<T(!new)>(ttl: int, finished: int, stamped: int, v: T)
    requires finished <= stamped
    ensures Delayed(OldestEvents(ttl, finished, stamped, v), stamped - finished)
  {
    var tr := OldestEvents(ttl, finished, stamped, v);
    assert tr[..8][5] == PrimaryReturned("k", v, finished);
    assert ReturnedAt(tr, 8, finished, stamped - finished);
  }

  lemma OldestSource<T(!new)>(ttl: int, finished: int, stamped: int, v: T)
    ensures var tr := OldestEvents(ttl, finished, stamped, v);
            |tr| == 13 && forall f :: AnswersWith(tr, 12, f) ==> f == finished
  {
  }

  /** A goroutine alone calls WriteThruLookup and hits at once. */
  lemma HitPath<T>(s: State<T>, name: string) returns (states: seq<State<T>>, p: seq<Action<T>>)
    requires s.lock.Free? && s.threads == map[] && Find(s.data, name, s.now).Some?
    ensures IsPath(states, p, [Silent, Silent, Checked(name, Find(s.data, name, s.now), s.now)])
    ensures CacherOnly(p) && states[0] == states[3] == s
  {
    var st1, p1 := EnterPath(s, 0, FastStart(name));
    var hit := Checked(name, Find(s.data, name, s.now), s.now);
    assert Step(st1[2], Run(0), s, hit) by {
      assert st1[2].threads - {0} == map[] && s.pending + multiset{} == s.pending;
    }
    PathAppend(st1, p1, [Silent, Silent], [st1[2], s], [Run(0)], [hit]);
    assert [Silent, Silent] + [hit] == [Silent, Silent, hit];
    states, p := st1 + [st1[2], s][1..], p1 + [Run(0)];
  }

  /**
   The age of cached answers, over all runs with any number of fetches: it is bounded by the
   longest delay between the return of a wrapped call and the stamping of its deadline, plus
   the ttl, and by nothing less; no two int64 clock readings are further apart than the last
   of them.
   */
  lemma OldestAgeExactly<T(!new)>(ttl: int, delay: int, bound: int, v: T)
    requires 0 <= ttl < INT64_LIMIT && 0 <= delay
    ensures AgeWithin<T>(ttl, delay, bound) <==> bound >= delay + ttl || bound >= INT64_LIMIT - 1
  {
    if bound >= delay + ttl || bound >= INT64_LIMIT - 1 {
      forall start, run: seq<Action<T>>, i: nat
        | IsRun(ttl, start, run) && CacherOnly(run) && Delayed(Events(ttl, start, run), delay)
          && i < |run| && Events(ttl, start, run)[i].Checked? && Events(ttl, start, run)[i].result.Some?
        ensures exists f :: AnswersWith(Events(ttl, start, run), i, f) && Events(ttl, start, run)[i].at <= f + bound
      {
        var f := AgeBounded(ttl, start, run, i, delay);
      }
    } else {
      var late := if delay + ttl < INT64_LIMIT then delay else INT64_LIMIT - 1 - ttl;
      var run := OldestAnswer(ttl, 0, late, v);
      DelayedLonger(Events(ttl, 0, run), late, delay);
    }
  }

  lemma DelayedLonger<T(!new)>(trace: seq<Event<T>>, delay: int, longer: int)
    requires Delayed(trace, delay) && delay <= longer
    ensures Delayed(trace, longer)
  {
    forall k: nat | k < |trace| && trace[k].Wrote?
      ensures exists f :: ReturnedAt(trace, k, f, longer)
    {
      var f :| ReturnedAt(trace, k, f, delay);
      assert ReturnedAt(trace, k, f, longer);
    }
  }

  /**
   So answers are within the ttl itself exactly when every deadline is stamped at the instant of
   the return; only the longest of all durations has no such limit.
   */
  lemma AgeWithinTtlExactly<T(!new)>(ttl: int, delay: int, v: T)
    requires 0 <= ttl < INT64_LIMIT && 0 <= delay
    ensures AgeWithin<T>(ttl, delay, ttl) <==> delay == 0 || ttl == INT64_LIMIT - 1
  {
    OldestAgeExactly(ttl, delay, ttl, v);
  }
}
