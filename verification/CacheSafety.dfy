/**
 What every run of the concurrent cache keeps: the lock discipline, the agreement with
 an ideal TTL map that never evicts, and the invisibility of background removal.
 */
module CacheSafety {
  import opened Wrappers
  import opened CacheData
  import opened CacheProtocol

  /** The lock field and the program counters say the same thing about who is inside. */
  ghost predicate Disciplined<T>(lock: Lock, threads: map<Tid, PC<T>>) {
    && (lock.Read? ==> lock.holders != {} && lock.holders <= threads.Keys)
    && (lock.Write? ==> lock.holder in threads)
    && (forall tid <- threads :: HoldsRead(threads[tid]) <==> (lock.Read? && tid in lock.holders))
    && (forall tid <- threads :: HoldsWrite(threads[tid]) <==> lock == Write(tid))
  }

  /** No program counter holds a time from the future; every purge is for a deadline that is over. */
  predicate Timely<T>(pc: PC<T>, now: int) {
    match pc
    case Fetched(_, _, finished) => finished <= now
    case Storing(_, _, stamped) => 0 <= stamped <= now
    case MarkStart(t) => t <= now
    case Collecting(t) => t <= now
    case Between(t, _) => t <= now
    case Sweeping(t, _) => t <= now
    case Purging(_, expected) => expected < now
    case _ => true
  }

  ghost predicate ClockInv<T>(s: State<T>) {
    && 0 <= s.ttl < INT64_LIMIT
    && 0 <= s.now < INT64_LIMIT
    && (forall tid <- s.threads :: Timely(s.threads[tid], s.now))
    && (forall p <- s.pending :: p.1 < s.now)
  }

  ghost predicate Inv<T>(s: State<T>) {
    Disciplined(s.lock, s.threads) && ClockInv(s)
  }

  /** A goroutine that holds the lock keeps it or gives it up, as its next counter says. */
  lemma GotoDisciplined<T>(s: State<T>, tid: Tid, next: Option<PC<T>>)
    requires Disciplined(s.lock, s.threads) && tid in s.threads && !Waiting(s.threads[tid])
    requires next.Some? && !Waiting(next.value) ==> HoldsWrite(next.value) && HoldsWrite(s.threads[tid])
    ensures Disciplined(Goto(s, tid, next).lock, Goto(s, tid, next).threads)
  {
    if s.lock.Read? && s.lock.holders != {tid} {
      assert s.lock.holders - {tid} != {} by {
        assert s.lock.holders == {tid} + (s.lock.holders - {tid});
      }
    }
  }

  lemma AcquireDisciplined<T>(lock: Lock, threads: map<Tid, PC<T>>, tid: Tid, pc: PC<T>)
    requires Disciplined(lock, threads) && (tid in threads ==> Waiting(threads[tid]))
    ensures HoldsRead(pc) && !lock.Write? ==> Disciplined(WithReader(lock, tid), threads[tid := pc])
    ensures HoldsWrite(pc) && lock.Free? ==> Disciplined(Write(tid), threads[tid := pc])
  {
  }

  lemma LockStep<T>(s: State<T>, a: Action<T>)
    requires Disciplined(s.lock, s.threads) && Enabled(s, a)
    ensures Disciplined(Apply(s, a).lock, Apply(s, a).threads)
  {
    match a {
      case Tick(_) =>
      case Begin(_, _) =>
      case Acquire(tid) => AcquireDisciplined(s.lock, s.threads, tid, Acquired(s.threads[tid]));
      case Run(tid) => GotoDisciplined(s, tid, NextPC(s, s.threads[tid]));
      case Answer(tid, primary) =>
        var next := if primary.None? then None else Some(Fetched(s.threads[tid].name, primary.value, s.now));
        GotoDisciplined(s, tid, next);
      case StartPurge(tid, name, expected) => AcquireDisciplined(s.lock, s.threads, tid, Purging(name, expected));
    }
  }

  lemma ClockStep<T>(s: State<T>, a: Action<T>)
    requires ClockInv(s) && Enabled(s, a)
    ensures ClockInv(Apply(s, a))
  {
    PendingStep(s, a);
    forall tid | tid in Apply(s, a).threads
      ensures Timely(Apply(s, a).threads[tid], Apply(s, a).now)
    {
      TimelyStep(s, a, tid);
    }
  }

  lemma PendingStep<T>(s: State<T>, a: Action<T>)
    requires ClockInv(s) && Enabled(s, a)
    ensures forall p <- Apply(s, a).pending :: p.1 < Apply(s, a).now
    ensures s.now <= Apply(s, a).now < INT64_LIMIT && Apply(s, a).ttl == s.ttl
  {
    if a.Run? {
      NextTimely(s, a.tid);
    }
  }

  lemma TimelyStep<T>(s: State<T>, a: Action<T>, tid: Tid)
    requires ClockInv(s) && Enabled(s, a) && tid in Apply(s, a).threads
    ensures Timely(Apply(s, a).threads[tid], Apply(s, a).now)
  {
    Moved(s, a, tid);
    if a.Run? {
      NextTimely(s, a.tid);
    }
  }

  lemma NextTimely<T>(s: State<T>, tid: Tid)
    requires ClockInv(s) && tid in s.threads
    ensures NextPC(s, s.threads[tid]).Some? ==> Timely(NextPC(s, s.threads[tid]).value, s.now)
    ensures forall p <- Left(s, s.threads[tid]) :: p.1 < s.now
  {
  }

  /** The ideal cache: a map that forgets nothing except on Clear, where an entry lasts ttl from its stamp on. */
  function IdealStep<T>(ideal: Data<T>, e: Event<T>, ttl: int): Data<T> {
    match e
    case Wrote(name, value, stamped) => ideal[name := Item(value, stamped + ttl)]
    case Cleared => map[]
    case _ => ideal
  }

  function Ideal<T>(trace: seq<Event<T>>, ttl: int): Data<T> {
    if trace == [] then map[] else IdealStep(Ideal(trace[..|trace| - 1], ttl), trace[|trace| - 1], ttl)
  }

  /** A map that forgets nothing either, but keeps the int64 deadlines that the cache stamps. */
  function KeptStep<T>(kept: Data<T>, e: Event<T>, ttl: int): Data<T> {
    match e
    case Wrote(name, value, stamped) => Stored(kept, name, value, stamped, ttl)
    case Cleared => map[]
    case _ => kept
  }

  function Kept<T>(trace: seq<Event<T>>, ttl: int): Data<T> {
    if trace == [] then map[] else KeptStep(Kept(trace[..|trace| - 1], ttl), trace[|trace| - 1], ttl)
  }

  /** Event `e` is what the map `ideal` would have answered. */
  predicate Agrees<T(==)>(ideal: Data<T>, e: Event<T>) {
    match e
    case Checked(name, result, at) => result == Find(ideal, name, at)
    case PrimaryStarted(name, at) => Find(ideal, name, at).None?
    case _ => true
  }

  /** The real map is the one that forgets nothing minus some entries that are over. */
  ghost predicate Sim<T>(s: State<T>, kept: Data<T>) {
    && (forall k <- s.data :: k in kept && kept[k] == s.data[k])
    && (forall k <- kept :: s.now <= kept[k].expiresAt ==> k in s.data)
  }

  /** One critical section: what it shows and what it does to the map. */
  lemma SimRun<T>(s: State<T>, pc: PC<T>, kept: Data<T>)
    requires Timely(pc, s.now) && Sim(s, kept)
    ensures Sim(s.(data := NextData(s, pc)), KeptStep(kept, Seen(s, pc), s.ttl))
    ensures Agrees(kept, Seen(s, pc))
  {
    match pc {
      case Storing(_, _, _) =>
      case ClearHeld =>
      case Sweeping(_, _) =>
      case Purging(_, _) =>
      case _ =>
    }
  }

  lemma SimStep<T>(s: State<T>, a: Action<T>, kept: Data<T>)
    requires Inv(s) && Sim(s, kept) && Enabled(s, a)
    ensures Sim(Apply(s, a), KeptStep(kept, Emitted(s, a), s.ttl))
    ensures Agrees(kept, Emitted(s, a))
  {
    match a {
      case Run(tid) => SimRun(s, s.threads[tid], kept);
      case Tick(_) =>
      case Begin(_, _) =>
      case Acquire(_) =>
      case Answer(_, _) =>
      case StartPurge(_, _, _) =>
    }
  }

  /** Whatever is in the map was there before the step, or a goroutine has just stored it. */
  lemma DataOrigin<T>(s: State<T>, a: Action<T>, k: string)
    requires Enabled(s, a) && k in Apply(s, a).data
    ensures || (k in s.data && Apply(s, a).data[k] == s.data[k])
            || (a.Run? && s.threads[a.tid].Storing? && k == s.threads[a.tid].name
                && Apply(s, a).data[k] == Item(s.threads[a.tid].value, Deadline(s.threads[a.tid].stamped, s.ttl)))
  {
  }

  /** A goroutine about to store was about to store before the step, or has just stamped its deadline. */
  lemma StampOrigin<T>(s: State<T>, a: Action<T>, tid: Tid)
    requires Disciplined(s.lock, s.threads) && Enabled(s, a)
    requires tid in Apply(s, a).threads && Apply(s, a).threads[tid].Storing?
    ensures tid in s.threads && HoldsWrite(s.threads[tid])
    ensures s.threads[tid] == Apply(s, a).threads[tid] || Apply(s, a).threads[tid].stamped == s.now
  {
    Moved(s, a, tid);
  }

  /** A run from an empty cache, at a clock and with a duration that `New` and `time.Now` allow. */
  ghost predicate IsRun<T>(ttl: int, start: int, run: seq<Action<T>>) {
    0 <= ttl < INT64_LIMIT && 0 <= start < INT64_LIMIT && Exec(Init(ttl, start), run).Some?
  }

  ghost function End<T>(ttl: int, start: int, run: seq<Action<T>>): State<T>
    requires IsRun(ttl, start, run)
  {
    Exec(Init<T>(ttl, start), run).value
  }

  ghost function Events<T>(ttl: int, start: int, run: seq<Action<T>>): (trace: seq<Event<T>>)
    requires IsRun(ttl, start, run)
    ensures |trace| == |run|
  {
    Trace(Init<T>(ttl, start), run)
  }

  /** The run with its last action left out, and what that action did. */
  lemma RunStep<T>(ttl: int, start: int, run: seq<Action<T>>)
    requires IsRun(ttl, start, run) && run != []
    ensures IsRun(ttl, start, run[..|run| - 1])
    ensures var before := End(ttl, start, run[..|run| - 1]);
            && Enabled(before, run[|run| - 1])
            && End(ttl, start, run) == Apply(before, run[|run| - 1])
            && Events(ttl, start, run) == Events(ttl, start, run[..|run| - 1]) + [Emitted(before, run[|run| - 1])]
            && Kept(Events(ttl, start, run), ttl)
               == KeptStep(Kept(Events(ttl, start, run[..|run| - 1]), ttl), Emitted(before, run[|run| - 1]), ttl)
            && Ideal(Events(ttl, start, run), ttl)
               == IdealStep(Ideal(Events(ttl, start, run[..|run| - 1]), ttl), Emitted(before, run[|run| - 1]), ttl)
  {
    var tr := Events(ttl, start, run);
    assert tr[..|tr| - 1] == Events(ttl, start, run[..|run| - 1]);
  }

  lemma {:induction false} RunKeeps<T>(ttl: int, start: int, run: seq<Action<T>>)
    requires IsRun(ttl, start, run)
    ensures var s := End(ttl, start, run);
            s.ttl == ttl && start <= s.now && Inv(s) && Sim(s, Kept(Events(ttl, start, run), ttl))
  {
    if run != [] {
      RunStep(ttl, start, run);
      RunKeeps(ttl, start, run[..|run| - 1]);
      var s := End(ttl, start, run[..|run| - 1]);
      LockStep(s, run[|run| - 1]);
      ClockStep(s, run[|run| - 1]);
      SimStep(s, run[|run| - 1], Kept(Events(ttl, start, run[..|run| - 1]), ttl));
    }
  }

  /**
   Whatever the interleaving, every lookup of a run answers what a map that removes nothing
   answers at that instant: no sweep and no delayed purge is ever visible, and a refreshed
   entry is never purged.
   */
  lemma {:induction false} RemovalIsInvisible<T>(ttl: int, start: int, run: seq<Action<T>>, i: nat)
    requires IsRun(ttl, start, run) && i < |run|
    ensures Agrees(Kept(Events(ttl, start, run)[..i], ttl), Events(ttl, start, run)[i])
  {
    RunStep(ttl, start, run);
    var init := run[..|run| - 1];
    var tr := Events(ttl, start, run);
    if i < |run| - 1 {
      RemovalIsInvisible(ttl, start, init, i);
      assert Events(ttl, start, init)[..i] == tr[..i];
    } else {
      RunKeeps(ttl, start, init);
      SimStep(End(ttl, start, init), run[i], Kept(Events(ttl, start, init), ttl));
      assert tr[..i] == Events(ttl, start, init);
    }
  }

  /** While deadlines fit an int64 they are the true sums. */
  lemma {:induction false} KeptIsIdeal<T>(ttl: int, start: int, run: seq<Action<T>>)
    requires IsRun(ttl, start, run) && End(ttl, start, run).now + ttl < INT64_LIMIT
    ensures Kept(Events(ttl, start, run), ttl) == Ideal(Events(ttl, start, run), ttl)
  {
    if run != [] {
      RunStep(ttl, start, run);
      var init := run[..|run| - 1];
      RunKeeps(ttl, start, init);
      KeptIsIdeal(ttl, start, init);
      WroteFits(End(ttl, start, init), run[|run| - 1]);
      SameStep(Kept(Events(ttl, start, init), ttl), Emitted(End(ttl, start, init), run[|run| - 1]), ttl);
    }
  }

  lemma SameStep<T>(kept: Data<T>, e: Event<T>, ttl: int)
    requires e.Wrote? ==> Deadline(e.stamped, ttl) == e.stamped + ttl
    ensures KeptStep(kept, e, ttl) == IdealStep(kept, e, ttl)
  {
  }

  lemma WroteFits<T>(s: State<T>, a: Action<T>)
    requires Inv(s) && Enabled(s, a) && Apply(s, a).now + s.ttl < INT64_LIMIT
    ensures s.now <= Apply(s, a).now
    ensures Emitted(s, a).Wrote? ==>
              && 0 <= Emitted(s, a).stamped <= s.now
              && Deadline(Emitted(s, a).stamped, s.ttl) == Emitted(s, a).stamped + s.ttl
  {
    if Emitted(s, a).Wrote? {
      assert Timely(s.threads[a.tid], s.now);
      DeadlineWraps(Emitted(s, a).stamped, s.ttl);
    }
  }

  /**
   The refinement: while now + ttl fits an int64, every lookup of a run answers exactly what
   the ideal map answers at that instant: a hit with value v when v was stored for the name
   last, since the last Clear, and no more than ttl ago, and a miss otherwise.
   */
  lemma {:induction false} LookupsAnswerAsIdeal<T>(ttl: int, start: int, run: seq<Action<T>>, i: nat)
    requires IsRun(ttl, start, run) && i < |run| && End(ttl, start, run).now + ttl < INT64_LIMIT
    ensures Agrees(Ideal(Events(ttl, start, run)[..i], ttl), Events(ttl, start, run)[i])
  {
    RunStep(ttl, start, run);
    var init := run[..|run| - 1];
    var tr := Events(ttl, start, run);
    RunKeeps(ttl, start, init);
    WroteFits(End(ttl, start, init), run[|run| - 1]);
    if i < |run| - 1 {
      LookupsAnswerAsIdeal(ttl, start, init, i);
      assert Events(ttl, start, init)[..i] == tr[..i];
    } else {
      RemovalIsInvisible(ttl, start, run, i);
      KeptIsIdeal(ttl, start, init);
      assert tr[..i] == Events(ttl, start, init);
    }
  }

  /** At most one primaryLookup is in flight, and while it is nobody else is inside the cache. */
  lemma OnePrimaryInFlight<T>(ttl: int, start: int, run: seq<Action<T>>, one: Tid, other: Tid)
    requires IsRun(ttl, start, run)
    requires one in End(ttl, start, run).threads && other in End(ttl, start, run).threads
    requires End(ttl, start, run).threads[one].PrimaryRunning?
    ensures one == other || Waiting(End(ttl, start, run).threads[other])
  {
    RunKeeps(ttl, start, run);
  }
}
