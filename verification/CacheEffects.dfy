/**
 What the operations of the cache do, over whole runs: an operation that has returned has
 taken effect once, under its own arguments, between its call and its return; and an expired
 entry that a lookup met is purged, whatever else runs in between.
 */
module CacheEffects {
  import opened Wrappers
  import opened CacheData
  import opened CacheProtocol
  import opened CacheSafety
  import opened CacheTiming

  // ---- Operations ------------------------------------------------------------------

  /** Where a goroutine may be that has called `op`. */
  predicate Doing<T(==)>(op: PC<T>, pc: PC<T>) {
    match op
    case LookupStart(name) => pc == op || pc == LookupHeld(name)
    case FastStart(name) =>
      && (pc.FastStart? || pc.FastHeld? || pc.SlowStart? || pc.SlowHeld? || pc.PrimaryRunning? || pc.Fetched?
          || pc.Storing?)
      && pc.name == name
    case SetStart(name, value) =>
      pc == op || pc == SetHeld(name, value) || (pc.Storing? && pc.name == name && pc.value == value)
    case ClearStart => pc == op || pc == ClearHeld
    case MarkStart(t) => pc == op || pc == Collecting(t) || (InSweep(pc) && pc.t == t)
    case _ => false
  }

  /** The action by which `op` returns, what it shows, and the map before and after. */
  ghost predicate Finishes<T>(op: PC<T>, a: Action<T>, e: Event<T>, before: State<T>, after: State<T>) {
    match op
    case LookupStart(name) =>
      e.Checked? && e.name == name && e.at == before.now && Answers(before, name, e.result) && after.data == before.data
    case FastStart(name) =>
      || (e.Checked? && e.name == name && e.at == before.now && e.result.Some? && Answers(before, name, e.result)
          && after.data == before.data)
      || (e.Wrote? && e.name == name && Puts(e, before, after))
      || (a.Answer? && a.primary.None? && after.data == before.data)
    case SetStart(name, value) => e.Wrote? && e.name == name && e.value == value && Puts(e, before, after)
    case ClearStart => e == Cleared && after.data == map[]
    case MarkStart(t) =>
      && e == MarkDone(t)
      && forall k <- after.data :: k in before.data && after.data[k] == before.data[k]
    case _ => false
  }

  /** The value under the name, if its deadline is not over. */
  ghost predicate Answers<T>(s: State<T>, name: string, result: Option<T>) {
    if name in s.data && s.now <= s.data[name].expiresAt then result == Some(s.data[name].value) else result == None
  }

  /** The value is in the map, under its name and deadline, and nothing else has changed. */
  ghost predicate Puts<T>(e: Event<T>, before: State<T>, after: State<T>)
    requires e.Wrote?
  {
    after.data == before.data[e.name := Item(e.value, Deadline(e.stamped, before.ttl))]
  }

  /** One action: the goroutine goes on with its operation, or the operation returns and has taken effect. */
  lemma DoingStep<T>(s: State<T>, a: Action<T>, tid: Tid, op: PC<T>)
    requires Enabled(s, a) && tid in s.threads && Doing(op, s.threads[tid])
    ensures tid in Apply(s, a).threads ==> Doing(op, Apply(s, a).threads[tid])
    ensures tid !in Apply(s, a).threads ==> Finishes(op, a, Emitted(s, a), s, Apply(s, a))
  {
    if tid in Apply(s, a).threads {
      Moved(s, a, tid);
    } else {
      LeftAction(s, a, tid);
      if a.Run? {
        DoneStep(s, s.threads[tid], op);
      }
    }
  }

  /** A goroutine leaves by its own action. */
  lemma LeftAction<T>(s: State<T>, a: Action<T>, tid: Tid)
    requires Enabled(s, a) && tid in s.threads && tid !in Apply(s, a).threads
    ensures (a == Run(tid) && NextPC(s, s.threads[tid]).None?) || (a.Answer? && a.tid == tid && a.primary.None?)
  {
  }

  lemma DoneStep<T>(s: State<T>, pc: PC<T>, op: PC<T>)
    requires Doing(op, pc) && NextPC(s, pc).None? && !Waiting(pc) && !pc.PrimaryRunning?
    ensures forall a, after: State<T> :: after.data == NextData(s, pc) ==> Finishes(op, a, Seen(s, pc), s, after)
  {
  }

  /** Goroutine `tid` calls `op` at position i and is inside until just before position j. */
  ghost predicate Calls<T>(ttl: int, start: int, run: seq<Action<T>>, tid: Tid, op: PC<T>, i: nat, j: nat)
    requires IsRun(ttl, start, run)
  {
    && i < j <= |run| && run[i] == Begin(tid, op)
    && forall m | i < m <= j :: InsideAt(ttl, start, run, tid, m)
  }

  ghost predicate InsideAt<T>(ttl: int, start: int, run: seq<Action<T>>, tid: Tid, m: nat)
    requires m <= |run|
  {
    IsRun(ttl, start, run[..m]) && tid in End(ttl, start, run[..m]).threads
  }

  ghost predicate DoingAt<T>(ttl: int, start: int, run: seq<Action<T>>, tid: Tid, op: PC<T>, m: nat)
    requires m <= |run|
  {
    InsideAt(ttl, start, run, tid, m) && Doing(op, End(ttl, start, run[..m]).threads[tid])
  }

  lemma {:induction false} CallGoesOn<T>(ttl: int, start: int, run: seq<Action<T>>, tid: Tid, op: PC<T>, i: nat, j: nat)
    requires IsRun(ttl, start, run) && Calls(ttl, start, run, tid, op, i, j)
    ensures IsStart(op) && DoingAt(ttl, start, run, tid, op, j)
    decreases j
  {
    assert InsideAt(ttl, start, run, tid, j);
    if j == i + 1 {
      CallBegins(ttl, start, run, tid, op, i);
    } else {
      CallGoesOn(ttl, start, run, tid, op, i, j - 1);
      CallStep(ttl, start, run, tid, op, j - 1);
    }
  }

  lemma CallBegins<T>(ttl: int, start: int, run: seq<Action<T>>, tid: Tid, op: PC<T>, i: nat)
    requires IsRun(ttl, start, run) && i < |run| && run[i] == Begin(tid, op)
    ensures IsStart(op) && DoingAt(ttl, start, run, tid, op, i + 1)
  {
    StepAt(ttl, start, run, i);
    assert Apply(End(ttl, start, run[..i]), Begin(tid, op)).threads[tid] == op;
  }

  lemma CallStep<T>(ttl: int, start: int, run: seq<Action<T>>, tid: Tid, op: PC<T>, m: nat)
    requires IsRun(ttl, start, run) && m < |run|
    requires DoingAt(ttl, start, run, tid, op, m) && InsideAt(ttl, start, run, tid, m + 1)
    ensures DoingAt(ttl, start, run, tid, op, m + 1)
  {
    StepAt(ttl, start, run, m);
    DoingStep(End(ttl, start, run[..m]), run[m], tid, op);
  }

  /** The state after position j is what its action makes of the state before. */
  lemma StepAt<T>(ttl: int, start: int, run: seq<Action<T>>, j: nat)
    requires IsRun(ttl, start, run) && j < |run|
    ensures IsRun(ttl, start, run[..j]) && IsRun(ttl, start, run[..j + 1])
    ensures Enabled(End(ttl, start, run[..j]), run[j])
    ensures End(ttl, start, run[..j + 1]) == Apply(End(ttl, start, run[..j]), run[j])
    ensures Events(ttl, start, run)[j] == Emitted(End(ttl, start, run[..j]), run[j])
  {
    EventAt(ttl, start, run, j);
    NeverEarlier(ttl, start, run, j + 1);
    RunStep(ttl, start, run[..j + 1]);
    assert run[..j + 1][..j] == run[..j];
  }

  /**
   Every operation that has returned has taken effect, under the arguments it was called with:
   a lookup has answered what was in the map, WriteThruLookup has answered, stored what was
   fetched or failed with primaryLookup, Set has stored its value, Clear has emptied the map,
   and a sweep is done.
   */
  lemma ReturnedTookEffect<T>(ttl: int, start: int, run: seq<Action<T>>, tid: Tid, op: PC<T>, i: nat, j: nat)
    requires IsRun(ttl, start, run) && Calls(ttl, start, run, tid, op, i, j) && j < |run|
    requires IsRun(ttl, start, run[..j + 1]) && tid !in End(ttl, start, run[..j + 1]).threads
    ensures IsRun(ttl, start, run[..j])
    ensures Finishes(op, run[j], Events(ttl, start, run)[j], End(ttl, start, run[..j]), End(ttl, start, run[..j + 1]))
  {
    CallGoesOn(ttl, start, run, tid, op, i, j);
    StepAt(ttl, start, run, j);
    DoingStep(End(ttl, start, run[..j]), run[j], tid, op);
  }

  /** No call of primaryLookup goes unseen: who gets there has shown it, and there was nothing to answer with. */
  lemma PrimaryShown<T>(s: State<T>, a: Action<T>, tid: Tid)
    requires Enabled(s, a) && tid in Apply(s, a).threads && Apply(s, a).threads[tid].PrimaryRunning?
    ensures var name := Apply(s, a).threads[tid].name;
            || (tid in s.threads && s.threads[tid] == PrimaryRunning(name))
            || (Emitted(s, a) == PrimaryStarted(name, s.now) && (name in s.data ==> s.data[name].expiresAt < s.now))
  {
    Moved(s, a, tid);
  }

  /** And no return of it: the value goes on its way. */
  lemma ReturnShown<T>(s: State<T>, tid: Tid, primary: Option<T>)
    requires Enabled(s, Answer(tid, primary))
    ensures var name, s' := s.threads[tid].name, Apply(s, Answer(tid, primary));
            && (primary.None? ==> tid !in s'.threads && Emitted(s, Answer(tid, primary)) == Silent)
            && (primary.Some? ==>
                  && tid in s'.threads && s'.threads[tid] == Fetched(name, primary.value, s.now)
                  && Emitted(s, Answer(tid, primary)) == PrimaryReturned(name, primary.value, s.now))
  {
  }

  // ---- Progress --------------------------------------------------------------------

  /** An action of the cache itself, or the return of primaryLookup. */
  predicate Goes<T>(a: Action<T>) {
    a.Acquire? || a.Run? || a.Answer? || a.StartPurge?
  }

  /** No run gets stuck: as long as an operation is under way or a purge is to come, some goroutine can go on. */
  lemma NeverStuck<T>(ttl: int, start: int, run: seq<Action<T>>) returns (a: Action<T>)
    requires IsRun(ttl, start, run)
    requires End(ttl, start, run).threads != map[] || End(ttl, start, run).pending != multiset{}
    ensures Goes(a) && Enabled(End(ttl, start, run), a)
  {
    RunKeeps(ttl, start, run);
    var s := End(ttl, start, run);
    if s.lock.Write? {
      a := Inside(s, s.lock.holder);
    } else if s.lock.Read? {
      var tid :| tid in s.lock.holders;
      a := Inside(s, tid);
    } else if s.threads != map[] {
      var tid :| tid in s.threads;
      assert Waiting(s.threads[tid]);
      a := Acquire(tid);
    } else {
      var p :| p in s.pending;
      a := StartPurge(0, p.0, p.1);
    }
  }

  /** Whoever is inside can go on. */
  lemma Inside<T>(s: State<T>, tid: Tid) returns (a: Action<T>)
    requires tid in s.threads && !Waiting(s.threads[tid])
    ensures Goes(a) && Enabled(s, a)
  {
    a := if s.threads[tid].PrimaryRunning? then Answer(tid, None) else Run(tid);
  }

  /** How many of its own actions an operation has left at most. */
  function Rank<T>(pc: PC<T>): nat {
    match pc
    case FastStart(_) => 7
    case FastHeld(_) => 6
    case SlowStart(_) => 5
    case SlowHeld(_) => 4
    case PrimaryRunning(_) => 3
    case Fetched(_, _, _) => 2
    case SetStart(_, _) => 3
    case SetHeld(_, _) => 2
    case Storing(_, _, _) => 1
    case LookupStart(_) => 2
    case ClearStart => 2
    case MarkStart(_) => 4
    case Collecting(_) => 3
    case Between(_, _) => 2
    case _ => 1
  }

  lemma NextLower<T>(s: State<T>, pc: PC<T>)
    ensures NextPC(s, pc).Some? ==> Rank(NextPC(s, pc).value) < Rank(pc)
    ensures Waiting(pc) ==> Rank(Acquired(pc)) < Rank(pc)
  {
  }

  /** The goroutine's own step. */
  predicate Own<T(==)>(a: Action<T>, tid: Tid) {
    a == Acquire(tid) || a == Run(tid) || (a.Answer? && a.tid == tid)
  }

  /** Every operation returns after at most seven actions of its own, and no other goroutine's action sets it back. */
  lemma CallsEnd<T>(s: State<T>, a: Action<T>, tid: Tid)
    requires Enabled(s, a) && tid in s.threads
    ensures Own(a, tid) && tid in Apply(s, a).threads ==> Rank(Apply(s, a).threads[tid]) < Rank(s.threads[tid])
    ensures !Own(a, tid) ==> tid in Apply(s, a).threads && Apply(s, a).threads[tid] == s.threads[tid]
    ensures Rank(s.threads[tid]) <= 7
  {
    if !Own(a, tid) {
      OthersStay(s, a, tid);
    } else if tid in Apply(s, a).threads {
      NextLower(s, s.threads[tid]);
      OwnMoves(s, a, tid);
    }
  }

  lemma OthersStay<T>(s: State<T>, a: Action<T>, tid: Tid)
    requires Enabled(s, a) && tid in s.threads && !Own(a, tid)
    ensures tid in Apply(s, a).threads && Apply(s, a).threads[tid] == s.threads[tid]
  {
  }

  lemma OwnMoves<T>(s: State<T>, a: Action<T>, tid: Tid)
    requires Enabled(s, a) && Own(a, tid) && tid in Apply(s, a).threads
    ensures var pc, pc' := s.threads[tid], Apply(s, a).threads[tid];
            || (Waiting(pc) && pc' == Acquired(pc)) || NextPC(s, pc) == Some(pc')
            || (pc.PrimaryRunning? && pc'.Fetched?)
  {
  }

  // ---- Purges ----------------------------------------------------------------------

  /** A lookup that meets an expired entry leaves a purge for that very deadline behind. */
  lemma LookupLeavesPurge<T>(s: State<T>, tid: Tid)
    requires Enabled(s, Run(tid))
    requires var pc := s.threads[tid];
             && (pc.LookupHeld? || pc.FastHeld? || pc.SlowHeld?)
             && pc.name in s.data && s.data[pc.name].expiresAt < s.now
    ensures var name := s.threads[tid].name; (name, s.data[name].expiresAt) in Apply(s, Run(tid)).pending
  {
  }

  /** The purge is still to come, or is inside with the write lock. */
  ghost predicate PurgeToCome<T>(s: State<T>, name: string, deadline: int) {
    (name, deadline) in s.pending || exists tid <- s.threads :: s.threads[tid] == Purging(name, deadline)
  }

  /** The entry with that deadline is gone. */
  predicate Gone<T(==)>(data: Data<T>, name: string, deadline: int) {
    name in data ==> data[name].expiresAt != deadline
  }

  /** A purge runs: the entry goes if it still has the deadline, and nothing else does. */
  lemma PurgeRuns<T>(s: State<T>, tid: Tid, name: string, deadline: int)
    requires Enabled(s, Run(tid)) && s.threads[tid] == Purging(name, deadline)
    ensures var after := Apply(s, Run(tid)).data;
            && (name in after <==> name in s.data && s.data[name].expiresAt != deadline)
            && (forall k :: k != name ==> (k in after <==> k in s.data))
            && (forall k <- after :: after[k] == s.data[k])
  {
  }

  lemma PurgeStep<T>(s: State<T>, a: Action<T>, name: string, deadline: int)
    requires Enabled(s, a) && PurgeToCome(s, name, deadline)
    ensures PurgeToCome(Apply(s, a), name, deadline) || Gone(Apply(s, a).data, name, deadline)
  {
    if (name, deadline) in s.pending {
      PendingStays(s, a, name, deadline);
    } else {
      var tid :| tid in s.threads && s.threads[tid] == Purging(name, deadline);
      if a == Run(tid) {
        PurgeRuns(s, tid, name, deadline);
      } else {
        OthersStay(s, a, tid);
      }
    }
  }

  lemma PendingStays<T>(s: State<T>, a: Action<T>, name: string, deadline: int)
    requires Enabled(s, a) && (name, deadline) in s.pending
    ensures PurgeToCome(Apply(s, a), name, deadline)
  {
    var s' := Apply(s, a);
    if a.StartPurge? && a.name == name && a.expected == deadline {
      assert s'.threads[a.tid] == Purging(name, deadline);
    } else {
      assert (name, deadline) in s'.pending;
    }
  }

  /**
   Once a lookup has met an expired entry, at every later point of the run the purge is still
   to come or there was a moment since at which no entry with that deadline was left under
   the name.
   */
  lemma {:induction false} ExpiredIsPurged<T>(ttl: int, start: int, run: seq<Action<T>>, i: nat, name: string,
                                              deadline: int)
    requires IsRun(ttl, start, run) && i < |run| && IsRun(ttl, start, run[..i])
    requires var e, s := Events(ttl, start, run)[i], End(ttl, start, run[..i]);
             && (e.Checked? || e.PrimaryStarted?) && e.name == name
             && name in s.data && s.data[name].expiresAt == deadline < s.now
    ensures || PurgeToCome(End(ttl, start, run), name, deadline)
            || exists m :: WasGone(ttl, start, run, i, m, name, deadline)
    decreases |run|
  {
    StepAt(ttl, start, run, |run| - 1);
    var init := run[..|run| - 1];
    assert run[..|run| - 1 + 1] == run;
    var s, a := End(ttl, start, init), run[|run| - 1];
    if i == |run| - 1 {
      MeetsExpired(s, a, name, deadline);
    } else {
      assert init[..i] == run[..i];
      RunStep(ttl, start, run);
      ExpiredIsPurged(ttl, start, init, i, name, deadline);
      if m: nat :| WasGone(ttl, start, init, i, m, name, deadline) {
        StaysGone(ttl, start, run, i, m, name, deadline);
      } else {
        PurgeStep(s, a, name, deadline);
        if !PurgeToCome(End(ttl, start, run), name, deadline) {
          assert run[..|run|] == run;
          assert WasGone(ttl, start, run, i, |run|, name, deadline);
        }
      }
    }
  }

  lemma StaysGone<T>(ttl: int, start: int, run: seq<Action<T>>, i: nat, m: nat, name: string, deadline: int)
    requires run != [] && WasGone(ttl, start, run[..|run| - 1], i, m, name, deadline)
    ensures WasGone(ttl, start, run, i, m, name, deadline)
  {
    assert run[..|run| - 1][..m] == run[..m];
  }

  lemma MeetsExpired<T>(s: State<T>, a: Action<T>, name: string, deadline: int)
    requires Enabled(s, a) && name in s.data && s.data[name].expiresAt == deadline < s.now
    requires (Emitted(s, a).Checked? || Emitted(s, a).PrimaryStarted?) && Emitted(s, a).name == name
    ensures PurgeToCome(Apply(s, a), name, deadline)
  {
    assert a.Run?;
    LookupLeavesPurge(s, a.tid);
  }

  ghost predicate WasGone<T>(ttl: int, start: int, run: seq<Action<T>>, i: nat, m: nat, name: string, deadline: int) {
    i < m <= |run| && IsRun(ttl, start, run[..m]) && Gone(End(ttl, start, run[..m]).data, name, deadline)
  }
}
