/**
 The concurrent cache of cache/cache.go as a step system: any number of goroutines, one
 RWMutex, a clock that never goes backwards and a bag of detached purges.  A goroutine
 is a program counter; each critical section is one step at the instant of its clock
 read, so other goroutines and the clock move between any two steps.
 */
module CacheProtocol {
  import opened Wrappers
  import opened CacheData

  type Tid = nat

  datatype Lock = Free | Read(holders: set<Tid>) | Write(holder: Tid)

  datatype PC<+T> =
    | LookupStart(name: string)
    | LookupHeld(name: string)                              // Lookup, read lock held
    | FastStart(name: string)
    | FastHeld(name: string)                                // WriteThruLookup, first check, read lock held
    | SlowStart(name: string)                               // missed; wants the write lock
    | SlowHeld(name: string)                                // second check, write lock held
    | PrimaryRunning(name: string)                          // primaryLookup in flight, write lock held
    | Fetched(name: string, value: T, finished: int)        // primaryLookup returned at `finished`
    | SetStart(name: string, value: T)
    | SetHeld(name: string, value: T)                       // Set, write lock held
    | Storing(name: string, value: T, stamped: int)         // deadline stamped, not yet in the map
    | ClearStart
    | ClearHeld
    | MarkStart(t: int)
    | Collecting(t: int)                                    // sweep, first phase, read lock held
    | Between(t: int, expired: set<string>)                 // sweep, no lock held
    | Sweeping(t: int, expired: set<string>)                // sweep, second phase, write lock held
    | Purging(name: string, expected: int)                  // purge goroutine, write lock held

  predicate IsStart<T>(pc: PC<T>) {
    pc.LookupStart? || pc.FastStart? || pc.SetStart? || pc.ClearStart? || pc.MarkStart?
  }

  predicate HoldsRead<T>(pc: PC<T>) {
    pc.LookupHeld? || pc.FastHeld? || pc.Collecting?
  }

  predicate HoldsWrite<T>(pc: PC<T>) {
    pc.SlowHeld? || pc.PrimaryRunning? || pc.Fetched? || pc.SetHeld? || pc.Storing? ||
    pc.ClearHeld? || pc.Sweeping? || pc.Purging?
  }

  /** Where a waiting goroutine goes once it has the lock. */
  function Acquired<T>(pc: PC<T>): PC<T> {
    match pc
    case LookupStart(name) => LookupHeld(name)
    case FastStart(name) => FastHeld(name)
    case SlowStart(name) => SlowHeld(name)
    case SetStart(name, value) => SetHeld(name, value)
    case ClearStart => ClearHeld
    case MarkStart(t) => Collecting(t)
    case Between(t, expired) => Sweeping(t, expired)
    case _ => pc
  }

  predicate Waiting<T>(pc: PC<T>) {
    !HoldsRead(pc) && !HoldsWrite(pc)
  }

  datatype State<+T> = State(
    ttl: int,
    now: int,
    lock: Lock,
    threads: map<Tid, PC<T>>,
    data: Data<T>,
    pending: multiset<(string, int)>)

  function Init<T>(ttl: int, start: int): State<T> {
    State(ttl, start, Free, map[], map[], multiset{})
  }

  datatype Action<+T> =
    | Tick(to: int)                                         // the clock moves
    | Begin(tid: Tid, op: PC<T>)                            // a goroutine calls an operation
    | Acquire(tid: Tid)                                     // it gets the lock it waits for
    | Run(tid: Tid)                                         // it runs its critical section
    | Answer(tid: Tid, primary: Option<T>)                  // primaryLookup returns; None is its error
    | StartPurge(tid: Tid, name: string, expected: int)     // a detached purge gets the write lock

  /** What an outside observer sees of a step, with the clock at that instant. */
  datatype Event<+T> =
    | Silent
    | Checked(name: string, result: Option<T>, at: int)     // a lookup answered
    | PrimaryStarted(name: string, at: int)                 // a lookup missed and primaryLookup was called
    | PrimaryReturned(name: string, value: T, at: int)
    | Wrote(name: string, value: T, stamped: int)
    | Cleared
    | MarkDone(t: int)

  predicate Enabled<T>(s: State<T>, a: Action<T>) {
    match a
    case Tick(to) => s.now <= to < INT64_LIMIT
    case Begin(tid, op) => tid !in s.threads && IsStart(op) && (op.MarkStart? ==> op.t <= s.now)
    case Acquire(tid) =>
      && tid in s.threads
      && Waiting(s.threads[tid])
      && (if HoldsRead(Acquired(s.threads[tid])) then !s.lock.Write? else s.lock.Free?)
    case Run(tid) => tid in s.threads && !Waiting(s.threads[tid]) && !s.threads[tid].PrimaryRunning?
    case Answer(tid, _) => tid in s.threads && s.threads[tid].PrimaryRunning?
    case StartPurge(tid, name, expected) =>
      tid !in s.threads && (name, expected) in s.pending && s.lock.Free?
  }

  function WithReader(lock: Lock, tid: Tid): Lock {
    if lock.Read? then Read(lock.holders + {tid}) else Read({tid})
  }

  function Released(lock: Lock, tid: Tid): Lock {
    if lock.Read? && lock.holders != {tid} then Read(lock.holders - {tid}) else Free
  }

  /** Where a goroutine goes when it runs its critical section; None means its operation returns. */
  function NextPC<T>(s: State<T>, pc: PC<T>): Option<PC<T>> {
    match pc
    case FastHeld(name) => if Find(s.data, name, s.now).Some? then None else Some(SlowStart(name))
    case SlowHeld(name) => if Find(s.data, name, s.now).Some? then None else Some(PrimaryRunning(name))
    case Fetched(name, value, _) => Some(Storing(name, value, s.now))
    case SetHeld(name, value) => Some(Storing(name, value, s.now))
    case Collecting(t) => if Expirable(s.data, t) == {} then None else Some(Between(t, Expirable(s.data, t)))
    case _ => None
  }

  function NextData<T>(s: State<T>, pc: PC<T>): Data<T> {
    match pc
    case Storing(name, value, stamped) => Stored(s.data, name, value, stamped, s.ttl)
    case ClearHeld => map[]
    case Sweeping(t, expired) => Swept(s.data, expired, t)
    case Purging(name, expected) => Purged(s.data, name, expected)
    case _ => s.data
  }

  /** The purges that a lookup at this counter leaves behind. */
  function Left<T>(s: State<T>, pc: PC<T>): multiset<(string, int)> {
    if pc.LookupHeld? || pc.FastHeld? || pc.SlowHeld? then Scheduled(s.data, pc.name, s.now) else multiset{}
  }

  /** The lock is kept only when the goroutine goes on at a counter that holds it. */
  function Goto<T>(s: State<T>, tid: Tid, next: Option<PC<T>>): State<T> {
    match next
    case None => s.(lock := Released(s.lock, tid), threads := s.threads - {tid})
    case Some(pc) => s.(lock := if Waiting(pc) then Released(s.lock, tid) else s.lock, threads := s.threads[tid := pc])
  }

  function Apply<T>(s: State<T>, a: Action<T>): State<T>
    requires Enabled(s, a)
  {
    match a
    case Tick(to) => s.(now := to)
    case Begin(tid, op) => s.(threads := s.threads[tid := op])
    case Acquire(tid) =>
      var pc := Acquired(s.threads[tid]);
      s.(lock := if HoldsRead(pc) then WithReader(s.lock, tid) else Write(tid), threads := s.threads[tid := pc])
    case Run(tid) =>
      var pc := s.threads[tid];
      Goto(s.(data := NextData(s, pc), pending := s.pending + Left(s, pc)), tid, NextPC(s, pc))
    case Answer(tid, primary) =>
      Goto(s, tid, if primary.None? then None else Some(Fetched(s.threads[tid].name, primary.value, s.now)))
    case StartPurge(tid, name, expected) =>
      s.(lock := Write(tid), threads := s.threads[tid := Purging(name, expected)],
      pending := s.pending - multiset{(name, expected)})
  }

  /** The action takes the goroutine to the counter. */
  predicate Moves<T(==)>(s: State<T>, a: Action<T>, tid: Tid, pc: PC<T>) {
    match a
    case Tick(_) => false
    case Begin(t, op) => t == tid && pc == op
    case Acquire(t) => t == tid && t in s.threads && pc == Acquired(s.threads[t])
    case Run(t) => t == tid && t in s.threads && NextPC(s, s.threads[t]) == Some(pc)
    case Answer(t, primary) => t == tid && pc.Fetched? && pc.finished == s.now
    case StartPurge(t, name, expected) => t == tid && pc == Purging(name, expected)
  }

  lemma Moved<T>(s: State<T>, a: Action<T>, tid: Tid)
    requires Enabled(s, a) && tid in Apply(s, a).threads
    ensures var pc := Apply(s, a).threads[tid];
            Moves(s, a, tid, pc) || (tid in s.threads && pc == s.threads[tid])
  {
  }

  function Seen<T>(s: State<T>, pc: PC<T>): Event<T> {
    match pc
    case LookupHeld(name) => Checked(name, Find(s.data, name, s.now), s.now)
    case FastHeld(name) => Checked(name, Find(s.data, name, s.now), s.now)
    case SlowHeld(name) =>
      if Find(s.data, name, s.now).Some? then Checked(name, Find(s.data, name, s.now), s.now)
      else PrimaryStarted(name, s.now)
    case Storing(name, value, stamped) => Wrote(name, value, stamped)
    case ClearHeld => Cleared
    case Collecting(t) => if Expirable(s.data, t) == {} then MarkDone(t) else Silent
    case Sweeping(t, _) => MarkDone(t)
    case _ => Silent
  }

  function Emitted<T>(s: State<T>, a: Action<T>): Event<T>
    requires Enabled(s, a)
  {
    match a
    case Run(tid) => Seen(s, s.threads[tid])
    case Answer(tid, Some(value)) => PrimaryReturned(s.threads[tid].name, value, s.now)
    case _ => Silent
  }

  /** The state a run ends in, or None if one of its actions was not possible. */
  function Exec<T>(s0: State<T>, run: seq<Action<T>>): Option<State<T>> {
    if run == [] then Some(s0)
    else
      var before := Exec(s0, run[..|run| - 1]);
      if before.Some? && Enabled(before.value, run[|run| - 1]) then Some(Apply(before.value, run[|run| - 1]))
      else None
  }

  /** The events of a run, one for each action. */
  function Trace<T>(s0: State<T>, run: seq<Action<T>>): (trace: seq<Event<T>>)
    requires Exec(s0, run).Some?
    ensures |trace| == |run|
  {
    if run == [] then []
    else
      Trace(s0, run[..|run| - 1]) + [Emitted(Exec(s0, run[..|run| - 1]).value, run[|run| - 1])]
  }

  /** One more action at the end of a run. */
  lemma ExecSnoc<T>(s0: State<T>, run: seq<Action<T>>, a: Action<T>)
    requires Exec(s0, run).Some? && Enabled(Exec(s0, run).value, a)
    ensures Exec(s0, run + [a]) == Some(Apply(Exec(s0, run).value, a))
    ensures Trace(s0, run + [a]) == Trace(s0, run) + [Emitted(Exec(s0, run).value, a)]
  {
    assert (run + [a])[..|run|] == run;
  }

  /** Every prefix of a run is a run, with a prefix of its trace. */
  lemma {:induction false} ExecPrefix<T>(s0: State<T>, run: seq<Action<T>>, n: nat)
    requires n <= |run| && Exec(s0, run).Some?
    ensures Exec(s0, run[..n]).Some?
    ensures Trace(s0, run[..n]) == Trace(s0, run)[..n]
  {
    if n < |run| {
      var init := run[..|run| - 1];
      ExecPrefix(s0, init, n);
      assert init[..n] == run[..n];
    } else {
      assert run[..n] == run;
    }
  }
}
