/**
 The shutdown protocol of server/server.go: the goroutine of `ServeHTTP`, the helper it
 starts, the one-slot channel errCh, the close-only channel serveDone and the context.
 A run is a list of actions; the environment decides when the context is cancelled,
 when Serve returns and when Shutdown returns.
 */
module Shutdown {
  import opened Wrappers

  datatype Error = Nil | ErrServerClosed | Failure(text: string)

  /** What ServeHTTP returns. */
  datatype Outcome = ReturnedNil | ServeFailed(serve: Error, shutdown: Error) | ShutdownFailed(shutdown: Error)

  datatype MainPC =
    | Serving                        // inside srv.Serve
    | Served(serve: Error)           // Serve has returned; serveDone not yet closed
    | Receiving(serve: Error)        // blocked in <-errCh
    | Done(outcome: Outcome)

  datatype HelperPC =
    | Selecting                      // blocked in select
    | ShuttingDown                   // took the ctx.Done branch; inside srv.Shutdown
    | Sending(value: Error)          // at errCh <- value
    | Exited

  datatype State = State(cancelled: bool, closed: bool, errCh: Option<Error>, main: MainPC, helper: HelperPC)

  const START := State(false, false, None, Serving, Selecting)

  datatype Action =
    | Cancel
    | ServeReturns(err: Error)
    | CloseServeDone
    | SelectCancel
    | SelectServeDone
    | ShutdownReturns(err: Error)
    | Send
    | Receive

  predicate Enabled(s: State, a: Action) {
    match a
    case Cancel => !s.cancelled
    case ServeReturns(_) => s.main.Serving?
    case CloseServeDone => s.main.Served?
    case SelectCancel => s.helper.Selecting? && s.cancelled
    case SelectServeDone => s.helper.Selecting? && s.closed
    case ShutdownReturns(_) => s.helper.ShuttingDown?
    case Send => s.helper.Sending? && s.errCh.None?
    case Receive => s.main.Receiving? && s.errCh.Some?
  }

  function Finish(serve: Error, received: Error): Outcome {
    if !serve.Nil? && !serve.ErrServerClosed? then ServeFailed(serve, received)
    else if !received.Nil? then ShutdownFailed(received)
    else ReturnedNil
  }

  function Apply(s: State, a: Action): State
    requires Enabled(s, a)
  {
    match a
    case Cancel => s.(cancelled := true)
    case ServeReturns(err) => s.(main := Served(err))
    case CloseServeDone => s.(closed := true, main := Receiving(s.main.serve))
    case SelectCancel => s.(helper := ShuttingDown)
    case SelectServeDone => s.(helper := Sending(Nil))
    case ShutdownReturns(err) => s.(helper := Sending(err))
    case Send => s.(errCh := Some(s.helper.value), helper := Exited)
    case Receive => s.(errCh := None, main := Done(Finish(s.main.serve, s.errCh.value)))
  }

  function Exec(run: seq<Action>): Option<State> {
    if run == [] then Some(START)
    else
      var before := Exec(run[..|run| - 1]);
      if before.Some? && Enabled(before.value, run[|run| - 1]) then Some(Apply(before.value, run[|run| - 1])) else None
  }

  function Sends(run: seq<Action>): nat {
    if run == [] then 0 else Sends(run[..|run| - 1]) + if run[|run| - 1].Send? then 1 else 0
  }

  function Receives(run: seq<Action>): nat {
    if run == [] then 0 else Receives(run[..|run| - 1]) + if run[|run| - 1].Receive? then 1 else 0
  }

  /** The error Shutdown gave in this run: Nil as long as it has given none. */
  function ShutdownError(run: seq<Action>): Error {
    if run == [] then Nil
    else if run[|run| - 1].ShutdownReturns? then run[|run| - 1].err
    else ShutdownError(run[..|run| - 1])
  }

  /** The error Serve gave in this run. */
  function ServeError(run: seq<Action>): Option<Error> {
    if run == [] then None
    else if run[|run| - 1].ServeReturns? then Some(run[|run| - 1].err)
    else ServeError(run[..|run| - 1])
  }

  predicate Ended(s: State) {
    s.main.Done? && s.helper.Exited?
  }

  /** What a run has done so far, read off the state it ends in. */
  ghost predicate Inv(run: seq<Action>, s: State) {
    && Sends(run) == (if s.helper.Exited? then 1 else 0)
    && Receives(run) == (if s.main.Done? then 1 else 0)
    && (s.errCh.Some? <==> Sends(run) == 1 && Receives(run) == 0)
    && (s.errCh.Some? ==> s.errCh.value == ShutdownError(run))
    && (s.helper.Sending? ==> s.helper.value == ShutdownError(run))
    && (s.helper.Selecting? || s.helper.ShuttingDown? ==> ShutdownError(run) == Nil)
    && (s.helper.Selecting? ==> SelectCancel !in run)
    && (SelectCancel in run && !s.helper.ShuttingDown? ==> exists err :: ShutdownReturns(err) in run)
    && (s.closed <==> s.main.Receiving? || s.main.Done?)
    && (s.main.Serving? <==> ServeError(run).None?)
    && (s.main.Served? || s.main.Receiving? ==> ServeError(run) == Some(s.main.serve))
    && (s.main.Done? ==>
          s.helper.Exited? && ServeError(run).Some?
          && s.main.outcome == Finish(ServeError(run).value, ShutdownError(run)))
  }

  lemma {:induction false} RunKeeps(run: seq<Action>)
    requires Exec(run).Some?
    ensures Inv(run, Exec(run).value)
  {
    if run != [] {
      var init, a := run[..|run| - 1], run[|run| - 1];
      RunKeeps(init);
      assert run == init + [a];
      assert forall x :: x in run <==> x in init || x == a;
      if SelectCancel in init && !Exec(init).value.helper.ShuttingDown? {
        var err :| ShutdownReturns(err) in init;
        assert ShutdownReturns(err) in run;
      }
      if a.ShutdownReturns? {
        assert ShutdownReturns(a.err) in run;
      }
    }
  }

  /**
   In every run at most one value is sent on errCh and at most one is received; a run in which
   both goroutines have ended sent exactly one and received exactly one, and ServeHTTP never
   returns before its helper is gone.
   */
  lemma OneValueSentAndReceived(run: seq<Action>)
    requires Exec(run).Some?
    ensures Receives(run) <= Sends(run) <= 1
    ensures Exec(run).value.main.Done? ==>
              Sends(run) == Receives(run) == 1 && Ended(Exec(run).value) && Exec(run).value.errCh.None?
  {
    RunKeeps(run);
  }

  /** If the helper took the cancel branch, ServeHTTP does not return before Shutdown has. */
  lemma ShutdownBeforeReturn(run: seq<Action>) returns (err: Error)
    requires Exec(run).Some? && Exec(run).value.main.Done? && SelectCancel in run
    ensures ShutdownReturns(err) in run
  {
    RunKeeps(run);
    err :| ShutdownReturns(err) in run;
  }

  /** What lets the helper and ServeHTTP go on has happened before. */
  ghost predicate Causes(run: seq<Action>, s: State) {
    && (s.cancelled <==> Cancel in run)
    && (s.closed <==> CloseServeDone in run)
    && (CloseServeDone in run ==> exists err :: ServeReturns(err) in run)
    && (SelectCancel in run ==> Cancel in run)
    && (SelectServeDone in run ==> CloseServeDone in run)
    && (s.helper.Selecting? ==> SelectCancel !in run && SelectServeDone !in run)
    && (s.helper.ShuttingDown? ==> SelectCancel in run)
    && (SelectServeDone in run ==> SelectCancel !in run && (s.helper.Sending? || s.helper.Exited?))
    && (s.helper.Sending? || s.helper.Exited? ==> SelectCancel in run || SelectServeDone in run)
    && (forall err :: ShutdownReturns(err) in run ==> SelectCancel in run)
  }

  lemma {:induction false} RunCauses(run: seq<Action>)
    requires Exec(run).Some?
    ensures Causes(run, Exec(run).value)
  {
    if run != [] {
      var init, a := run[..|run| - 1], run[|run| - 1];
      RunCauses(init);
      assert run == init + [a];
      InOneMore(init, a);
      if CloseServeDone in init {
        var err :| ServeReturns(err) in init;
        assert ServeReturns(err) in run;
      }
      if a.CloseServeDone? {
        RunKeeps(init);
        var err := ServedBy(init);
        assert ServeReturns(err) in run;
      }
    }
  }

  lemma InOneMore(init: seq<Action>, a: Action)
    ensures forall x :: x in init + [a] <==> x in init || x == a
  {
  }

  lemma {:induction false} ServedBy(run: seq<Action>) returns (err: Error)
    requires ServeError(run).Some?
    ensures ServeReturns(err) in run
  {
    var a := run[|run| - 1];
    if a.ServeReturns? {
      err := a.err;
      assert a in run;
    } else {
      err := ServedBy(run[..|run| - 1]);
    }
  }

  lemma {:induction false} PrefixRuns(run: seq<Action>, n: nat)
    requires Exec(run).Some? && n <= |run|
    ensures Exec(run[..n]).Some?
  {
    if n < |run| {
      PrefixRuns(run[..|run| - 1], n);
      assert run[..|run| - 1][..n] == run[..n];
    } else {
      assert run[..n] == run;
    }
  }

  lemma LastAction(run: seq<Action>, j: nat)
    requires Exec(run).Some? && j < |run|
    ensures Exec(run[..j]).Some? && Enabled(Exec(run[..j]).value, run[j])
  {
    PrefixRuns(run, j + 1);
    assert run[..j + 1][..j] == run[..j];
  }

  /**
   Shutdown runs only for a cancelled context: where it returns, the helper has taken the cancel
   branch before, and where that is taken the context has been cancelled before.  The other
   branch is taken only after Serve has returned and serveDone has been closed.
   */
  lemma ShutdownOnlyAfterCancel(run: seq<Action>, j: nat)
    requires Exec(run).Some? && j < |run|
    ensures run[j].ShutdownReturns? ==> SelectCancel in run[..j] && Cancel in run[..j]
    ensures run[j] == SelectCancel ==> Cancel in run[..j]
    ensures run[j] == SelectServeDone ==>
              CloseServeDone in run[..j] && (exists err :: ServeReturns(err) in run[..j]) && SelectCancel !in run[..j]
  {
    LastAction(run, j);
    RunCauses(run[..j]);
  }

  /** A helper that saw serveDone calls no Shutdown and sends nil. */
  lemma ServeDoneSendsNil(run: seq<Action>)
    requires Exec(run).Some? && SelectServeDone in run
    ensures forall err :: ShutdownReturns(err) !in run
    ensures var s := Exec(run).value;
            && (s.helper.Sending? ==> s.helper.value == Nil)
            && (s.errCh.Some? ==> s.errCh.value == Nil)
            && (s.main.Done? ==> s.main.outcome == ReturnedNil || s.main.outcome.ServeFailed?)
            && (s.main.Done? && s.main.outcome.ServeFailed? ==> s.main.outcome.shutdown == Nil)
  {
    RunCauses(run);
    RunKeeps(run);
    NoShutdownError(run);
  }

  lemma {:induction false} NoShutdownError(run: seq<Action>)
    requires forall err :: ShutdownReturns(err) !in run
    ensures ShutdownError(run) == Nil
  {
    if run != [] {
      assert run[|run| - 1] in run;
      NoShutdownError(run[..|run| - 1]);
    }
  }

  /** So a ServeHTTP whose context is never cancelled returns nil, or what Serve failed with and nothing else. */
  lemma NeverCancelled(run: seq<Action>)
    requires Exec(run).Some? && Exec(run).value.main.Done? && Cancel !in run
    ensures SelectServeDone in run && ServeError(run).Some?
    ensures var serve := ServeError(run).value;
            Exec(run).value.main.outcome
            == if serve == Nil || serve == ErrServerClosed then ReturnedNil else ServeFailed(serve, Nil)
  {
    RunCauses(run);
    RunKeeps(run);
    ServeDoneSendsNil(run);
    NoShutdownError(run);
  }

  /**
   A cancelled context is heard: as long as the server serves, either the helper is about to take the
   cancel branch, or it is in Shutdown, or Shutdown has returned.
   */
  lemma CancelIsHeard(run: seq<Action>)
    requires Exec(run).Some? && Cancel in run && CloseServeDone !in run
    ensures var s := Exec(run).value;
            Enabled(s, SelectCancel) || s.helper.ShuttingDown? || exists err :: ShutdownReturns(err) in run
  {
    RunCauses(run);
    RunKeeps(run);
  }

  /**
   ServeHTTP returns nil exactly when Serve ended with nil or ErrServerClosed and Shutdown, if
   it was called, gave nil; otherwise it returns the errors of both.
   */
  lemma ReturnsNilExactly(run: seq<Action>)
    requires Exec(run).Some? && Exec(run).value.main.Done?
    ensures ServeError(run).Some?
    ensures Exec(run).value.main.outcome.ReturnedNil?
            <==> (ServeError(run).value.Nil? || ServeError(run).value.ErrServerClosed?) && ShutdownError(run).Nil?
    ensures ServeError(run).value.Failure? ==>
              Exec(run).value.main.outcome == ServeFailed(ServeError(run).value, ShutdownError(run))
    ensures !ServeError(run).value.Failure? && !ShutdownError(run).Nil? ==>
              Exec(run).value.main.outcome == ShutdownFailed(ShutdownError(run))
  {
    RunKeeps(run);
  }

  /** Steps that the environment alone decides, and that a server may wait for as long as it serves. */
  predicate Waits(a: Action) {
    a.Cancel? || a.ServeReturns?
  }

  /** Once Serve has returned some goroutine can always move until both have ended, given that Shutdown returns. */
  lemma NeverStuck(run: seq<Action>) returns (a: Action)
    requires Exec(run).Some? && !Ended(Exec(run).value)
    ensures Enabled(Exec(run).value, a)
    ensures !Exec(run).value.main.Serving? ==> !Waits(a)
  {
    RunKeeps(run);
    var s := Exec(run).value;
    if s.main.Serving? {
      return ServeReturns(Nil);
    }
    if s.main.Served? {
      return CloseServeDone;
    }
    match s.helper {
      case Selecting => return SelectServeDone;
      case ShuttingDown => return ShutdownReturns(Nil);
      case Sending(_) => return Send;
      case Exited => return Receive;
    }
  }

  /** How many actions are left at most. */
  function Remaining(s: State): nat {
    (if s.cancelled then 0 else 1)
    + (match s.main case Serving => 3 case Served(_) => 2 case Receiving(_) => 1 case Done(_) => 0)
    + (match s.helper case Selecting => 3 case ShuttingDown => 2 case Sending(_) => 1 case Exited => 0)
  }

  /** Every action of every run uses up some of what is left, so no run is longer than seven actions. */
  lemma {:induction false} EveryRunEnds(run: seq<Action>)
    requires Exec(run).Some?
    ensures |run| + Remaining(Exec(run).value) <= 7
  {
    if run != [] {
      EveryRunEnds(run[..|run| - 1]);
    }
  }
}
