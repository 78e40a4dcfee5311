/**
 The stack of response writers of middleware/sessions.go and middleware/log_requests.go:
 a handler writes to the before-first-byte writer of the session middleware, that one to
 the status recorder of the request log, and that one to the server.
 */
module ResponseWriters {
  import opened Bytes

  /** What happens at the server's end, in order. Saving the session sets cookies on the header. */
  datatype Event = SaveRun(ok: bool) | Status(code: int) | Body(b: bytes)

  /** The status line that goes out: the first one written; 0 when there is none. */
  function StatusOf(log: seq<Event>): int {
    if log == [] then 0
    else if StatusOf(log[..|log| - 1]) != 0 then StatusOf(log[..|log| - 1])
    else if log[|log| - 1].Status? then log[|log| - 1].code
    else 0
  }

  function BodyOf(log: seq<Event>): bytes {
    if log == [] then []
    else BodyOf(log[..|log| - 1]) + (if log[|log| - 1].Body? then log[|log| - 1].b else [])
  }

  /** Final status codes only (section 15.2 of RFC 9110). */
  predicate FinalCode(code: int) {
    200 <= code <= 999
  }

  /** The first final status wins. */
  function HeaderSent(log: seq<Event>, code: int): seq<Event> {
    if StatusOf(log) == 0 then log + [Status(code)] else log
  }

  /** A write implies 200, and takes in `n` of the bytes. */
  function BytesSent(log: seq<Event>, b: bytes, n: nat): seq<Event>
    requires n <= |b|
  {
    HeaderSent(log, 200) + [Body(b[..n])]
  }

  lemma Sent(log: seq<Event>, e: Event)
    ensures StatusOf(log + [e]) == if StatusOf(log) != 0 then StatusOf(log) else if e.Status? then e.code else 0
    ensures BodyOf(log + [e]) == BodyOf(log) + (if e.Body? then e.b else [])
  {
    assert (log + [e])[..|log + [e]| - 1] == log;
  }

  /** A write leaves a status and puts its bytes behind the others. */
  lemma WriteSent(log: seq<Event>, b: bytes, n: nat)
    requires n <= |b|
    ensures StatusOf(BytesSent(log, b, n)) == if StatusOf(log) != 0 then StatusOf(log) else 200
    ensures BodyOf(BytesSent(log, b, n)) == BodyOf(log) + b[..n]
    ensures log <= BytesSent(log, b, n)
  {
    Sent(log, Status(200));
    Sent(HeaderSent(log, 200), Body(b[..n]));
  }

  /** A call of a handler; `accepted` is how much of a write the connection takes. */
  datatype Call = WriteHeader(code: int) | Write(b: bytes, accepted: nat)

  predicate Legal(call: Call) {
    match call
    case WriteHeader(code) => FinalCode(code)
    case Write(b, accepted) => accepted <= |b|
  }

  /** What one call sends. */
  function Called(log: seq<Event>, call: Call): seq<Event>
    requires Legal(call)
  {
    match call
    case WriteHeader(code) => HeaderSent(log, code)
    case Write(b, accepted) => BytesSent(log, b, accepted)
  }

  /** What the server sees of calls that reach it directly. */
  function Direct(log: seq<Event>, calls: seq<Call>): seq<Event>
    requires forall i :: 0 <= i < |calls| ==> Legal(calls[i])
  {
    if calls == [] then log
    else
      var before := Direct(log, calls[..|calls| - 1]);
      assert Legal(calls[|calls| - 1]);
      Called(before, calls[|calls| - 1])
  }

  class InnerWriter {
    var log: seq<Event>

    constructor ()
      ensures log == []
    {
      log := [];
    }

    method WriteHeader(code: int)
      modifies this
      ensures log == HeaderSent(old(log), code)
    {
      if StatusOf(log) == 0 {
        log := log + [Status(code)];
      }
    }

    method Write(b: bytes, accepted: nat) returns (n: nat)
      requires accepted <= |b|
      modifies this
      ensures log == BytesSent(old(log), b, accepted) && n == accepted
    {
      WriteHeader(200);
      log := log + [Body(b[..accepted])];
      return accepted;
    }

    method NoteSave(ok: bool)
      modifies this
      ensures log == old(log) + [SaveRun(ok)]
    {
      log := log + [SaveRun(ok)];
    }
  }

  /** `statusRecorder`. */
  class StatusRecorder {
    const w: InnerWriter
    var status: int
    var bytes: nat

    constructor (w: InnerWriter)
      ensures this.w == w && status == 0 && bytes == 0
    {
      this.w := w;
      status, bytes := 0, 0;
    }

    /** The recorder knows what the server has sent. */
    ghost predicate Valid()
      reads this, w
    {
      status == StatusOf(w.log) && bytes == |BodyOf(w.log)|
    }

    method WriteHeader(code: int)
      requires Valid() && FinalCode(code)
      modifies this, w
      ensures Valid() && w.log == HeaderSent(old(w.log), code)
    {
      if status == 0 {
        status := code;
      }
      Sent(w.log, Status(code));
      w.WriteHeader(code);
    }

    method Write(b: bytes, accepted: nat) returns (n: nat)
      requires Valid() && accepted <= |b|
      modifies this, w
      ensures Valid() && w.log == BytesSent(old(w.log), b, accepted) && n == accepted
    {
      WriteSent(w.log, b, accepted);
      if status == 0 {
        status := 200;
      }
      n := w.Write(b, accepted);
      bytes := bytes + n;
    }

    /** What the request log prints. */
    function StatusOr200(): int
      reads this
    {
      if status == 0 then 200 else status
    }
  }

  /** `beforeFirstByteWriter` with its once-guarded saveSession; `saveFails` is what the save body will answer. */
  class BeforeFirstByteWriter {
    const w: StatusRecorder
    const saveFails: bool
    var done: bool        // the sync.Once
    var saveErr: bool
    var wroteHeader: bool

    constructor (w: StatusRecorder, saveFails: bool)
      ensures this.w == w && this.saveFails == saveFails && !done && !saveErr && !wroteHeader
    {
      this.w, this.saveFails := w, saveFails;
      done, saveErr, wroteHeader := false, false, false;
    }

    ghost predicate Valid()
      reads this, w, w.w
    {
      && w.Valid()
      && (saveErr <==> done && saveFails)
      && (wroteHeader <==> StatusOf(w.w.log) != 0)
      && (if done then w.w.log != [] && w.w.log[0] == SaveRun(!saveFails) else w.w.log == [])
    }

    method Before() returns (err: bool)
      requires Valid()
      modifies this, w.w
      ensures Valid() && done && err == saveFails && wroteHeader == old(wroteHeader)
      ensures w.w.log == if old(done) then old(w.w.log) else [SaveRun(!saveFails)]
    {
      if !done {
        done := true;
        Sent(w.w.log, SaveRun(!saveFails));
        w.w.NoteSave(!saveFails);
        saveErr := saveFails;
      }
      return saveErr;
    }

    method WriteHeader(code: int)
      requires Valid() && FinalCode(code)
      modifies this, w, w.w
      ensures Valid() && done && wroteHeader
      ensures var saved := if old(done) then old(w.w.log) else [SaveRun(!saveFails)];
              w.w.log == HeaderSent(saved, if saveFails then 500 else code)
    {
      if wroteHeader {
        return;
      }
      var err := Before();
      Sent(w.w.log, Status(500));
      Sent(w.w.log, Status(code));
      if err {
        wroteHeader := true;
        w.WriteHeader(500);
        return;
      }
      wroteHeader := true;
      w.WriteHeader(code);
    }

    method Write(b: bytes, accepted: nat) returns (n: nat, err: bool)
      requires Valid() && accepted <= |b|
      modifies this, w, w.w
      ensures Valid() && done && err == saveFails
      ensures wroteHeader <==> old(wroteHeader) || !saveFails
      ensures var saved := if old(done) then old(w.w.log) else [SaveRun(!saveFails)];
              && w.w.log == (if saveFails then saved else BytesSent(saved, b, accepted))
              && n == (if saveFails then 0 else accepted)
    {
      err := Before();
      if err {
        return 0, true;
      }
      WriteSent(w.w.log, b, accepted);
      wroteHeader := true;
      n := w.Write(b, accepted);
      return n, false;
    }
  }

  predicate AllLegal(calls: seq<Call>) {
    forall i :: 0 <= i < |calls| ==> Legal(calls[i])
  }

  predicate CommitsHeader(calls: seq<Call>) {
    exists i :: 0 <= i < |calls| && calls[i].WriteHeader?
  }

  /** What the server sees of a request through the session middleware. */
  function Served(calls: seq<Call>, saveFails: bool, errorPage: bytes): seq<Event>
    requires AllLegal(calls)
  {
    if !saveFails then Direct([SaveRun(true)], calls)
    else if CommitsHeader(calls) then [SaveRun(false), Status(500)]
    else [SaveRun(false), Status(500), Body(errorPage)]
  }

  /** The handler runs behind the before-first-byte writer. */
  method RunHandler(out: BeforeFirstByteWriter, calls: seq<Call>)
    requires out.Valid() && !out.done && AllLegal(calls)
    modifies out, out.w, out.w.w
    ensures out.Valid() && (out.done <==> calls != [])
    ensures out.done && !out.saveFails ==> out.w.w.log == Direct([SaveRun(true)], calls)
    ensures out.done && out.saveFails ==>
              out.w.w.log == if out.wroteHeader then [SaveRun(false), Status(500)] else [SaveRun(false)]
    ensures out.saveFails ==> (out.wroteHeader <==> CommitsHeader(calls))
  {
    ghost var begun := [SaveRun(!out.saveFails)];
    Sent([], SaveRun(!out.saveFails));
    Sent(begun, Status(500));
    assert [] + begun == begun;
    var i := 0;
    while i < |calls|
      invariant 0 <= i <= |calls|
      invariant out.Valid() && (out.done <==> i > 0)
      invariant out.done && !out.saveFails ==> out.w.w.log == Direct(begun, calls[..i])
      invariant out.done && out.saveFails ==> out.w.w.log == if out.wroteHeader then begun + [Status(500)] else begun
      invariant out.saveFails ==> (out.wroteHeader <==> CommitsHeader(calls[..i]))
    {
      assert calls[..i + 1][..i] == calls[..i] && calls[..i + 1][i] == calls[i];
      assert calls[..i] == [] ==> Direct(begun, calls[..i]) == begun;
      CommitsOneMore(calls, i);
      match calls[i] {
        case WriteHeader(code) => out.WriteHeader(code);
        case Write(b, accepted) => var _, _ := out.Write(b, accepted);
      }
      i := i + 1;
    }
    assert calls[..i] == calls;
  }

  lemma CommitsOneMore(calls: seq<Call>, i: nat)
    requires i < |calls|
    ensures CommitsHeader(calls[..i + 1]) <==> CommitsHeader(calls[..i]) || calls[i].WriteHeader?
  {
    var longer, shorter := calls[..i + 1], calls[..i];
    if CommitsHeader(shorter) {
      var k :| 0 <= k < i && shorter[k].WriteHeader?;
      assert longer[k].WriteHeader?;
    }
    if calls[i].WriteHeader? {
      assert longer[i].WriteHeader?;
    }
    if CommitsHeader(longer) {
      var k :| 0 <= k < i + 1 && longer[k].WriteHeader?;
      assert k < i ==> shorter[k].WriteHeader?;
    }
  }

  /** A request through RequireSession, with LogRequests outside it: the handler makes its calls and returns. */
  method ServeRequest(calls: seq<Call>, saveFails: bool, errorPage: bytes) returns (rec: StatusRecorder)
    requires AllLegal(calls)
    ensures fresh(rec) && fresh(rec.w) && rec.w.log == Served(calls, saveFails, errorPage)
    ensures rec.StatusOr200() == (if StatusOf(rec.w.log) == 0 then 200 else StatusOf(rec.w.log))
    ensures rec.bytes == |BodyOf(rec.w.log)|
  {
    var inner := new InnerWriter();
    rec := new StatusRecorder(inner);
    var out := new BeforeFirstByteWriter(rec, saveFails);
    RunHandler(out, calls);
    var err := out.Before();
    if err && !out.wroteHeader {
      FailurePage(errorPage);
      rec.WriteHeader(500);
      var _ := rec.Write(errorPage, |errorPage|);
    }
  }

  lemma FailurePage(page: bytes)
    ensures StatusOf([SaveRun(false)]) == 0
    ensures BytesSent(HeaderSent([SaveRun(false)], 500), page, |page|) == [SaveRun(false), Status(500), Body(page)]
  {
    Sent([SaveRun(false)], Status(500));
    assert page[..|page|] == page;
  }

  /**
   The save body runs exactly once and before any status or byte goes out.  If it worked, the
   rest is what the server would have seen without the middleware; if it failed, the only
   status ever sent is 500 and no byte of the handler goes out.
   */
  lemma SavedOnceAndFirst(calls: seq<Call>, saveFails: bool, errorPage: bytes)
    requires AllLegal(calls)
    ensures var log := Served(calls, saveFails, errorPage);
            && log != [] && log[0] == SaveRun(!saveFails)
            && (forall i :: 0 < i < |log| ==> !log[i].SaveRun?)
            && (!saveFails ==>
                  && log[1..] == Direct([], calls)
                  && StatusOf(log) == StatusOf(Direct([], calls)) && BodyOf(log) == BodyOf(Direct([], calls)))
            && (saveFails ==>
                  && StatusOf(log) == 500
                  && forall i :: 0 < i < |log| ==> log[i] == Status(500) || log[i] == Body(errorPage))
            && (saveFails ==> BodyOf(log) == if CommitsHeader(calls) then [] else errorPage)
  {
    if !saveFails {
      DirectBehind(SaveRun(true), calls);
      StatusBehind(SaveRun(true), Direct([], calls));
    } else {
      Sent([], SaveRun(false));
      assert [] + [SaveRun(false)] == [SaveRun(false)];
      Sent([SaveRun(false)], Status(500));
      assert [SaveRun(false)] + [Status(500)] == [SaveRun(false), Status(500)];
      Sent([SaveRun(false), Status(500)], Body(errorPage));
      assert [SaveRun(false), Status(500)] + [Body(errorPage)] == [SaveRun(false), Status(500), Body(errorPage)];
    }
  }

  /** A save in front changes nothing about what follows it. */
  lemma {:induction false} StatusBehind(save: Event, log: seq<Event>)
    requires save.SaveRun?
    ensures StatusOf([save] + log) == StatusOf(log) && BodyOf([save] + log) == BodyOf(log)
  {
    if log == [] {
      Sent([], save);
      assert [save] + log == [] + [save];
    } else {
      var init, last := log[..|log| - 1], log[|log| - 1];
      StatusBehind(save, init);
      Sent([save] + init, last);
      assert [save] + init + [last] == [save] + log;
    }
  }

  lemma {:induction false} DirectBehind(save: Event, calls: seq<Call>)
    requires save.SaveRun? && forall i :: 0 <= i < |calls| ==> Legal(calls[i])
    ensures Direct([save], calls) == [save] + Direct([], calls)
    ensures forall i :: 0 <= i < |Direct([], calls)| ==> !Direct([], calls)[i].SaveRun?
  {
    if calls != [] {
      var init, last := calls[..|calls| - 1], calls[|calls| - 1];
      DirectBehind(save, init);
      assert Legal(last);
      CallBehind(save, Direct([], init), last);
    }
  }

  /** What one call adds once a status has gone out. */
  function Taken(call: Call): seq<Event>
    requires Legal(call)
  {
    if call.Write? then [Body(call.b[..call.accepted])] else []
  }

  /** The bytes of the writes, in order. */
  function Bodies(calls: seq<Call>): seq<Event>
    requires AllLegal(calls)
  {
    if calls == [] then []
    else
      assert Legal(calls[|calls| - 1]);
      Bodies(calls[..|calls| - 1]) + Taken(calls[|calls| - 1])
  }

  function FirstStatus(call: Call): int {
    if call.WriteHeader? then call.code else 200
  }

  /** One status goes out, in front: that of the first call, 200 if it is a write; then the bytes of every write. */
  lemma {:induction false} DirectIs(calls: seq<Call>)
    requires AllLegal(calls) && calls != []
    ensures Direct([], calls) == [Status(FirstStatus(calls[0]))] + Bodies(calls)
    ensures StatusOf(Direct([], calls)) == FirstStatus(calls[0]) != 0
  {
    var init, last := calls[..|calls| - 1], calls[|calls| - 1];
    assert Legal(last) && Legal(calls[0]);
    if init == [] {
      assert Direct([], init) == [] && Bodies(init) == [];
      FirstCall(last);
    } else {
      DirectIs(init);
      assert init[0] == calls[0];
      LaterCall(Direct([], init), [Status(FirstStatus(calls[0]))], Bodies(init), last);
    }
  }

  lemma FirstCall(call: Call)
    requires Legal(call)
    ensures Called([], call) == [Status(FirstStatus(call))] + ([] + Taken(call))
    ensures StatusOf(Called([], call)) == FirstStatus(call) != 0
  {
    var status := Status(FirstStatus(call));
    Sent([], status);
    assert [] + [status] == [status];
    if call.Write? {
      Sent([status], Body(call.b[..call.accepted]));
    }
  }

  lemma LaterCall(log: seq<Event>, front: seq<Event>, rest: seq<Event>, call: Call)
    requires Legal(call) && StatusOf(log) != 0 && log == front + rest
    ensures Called(log, call) == front + (rest + Taken(call))
    ensures StatusOf(Called(log, call)) == StatusOf(log)
  {
    if call.Write? {
      Sent(log, Body(call.b[..call.accepted]));
    }
  }

  lemma CallBehind(save: Event, log: seq<Event>, call: Call)
    requires save.SaveRun? && Legal(call) && forall i :: 0 <= i < |log| ==> !log[i].SaveRun?
    ensures Called([save] + log, call) == [save] + Called(log, call)
    ensures forall i :: 0 <= i < |Called(log, call)| ==> !Called(log, call)[i].SaveRun?
  {
    match call {
      case WriteHeader(code) => HeaderBehind(save, log, code);
      case Write(b, n) =>
        HeaderBehind(save, log, 200);
        assert [save] + HeaderSent(log, 200) + [Body(b[..n])] == [save] + (HeaderSent(log, 200) + [Body(b[..n])]);
    }
  }

  lemma HeaderBehind(save: Event, log: seq<Event>, code: int)
    requires save.SaveRun?
    ensures HeaderSent([save] + log, code) == [save] + HeaderSent(log, code)
  {
    StatusBehind(save, log);
    assert [save] + log + [Status(code)] == [save] + (log + [Status(code)]);
  }
}
