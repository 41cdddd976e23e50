/** The asynchronous command client (ROBOX::data_transfer::ControllerAsyncClient
    in ControllerAsyncClient.cpp).

    A request runs connect, then write, then read-until-newline; each
    completion is an event carrying the error code asio reports.  Between
    stages the client looks at the session's cancellation flag.  When the
    request finishes, by whatever path, it leaves the registry of active
    sessions and the user's callback is invoked with the final status.
    Sockets are not modelled: `cancelRequest`'s `socket.cancel()` shows up
    only as the error code the pending operation then completes with. */
module ControllerClient {
  import opened AsioTypes
  import ControllerServer

  /** Where a request is in its pipeline: waiting for the connect, the write
      or the read to complete, or finished. */
  datatype Stage = Connecting | Writing | Reading | Completed

  /** The parts of a `Session` the pipeline reads and writes. */
  datatype Request = Request(stage: Stage, ec: ErrorCode, response: string, wasCancelled: bool)

  /** A freshly started request: no error, no response, not cancelled. */
  const NewRequest := Request(Connecting, NoError, "", false)

  /** Completion of the pending operation, or a `cancelRequest` call. */
  datatype Event = ConnectDone(ec: ErrorCode) | WriteDone(ec: ErrorCode) | ReadDone(ec: ErrorCode, received: string) | Cancel

  /** The status passed to the callback: `operation_aborted` when nothing
      failed but the request was cancelled, otherwise the recorded error. */
  function FinalStatus(ec: ErrorCode, wasCancelled: bool): (st: ErrorCode)
    ensures st == NoError <==> ec == NoError && !wasCancelled
    ensures ec.IsError() ==> st == ec
    ensures st == OperationAborted <==> ec == OperationAborted || (ec == NoError && wasCancelled)
  {
    if ec == NoError && wasCancelled then OperationAborted else ec
  }

  /** `std::getline`: the characters up to the first newline, which is
      consumed and not stored; everything when there is none. */
  function FirstLine(buf: string): (line: string)
    ensures '\n' !in line
    ensures |line| <= |buf| && line == buf[..|line|]
    ensures |line| < |buf| ==> buf[|line|] == '\n'
    decreases |buf|
  {
    if buf == [] || buf[0] == '\n' then []
    else
      var rest := FirstLine(buf[1..]);
      assert buf[1..][..|rest|] == buf[1..|rest| + 1];
      [buf[0]] + rest
  }

  /** A line is read back exactly, whatever follows its newline. */
  lemma FirstLineOfLine(line: string, rest: string)
    requires '\n' !in line
    ensures FirstLine(line + "\n" + rest) == line
  {
    var buf := line + "\n" + rest;
    var r := FirstLine(buf);
    assert buf[|line|] == '\n';
    assert forall i :: 0 <= i < |line| ==> buf[i] == line[i];
    assert |r| <= |line|;
    assert r == buf[..|line|] == line;
  }

  /** A reply of the fixed-length server, read by this client, gives the
      echoed command and the status word without the newline. */
  lemma ReadsServerReply(cmd: string, executeThrows: bool, rest: string)
    requires '\n' !in cmd
    ensures var reply := ControllerServer.ProcessCmd(cmd, executeThrows).response;
      FirstLine(reply + rest) + "\n" == reply
  {
    var reply := ControllerServer.ProcessCmd(cmd, executeThrows).response;
    var st := ControllerServer.ExpectedStatus(cmd, executeThrows);
    var word := ControllerServer.Suffix(st)[..|ControllerServer.Suffix(st)| - 1];
    assert ControllerServer.Suffix(st) == word + "\n";
    assert reply == cmd + word + "\n";
    assert '\n' !in word;
    FirstLineOfLine(cmd + word, rest);
    assert reply + rest == (cmd + word) + "\n" + rest;
  }

  /** The server's read-error reply reads as its text without the newline;
      the NUL sent after it stays in the stream buffer. */
  lemma ReadsServerErrorReply(rest: string)
    ensures FirstLine(ControllerServer.ReadErrorReply + rest) == "Error reading CMD"
  {
    var line := "Error reading CMD";
    assert ControllerServer.ReadErrorReply + rest == line + "\n" + ("\0" + rest);
    FirstLineOfLine(line, "\0" + rest);
  }

  /** What one event does: the request afterwards, and whether
      `onRequestComplete` ran (so the callback fired). */
  datatype Outcome = Outcome(next: Request, fired: bool)

  function Finish(r: Request): Outcome
  {
    Outcome(r.(stage := Completed), true)
  }

  /** The stage callbacks of `startControllerTCPClient`, and `cancelRequest`.
      `None` is an event that cannot happen in that stage (a completion of an
      operation that is not pending).  A connect or write error is recorded
      and finishes the request; otherwise a set cancellation flag finishes
      it; otherwise the next operation is issued.  A read finishes the
      request either way, storing the error or the first line received.
      Cancelling only sets the flag; a finished request is no longer in
      the registry, so cancelling it does nothing. */
  function Deliver(r: Request, ev: Event): (o: Option<Outcome>)
    // every completion of the pending operation is accepted, no other
    ensures o.Some? <==> match ev
      case ConnectDone(_) => r.stage == Connecting
      case WriteDone(_) => r.stage == Writing
      case ReadDone(_, _) => r.stage == Reading
      case Cancel => true
    // the callback fires exactly when the request finishes
    ensures o.Some? ==> (o.value.fired <==> r.stage != Completed && o.value.next.stage == Completed)
    // a failed operation records its error and finishes
    ensures o.Some? && !ev.Cancel? && ev.ec.IsError() ==> o.value.fired && o.value.next.ec == ev.ec
    // a cancelled request never issues another operation
    ensures o.Some? && r.wasCancelled ==> o.value.next.stage in {r.stage, Completed}
    // ... and the completion of a connect or write ends a cancelled request
    ensures o.Some? && (ev.ConnectDone? || ev.WriteDone?) && r.wasCancelled ==> o.value.fired
    // only a failed completion records an error code
    ensures o.Some? && (ev.Cancel? || !ev.ec.IsError()) ==> o.value.next.ec == r.ec
    // a read ends the request whatever its outcome
    ensures o.Some? && ev.ReadDone? ==> o.value.fired
    // a good connect or write of a request not cancelled issues the next operation
    ensures o.Some? && ev.ConnectDone? && !ev.ec.IsError() && !r.wasCancelled ==> o.value == Outcome(r.(stage := Writing), false)
    ensures o.Some? && ev.WriteDone? && !ev.ec.IsError() && !r.wasCancelled ==> o.value == Outcome(r.(stage := Reading), false)
    // cancelling only sets the flag of a request still in progress: the
    // pending operation, the error and the response stay, and nothing fires
    ensures o.Some? && ev.Cancel? ==> o.value == Outcome(r.(wasCancelled := r.wasCancelled || r.stage != Completed), false)
    // only cancelRequest sets the flag, and nothing clears it
    ensures o.Some? ==> (o.value.next.wasCancelled <==> r.wasCancelled || (ev.Cancel? && r.stage != Completed))
    // only a good read sets the response, to the first line received
    ensures o.Some? && ev.ReadDone? && !ev.ec.IsError() ==> o.value.next.response == FirstLine(ev.received)
    ensures o.Some? && !(ev.ReadDone? && !ev.ec.IsError()) ==> o.value.next.response == r.response
  {
    match ev
    case ConnectDone(ec) =>
      if r.stage != Connecting then None
      else if ec.IsError() then Some(Finish(r.(ec := ec)))
      else if r.wasCancelled then Some(Finish(r))
      else Some(Outcome(r.(stage := Writing), false))
    case WriteDone(ec) =>
      if r.stage != Writing then None
      else if ec.IsError() then Some(Finish(r.(ec := ec)))
      else if r.wasCancelled then Some(Finish(r))
      else Some(Outcome(r.(stage := Reading), false))
    case ReadDone(ec, received) =>
      if r.stage != Reading then None
      else if ec.IsError() then Some(Finish(r.(ec := ec)))
      else Some(Finish(r.(response := FirstLine(received))))
    case Cancel =>
      if r.stage == Completed then Some(Outcome(r, false))
      else Some(Outcome(r.(wasCancelled := true), false))
  }

  /** A run of events: the request at the end and how many times the
      callback fired; `None` if some event could not happen. */
  datatype RunOutcome = RunOutcome(last: Request, fires: nat)

  function Run(r: Request, evs: seq<Event>): Option<RunOutcome>
    decreases |evs|
  {
    if evs == [] then Some(RunOutcome(r, 0))
    else
      match Deliver(r, evs[0])
      case None => None
      case Some(o) =>
        match Run(o.next, evs[1..])
        case None => None
        case Some(rest) => Some(RunOutcome(rest.last, (if o.fired then 1 else 0) + rest.fires))
  }

  /** Every path through the connect/write/read chain runs
      `onRequestComplete` at most once, and exactly once when it reaches
      the end; a finished request never fires again. */
  lemma {:induction false} CallbackFiresOnce(r: Request, evs: seq<Event>)
    requires Run(r, evs).Some?
    ensures var o := Run(r, evs).value;
      o.fires <= 1
      && (o.fires == 1 <==> r.stage != Completed && o.last.stage == Completed)
    decreases |evs|
  {
    if evs != [] {
      var o := Deliver(r, evs[0]).value;
      CallbackFiresOnce(o.next, evs[1..]);
      if o.next.stage == Completed {
        NothingAfterCompletion(o.next, evs[1..]);
      }
    }
  }

  /** Once the flag is set the request never advances to another
      operation: it is waiting for the one it had issued, or finished. */
  lemma {:induction false} CancelledNeverAdvances(r: Request, evs: seq<Event>)
    requires r.wasCancelled
    requires Run(r, evs).Some?
    ensures Run(r, evs).value.last.stage in {r.stage, Completed}
    ensures Run(r, evs).value.last.wasCancelled
    decreases |evs|
  {
    if evs != [] {
      var o := Deliver(r, evs[0]).value;
      CancelledNeverAdvances(o.next, evs[1..]);
      assert Run(r, evs).value.last == Run(o.next, evs[1..]).value.last;
    }
  }

  /** A finished request stays finished and unchanged. */
  lemma {:induction false} NothingAfterCompletion(r: Request, evs: seq<Event>)
    requires r.stage == Completed
    requires Run(r, evs).Some?
    ensures Run(r, evs).value == RunOutcome(r, 0)
    decreases |evs|
  {
    if evs != [] {
      NothingAfterCompletion(Deliver(r, evs[0]).value.next, evs[1..]);
    }
  }

  /** A request cancelled before its connect completes never writes, never
      reads, and if it finishes it reports a failure: the connect error, or
      `operation_aborted`. */
  lemma CancelBeforeConnect(evs: seq<Event>)
    requires Run(NewRequest, [Cancel] + evs).Some?
    ensures var last := Run(NewRequest, [Cancel] + evs).value.last;
      last.stage in {Connecting, Completed}
      && last.response == ""
      && (last.stage == Completed ==> FinalStatus(last.ec, last.wasCancelled) != NoError)
  {
    var r := NewRequest.(wasCancelled := true);
    assert ([Cancel] + evs)[1..] == evs;
    CancelledNeverAdvances(r, evs);
    NoResponseUnlessRead(r, evs);
  }

  /** A cancelled request whose pending connect or write then succeeds ends
      there: the callback fires once, with `operation_aborted`. */
  lemma CancelledRequestAborts(r: Request, ev: Event)
    requires r.wasCancelled && r.ec == NoError
    requires (r.stage == Connecting && ev == ConnectDone(NoError)) || (r.stage == Writing && ev == WriteDone(NoError))
    ensures var o := Deliver(r, ev).value;
      o.fired && o.next.stage == Completed
      && FinalStatus(o.next.ec, o.next.wasCancelled) == OperationAborted
  {
  }

  /** A cancelled request whose read then succeeds keeps the line it read,
      but the callback reports `operation_aborted`. */
  lemma CancelledReadAborts(r: Request, received: string)
    requires r.stage == Reading && r.wasCancelled && r.ec == NoError
    ensures var o := Deliver(r, ReadDone(NoError, received)).value;
      o.fired && o.next.response == FirstLine(received)
      && FinalStatus(o.next.ec, o.next.wasCancelled) == OperationAborted
  {
  }

  /** Cancelling before the connect completes: the good connect ends the
      request, the callback fires once and reports `operation_aborted`. */
  lemma CancelThenConnect()
    ensures Run(NewRequest, [Cancel, ConnectDone(NoError)]).Some?
    ensures var o := Run(NewRequest, [Cancel, ConnectDone(NoError)]).value;
      o.fires == 1 && o.last.stage == Completed && o.last.response == ""
      && FinalStatus(o.last.ec, o.last.wasCancelled) == OperationAborted
  {
    var evs := [Cancel, ConnectDone(NoError)];
    var r1 := NewRequest.(wasCancelled := true);
    var r2 := r1.(stage := Completed);
    assert evs[1..] == [ConnectDone(NoError)];
    assert evs[1..][1..] == [];
    assert Run(r1, evs[1..]) == Some(RunOutcome(r2, 1));
    assert Run(NewRequest, evs) == Some(RunOutcome(r2, 1));
  }

  /** A cancelled request that has not reached the read keeps its response. */
  lemma {:induction false} NoResponseUnlessRead(r: Request, evs: seq<Event>)
    requires r.wasCancelled && r.stage != Reading
    requires Run(r, evs).Some?
    ensures Run(r, evs).value.last.response == r.response
    decreases |evs|
  {
    if evs != [] {
      var o := Deliver(r, evs[0]).value;
      NoResponseUnlessRead(o.next, evs[1..]);
    }
  }

  /** A request with no failure and no cancellation reads the reply line
      and reports success. */
  lemma HappyPath(reply: string)
    ensures Run(NewRequest, [ConnectDone(NoError), WriteDone(NoError), ReadDone(NoError, reply)]).Some?
    ensures var o := Run(NewRequest, [ConnectDone(NoError), WriteDone(NoError), ReadDone(NoError, reply)]).value;
      o.fires == 1 && o.last.response == FirstLine(reply)
      && FinalStatus(o.last.ec, o.last.wasCancelled) == NoError
  {
    var evs := [ConnectDone(NoError), WriteDone(NoError), ReadDone(NoError, reply)];
    var r1 := NewRequest.(stage := Writing);
    var r2 := NewRequest.(stage := Reading);
    var r3 := Request(Completed, NoError, FirstLine(reply), false);
    assert evs[1..] == [WriteDone(NoError), ReadDone(NoError, reply)];
    assert evs[1..][1..] == [ReadDone(NoError, reply)];
    assert Run(r3, []) == Some(RunOutcome(r3, 0));
    assert Run(r2, evs[1..][1..]) == Some(RunOutcome(r3, 1));
    assert Run(r1, evs[1..]) == Some(RunOutcome(r3, 1));
    assert Run(NewRequest, evs) == Some(RunOutcome(r3, 1));
  }

  /** One callback invocation: `(d_id, d_response, status)`. */
  datatype Notification = Notification(id: u64, response: string, status: ErrorCode)

  /** One request's context (`struct Session`). */
  class Session {
    const id: u64
    const content: string
    var stage: Stage
    var ec: ErrorCode
    var response: string
    var wasCancelled: bool

    function State(): Request
      reads this
    {
      Request(stage, ec, response, wasCancelled)
    }

    constructor (content: string, id: u64)
      ensures this.id == id && this.content == content && State() == NewRequest
    {
      this.id := id;
      this.content := content;
      stage := Connecting;
      ec := NoError;
      response := "";
      wasCancelled := false;
    }
  }

  /** The client: the registry `d_active_sessions` and, standing for the
      user's callback, the list of its invocations. */
  class ControllerAsyncClient {
    var activeSessions: map<u64, Session>
    var notified: seq<Notification>

    /** Every registered session is filed under its own id and is still in
        progress (`onRequestComplete` removes it). */
    ghost predicate Valid()
      reads this, activeSessions.Values
    {
      ValidBut(None)
    }

    /** `Valid`, except possibly for the entry under `id` (the session whose
        completion is being handled). */
    ghost predicate ValidBut(id: Option<u64>)
      reads this, activeSessions.Values
    {
      forall k :: k in activeSessions && Some(k) != id ==>
        activeSessions[k].id == k && activeSessions[k].stage != Completed
    }

    constructor ()
      ensures Valid() && activeSessions == map[] && notified == []
    {
      activeSessions := map[];
      notified := [];
    }

    /** `startControllerTCPClient`: a new session is registered under
        `requestId`, replacing any session already filed there, and its
        connect is issued. */
    method StartControllerTCPClient(cmd: string, requestId: u64) returns (s: Session)
      requires Valid()
      modifies this
      ensures Valid() && fresh(s)
      ensures s.id == requestId && s.content == cmd && s.State() == NewRequest
      ensures activeSessions == old(activeSessions)[requestId := s] && notified == old(notified)
    {
      s := new Session(cmd, requestId);
      activeSessions := activeSessions[requestId := s];
    }

    /** `cancelRequest`: the id arrives as an `unsigned int` and is looked up
        among the `unsigned long` keys.  A registered session gets its flag
        set; nothing else changes. */
    method CancelRequest(requestId: u32)
      requires Valid()
      modifies activeSessions.Values
      ensures Valid()
      ensures requestId as int as u64 in activeSessions ==>
        var s := activeSessions[requestId as int as u64];
        s.State() == Deliver(old(s.State()), Cancel).value.next && s.wasCancelled
        && s.stage == old(s.stage) && s.ec == old(s.ec) && s.response == old(s.response)
      ensures forall s :: s in old(activeSessions.Values) && s.id != requestId as int as u64 ==> s.State() == old(s.State())
    {
      var key := requestId as int as u64;
      if key in activeSessions {
        var s := activeSessions[key];
        s.wasCancelled := true;
      }
    }

    /** `onRequestComplete`: the session's id leaves the registry (whichever
        session is filed under it), and the callback gets the id, the
        response and the final status. */
    method OnRequestComplete(s: Session)
      requires ValidBut(Some(s.id)) && s.stage == Completed
      modifies this
      ensures Valid()
      ensures activeSessions == old(activeSessions) - {s.id}
      ensures notified == old(notified) + [Notification(s.id, s.response, FinalStatus(s.ec, s.wasCancelled))]
    {
      activeSessions := activeSessions - {s.id};
      notified := notified + [Notification(s.id, s.response, FinalStatus(s.ec, s.wasCancelled))];
    }

    /** Applies a completion to the session and runs `onRequestComplete`
        when the request finished. */
    method Complete(s: Session, ev: Event)
      requires Valid() && !ev.Cancel? && Deliver(s.State(), ev).Some?
      modifies this, s
      ensures Valid()
      ensures var o := Deliver(old(s.State()), ev).value;
        s.State() == o.next
        && activeSessions == (if o.fired then old(activeSessions) - {s.id} else old(activeSessions))
        && notified == old(notified) + (if o.fired then [Notification(s.id, s.response, FinalStatus(s.ec, s.wasCancelled))] else [])
    {
      var o := Deliver(s.State(), ev).value;
      s.stage, s.ec, s.response, s.wasCancelled := o.next.stage, o.next.ec, o.next.response, o.next.wasCancelled;
      if o.fired {
        OnRequestComplete(s);
      }
    }

    /** The connect handler. */
    method OnConnect(s: Session, ec: ErrorCode)
      requires Valid() && s.stage == Connecting
      modifies this, s
      ensures Valid()
      ensures var o := Deliver(old(s.State()), ConnectDone(ec)).value;
        s.State() == o.next
        && activeSessions == (if o.fired then old(activeSessions) - {s.id} else old(activeSessions))
        && notified == old(notified) + (if o.fired then [Notification(s.id, s.response, FinalStatus(s.ec, s.wasCancelled))] else [])
    {
      Complete(s, ConnectDone(ec));
    }

    /** The write handler. */
    method OnWrite(s: Session, ec: ErrorCode)
      requires Valid() && s.stage == Writing
      modifies this, s
      ensures Valid()
      ensures var o := Deliver(old(s.State()), WriteDone(ec)).value;
        s.State() == o.next
        && activeSessions == (if o.fired then old(activeSessions) - {s.id} else old(activeSessions))
        && notified == old(notified) + (if o.fired then [Notification(s.id, s.response, FinalStatus(s.ec, s.wasCancelled))] else [])
    {
      Complete(s, WriteDone(ec));
    }

    /** The read handler; `received` is what the stream buffer holds. */
    method OnRead(s: Session, ec: ErrorCode, received: string)
      requires Valid() && s.stage == Reading
      modifies this, s
      ensures Valid()
      ensures activeSessions == old(activeSessions) - {s.id}
      ensures s.State() == Deliver(old(s.State()), ReadDone(ec, received)).value.next
      ensures notified == old(notified) + [Notification(s.id, s.response, FinalStatus(s.ec, s.wasCancelled))]
    {
      assert Deliver(s.State(), ReadDone(ec, received)).Some?;
      Complete(s, ReadDone(ec, received));
    }
  }
}
