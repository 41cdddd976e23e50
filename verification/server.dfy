/** The fixed-length command server (ROBOX::data_transfer::Service and
    Acceptor in ControllerAsyncServer.cpp).

    A connection's handler reads one 7-byte command, answers it with one
    newline-terminated line and finishes.  `Acceptor::executeCmd` is an
    opaque call here: whether it throws is a parameter. */
module ControllerServer {
  import opened AsioTypes

  /** `MESSAGE_SIZE`: the width of a command frame. */
  const MessageSize: nat := 7

  /** `SUPPORTED_CMDS`: the whitelist, matched after trimming. */
  const SupportedCmds: seq<string> := ["UP", "DOWN", "LEFT", "RIGHT"]

  /** Sent instead of a command reply when the read fails.  The reply is
      built with the array form of `asio::buffer`, which covers the whole
      character array of the literal, its terminating NUL included. */
  const ReadErrorReply: string := "Error reading CMD\n\0"

  const ExecutedSuffix: string := " EXECUTED\n"
  const FailedSuffix: string := " FAILED\n"
  const NotSupportedSuffix: string := " NOT SUPPORTED\n"

  /** A character of the set `" \t"` that `trim` strips. */
  predicate IsBlank(c: char)
  {
    c == ' ' || c == '\t'
  }

  predicate AllBlank(s: string)
  {
    forall i :: 0 <= i < |s| ==> IsBlank(s[i])
  }

  /** Every character of `s[lo..hi]` is blank. */
  predicate BlankBetween(s: string, lo: nat, hi: nat)
    requires hi <= |s|
  {
    forall i :: lo <= i < hi ==> IsBlank(s[i])
  }

  /** The search of `find_first_not_of(" \t")`, from position `i` on. */
  function FirstNotBlankFrom(s: string, i: nat): (p: Option<nat>)
    requires i <= |s|
    ensures p.Some? ==> i <= p.value < |s| && !IsBlank(s[p.value]) && BlankBetween(s, i, p.value)
    ensures p.None? ==> BlankBetween(s, i, |s|)
    decreases |s| - i
  {
    if i == |s| then None
    else if !IsBlank(s[i]) then Some(i)
    else FirstNotBlankFrom(s, i + 1)
  }

  /** `std::string::find_first_not_of(" \t")`; `None` is `npos`. */
  function FindFirstNotBlank(s: string): (p: Option<nat>)
    ensures p.Some? ==> p.value < |s| && !IsBlank(s[p.value]) && BlankBetween(s, 0, p.value)
    ensures p.None? ==> AllBlank(s)
  {
    FirstNotBlankFrom(s, 0)
  }

  /** The search of `find_last_not_of(" \t")`, backwards from before `n`. */
  function LastNotBlankBefore(s: string, n: nat): (p: Option<nat>)
    requires n <= |s|
    ensures p.Some? ==> p.value < n && !IsBlank(s[p.value]) && BlankBetween(s, p.value + 1, n)
    ensures p.None? ==> BlankBetween(s, 0, n)
    decreases n
  {
    if n == 0 then None
    else if !IsBlank(s[n - 1]) then Some(n - 1)
    else LastNotBlankBefore(s, n - 1)
  }

  /** `std::string::find_last_not_of(" \t")`; `None` is `npos`. */
  function FindLastNotBlank(s: string): (p: Option<nat>)
    ensures p.Some? ==> p.value < |s| && !IsBlank(s[p.value]) && BlankBetween(s, p.value + 1, |s|)
    ensures p.None? ==> AllBlank(s)
  {
    LastNotBlankBefore(s, |s|)
  }

  /** `trim`: erase up to the first non-blank (everything when there is
      none), then everything after the last non-blank. */
  function Trim(s: string): (r: string)
    ensures |r| <= |s|
    ensures r == [] <==> AllBlank(s)
    ensures r != [] ==> !IsBlank(r[0]) && !IsBlank(r[|r| - 1])
  {
    var head := match FindFirstNotBlank(s)
      case None => []
      case Some(p) => s[p..];
    match FindLastNotBlank(head)
    case None => head
    case Some(p) => head[..p + 1]
  }

  /** The first non-blank is the only non-blank that follows blanks only. */
  lemma FirstNotBlankAt(s: string, a: nat)
    requires a < |s| && !IsBlank(s[a]) && BlankBetween(s, 0, a)
    ensures FindFirstNotBlank(s) == Some(a)
  {
    assert !AllBlank(s);
  }

  /** The last non-blank is the only non-blank followed by blanks only. */
  lemma LastNotBlankAt(s: string, a: nat)
    requires a < |s| && !IsBlank(s[a]) && BlankBetween(s, a + 1, |s|)
    ensures FindLastNotBlank(s) == Some(a)
  {
    assert !AllBlank(s);
  }

  /** `trim` removes exactly the leading and trailing spaces and tabs and
      leaves everything between them, interior blanks included, unchanged:
      a string padded on both sides with blanks trims to its core. */
  lemma TrimPadded(lead: string, core: string, trail: string)
    requires AllBlank(lead) && AllBlank(trail)
    requires core != [] && !IsBlank(core[0]) && !IsBlank(core[|core| - 1])
    ensures Trim(lead + core + trail) == core
  {
    var s := lead + core + trail;
    var a := |lead|;
    assert s[a] == core[0];
    assert forall i :: 0 <= i < a ==> s[i] == lead[i];
    FirstNotBlankAt(s, a);
    var head := s[a..];
    assert head == core + trail;
    var last := |core| - 1;
    assert head[last] == core[last];
    assert forall i :: last < i < |head| ==> head[i] == trail[i - |core|];
    LastNotBlankAt(head, last);
    assert head[..last + 1] == core;
  }

  /** What `trim` keeps of a string that is not all blanks is the slice
      from the first non-blank to the last, with blanks only around it. */
  lemma TrimIsSlice(s: string)
    requires !AllBlank(s)
    ensures var p := FindFirstNotBlank(s).value;
      p + |Trim(s)| <= |s| && Trim(s) == s[p..p + |Trim(s)|]
      && BlankBetween(s, 0, p) && BlankBetween(s, p + |Trim(s)|, |s|)
  {
    var p := FindFirstNotBlank(s).value;
    var head := s[p..];
    assert head[0] == s[p];
    var q := FindLastNotBlank(head).value;
    assert Trim(s) == head[..q + 1] == s[p..p + q + 1];
    assert forall i :: p + q + 1 <= i < |s| ==> s[i] == head[i - p];
  }

  /** Every string that is not all blanks is its trimmed form padded by the
      blanks `trim` removed: the converse of `TrimPadded`. */
  lemma TrimDecomposes(s: string)
    requires !AllBlank(s)
    ensures exists lead, trail :: AllBlank(lead) && AllBlank(trail) && s == lead + Trim(s) + trail
  {
    TrimIsSlice(s);
    var p := FindFirstNotBlank(s).value;
    var e := p + |Trim(s)|;
    var lead, trail := s[..p], s[e..];
    assert s == lead + s[p..e] + trail;
    assert forall i :: 0 <= i < |lead| ==> lead[i] == s[i];
    assert forall i :: 0 <= i < |trail| ==> trail[i] == s[e + i];
    assert AllBlank(lead) && AllBlank(trail) && s == lead + Trim(s) + trail;
  }

  /** A string made only of spaces and tabs (the empty one included) trims
      to the empty string. */
  lemma TrimAllBlank(s: string)
    requires AllBlank(s)
    ensures Trim(s) == []
  {
  }

  /** `trim` is idempotent. */
  lemma TrimIdempotent(s: string)
    ensures Trim(Trim(s)) == Trim(s)
  {
    var r := Trim(s);
    if r != [] {
      TrimPadded([], r, []);
      assert [] + r + [] == r;
    }
  }

  /** The outcome of one command, and the suffix its reply carries. */
  datatype CmdStatus = Executed | Failed | NotSupported

  function Suffix(st: CmdStatus): string
  {
    match st
    case Executed => ExecutedSuffix
    case Failed => FailedSuffix
    case NotSupported => NotSupportedSuffix
  }

  /** What `processCmd` produces: the reply line, and whether it called
      `executeCmd`. */
  datatype CmdReply = CmdReply(response: string, executeCalled: bool)

  /** `Service::processCmd`: the trimmed command is looked up in the
      whitelist; the reply repeats the command exactly as received (padding
      included).  `executeThrows` is whether `executeCmd` raised. */
  function ProcessCmd(cmd: string, executeThrows: bool): (r: CmdReply)
    ensures r.executeCalled <==> Trim(cmd) in SupportedCmds
    ensures Trim(cmd) in SupportedCmds && !executeThrows ==> r.response == cmd + " EXECUTED\n"
    ensures Trim(cmd) in SupportedCmds && executeThrows ==> r.response == cmd + " FAILED\n"
    ensures Trim(cmd) !in SupportedCmds ==> r.response == cmd + " NOT SUPPORTED\n"
  {
    var trimmed := Trim(cmd);
    if trimmed in SupportedCmds then
      if executeThrows then CmdReply(cmd + FailedSuffix, true)
      else CmdReply(cmd + ExecutedSuffix, true)
    else CmdReply(cmd + NotSupportedSuffix, false)
  }

  /** The status a command is answered with. */
  function ExpectedStatus(cmd: string, executeThrows: bool): CmdStatus
  {
    if Trim(cmd) !in SupportedCmds then NotSupported
    else if executeThrows then Failed
    else Executed
  }

  predicate EndsWith(s: string, suffix: string)
  {
    |suffix| <= |s| && s[|s| - |suffix|..] == suffix
  }

  /** How a client reads a reply line back: the command and its status. */
  function ParseReply(reply: string): (p: Option<(string, CmdStatus)>)
    ensures p.Some? ==> reply == p.value.0 + Suffix(p.value.1)
  {
    if EndsWith(reply, NotSupportedSuffix) then Some((reply[..|reply| - |NotSupportedSuffix|], NotSupported))
    else if EndsWith(reply, ExecutedSuffix) then Some((reply[..|reply| - |ExecutedSuffix|], Executed))
    else if EndsWith(reply, FailedSuffix) then Some((reply[..|reply| - |FailedSuffix|], Failed))
    else None
  }

  /** A reply line reads back as the command and status it was built from. */
  lemma ParseSuffixed(cmd: string, st: CmdStatus)
    ensures ParseReply(cmd + Suffix(st)) == Some((cmd, st))
  {
    var reply := cmd + Suffix(st);
    var n := |reply|;
    assert reply[..|cmd|] == cmd;
    match st
    case NotSupported =>
    case Executed =>
      // " NOT SUPPORTED\n" has 'S' where " EXECUTED\n" has its leading ' '
      assert reply[n - 10] == ' ' && NotSupportedSuffix[5] == 'S';
    case Failed =>
      // both other suffixes have a letter where " FAILED\n" has its leading ' '
      assert reply[n - 8] == ' ' && NotSupportedSuffix[7] == 'P' && ExecutedSuffix[2] == 'X';
  }

  /** Every reply of `processCmd` reads back as the raw command and the
      status the whitelist and `executeCmd` decided. */
  lemma ProcessCmdReplyParses(cmd: string, executeThrows: bool)
    ensures ParseReply(ProcessCmd(cmd, executeThrows).response) == Some((cmd, ExpectedStatus(cmd, executeThrows)))
  {
    assert ProcessCmd(cmd, executeThrows).response == cmd + Suffix(ExpectedStatus(cmd, executeThrows));
    ParseSuffixed(cmd, ExpectedStatus(cmd, executeThrows));
  }

  /** `Service::onAsyncCallResume`: on a read error the fixed error line is
      written back; otherwise the command is all `MessageSize` bytes of the
      session buffer (whatever `bytesTransferred` says) and `processCmd`'s
      reply is written back. */
  function OnAsyncCallResume(ec: ErrorCode, bytesTransferred: nat, buf: seq<char>, executeThrows: bool): (reply: string)
    requires |buf| == MessageSize
    ensures ec.IsError() ==> reply == ReadErrorReply
    ensures !ec.IsError() ==> ParseReply(reply) == Some((buf, ExpectedStatus(buf, executeThrows)))
  {
    if ec.IsError() then ReadErrorReply
    else
      ProcessCmdReplyParses(buf, executeThrows);
      ProcessCmd(buf, executeThrows).response
  }

  /** A command frame is a command padded with trailing blanks: the server
      matches the command itself against the whitelist and echoes the whole
      frame, padding included, followed by the status. */
  lemma PaddedCommandReply(name: string, pad: string, executeThrows: bool)
    requires |name| + |pad| == MessageSize
    requires name != [] && !IsBlank(name[0]) && !IsBlank(name[|name| - 1])
    requires AllBlank(pad)
    ensures var st := if name !in SupportedCmds then NotSupported
                      else if executeThrows then Failed
                      else Executed;
      OnAsyncCallResume(NoError, |name| + |pad|, name + pad, executeThrows) == name + pad + Suffix(st)
    ensures ProcessCmd(name + pad, executeThrows).executeCalled <==> name in SupportedCmds
  {
    TrimPadded([], name, pad);
    assert [] + name + pad == name + pad;
  }

  /** The acceptor as the events that drive it see it. */
  datatype AcceptorState = AcceptorState(isStopped: bool, open: bool, acceptPending: bool, servicesStarted: nat)

  datatype AcceptorEvent = Start | Stop | AcceptDone(ec: ErrorCode)

  /** A freshly constructed acceptor: bound and listening, not stopped. */
  const InitialAcceptor := AcceptorState(false, true, false, 0)

  /** One event; `None` when the event cannot happen in that state (an
      accept completion with no accept outstanding, or a second `Start`). */
  function AcceptorStep(s: AcceptorState, ev: AcceptorEvent): (r: Option<AcceptorState>)
    // Stop only sets the flag
    ensures ev.Stop? ==> r == Some(s.(isStopped := true))
    // after an accept completion: re-armed while not stopped, closed once stopped
    ensures ev.AcceptDone? && r.Some? ==>
      s.acceptPending
      && r.value.isStopped == s.isStopped
      && r.value.acceptPending == !s.isStopped
      && r.value.open == (s.open && !s.isStopped)
      && r.value.servicesStarted == s.servicesStarted + (if ev.ec.IsError() then 0 else 1)
    ensures ev.AcceptDone? ==> (r.Some? <==> s.acceptPending)
  {
    match ev
    case Start =>
      if s.open && !s.acceptPending then Some(s.(acceptPending := true)) else None
    case Stop => Some(s.(isStopped := true))
    case AcceptDone(ec) =>
      if !s.acceptPending then None
      else
        var started := if ec.IsError() then s.servicesStarted else s.servicesStarted + 1;
        if !s.isStopped then Some(s.(servicesStarted := started))
        else Some(AcceptorState(true, false, false, started))
  }

  function AcceptorRun(s: AcceptorState, evs: seq<AcceptorEvent>): Option<AcceptorState>
    decreases |evs|
  {
    if evs == [] then Some(s)
    else
      match AcceptorStep(s, evs[0])
      case None => None
      case Some(t) => AcceptorRun(t, evs[1..])
  }

  function CountAccepts(evs: seq<AcceptorEvent>): nat
    decreases |evs|
  {
    if evs == [] then 0 else (if evs[0].AcceptDone? then 1 else 0) + CountAccepts(evs[1..])
  }

  function CountSuccessfulAccepts(evs: seq<AcceptorEvent>): nat
    decreases |evs|
  {
    if evs == [] then 0
    else (if evs[0].AcceptDone? && !evs[0].ec.IsError() then 1 else 0) + CountSuccessfulAccepts(evs[1..])
  }

  /** Stopping is not synchronous, but it is prompt: once the flag is set at
      most one more accept completes (the one outstanding, or the one a late
      `Start` issues), and after it the acceptor is closed with nothing
      outstanding. */
  lemma {:induction false} AtMostOneAcceptAfterStop(s: AcceptorState, evs: seq<AcceptorEvent>)
    requires s.isStopped
    requires s.acceptPending ==> s.open
    requires AcceptorRun(s, evs).Some?
    ensures CountAccepts(evs) <= (if s.open then 1 else 0)
    ensures CountAccepts(evs) > 0 ==> !AcceptorRun(s, evs).value.acceptPending && !AcceptorRun(s, evs).value.open
    decreases |evs|
  {
    if evs != [] {
      var t := AcceptorStep(s, evs[0]).value;
      if evs[0].AcceptDone? {
        assert !t.open && !t.acceptPending;
        NothingAfterClose(t, evs[1..]);
      } else {
        AtMostOneAcceptAfterStop(t, evs[1..]);
      }
    }
  }

  /** A closed acceptor with nothing outstanding accepts nothing more. */
  lemma {:induction false} NothingAfterClose(s: AcceptorState, evs: seq<AcceptorEvent>)
    requires !s.open && !s.acceptPending
    requires AcceptorRun(s, evs).Some?
    ensures CountAccepts(evs) == 0
    ensures AcceptorRun(s, evs).value.open == s.open
    ensures AcceptorRun(s, evs).value.acceptPending == s.acceptPending
    decreases |evs|
  {
    if evs != [] {
      NothingAfterClose(AcceptorStep(s, evs[0]).value, evs[1..]);
    }
  }

  /** Until `Stop`, the acceptor re-arms after every completion, failed or
      not, so an accept is always outstanding; each successful accept starts
      one handler. */
  lemma {:induction false} AcceptsUntilStopped(s: AcceptorState, evs: seq<AcceptorEvent>)
    requires !s.isStopped && s.open && s.acceptPending
    requires forall i :: 0 <= i < |evs| ==> evs[i].AcceptDone?
    ensures AcceptorRun(s, evs).Some?
    ensures var t := AcceptorRun(s, evs).value;
      !t.isStopped && t.open && t.acceptPending
      && t.servicesStarted == s.servicesStarted + CountSuccessfulAccepts(evs)
    decreases |evs|
  {
    if evs != [] {
      assert evs[0].AcceptDone?;
      assert forall i :: 0 <= i < |evs[1..]| ==> evs[1..][i] == evs[i + 1];
      AcceptsUntilStopped(AcceptorStep(s, evs[0]).value, evs[1..]);
    }
  }

  /** The acceptor object: `d_isStopped` and the state of `d_acceptor`. */
  class Acceptor {
    var isStopped: bool
    /** The listening socket is open. */
    var open: bool
    /** An `async_accept` is outstanding. */
    var acceptPending: bool
    /** Handlers (`Service`s) created so far. */
    var servicesStarted: nat

    function State(): AcceptorState
      reads this
    {
      AcceptorState(isStopped, open, acceptPending, servicesStarted)
    }

    constructor ()
      ensures State() == InitialAcceptor
    {
      isStopped := false;
      open := true;
      acceptPending := false;
      servicesStarted := 0;
    }

    /** `Start`: listen and issue the first accept. */
    method Start()
      requires open && !acceptPending
      modifies this
      ensures AcceptorStep(old(State()), AcceptorEvent.Start) == Some(State())
      ensures acceptPending && isStopped == old(isStopped)
    {
      InitAccept();
    }

    /** `Stop`: only sets the flag. */
    method Stop()
      modifies this
      ensures AcceptorStep(old(State()), AcceptorEvent.Stop) == Some(State())
      ensures isStopped && open == old(open) && acceptPending == old(acceptPending)
    {
      isStopped := true;
    }

    method InitAccept()
      modifies this
      ensures acceptPending
      ensures isStopped == old(isStopped) && open == old(open) && servicesStarted == old(servicesStarted)
    {
      acceptPending := true;
    }

    /** `onAccept`: start a handler for a good connection, then re-arm unless
        stopped, else close the listening socket. */
    method OnAccept(ec: ErrorCode)
      requires acceptPending
      modifies this
      ensures AcceptorStep(old(State()), AcceptDone(ec)) == Some(State())
      ensures acceptPending == !isStopped && isStopped == old(isStopped)
    {
      acceptPending := false;
      if !ec.IsError() {
        servicesStarted := servicesStarted + 1;
      }
      if !isStopped {
        InitAccept();
      } else {
        open := false;
      }
    }
  }
}
