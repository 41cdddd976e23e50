/** The prototype upload client of asio.sync.fixedlength/main.cpp: it builds
    a large sentinel-terminated payload, registers the request, and writes
    the payload with `async_write_some`, re-issuing the unwritten rest after
    every partial write.  The clock reading and the write completions are
    parameters; the registry and the status rule are those of
    `ControllerClient`, repeated in this file of the source. */
module PrototypeClient {
  import opened AsioTypes
  import ControllerClient

  /** `std::string request(768000, 'a')`: 320 * 240 * 10 filler bytes. */
  const FillLength: nat := 768000

  /** The terminator the server reads up to. */
  const TerminationMark: string := "The_Cool_Termination_Mark"

  predicate IsDigit(c: char)
  {
    '0' <= c <= '9'
  }

  predicate AllDigits(s: string)
  {
    forall i :: 0 <= i < |s| ==> IsDigit(s[i])
  }

  function DigitChar(d: nat): (c: char)
    requires d < 10
    ensures IsDigit(c)
  {
    ('0' as int + d) as char
  }

  function DigitValue(c: char): (d: nat)
    requires IsDigit(c)
    ensures d < 10
  {
    c as int - '0' as int
  }

  /** The decimal text of an unsigned number, as `operator<<` and
      `std::to_string` produce it. */
  function Decimal(n: nat): (s: string)
    ensures 1 <= |s| && AllDigits(s)
    ensures s[0] == '0' ==> n == 0 && s == "0"
    decreases n
  {
    if n < 10 then [DigitChar(n)]
    else Decimal(n / 10) + [DigitChar(n % 10)]
  }

  /** Reads a string of digits back as a number. */
  function ParseDecimal(s: string): nat
    requires AllDigits(s)
    decreases |s|
  {
    if s == [] then 0
    else ParseDecimal(s[..|s| - 1]) * 10 + DigitValue(s[|s| - 1])
  }

  /** Writing a number in decimal and reading it back gives the number. */
  lemma {:induction false} DecimalRoundTrip(n: nat)
    ensures ParseDecimal(Decimal(n)) == n
    decreases n
  {
    var s := Decimal(n);
    if n < 10 {
      assert s[..|s| - 1] == [];
    } else {
      DecimalRoundTrip(n / 10);
      assert s[..|s| - 1] == Decimal(n / 10);
    }
  }

  /** The request string of `emulateLongComputationOp`: the millisecond
      timestamp, `'@'`, the filler, a newline, the duration in seconds and
      the termination mark. */
  function Payload(ms: u64, durationSec: u32): (p: string)
    ensures |p| == |Decimal(ms as nat)| + 1 + FillLength + 1 + |Decimal(durationSec as nat)| + |TerminationMark|
  {
    Decimal(ms as nat) + "@" + seq(FillLength, _ => 'a') + "\n" + Decimal(durationSec as nat) + TerminationMark
  }

  /** Where the duration digits start. */
  function DurationStart(ms: u64): nat
  {
    |Decimal(ms as nat)| + 1 + FillLength + 1
  }

  /** Where each field of the payload sits, by index: the bridge from the
      concatenation in `Payload` to the framing lemmas below, which read the
      fields back by position. */
  lemma PayloadHead(ms: u64, durationSec: u32)
    ensures var p := Payload(ms, durationSec);
      var t := Decimal(ms as nat);
      var d := Decimal(durationSec as nat);
      var e := DurationStart(ms) + |d|;
      p[..|t|] == t && p[|t|] == '@'
      && (forall i :: |t| < i < |t| + 1 + FillLength ==> p[i] == 'a')
      && p[DurationStart(ms) - 1] == '\n'
      && p[DurationStart(ms)..e] == d
      && p[e..] == TerminationMark
  {
    var p := Payload(ms, durationSec);
    var t := Decimal(ms as nat);
    var fill: string := seq(FillLength, _ => 'a');
    var d := Decimal(durationSec as nat);
    assert p == t + "@" + fill + "\n" + d + TerminationMark;
    var k := DurationStart(ms);
    assert forall i :: |t| < i < |t| + 1 + FillLength ==> p[i] == fill[i - |t| - 1];
    assert p[k..k + |d|] == d;
    assert p[k + |d|..] == TerminationMark;
  }

  /** The server can read the timestamp back: it is the text before the
      first `'@'`. */
  lemma TimestampRecoverable(ms: u64, durationSec: u32)
    ensures var p := Payload(ms, durationSec);
      var k := |Decimal(ms as nat)|;
      k < |p| && p[k] == '@' && '@' !in p[..k]
      && AllDigits(p[..k]) && ParseDecimal(p[..k]) == ms as nat
  {
    PayloadHead(ms, durationSec);
    DecimalRoundTrip(ms as nat);
  }

  /** The duration is the digits between the last newline and the mark. */
  lemma DurationRecoverable(ms: u64, durationSec: u32)
    ensures var p := Payload(ms, durationSec);
      var e := |p| - |TerminationMark|;
      var k := DurationStart(ms);
      0 < k <= e && p[k - 1] == '\n' && '\n' !in p[k..e]
      && AllDigits(p[k..e]) && ParseDecimal(p[k..e]) == durationSec as nat
  {
    PayloadHead(ms, durationSec);
    DecimalRoundTrip(durationSec as nat);
  }

  /** The termination mark occurs in the payload only at its very end, so
      reading up to the first mark reads the whole request. */
  lemma MarkOnlyAtEnd(ms: u64, durationSec: u32, i: nat)
    requires var p := Payload(ms, durationSec);
      i + |TerminationMark| <= |p| && p[i..i + |TerminationMark|] == TerminationMark
    ensures i == |Payload(ms, durationSec)| - |TerminationMark|
  {
    var p := Payload(ms, durationSec);
    PayloadHead(ms, durationSec);
    var t := Decimal(ms as nat);
    var d := Decimal(durationSec as nat);
    var e := DurationStart(ms) + |d|;
    assert p[i] == 'T' by {
      assert p[i..i + |TerminationMark|][0] == p[i];
    }
    // before the mark there are only digits, '@', 'a' and '\n'
    assert forall j :: 0 <= j < |t| ==> p[j] == p[..|t|][j];
    assert forall j :: DurationStart(ms) <= j < e ==> p[j] == p[DurationStart(ms)..e][j - DurationStart(ms)];
  }

  /** Successful partial writes starting at `total`: each takes at most what
      is left of the buffer re-issued for it (`content[total..]`), and none
      is issued once everything is written.  The result is the final count
      and the bytes that went out, in order. */
  function Sent(content: string, total: nat, chunks: seq<nat>): Option<(nat, string)>
    requires total <= |content|
    decreases |chunks|
  {
    if chunks == [] then Some((total, []))
    else if total == |content| || total + chunks[0] > |content| then None
    else
      var buffer := content[total..];
      match Sent(content, total + chunks[0], chunks[1..])
      case None => None
      case Some(rest) => Some((rest.0, buffer[..chunks[0]] + rest.1))
  }

  /** Re-issuing the unwritten rest after each partial write sends the
      content exactly once, in order: no byte is skipped or repeated. */
  lemma {:induction false} SentIsContiguous(content: string, total: nat, chunks: seq<nat>)
    requires total <= |content|
    requires Sent(content, total, chunks).Some?
    ensures var r := Sent(content, total, chunks).value;
      total <= r.0 <= |content| && r.1 == content[total..r.0]
    decreases |chunks|
  {
    if chunks != [] {
      var t := total + chunks[0];
      SentIsContiguous(content, t, chunks[1..]);
      var rest := Sent(content, t, chunks[1..]).value;
      assert content[total..][..chunks[0]] == content[total..t];
      assert content[total..t] + content[t..rest.0] == content[total..rest.0];
    }
  }

  /** One request's context (`struct Session` of main.cpp). */
  class ProtoSession {
    const id: u64
    const content: string
    var totalBytesWritten: nat
    var ec: ErrorCode
    var response: string
    var wasCancelled: bool

    constructor (content: string, id: u64)
      ensures this.id == id && this.content == content
      ensures totalBytesWritten == 0 && ec == NoError && response == "" && !wasCancelled
    {
      this.id := id;
      this.content := content;
      totalBytesWritten := 0;
      ec := NoError;
      response := "";
      wasCancelled := false;
    }
  }

  /** `AsyncTCPClient` with its registry `m_active_sessions`. */
  class AsyncTCPClient {
    var activeSessions: map<u64, ProtoSession>

    /** Every registered session is filed under its own id. */
    ghost predicate Valid()
      reads this, activeSessions.Values
    {
      forall k :: k in activeSessions ==> activeSessions[k].id == k
    }

    constructor ()
      ensures Valid() && activeSessions == map[]
    {
      activeSessions := map[];
    }

    /** `emulateLongComputationOp`: builds the payload from the clock reading
        `ms`, registers the session under `requestId` (replacing any
        session filed there) and issues the first write, of the whole
        content. */
    method EmulateLongComputationOp(durationSec: u32, requestId: u64, ms: u64) returns (s: ProtoSession, firstWrite: string)
      requires Valid()
      modifies this
      ensures Valid() && fresh(s)
      ensures s.id == requestId && s.content == Payload(ms, durationSec) && s.totalBytesWritten == 0
      ensures !s.wasCancelled && s.ec == NoError
      ensures activeSessions == old(activeSessions)[requestId := s]
      ensures firstWrite == s.content[s.totalBytesWritten..]
    {
      s := new ProtoSession(Payload(ms, durationSec), requestId);
      activeSessions := activeSessions[requestId := s];
      firstWrite := s.content;
    }

    /** `cancelRequest`: sets the flag of the session registered under the
        (`unsigned int`) id, if any; nothing else changes. */
    method CancelRequest(requestId: u32)
      requires Valid()
      modifies activeSessions.Values
      ensures Valid()
      ensures requestId as int as u64 in activeSessions ==> activeSessions[requestId as int as u64].wasCancelled
      ensures forall s :: s in old(activeSessions.Values) ==>
        s.totalBytesWritten == old(s.totalBytesWritten) && s.ec == old(s.ec) && s.response == old(s.response)
      ensures forall s :: s in old(activeSessions.Values) && s.id != requestId as int as u64 ==> s.wasCancelled == old(s.wasCancelled)
    {
      var key := requestId as int as u64;
      if key in activeSessions {
        var s := activeSessions[key];
        s.wasCancelled := true;
      }
    }

    /** `onRequestComplete`: the session's id leaves the registry, and the
        status it would report follows the rule of
        `ControllerClient.FinalStatus`. */
    method OnRequestComplete(s: ProtoSession) returns (status: ErrorCode)
      requires Valid()
      modifies this
      ensures Valid()
      ensures activeSessions == old(activeSessions) - {s.id}
      ensures status == ControllerClient.FinalStatus(s.ec, s.wasCancelled)
    {
      activeSessions := activeSessions - {s.id};
      if s.ec == NoError && s.wasCancelled {
        status := OperationAborted;
      } else {
        status := s.ec;
      }
    }
  }

  /** The global `failureCounts`. */
  class FailureCounter {
    var failureCounts: int

    constructor ()
      ensures failureCounts == 0
    {
      failureCounts := 0;
    }
  }

  /** `handler`: a failed write (cancelled or not) is counted and ends the
      request; a successful one adds the bytes it carried, and either the
      content is complete or the rest, `content[total..]`, is re-issued as
      the next write (`nextWrite`).  asio never reports more bytes than the
      buffer held, which is the rest of the content. */
  method Handler(counter: FailureCounter, ec: ErrorCode, bytesTransferred: nat, s: ProtoSession) returns (nextWrite: Option<string>)
    requires s.totalBytesWritten <= |s.content|
    requires !ec.IsError() ==> s.totalBytesWritten + bytesTransferred <= |s.content|
    modifies counter, s
    ensures s.totalBytesWritten <= |s.content|
    ensures ec.IsError() ==>
      counter.failureCounts == old(counter.failureCounts) + 1
      && s.totalBytesWritten == old(s.totalBytesWritten) && nextWrite == None
    ensures !ec.IsError() ==>
      counter.failureCounts == old(counter.failureCounts)
      && s.totalBytesWritten == old(s.totalBytesWritten) + bytesTransferred
      && nextWrite == (if s.totalBytesWritten == |s.content| then None else Some(s.content[s.totalBytesWritten..]))
    ensures s.ec == old(s.ec) && s.wasCancelled == old(s.wasCancelled) && s.response == old(s.response)
  {
    if ec.IsError() {
      counter.failureCounts := counter.failureCounts + 1;
      return None;
    }
    s.totalBytesWritten := s.totalBytesWritten + bytesTransferred;
    if s.totalBytesWritten == |s.content| {
      return None;
    }
    nextWrite := Some(s.content[s.totalBytesWritten..]);
  }
}
