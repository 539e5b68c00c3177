/**
 * The client side of the bridge (can/interfaces/tcpcan/client.py): parsing the
 * "host[:port]" address, and the bus object that drives a Connection over a
 * transport. The socket is replaced by a script of what successive reads see
 * and a log of what is written.
 */
module Client {
  import opened Wrappers
  import opened Codec
  import opened Framer

  // ---------------------------------------------------------------------------
  // Address parsing (`create_connection` before it opens the socket)
  // ---------------------------------------------------------------------------

  /** `str.split(sep)`: the pieces between separators, empty pieces included. */
  function Split(s: string, sep: char): (parts: seq<string>)
    ensures |parts| >= 1
    ensures forall i :: 0 <= i < |parts| ==> sep !in parts[i]
    ensures Join(parts, sep) == s
    ensures sep !in s ==> parts == [s]
  {
    if s == [] then
      [""]
    else
      var rest := Split(s[1..], sep);
      if s[0] == sep then
        assert Join([""] + rest, sep) == [sep] + Join(rest, sep);
        [""] + rest
      else
        var parts := [[s[0]] + rest[0]] + rest[1..];
        assert sep !in [s[0]] + rest[0];
        assert forall i :: 1 <= i < |parts| ==> parts[i] == rest[i];
        assert |rest| > 1 ==> Join(rest, sep) == rest[0] + [sep] + Join(rest[1..], sep);
        assert parts[1..] == rest[1..];
        assert s == [s[0]] + s[1..];
        parts
  }

  /** `sep.join(parts)`, the inverse of Split. */
  function Join(parts: seq<string>, sep: char): (s: string)
    requires |parts| >= 1
    decreases |parts|
  {
    if |parts| == 1 then parts[0] else parts[0] + [sep] + Join(parts[1..], sep)
  }

  /** Splitting after a separator-free first piece peels that piece off. */
  lemma {:induction false} SplitAfterHost(h: string, rest: string, sep: char)
    requires sep !in h
    ensures Split(h + [sep] + rest, sep) == [h] + Split(rest, sep)
    decreases |h|
  {
    var s := h + [sep] + rest;
    if h == [] {
      assert s[1..] == rest;
    } else {
      assert s[1..] == h[1..] + [sep] + rest;
      SplitAfterHost(h[1..], rest, sep);
      assert [h[0]] + h[1..] == h;
    }
  }

  predicate IsDigit(c: char) {
    '0' <= c <= '9'
  }

  function DigitValue(c: char): (d: nat)
    requires IsDigit(c)
    ensures d < 10
  {
    c as int - '0' as int
  }

  /** A non-empty run of decimal digits, the strings `int()` is modelled on. */
  predicate IsDigits(s: string) {
    |s| > 0 && forall i :: 0 <= i < |s| ==> IsDigit(s[i])
  }

  /** The value of a string of decimal digits, most significant first. */
  function DecimalValue(s: string): (n: nat)
    requires forall i :: 0 <= i < |s| ==> IsDigit(s[i])
    ensures n < Pow10(|s|)
    decreases |s|
  {
    if s == [] then 0 else DecimalValue(s[..|s| - 1]) * 10 + DigitValue(s[|s| - 1])
  }

  function Pow10(k: nat): (p: nat)
    ensures p >= 1
  {
    if k == 0 then 1 else 10 * Pow10(k - 1)
  }

  /** The shortest decimal spelling of n, the partner of DecimalValue. */
  function DecimalString(n: nat): (s: string)
    ensures IsDigits(s)
    decreases n
  {
    if n < 10 then [(n + '0' as int) as char] else DecimalString(n / 10) + [((n % 10) + '0' as int) as char]
  }

  /** Reading back the spelling of a number gives the number. */
  lemma {:induction false} DecimalRoundTrip(n: nat)
    ensures DecimalValue(DecimalString(n)) == n
    decreases n
  {
    var s := DecimalString(n);
    if n >= 10 {
      DecimalRoundTrip(n / 10);
      assert s[..|s| - 1] == DecimalString(n / 10);
    }
  }

  /** What `create_connection` would connect to, or the ValueError of `int()`. */
  datatype ParsedAddress = Address(host: string, port: int) | InvalidPort

  /** `create_connection`'s address handling: split on ':'; with two or more pieces the
      host is the first and the port the integer value of the second, the rest being
      ignored; with one piece the port is the default. */
  function ParseAddress(address: string, defaultPort: int): (r: ParsedAddress)
    ensures ':' !in address ==> r == Address(address, defaultPort)
    ensures r.Address? ==> ':' !in r.host && r.host <= address
    ensures r.InvalidPort? ==> ':' in address
  {
    var parts := Split(address, ':');
    HostIsPrefix(parts, ':');
    if |parts| >= 2 then
      if IsDigits(parts[1]) then Address(parts[0], DecimalValue(parts[1])) else InvalidPort
    else
      Address(parts[0], defaultPort)
  }

  /** The first piece of a split is a prefix of the joined string. */
  lemma HostIsPrefix(parts: seq<string>, sep: char)
    requires |parts| >= 1
    ensures parts[0] <= Join(parts, sep)
  {
  }

  /** "host:port", optionally followed by ":more": the host and the port's value when the
      port piece is a digit string, the ValueError of `int()` when it is not. */
  lemma ParseHostPort(h: string, p: string, rest: string, defaultPort: int)
    requires ':' !in h && ':' !in p
    requires rest == [] || rest[0] == ':'
    ensures ParseAddress(h + ":" + p + rest, defaultPort) ==
              if IsDigits(p) then Address(h, DecimalValue(p)) else InvalidPort
  {
    HostAndPortPieces(h, p, rest);
  }

  /** The first two pieces of "host:port" or "host:port:more" are the host and the port. */
  lemma HostAndPortPieces(h: string, p: string, rest: string)
    requires ':' !in h && ':' !in p
    requires rest == [] || rest[0] == ':'
    ensures var parts := Split(h + ":" + p + rest, ':');
      |parts| >= 2 && parts[0] == h && parts[1] == p
  {
    var a := p + rest;
    assert h + ":" + p + rest == h + [':'] + a;
    SplitAfterHost(h, a, ':');
    var tail := Split(a, ':');
    if rest == [] {
      assert a == p;
    } else {
      assert a == p + [':'] + rest[1..];
      SplitAfterHost(p, rest[1..], ':');
    }
    assert tail[0] == p;
    assert ([h] + tail)[1] == p;
  }

  /** A host name and a number written out parse back to the same pair. */
  lemma ParseFormatted(h: string, n: nat, defaultPort: int)
    requires ':' !in h
    ensures ParseAddress(h + ":" + DecimalString(n), defaultPort) == Address(h, n)
  {
    assert h + ":" + DecimalString(n) + [] == h + ":" + DecimalString(n);
    assert ':' !in DecimalString(n);
    ParseHostPort(h, DecimalString(n), [], defaultPort);
    DecimalRoundTrip(n);
  }

  // ---------------------------------------------------------------------------
  // The bus over a scripted transport
  // ---------------------------------------------------------------------------

  /** What the transport does at one point: a read returns these bytes (empty means
      the peer closed), or nothing arrives within the poll timeout. */
  datatype Incoming = Data(bytes: seq<bv8>) | Quiet

  /** A read of `recv(13)` never returns more than 13 bytes. */
  predicate ValidScript(inbox: seq<Incoming>) {
    forall i :: 0 <= i < |inbox| ==> inbox[i].Data? ==> |inbox[i].bytes| <= FRAME_SIZE
  }

  /** The outcome of `_next_event`: an event, None after a timeout, or the script ran out
      while the real call would still be blocked on the socket. */
  datatype Poll = Ready(event: Event) | TimedOut | ScriptEnded

  /** The script left over is what remains after some reads. */
  predicate IsSuffixOf(a: seq<Incoming>, b: seq<Incoming>) {
    |a| <= |b| && a == b[|b| - |a|..]
  }

  /** `_next_event` as a function of the framer state and the transport script: the
      outcome, the new framer state and the part of the script not yet consumed. */
  function Drive(s: FramerState, inbox: seq<Incoming>, timeout: bool): (r: (Poll, FramerState, seq<Incoming>))
    ensures Step(s).0.Some? ==> r == (Ready(Step(s).0.value), Step(s).1, inbox)
    ensures !timeout ==> !r.0.TimedOut?
    ensures r.0.ScriptEnded? ==> r.2 == []
    ensures IsSuffixOf(r.2, inbox)
    ensures r.1.sendBuf == s.sendBuf
    ensures s.closed ==> r.1.closed
    decreases |inbox|, 1
  {
    var st := Step(s);
    if st.0.Some? then (Ready(st.0.value), st.1, inbox) else Wait(s, inbox, timeout)
  }

  /** The loop of `_next_event` after `next_event` answered None in state s. */
  function Wait(s: FramerState, inbox: seq<Incoming>, timeout: bool): (r: (Poll, FramerState, seq<Incoming>))
    ensures timeout && inbox != [] && inbox[0].Quiet? ==> r == (TimedOut, s, inbox[1..])
    ensures !timeout ==> !r.0.TimedOut?
    ensures r.0.ScriptEnded? ==> r.2 == []
    ensures IsSuffixOf(r.2, inbox)
    ensures r.1.sendBuf == s.sendBuf
    ensures s.closed ==> r.1.closed
    decreases |inbox|, 0
  {
    if inbox == [] then
      (ScriptEnded, s, [])
    else
      match inbox[0]
      case Quiet =>
        if timeout then (TimedOut, s, inbox[1..]) else Wait(s, inbox[1..], timeout)
      case Data(b) =>
        Drive(Receive(s, b), inbox[1..], timeout)
  }

  /** With a timeout, a poll that finds the socket not readable while the framer has no
      event makes `_next_event` return None, with the framer unchanged. */
  lemma DriveTimesOut(s: FramerState, rest: seq<Incoming>)
    requires Step(s).0.None?
    ensures Drive(s, [Quiet] + rest, true) == (TimedOut, s, rest)
  {
    assert ([Quiet] + rest)[1..] == rest;
  }

  /** Without a timeout `_next_event` never returns None; it returns the first event the
      framer produces, and with no event available it reads the first chunk and feeds it. */
  lemma DriveFeedsFirstChunk(s: FramerState, b: seq<bv8>, rest: seq<Incoming>)
    requires Step(s).0.None?
    ensures Drive(s, [Data(b)] + rest, false) == Drive(Receive(s, b), rest, false)
    ensures Drive(s, [Quiet] + rest, false) == Drive(s, rest, false)
  {
    assert ([Data(b)] + rest)[1..] == rest;
    assert ([Quiet] + rest)[1..] == rest;
  }

  /** One chunk per byte. */
  function OneByteChunks(bs: seq<bv8>): (r: seq<Incoming>)
    ensures |r| == |bs|
    ensures forall i :: 0 <= i < |bs| ==> r[i] == Data([bs[i]])
  {
    if bs == [] then [] else [Data([bs[0]])] + OneByteChunks(bs[1..])
  }

  /** k zero-length reads. */
  function EmptyReads(k: nat): (r: seq<Incoming>)
    ensures |r| == k && forall i :: 0 <= i < k ==> r[i] == Data([])
  {
    if k == 0 then [] else [Data([])] + EmptyReads(k - 1)
  }

  /** After the peer has closed with part of a record buffered, every read returns zero
      bytes and `next_event` keeps answering None: `_next_event` never returns, however
      many reads the script allows. */
  lemma {:induction false} DriveSpinsAfterClose(s: FramerState, k: nat, timeout: bool)
    requires s.closed && 0 < |s.recvBuf| < FRAME_SIZE
    ensures Drive(s, EmptyReads(k), timeout) == (ScriptEnded, s, [])
    decreases k
  {
    if k > 0 {
      assert EmptyReads(k)[1..] == EmptyReads(k - 1);
      assert Receive(s, []) == s;
      DriveSpinsAfterClose(s, k - 1, timeout);
    }
  }

  /** An encoded message arriving as one chunk on an idle connection is what
      `_next_event` returns, consuming exactly that chunk. */
  lemma DriveSingleChunk(s: FramerState, m: Message, rest: seq<Incoming>, timeout: bool)
    requires s.recvBuf == [] && !s.closed
    requires |m.data| <= DATA_SIZE && InInt32(m.arbitrationId)
    ensures Encode(m).Encoded?
    ensures Drive(s, [Data(Encode(m).bytes)] + rest, timeout) == (Ready(CanMessage(AsDecoded(m))), s, rest)
  {
    SingleChunkDelivery(s, m);
    var inbox := [Data(Encode(m).bytes)] + rest;
    assert inbox[1..] == rest;
  }

  /** The zero-length read on an idle connection makes `_next_event` return
      ConnectionClosed. */
  lemma DriveEndOfStream(s: FramerState, rest: seq<Incoming>, timeout: bool)
    requires s.recvBuf == [] && !s.closed
    ensures Drive(s, [Data([])] + rest, timeout) == (Ready(ConnectionClosed), s.(closed := true), rest)
  {
    assert ([Data([])] + rest)[1..] == rest;
  }

  /** With nothing to decode, a one-byte chunk at the head of the script is read and fed. */
  lemma DriveReadsChunk(s: FramerState, x: bv8, inbox: seq<Incoming>, timeout: bool)
    requires Step(s).0.None?
    ensures Drive(s, [Data([x])] + inbox, timeout) == Drive(Receive(s, [x]), inbox, timeout)
  {
    assert ([Data([x])] + inbox)[1..] == inbox;
  }

  /** Bytes j.. of a record arriving one per read, with bytes 0..j-1 buffered:
      `_next_event` keeps reading and returns the record's message after the last one. */
  lemma {:induction false} DriveRecordTail(s: FramerState, b: seq<bv8>, j: nat, rest: seq<Incoming>, timeout: bool)
    requires |b| == FRAME_SIZE && j < FRAME_SIZE && s.recvBuf == b[..j]
    requires j > 0 || !s.closed
    ensures Drive(s, OneByteChunks(b[j..]) + rest, timeout) ==
              (Ready(CanMessage(FromBuffer(b).msg)), s.(recvBuf := []), rest)
    decreases FRAME_SIZE - j
  {
    var x := b[j];
    var tail := OneByteChunks(b[j + 1..]) + rest;
    var s1 := s.(recvBuf := b[..j + 1]);
    ChunksCons(b, j, rest);
    DriveReadsChunk(s, x, tail, timeout);
    ReceiveOneByte(s, x);
    assert s.recvBuf + [x] == b[..j + 1];
    if j + 1 == FRAME_SIZE {
      assert b[j + 1..] == [];
      assert tail == rest;
      DriveRecordLast(s, b, rest, timeout);
    } else {
      DriveRecordTail(s1, b, j + 1, rest, timeout);
    }
  }

  /** The one-byte chunks of b[j..] start with the chunk of b[j]. */
  lemma ChunksCons(b: seq<bv8>, j: nat, rest: seq<Incoming>)
    requires j < |b|
    ensures OneByteChunks(b[j..]) + rest == [Data([b[j]])] + (OneByteChunks(b[j + 1..]) + rest)
  {
    assert b[j..][1..] == b[j + 1..];
  }

  /** The read that completes a record makes `_next_event` return its message. */
  lemma DriveRecordLast(s: FramerState, b: seq<bv8>, rest: seq<Incoming>, timeout: bool)
    requires |b| == FRAME_SIZE && s.recvBuf == b[..FRAME_SIZE - 1]
    ensures Drive(Receive(s, [b[FRAME_SIZE - 1]]), rest, timeout) ==
              (Ready(CanMessage(FromBuffer(b).msg)), s.(recvBuf := []), rest)
  {
    PollComplete(s, b[FRAME_SIZE - 1]);
    assert s.recvBuf + [b[FRAME_SIZE - 1]] == b;
  }

  /** An encoded message arriving one byte per read on an idle connection is what
      `_next_event` returns once its 13th byte is in. */
  lemma DriveByteAtATime(s: FramerState, m: Message, rest: seq<Incoming>, timeout: bool)
    requires s.recvBuf == [] && !s.closed
    requires |m.data| <= DATA_SIZE && InInt32(m.arbitrationId)
    ensures Encode(m).Encoded?
    ensures Drive(s, OneByteChunks(Encode(m).bytes) + rest, timeout) == (Ready(CanMessage(AsDecoded(m))), s, rest)
  {
    var b := Encode(m).bytes;
    DecodeEncode(m);
    assert b[0..] == b && b[..0] == [];
    DriveRecordTail(s, b, 0, rest, timeout);
  }

  /** What `recv` reports. */
  datatype RecvResult =
    | GotMessage(msg: Message)
    | NoMessage          // None: the timeout expired
    | RemoteClosedError  // CanRemoteError("Server closed connection unexpectedly")
    | StillWaiting       // the script ended while the real call would still block
    | AttributeFailure   // Python's AttributeError on the undefined events.RemoteException

  /** `recv` as written: any outcome other than a CAN message reaches the lookup of
      `events.RemoteException`, which events.py does not define. */
  function RecvAsWritten(p: Poll): (r: RecvResult)
    ensures r.GotMessage? <==> p.Ready? && p.event.CanMessage?
    ensures p.TimedOut? || p == Ready(ConnectionClosed) ==> r == AttributeFailure
  {
    match p
    case Ready(CanMessage(m)) => GotMessage(m)
    case ScriptEnded => StillWaiting
    case _ => AttributeFailure
  }

  /** `recv` as its docstring and client.py lines 77-80 intend: the message, None on timeout,
      CanRemoteError when the peer closed. */
  function RecvIntended(p: Poll): (r: RecvResult)
    ensures r.GotMessage? <==> p.Ready? && p.event.CanMessage?
    ensures r.GotMessage? ==> r.msg == p.event.msg
    ensures r == NoMessage <==> p == TimedOut
    ensures r == RemoteClosedError <==> p == Ready(ConnectionClosed)
    ensures r == StillWaiting <==> p == ScriptEnded
    ensures !r.AttributeFailure?
  {
    match p
    case Ready(CanMessage(m)) => GotMessage(m)
    case Ready(ConnectionClosed) => RemoteClosedError
    case TimedOut => NoMessage
    case ScriptEnded => StillWaiting
  }

  /** The two readings differ exactly on a timeout and on ConnectionClosed. */
  lemma RecvAsWrittenDiffers(p: Poll)
    ensures RecvAsWritten(p) != RecvIntended(p) <==> p.TimedOut? || p == Ready(ConnectionClosed)
  {
  }

  /** The bus: the owned framer, the transport script still to be read, and the log
      of writes (one entry per `sendall`). */
  class TcpcanBus {
    const conn: Connection
    var inbox: seq<Incoming>
    var outbox: seq<seq<bv8>>

    /** Reads fit `recv(13)`, and between calls nothing is pending to be sent:
        `send_event` always drains what it queues. */
    ghost predicate Valid()
      reads this, conn
    {
      ValidScript(inbox) && conn.sendBuf == []
    }

    /** `__init__` once the socket is open: a fresh Connection. */
    constructor (script: seq<Incoming>)
      requires ValidScript(script)
      ensures Valid() && fresh(conn)
      ensures conn.State() == Initial() && inbox == script && outbox == []
    {
      conn := new Connection();
      inbox := script;
      outbox := [];
    }

    /** `_next_event`: ask the framer; while it has nothing, wait for the socket (when
        a timeout is given), read one chunk, feed it and ask again. */
    method NextEvent(timeout: bool) returns (p: Poll)
      requires Valid()
      modifies this, conn
      ensures Valid()
      ensures (p, conn.State(), inbox) == Drive(old(conn.State()), old(inbox), timeout)
      ensures outbox == old(outbox)
    {
      var ev := conn.NextEvent();
      while ev.None?
        invariant ValidScript(inbox)
        invariant ev.None? ==> Wait(conn.State(), inbox, timeout) == Drive(old(conn.State()), old(inbox), timeout)
        invariant ev.Some? ==> (Ready(ev.value), conn.State(), inbox) == Drive(old(conn.State()), old(inbox), timeout)
        invariant outbox == old(outbox)
        decreases |inbox|
      {
        if inbox == [] {
          return ScriptEnded;
        }
        var item := inbox[0];
        inbox := inbox[1..];
        match item {
          case Quiet =>
            if timeout {
              return TimedOut;
            }
          case Data(b) =>
            conn.ReceiveData(b);
            ev := conn.NextEvent();
        }
      }
      p := Ready(ev.value);
    }

    /** `recv`, with client.py lines 76-80 read as intended. */
    method Recv(timeout: bool) returns (r: RecvResult)
      requires Valid()
      modifies this, conn
      ensures Valid()
      ensures var d := Drive(old(conn.State()), old(inbox), timeout);
        r == RecvIntended(d.0) && conn.State() == d.1 && inbox == d.2
      ensures outbox == old(outbox)
    {
      var p := NextEvent(timeout);
      r := RecvIntended(p);
    }

    /** `send_event`: queue the event's bytes, then write the whole send buffer in one
        write. An event that does not encode raises before anything is queued. */
    method SendEvent(e: Event) returns (ok: bool)
      requires Valid()
      modifies this, conn
      ensures Valid()
      ensures ok <==> EncodeEvent(e).Encoded?
      ensures ok ==> outbox == old(outbox) + [EncodeEvent(e).bytes]
      ensures !ok ==> outbox == old(outbox)
      ensures conn.recvBuf == old(conn.recvBuf) && conn.closed == old(conn.closed) && inbox == old(inbox)
    {
      ok := conn.AddSendData(e);
      if ok {
        assert conn.sendBuf == EncodeEvent(e).bytes;
        var data := conn.NextData();
        outbox := outbox + [data];
      }
    }

    /** `send`: wrap the message and send it as an event. */
    method Send(m: Message) returns (ok: bool)
      requires Valid()
      modifies this, conn
      ensures Valid()
      ensures ok <==> |m.data| < 256 && InInt32(m.arbitrationId)
      ensures ok ==> outbox == old(outbox) + [Encode(m).bytes]
      ensures !ok ==> outbox == old(outbox)
      ensures conn.recvBuf == old(conn.recvBuf) && conn.closed == old(conn.closed) && inbox == old(inbox)
    {
      ok := SendEvent(CanMessage(m));
    }
  }
}
