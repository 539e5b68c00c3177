/**
 * The byte-buffer framer of the protocol (can/interfaces/tcpcan/connection.py).
 *
 * `FramerState` and the functions over it are the specification; the class
 * `Connection` is the object the client owns, whose methods change its three
 * fields in place and are proved to follow those functions.
 */
module Framer {
  import opened Wrappers
  import opened Codec

  /** The keep-alive record the peer sends; as a whole chunk it is dropped. */
  const HEART_BEAT: seq<bv8> := [0xAA, 0x00, 0xFF, 0x00, 0x00, 0x00, 0x00, 0x00, 0x00, 0x00, 0x00, 0x00, 0x55]

  /** The two buffers and the end-of-stream flag of a connection. */
  datatype FramerState = FramerState(sendBuf: seq<bv8>, recvBuf: seq<bv8>, closed: bool)

  /** A fresh connection: both buffers empty, not closed. */
  function Initial(): (s: FramerState)
    ensures s.sendBuf == [] && s.recvBuf == [] && !s.closed
  {
    FramerState([], [], false)
  }

  /** `del buf[:n]`: the first n bytes go, or all of them when there are fewer. */
  function DropFront(b: seq<bv8>, n: nat): (r: seq<bv8>)
    ensures |r| == if n <= |b| then |b| - n else 0
    ensures b == b[..|b| - |r|] + r
  {
    if n <= |b| then b[n..] else []
  }

  /** `receive_data`: an empty chunk closes; the heartbeat chunk is dropped; any other
      chunk is appended to the receive buffer. */
  function Receive(s: FramerState, chunk: seq<bv8>): (t: FramerState)
    ensures t.sendBuf == s.sendBuf
    ensures t.closed <==> s.closed || chunk == []
    ensures chunk == [] ==> t.recvBuf == s.recvBuf
    ensures chunk == HEART_BEAT ==> t == s
    ensures chunk != [] && chunk != HEART_BEAT ==> t.recvBuf == s.recvBuf + chunk
  {
    if chunk == [] then
      s.(closed := true)
    else if chunk != HEART_BEAT then
      s.(recvBuf := s.recvBuf + chunk)
    else
      s
  }

  /** `add_send_data` once the event is encoded: the bytes go to the end of the send buffer. */
  function QueueSend(s: FramerState, bytes: seq<bv8>): (t: FramerState)
    ensures t.sendBuf == s.sendBuf + bytes
    ensures t.recvBuf == s.recvBuf && t.closed == s.closed
  {
    s.(sendBuf := s.sendBuf + bytes)
  }

  /** `add_send_data`: encode the event and queue it; a failing encode changes nothing. */
  function AddSend(s: FramerState, e: Event): (r: Option<FramerState>)
    ensures r.None? <==> EncodeEvent(e).StructError?
    ensures r.Some? ==> r.value.sendBuf == s.sendBuf + EncodeEvent(e).bytes
    ensures r.Some? ==> r.value.recvBuf == s.recvBuf && r.value.closed == s.closed
  {
    match EncodeEvent(e)
    case Encoded(bytes) => Some(QueueSend(s, bytes))
    case StructError => None
  }

  /** `next_data`: the whole send buffer, which is left empty. */
  function TakeSend(s: FramerState): (r: (seq<bv8>, FramerState))
    ensures r.0 == s.sendBuf
    ensures r.1.sendBuf == [] && r.1.recvBuf == s.recvBuf && r.1.closed == s.closed
  {
    (s.sendBuf, s.(sendBuf := []))
  }

  /** `data_ready`: there is something to transmit. */
  predicate DataReady(s: FramerState): (r: bool)
    ensures r <==> s.sendBuf != []
  {
    |s.sendBuf| > 0
  }

  /** `next_event`: at most one event decoded from the front of the receive buffer. */
  function Step(s: FramerState): (r: (Option<Event>, FramerState))
    ensures r.1.sendBuf == s.sendBuf && r.1.closed == s.closed
    ensures r.0.None? ==> r.1 == s
    ensures s.recvBuf == [] ==> r == (if s.closed then Some(ConnectionClosed) else None, s)
    ensures 0 < |s.recvBuf| < FRAME_SIZE ==> r == (None, s)
    ensures |s.recvBuf| >= FRAME_SIZE ==>
              r.0 == Some(CanMessage(FromBuffer(s.recvBuf[..FRAME_SIZE]).msg))
              && r.1.recvBuf == s.recvBuf[Min(FRAME_SIZE + 1, |s.recvBuf|)..]
  {
    if s.recvBuf == [] then
      (if s.closed then Some(ConnectionClosed) else None, s)
    else
      match FromBuffer(s.recvBuf)
      case NeedMoreData => (None, s)
      case Decoded(m) =>
        DecodeReadsOneFrame(s.recvBuf);
        var ev := CanMessage(m);
        (Some(ev), s.(recvBuf := DropFront(s.recvBuf, 1 + EventLength(ev))))
  }

  /** The in-place connection object. */
  class Connection {
    var sendBuf: seq<bv8>
    var recvBuf: seq<bv8>
    /** Set once the peer has closed its side; never reset. */
    var closed: bool

    function State(): FramerState
      reads this
    {
      FramerState(sendBuf, recvBuf, closed)
    }

    constructor ()
      ensures State() == Initial()
    {
      sendBuf := [];
      recvBuf := [];
      closed := false;
    }

    method ReceiveData(chunk: seq<bv8>)
      modifies this
      ensures State() == Receive(old(State()), chunk)
    {
      if chunk == [] {
        closed := true;
      } else if chunk != HEART_BEAT {
        recvBuf := recvBuf + chunk;
      }
    }

    /** Returns false, changing nothing, where `event.encode()` raises. */
    method AddSendData(e: Event) returns (ok: bool)
      modifies this
      ensures ok <==> EncodeEvent(e).Encoded?
      ensures ok ==> State() == QueueSend(old(State()), EncodeEvent(e).bytes)
      ensures !ok ==> State() == old(State())
    {
      var r := EncodeEvent(e);
      if r.StructError? {
        return false;
      }
      sendBuf := sendBuf + r.bytes;
      ok := true;
    }

    method NextData() returns (data: seq<bv8>)
      modifies this
      ensures (data, State()) == TakeSend(old(State()))
    {
      data := sendBuf;
      sendBuf := [];
    }

    method NextEvent() returns (ev: Option<Event>)
      modifies this
      ensures (ev, State()) == Step(old(State()))
    {
      if recvBuf == [] {
        if closed {
          return Some(ConnectionClosed);
        }
        return None;
      }
      var d := FromBuffer(recvBuf);
      if d.NeedMoreData? {
        return None;
      }
      var e := CanMessage(d.msg);
      recvBuf := DropFront(recvBuf, 1 + EventLength(e));
      ev := Some(e);
    }

    method IsDataReady() returns (ready: bool)
      ensures ready <==> DataReady(State())
      ensures ready <==> sendBuf != []
    {
      ready := |sendBuf| > 0;
    }
  }

  /** Feed each chunk in turn, as successive `receive_data` calls. */
  function FeedAll(s: FramerState, chunks: seq<seq<bv8>>): (t: FramerState)
    ensures t.sendBuf == s.sendBuf
    ensures s.recvBuf <= t.recvBuf
    ensures s.closed ==> t.closed
    decreases |chunks|
  {
    if chunks == [] then s else FeedAll(Receive(s, chunks[0]), chunks[1..])
  }

  /** `closed` only ever goes from false to true: after any chunks it is set exactly
      when it was set before or one of the chunks was empty. */
  lemma {:induction false} ClosedMonotone(s: FramerState, chunks: seq<seq<bv8>>)
    ensures FeedAll(s, chunks).closed <==> s.closed || [] in chunks
    decreases |chunks|
  {
    if chunks != [] {
      ClosedMonotone(Receive(s, chunks[0]), chunks[1..]);
      assert chunks == [chunks[0]] + chunks[1..];
    }
  }

  /** With an empty receive buffer the answer of `next_event` does not change on
      repetition: once ConnectionClosed, always ConnectionClosed. */
  lemma EmptyBufferAnswerRepeats(s: FramerState)
    requires s.recvBuf == []
    ensures Step(Step(s).1) == Step(s)
    ensures s.closed ==> Step(s).0 == Some(ConnectionClosed)
  {
  }

  /** An encoded message of at most 8 data bytes is never mistaken for the heartbeat:
      its flag byte has bit 0x20 clear, the heartbeat's first byte 0xAA has it set. */
  lemma EncodedIsNotHeartBeat(m: Message)
    requires |m.data| <= DATA_SIZE && InInt32(m.arbitrationId)
    ensures Encode(m).Encoded? && Encode(m).bytes != HEART_BEAT
  {
    var f := Encode(m).bytes[0];
    EncodeLayout(m);
    assert f & 0x20 == 0 by {
      assert ByteOf(|m.data|) & 0x30 == 0;
    }
    assert HEART_BEAT[0] & 0x20 != 0;
  }

  /** Sending side to receiving side: one encoded message fed as one chunk into an empty
      receive buffer is decoded by the next `next_event`, which leaves the buffer empty. */
  lemma {:induction false} SingleChunkDelivery(s: FramerState, m: Message)
    requires s.recvBuf == []
    requires |m.data| <= DATA_SIZE && InInt32(m.arbitrationId)
    ensures Encode(m).Encoded?
    ensures Step(Receive(s, Encode(m).bytes)) == (Some(CanMessage(AsDecoded(m))), s)
  {
    EncodedIsNotHeartBeat(m);
    DecodeEncode(m);
    RecordChunk(s, Encode(m).bytes);
  }

  /** A whole record that is not the heartbeat, fed into an empty receive buffer, is
      decoded by the next `next_event`, which empties the buffer again. */
  lemma RecordChunk(s: FramerState, b: seq<bv8>)
    requires s.recvBuf == [] && |b| == FRAME_SIZE && b != HEART_BEAT
    ensures Step(Receive(s, b)) == (Some(CanMessage(FromBuffer(b).msg)), s)
  {
    var t := Receive(s, b);
    assert t == s.(recvBuf := b);
    assert b[..FRAME_SIZE] == b;
    assert b[FRAME_SIZE..] == [];
  }

  /** Feed one byte per chunk, calling `next_event` after each; the answers and the
      final state. */
  function FeedAndPoll(s: FramerState, bs: seq<bv8>): (r: (seq<Option<Event>>, FramerState))
    ensures |r.0| == |bs|
    decreases |bs|
  {
    if bs == [] then
      ([], s)
    else
      var step := Step(Receive(s, [bs[0]]));
      var rest := FeedAndPoll(step.1, bs[1..]);
      ([step.0] + rest.0, rest.1)
  }

  /** A one-byte read is never the heartbeat: the byte joins the receive buffer. */
  lemma ReceiveOneByte(s: FramerState, x: bv8)
    ensures Receive(s, [x]) == s.(recvBuf := s.recvBuf + [x])
  {
    assert |[x]| != |HEART_BEAT|;
  }

  /** One byte that leaves the buffer short of a record: no event, the byte is kept. */
  lemma PollPartial(s: FramerState, x: bv8)
    requires |s.recvBuf| + 1 < FRAME_SIZE
    ensures Step(Receive(s, [x])) == (None, s.(recvBuf := s.recvBuf + [x]))
  {
    assert [x] != HEART_BEAT;
  }

  /** The byte that completes a record: its message, and the buffer is empty again. */
  lemma PollComplete(s: FramerState, x: bv8)
    requires |s.recvBuf| + 1 == FRAME_SIZE
    ensures Step(Receive(s, [x])) == (Some(CanMessage(FromBuffer(s.recvBuf + [x]).msg)), s.(recvBuf := []))
  {
    assert [x] != HEART_BEAT;
    var b := s.recvBuf + [x];
    assert b[..FRAME_SIZE] == b;
  }

  /** n answers of "no event yet". */
  function NoEvents(n: nat): (r: seq<Option<Event>>)
    ensures |r| == n && forall i :: 0 <= i < n ==> r[i] == None
  {
    if n == 0 then [] else [None] + NoEvents(n - 1)
  }

  /** FeedAndPoll on a non-empty byte sequence, one level unfolded. */
  lemma FeedAndPollCons(s: FramerState, x: bv8, bs: seq<bv8>)
    ensures var st := Step(Receive(s, [x]));
      FeedAndPoll(s, [x] + bs) == ([st.0] + FeedAndPoll(st.1, bs).0, FeedAndPoll(st.1, bs).1)
  {
    assert ([x] + bs)[0] == x && ([x] + bs)[1..] == bs;
  }

  /** Feeding the bytes j.. of a complete record, when bytes 0..j-1 are already
      buffered, answers None until the last byte arrives, then the record's message. */
  lemma {:induction false} FeedRecordTail(s: FramerState, b: seq<bv8>, j: nat)
    requires |b| == FRAME_SIZE && j < FRAME_SIZE && s.recvBuf == b[..j]
    ensures FeedAndPoll(s, b[j..]) ==
              (NoEvents(FRAME_SIZE - 1 - j) + [Some(CanMessage(FromBuffer(b).msg))], s.(recvBuf := []))
    decreases FRAME_SIZE - j
  {
    var last := [Some(CanMessage(FromBuffer(b).msg))];
    if j + 1 == FRAME_SIZE {
      assert b[j..] == [b[j]];
      FeedRecordLast(s, b);
      assert NoEvents(0) + last == last;
    } else {
      var t := s.(recvBuf := b[..j + 1]);
      assert b[j..] == [b[j]] + b[j + 1..];
      assert s.recvBuf + [b[j]] == b[..j + 1];
      FeedPartialByte(s, b[j], b[j + 1..]);
      FeedRecordTail(t, b, j + 1);
      NoEventsCons(FRAME_SIZE - 1 - (j + 1), last);
      assert t.(recvBuf := []) == s.(recvBuf := []);
    }
  }

  /** Feeding a byte that leaves the buffer short of a record answers None first. */
  lemma FeedPartialByte(s: FramerState, x: bv8, bs: seq<bv8>)
    requires |s.recvBuf| + 1 < FRAME_SIZE
    ensures var rest := FeedAndPoll(s.(recvBuf := s.recvBuf + [x]), bs);
      FeedAndPoll(s, [x] + bs) == ([None] + rest.0, rest.1)
  {
    FeedAndPollCons(s, x, bs);
    PollPartial(s, x);
  }

  /** Feeding the last byte of a record answers its message and empties the buffer. */
  lemma FeedRecordLast(s: FramerState, b: seq<bv8>)
    requires |b| == FRAME_SIZE && s.recvBuf == b[..FRAME_SIZE - 1]
    ensures FeedAndPoll(s, [b[FRAME_SIZE - 1]]) == ([Some(CanMessage(FromBuffer(b).msg))], s.(recvBuf := []))
  {
    var x := b[FRAME_SIZE - 1];
    var t := s.(recvBuf := []);
    var ev := Some(CanMessage(FromBuffer(b).msg));
    FeedAndPollCons(s, x, []);
    PollComplete(s, x);
    assert s.recvBuf + [x] == b;
    assert Step(Receive(s, [x])) == (ev, t);
    assert FeedAndPoll(t, []) == ([], t);
    assert [x] + [] == [x] && [ev] + [] == [ev];
  }

  /** One more "no event yet" in front. */
  lemma NoEventsCons(n: nat, last: seq<Option<Event>>)
    ensures [None] + (NoEvents(n) + last) == NoEvents(n + 1) + last
  {
    assert NoEvents(n + 1) == [None] + NoEvents(n);
  }

  /** Partial-input safety: an encoded message fed byte by byte into an empty receive
      buffer yields "no event" at each of the first 12 prefixes, the message after the
      13th byte, and leaves the connection as it was. */
  lemma ByteAtATimeDelivery(s: FramerState, m: Message)
    requires s.recvBuf == []
    requires |m.data| <= DATA_SIZE && InInt32(m.arbitrationId)
    ensures Encode(m).Encoded?
    ensures FeedAndPoll(s, Encode(m).bytes) ==
              (NoEvents(FRAME_SIZE - 1) + [Some(CanMessage(AsDecoded(m)))], s)
  {
    var b := Encode(m).bytes;
    DecodeEncode(m);
    assert b[..0] == [] && b[0..] == b;
    FeedRecordTail(s, b, 0);
  }

  /** The 1 + len(event) deletion removes 14 bytes: with two back-to-back records in
      the receive buffer, the first is decoded, the first byte of the second is lost
      with it, and the 12 bytes left are not a record. */
  lemma {:induction false} BackToBackLosesSecond(s: FramerState, m1: Message, m2: Message)
    requires s.recvBuf == []
    requires |m1.data| <= DATA_SIZE && InInt32(m1.arbitrationId)
    requires |m2.data| <= DATA_SIZE && InInt32(m2.arbitrationId)
    ensures Encode(m1).Encoded? && Encode(m2).Encoded?
    ensures var t := Receive(Receive(s, Encode(m1).bytes), Encode(m2).bytes);
      var (e, u) := Step(t);
      e == Some(CanMessage(AsDecoded(m1)))
      && u.recvBuf == Encode(m2).bytes[1..] && |u.recvBuf| == 12
      && Step(u) == (None, u)
  {
    EncodedIsNotHeartBeat(m1);
    EncodedIsNotHeartBeat(m2);
    DecodeEncode(m1);
    TwoRecords(s, Encode(m1).bytes, Encode(m2).bytes);
  }

  /** Two whole records, neither the heartbeat, fed into an empty receive buffer: the
      first decodes, and 14 bytes go, so that the second loses its first byte. */
  lemma TwoRecords(s: FramerState, b1: seq<bv8>, b2: seq<bv8>)
    requires s.recvBuf == [] && |b1| == FRAME_SIZE && |b2| == FRAME_SIZE
    requires b1 != HEART_BEAT && b2 != HEART_BEAT
    ensures var (e, u) := Step(Receive(Receive(s, b1), b2));
      e == Some(CanMessage(FromBuffer(b1).msg)) && u.recvBuf == b2[1..] && Step(u) == (None, u)
  {
    var t := Receive(Receive(s, b1), b2);
    assert t.recvBuf == b1 + b2;
    assert (b1 + b2)[..FRAME_SIZE] == b1;
    assert (b1 + b2)[FRAME_SIZE + 1..] == b2[1..];
  }

  /** Queuing a non-empty encoding makes data ready; draining makes it not ready. */
  lemma DataReadyAfterQueue(s: FramerState, m: Message)
    requires |m.data| < 256 && InInt32(m.arbitrationId)
    ensures AddSend(s, CanMessage(m)).Some?
    ensures DataReady(AddSend(s, CanMessage(m)).value)
    ensures !DataReady(TakeSend(AddSend(s, CanMessage(m)).value).1)
  {
  }
}

