/**
 * The wire codec of the CAN-over-TCP protocol (can/interfaces/tcpcan/events.py).
 *
 * A CAN message travels as a fixed 13-byte record, packed with the
 * big-endian struct layout '>Bi8s':
 *   byte 0      flags: 0x80 extended ID, 0x40 remote OR error frame,
 *               the low nibble the data length
 *   bytes 1..4  the arbitration ID as a signed 32-bit big-endian integer
 *   bytes 5..12 the data, truncated or zero-padded to 8 bytes
 * The connection-closed event has an empty encoding.
 */
module Codec {

  const FRAME_SIZE: nat := 13
  const DATA_SIZE: nat := 8

  const EXT_FLAG: bv8 := 0x80
  /** Remote and error frames share one bit of the flag byte. */
  const REMOTE_FRAME_FLAG: bv8 := 0x40
  const ERROR_FRAME_FLAG: bv8 := 0x40
  const DLC_MASK: bv8 := 0x0F

  const TWO_31: int := 0x8000_0000
  const TWO_32: int := 0x1_0000_0000

  /** The fields of a CAN frame that the codec reads or writes. */
  datatype Message = Message(
    timestamp: int,
    arbitrationId: int,
    isExtendedId: bool,
    isRemoteFrame: bool,
    isErrorFrame: bool,
    dlc: int,
    data: seq<bv8>)

  /** The protocol events: a CAN message, or the peer closing the stream. */
  datatype Event = CanMessage(msg: Message) | ConnectionClosed

  /** Packing either succeeds or fails the way struct.pack does. */
  datatype EncodeResult = Encoded(bytes: seq<bv8>) | StructError

  /** Unpacking either yields a message or reports that bytes are missing. */
  datatype DecodeResult = Decoded(msg: Message) | NeedMoreData

  predicate InInt32(x: int) {
    -TWO_31 <= x < TWO_31
  }

  function Min(a: int, b: int): (m: int)
    ensures m <= a && m <= b && (m == a || m == b)
  {
    if a <= b then a else b
  }

  /** Four bytes read as a big-endian unsigned integer. */
  function BigEndianValue(b: seq<bv8>): (u: int)
    requires |b| == 4
    ensures 0 <= u < TWO_32
  {
    b[0] as int * 0x100_0000 + b[1] as int * 0x1_0000 + b[2] as int * 0x100 + b[3] as int
  }

  /** Four bytes read as a big-endian two's-complement integer ('i' in '>Bi8s'). */
  function Int32FromBigEndian(b: seq<bv8>): (x: int)
    requires |b| == 4
    ensures InInt32(x)
  {
    var u := BigEndianValue(b);
    if u >= TWO_31 then u - TWO_32 else u
  }

  /** The unsigned 32-bit pattern of a signed 32-bit integer. */
  function Unsigned32(x: int): (u: int)
    requires InInt32(x)
    ensures 0 <= u < TWO_32
    ensures x == (if u >= TWO_31 then u - TWO_32 else u)
  {
    if x < 0 then x + TWO_32 else x
  }

  const NIBBLES: seq<bv8> := [0x0, 0x1, 0x2, 0x3, 0x4, 0x5, 0x6, 0x7, 0x8, 0x9, 0xA, 0xB, 0xC, 0xD, 0xE, 0xF]

  function Nibble(n: int): (b: bv8)
    requires 0 <= n < 16
    ensures b as int == n
  {
    NIBBLES[n]
  }

  /** A number below 256 as a byte. */
  function ByteOf(n: int): (b: bv8)
    requires 0 <= n < 256
    ensures b as int == n
  {
    ByteConversion(n);
    n as bv8
  }

  /** The byte conversion of a number below 256 keeps its value; shown through the byte
      built from its two hexadecimal digits, whose value the solver finds cheaply. */
  lemma ByteConversion(n: int)
    requires 0 <= n < 256
    ensures (n as bv8) as int == n
  {
    var b := (Nibble(n / 16) << 4) | Nibble(n % 16);
    assert b as int == n;
    assert (b as int) as bv8 == b;
  }

  /** A signed 32-bit integer written as four big-endian two's-complement bytes. */
  function Int32BigEndian(x: int): (b: seq<bv8>)
    requires InInt32(x)
    ensures |b| == 4
    ensures BigEndianValue(b) == Unsigned32(x)
  {
    var u := Unsigned32(x);
    Digits(u);
    DigitBytesValue(u);
    [ByteOf(u / 0x100_0000), ByteOf(u / 0x1_0000 % 256), ByteOf(u / 0x100 % 256), ByteOf(u % 256)]
  }

  /** Encoding a 32-bit integer and decoding the bytes gives the integer back. */
  lemma Int32RoundTrip(x: int)
    requires InInt32(x)
    ensures Int32FromBigEndian(Int32BigEndian(x)) == x
  {
    FromUnsigned(Int32BigEndian(x), x);
  }

  /** Four bytes holding the bit pattern of `x` read back as `x`. */
  lemma FromUnsigned(b: seq<bv8>, x: int)
    requires |b| == 4 && InInt32(x) && BigEndianValue(b) == Unsigned32(x)
    ensures Int32FromBigEndian(b) == x
  {
  }

  /** The bytes of the base-256 digits of `u` read back as `u`. */
  lemma DigitBytesValue(u: int)
    requires 0 <= u < TWO_32
    ensures BigEndianValue([ByteOf(u / 0x100_0000), ByteOf(u / 0x1_0000 % 256), ByteOf(u / 0x100 % 256), ByteOf(u % 256)]) == u
  {
    Digits(u);
    var d0, d1, d2, d3 := u / 0x100_0000, u / 0x1_0000 % 256, u / 0x100 % 256, u % 256;
    var b := [ByteOf(d0), ByteOf(d1), ByteOf(d2), ByteOf(d3)];
    assert b[0] as int == d0;
    assert b[1] as int == d1;
    assert b[2] as int == d2;
    assert b[3] as int == d3;
    assert BigEndianValue(b) == d0 * 0x100_0000 + d1 * 0x1_0000 + d2 * 0x100 + d3;
  }

  /** The base-256 digits of a 32-bit pattern recombine to it. */
  lemma Digits(u: int)
    requires 0 <= u < TWO_32
    ensures 0 <= u / 0x100_0000 < 256
    ensures u == u / 0x100_0000 * 0x100_0000 + u / 0x1_0000 % 256 * 0x1_0000 + u / 0x100 % 256 * 0x100 + u % 256
  {
    var v := u / 256;
    var w := v / 256;
    assert w == u / 0x1_0000;
    assert w / 256 == u / 0x100_0000;
  }

  /** Recombined base-256 digits split back into the same digits; `u` is the recombined
      value, passed in so that callers need not restate it. */
  lemma Recombine(b0: int, b1: int, b2: int, b3: int, u: int)
    requires 0 <= b0 < 256 && 0 <= b1 < 256 && 0 <= b2 < 256 && 0 <= b3 < 256
    requires u == b0 * 0x100_0000 + b1 * 0x1_0000 + b2 * 0x100 + b3
    ensures u / 0x100_0000 == b0 && u / 0x1_0000 % 256 == b1 && u / 0x100 % 256 == b2 && u % 256 == b3
  {
    var w := b0 * 256 + b1;
    var v := w * 256 + b2;
    ByteDigits(v, b3);
    ByteDigits(w, b2);
    ByteDigits(b0, b1);
    assert u / 0x1_0000 == w by { assert u / 0x1_0000 == (u / 256) / 256; }
    assert u / 0x100_0000 == b0 by { assert u / 0x100_0000 == (u / 0x1_0000) / 256; }
  }

  lemma ByteDigits(hi: int, lo: int)
    requires 0 <= lo < 256 && 0 <= hi
    ensures (hi * 256 + lo) / 256 == hi && (hi * 256 + lo) % 256 == lo
  {
  }

  lemma ByteBack(x: bv8)
    ensures ByteOf(x as int) == x
  {
  }

  /** Decoding four bytes and encoding the value again gives the same bytes. */
  lemma {:induction false} Int32BytesRoundTrip(b: seq<bv8>)
    requires |b| == 4
    ensures Int32BigEndian(Int32FromBigEndian(b)) == b
  {
    var u := BigEndianValue(b);
    var x := Int32FromBigEndian(b);
    assert Unsigned32(x) == u;
    EncodeByDigits(x, u);
    DigitsOfValue(b);
    ByteBack(b[0]);
    ByteBack(b[1]);
    ByteBack(b[2]);
    ByteBack(b[3]);
  }

  /** The base-256 digits of the value of four bytes are those bytes. */
  lemma DigitsOfValue(b: seq<bv8>)
    requires |b| == 4
    ensures var u := BigEndianValue(b);
      u / 0x100_0000 == b[0] as int && u / 0x1_0000 % 256 == b[1] as int
      && u / 0x100 % 256 == b[2] as int && u % 256 == b[3] as int
  {
    Recombine(b[0] as int, b[1] as int, b[2] as int, b[3] as int, BigEndianValue(b));
  }

  /** Int32BigEndian unfolded on a known bit pattern. */
  lemma EncodeByDigits(x: int, u: int)
    requires InInt32(x) && u == Unsigned32(x)
    ensures Int32BigEndian(x) == [ByteOf(u / 0x100_0000), ByteOf(u / 0x1_0000 % 256), ByteOf(u / 0x100 % 256), ByteOf(u % 256)]
  {
  }

  /** The data field of the struct: the first 8 bytes, zero-filled when shorter ('8s'). */
  function Pad8(d: seq<bv8>): (r: seq<bv8>)
    ensures |r| == DATA_SIZE
    ensures r[..Min(|d|, DATA_SIZE)] == d[..Min(|d|, DATA_SIZE)]
    ensures forall i :: Min(|d|, DATA_SIZE) <= i < DATA_SIZE ==> r[i] == 0
  {
    if |d| >= DATA_SIZE then d[..DATA_SIZE] else d + seq(DATA_SIZE - |d|, _ => 0 as bv8)
  }

  /** The flag bits the message's booleans contribute before the length is or-ed in. */
  function KindFlags(m: Message): (k: bv8)
    ensures k & 0x3F == 0
    ensures (k & EXT_FLAG != 0) <==> m.isExtendedId
    ensures (k & REMOTE_FRAME_FLAG != 0) <==> (m.isRemoteFrame || m.isErrorFrame)
  {
    (if m.isExtendedId then EXT_FLAG else 0)
    | (if m.isRemoteFrame then REMOTE_FRAME_FLAG else 0)
    | (if m.isErrorFrame then ERROR_FRAME_FLAG else 0)
  }

  /** The flag byte as `encode` builds it; the or-ed length fits a byte only below 256. */
  function FlagByte(m: Message): (f: bv8)
    requires |m.data| < 256
    ensures |m.data| < 128 ==> ((f & EXT_FLAG != 0) <==> m.isExtendedId)
    ensures |m.data| < 16 ==> (f & DLC_MASK) as int == |m.data|
    ensures |m.data| < 64 ==> ((f & REMOTE_FRAME_FLAG != 0) <==> (m.isRemoteFrame || m.isErrorFrame))
    ensures f & 0x30 == ByteOf(|m.data|) & 0x30
  {
    var n := |m.data|;
    var f := KindFlags(m) | ByteOf(n);
    LowNibble(n, KindFlags(m));
    f
  }

  /** Or-ing a length into the kind bits: below 16 it stays in the low nibble, below 64
      it leaves bit 0x40 alone, below 128 it leaves bit 0x80 alone. */
  lemma LowNibble(n: int, k: bv8)
    requires 0 <= n < 256
    requires k & 0x3F == 0
    ensures n < 16 ==> ((k | ByteOf(n)) & DLC_MASK) as int == n
    ensures n < 64 ==> (k | ByteOf(n)) & 0x40 == k & 0x40
    ensures n < 128 ==> (k | ByteOf(n)) & 0x80 == k & 0x80
    ensures (k | ByteOf(n)) & 0x30 == ByteOf(n) & 0x30
  {
  }

  /** `CanMessage.encode`: the 13-byte record, or StructError when struct.pack refuses. */
  function Encode(m: Message): (r: EncodeResult)
    ensures r.Encoded? <==> |m.data| < 256 && InInt32(m.arbitrationId)
    ensures r.Encoded? ==> |r.bytes| == FRAME_SIZE
  {
    if |m.data| >= 256 || !InInt32(m.arbitrationId) then
      StructError
    else
      Encoded([FlagByte(m)] + Int32BigEndian(m.arbitrationId) + Pad8(m.data))
  }

  /** The layout of an encoded record, field by field; the facts about the flag byte
      are those of FlagByte. */
  lemma EncodeLayout(m: Message)
    requires Encode(m).Encoded?
    ensures var b := Encode(m).bytes;
      && b[0] == FlagByte(m)
      && b[1..5] == Int32BigEndian(m.arbitrationId)
      && b[5..5 + Min(|m.data|, DATA_SIZE)] == m.data[..Min(|m.data|, DATA_SIZE)]
      && (forall i :: 5 + Min(|m.data|, DATA_SIZE) <= i < FRAME_SIZE ==> b[i] == 0)
  {
    var b := Encode(m).bytes;
    var d := Pad8(m.data);
    RecordParts(b, FlagByte(m), Int32BigEndian(m.arbitrationId), d);
    PrefixOfSlice(b, 5, FRAME_SIZE, Min(|m.data|, DATA_SIZE));
    assert b[5..][..Min(|m.data|, DATA_SIZE)] == d[..Min(|m.data|, DATA_SIZE)];
  }

  /** The parts of a record assembled from a flag byte, four ID bytes and the data field. */
  lemma RecordParts(b: seq<bv8>, f: bv8, id: seq<bv8>, d: seq<bv8>)
    requires |id| == 4 && |d| == DATA_SIZE && b == [f] + id + d
    ensures b[0] == f && b[1..5] == id && b[5..] == d
    ensures forall i :: 5 <= i < FRAME_SIZE ==> b[i] == d[i - 5]
  {
  }

  /** `CanMessage.from_buffer`: unpack the first 13 bytes of `buf`, or NeedMoreData. */
  function FromBuffer(buf: seq<bv8>): (r: DecodeResult)
    ensures r.NeedMoreData? <==> |buf| < FRAME_SIZE
  {
    if |buf| < FRAME_SIZE then
      NeedMoreData
    else
      var flags := buf[0];
      var data := buf[5..13];
      var dlc := (flags & DLC_MASK) as int;
      Decoded(Message(
        timestamp := 0,
        arbitrationId := Int32FromBigEndian(buf[1..5]),
        isExtendedId := flags & EXT_FLAG != 0,
        isRemoteFrame := flags & REMOTE_FRAME_FLAG != 0,
        isErrorFrame := flags & ERROR_FRAME_FLAG != 0,
        dlc := dlc,
        data := data[..Min(dlc, DATA_SIZE)]))
  }

  /** The fields `from_buffer` decodes, as functions of the first 13 bytes: dlc is the
      low nibble of the flags, the data its first min(dlc, 8) bytes, the timestamp 0,
      and the remote and error flags both copy bit 0x40. */
  lemma FromBufferFields(buf: seq<bv8>)
    requires |buf| >= FRAME_SIZE
    ensures var m := FromBuffer(buf).msg;
      && m.timestamp == 0
      && m.dlc == (buf[0] & DLC_MASK) as int
      && |m.data| == Min(m.dlc, DATA_SIZE)
      && m.data == buf[5..5 + Min(m.dlc, DATA_SIZE)]
      && m.arbitrationId == Int32FromBigEndian(buf[1..5])
      && (m.isExtendedId <==> buf[0] & EXT_FLAG != 0)
      && m.isRemoteFrame == m.isErrorFrame == (buf[0] & REMOTE_FRAME_FLAG != 0)
  {
    var dlc := (buf[0] & DLC_MASK) as int;
    PrefixOfSlice(buf, 5, 13, Min(dlc, DATA_SIZE));
  }

  lemma PrefixOfSlice<T>(s: seq<T>, i: int, j: int, k: int)
    requires 0 <= i <= j <= |s| && 0 <= k <= j - i
    ensures s[i..j][..k] == s[i..i + k]
  {
  }

  /** `BaseEvent.encode` / `CanMessage.encode` dispatched over the event kinds. */
  function EncodeEvent(e: Event): (r: EncodeResult)
    ensures e.ConnectionClosed? ==> r == Encoded([])
    ensures e.CanMessage? ==> r == Encode(e.msg)
  {
    match e
    case CanMessage(m) => Encode(m)
    case ConnectionClosed => Encoded([])
  }

  /** `__len__`: the struct size for a CAN message, the encoded length otherwise. */
  function EventLength(e: Event): (n: nat)
    ensures e.CanMessage? ==> n == FRAME_SIZE
    ensures e.ConnectionClosed? ==> n == 0
  {
    match e
    case CanMessage(_) => FRAME_SIZE
    case ConnectionClosed => 0
  }

  /** `__len__` is the length of the encoding: 13 for a CAN message, 0 for ConnectionClosed. */
  lemma EventLengthIsEncodedLength(e: Event)
    requires EncodeEvent(e).Encoded?
    ensures EventLength(e) == |EncodeEvent(e).bytes|
    ensures e.CanMessage? ==> EventLength(e) == FRAME_SIZE
  {
  }

  /** What decoding the encoding of `m` gives: remote and error merge, dlc is the length. */
  function AsDecoded(m: Message): (d: Message) {
    Message(
      timestamp := 0,
      arbitrationId := m.arbitrationId,
      isExtendedId := m.isExtendedId,
      isRemoteFrame := m.isRemoteFrame || m.isErrorFrame,
      isErrorFrame := m.isRemoteFrame || m.isErrorFrame,
      dlc := |m.data|,
      data := m.data)
  }

  /** Decoding the encoding of a message with at most 8 data bytes gives it back,
      with the timestamp cleared, dlc set to the data length and the shared
      remote/error bit copied into both flags. */
  lemma {:induction false} DecodeEncode(m: Message)
    requires |m.data| <= DATA_SIZE && InInt32(m.arbitrationId)
    ensures Encode(m).Encoded?
    ensures FromBuffer(Encode(m).bytes) == Decoded(AsDecoded(m))
  {
    var b := Encode(m).bytes;
    EncodeLayout(m);
    FromBufferFields(b);
    Int32RoundTrip(m.arbitrationId);
    assert b[5..5 + |m.data|] == m.data;
  }

  /** Only the first 13 bytes of the buffer take part in decoding. */
  lemma DecodeReadsOneFrame(buf: seq<bv8>)
    requires |buf| >= FRAME_SIZE
    ensures FromBuffer(buf) == FromBuffer(buf[..FRAME_SIZE])
  {
    var p := buf[..FRAME_SIZE];
    assert buf[1..5] == p[1..5] && buf[5..13] == p[5..13];
  }

  /** A record whose unused flag bits (0x30) and unused data bytes are zero, and whose
      dlc is at most 8, is exactly the encoding of the message it decodes to. */
  lemma {:induction false} EncodeDecode(buf: seq<bv8>)
    requires |buf| == FRAME_SIZE
    requires buf[0] & 0x30 == 0 && (buf[0] & DLC_MASK) as int <= DATA_SIZE
    requires forall i :: 5 + (buf[0] & DLC_MASK) as int <= i < FRAME_SIZE ==> buf[i] == 0
    ensures FromBuffer(buf).Decoded?
    ensures Encode(FromBuffer(buf).msg) == Encoded(buf)
  {
    var m := FromBuffer(buf).msg;
    FromBufferFields(buf);
    var n := |m.data|;
    assert n == (buf[0] & DLC_MASK) as int;
    Int32BytesRoundTrip(buf[1..5]);
    var e := Encode(m).bytes;
    EncodeLayout(m);
    assert e[0] == buf[0] by {
      ByteBack(buf[0] & DLC_MASK);
      FlagsFromBits(buf[0], KindFlags(m), ByteOf(n));
    }
    SameRecord(e, buf, n);
  }

  /** Two records equal in the flag byte, the ID bytes and the first n data bytes, and
      zero after them, are equal. */
  lemma SameRecord(e: seq<bv8>, buf: seq<bv8>, n: int)
    requires |e| == FRAME_SIZE && |buf| == FRAME_SIZE && 0 <= n <= DATA_SIZE
    requires e[0] == buf[0] && e[1..5] == buf[1..5] && e[5..5 + n] == buf[5..5 + n]
    requires forall i :: 5 + n <= i < FRAME_SIZE ==> e[i] == 0
    requires forall i :: 5 + n <= i < FRAME_SIZE ==> buf[i] == 0
    ensures e == buf
  {
    forall i | 0 <= i < FRAME_SIZE ensures e[i] == buf[i] {
      if 1 <= i < 5 {
        assert e[i] == e[1..5][i - 1];
      } else if 5 <= i < 5 + n {
        assert e[i] == e[5..5 + n][i - 5];
      }
    }
  }

  /** A flag byte is the or of its kind bits and its low nibble when bits 0x30 are clear. */
  lemma FlagsFromBits(f: bv8, k: bv8, n: bv8)
    requires f & 0x30 == 0
    requires k == (if f & EXT_FLAG != 0 then EXT_FLAG else 0) | (if f & REMOTE_FRAME_FLAG != 0 then REMOTE_FRAME_FLAG else 0)
    requires n == f & DLC_MASK
    ensures k | n == f
  {
  }
}
