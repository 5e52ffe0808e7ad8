/**
 * The packet layout shared by every message: `message_header` (id, type,
 * little-endian len, then the payload at offset 4) and the motor view
 * `motor_msg_type` (two 32-bit words at offsets 4 and 8). The C code casts a
 * raw buffer to these structs; here every field is read from a byte sequence
 * and the reads are bounds-checked.
 */
module MessageFormat {
  import opened Bytes

  /** A raw message buffer. */
  type Packet = seq<uint8>

  datatype Option<T> = None | Some(value: T)

  /** Offset of `message_header.data`: id, type and the two length bytes. */
  const HeaderSize: nat := 4
  /** `sizeof(motor_msg_type)`. */
  const MotorMsgSize: nat := 12
  const ForwardBackOffset: nat := 4
  const LeftRightOffset: nat := 8

  /** The message type tags `MSG_DISPLAY` and `MSG_MOTOR`. */
  const MsgDisplay: uint8 := 0x34
  const MsgMotor: uint8 := 0x80

  datatype Header = Header(id: uint8, msgType: uint8, len: uint16)

  datatype DecodeError = TooShort | LengthOutOfBounds

  datatype Result<T> = Ok(value: T) | Err(error: DecodeError)

  /**
   * Reads the header of `buf`, refusing a buffer shorter than the header
   * and one whose declared payload does not fit in it.
   */
  function ParseHeader(buf: Packet): (r: Result<Header>)
    ensures r == Err(TooShort) <==> |buf| < HeaderSize
    ensures r == Err(LengthOutOfBounds) <==>
      |buf| >= HeaderSize && HeaderSize + (buf[2] as int + 0x100 * buf[3] as int) > |buf|
    ensures r.Ok? ==>
      r.value.id == buf[0] && r.value.msgType == buf[1] &&
      r.value.len as int == buf[2] as int + 0x100 * buf[3] as int &&
      HeaderSize + r.value.len as int <= |buf|
  {
    if |buf| < HeaderSize then Err(TooShort)
    else
      var h := Header(buf[0], buf[1], LeUint16(buf[2], buf[3]));
      if HeaderSize + h.len as int > |buf| then Err(LengthOutOfBounds) else Ok(h)
  }

  /** The four header bytes that `ParseHeader` reads back as `h`. */
  function EncodeHeader(h: Header): (r: Packet)
    ensures |r| == HeaderSize
  {
    [h.id, h.msgType] + Uint16Le(h.len)
  }

  /** The `len` payload bytes that follow the header. */
  function Payload(buf: Packet): (p: seq<uint8>)
    requires ParseHeader(buf).Ok?
    ensures |p| == ParseHeader(buf).value.len as int
  {
    buf[HeaderSize..HeaderSize + ParseHeader(buf).value.len as int]
  }

  /** A header followed by exactly `h.len` bytes parses back to `h` and that payload. */
  lemma {:induction false} HeaderRoundTrip(h: Header, payload: seq<uint8>)
    requires |payload| == h.len as int
    ensures ParseHeader(EncodeHeader(h) + payload) == Ok(h)
    ensures Payload(EncodeHeader(h) + payload) == payload
  {
    var buf := EncodeHeader(h) + payload;
    assert buf[0] == h.id && buf[1] == h.msgType;
    assert buf[2..4] == Uint16Le(h.len);
    assert LeUint16(buf[2], buf[3]) == h.len;
    assert buf[HeaderSize..HeaderSize + h.len as int] == payload;
  }

  /** Every buffer whose header parses is that header, its payload, and trailing bytes. */
  lemma {:induction false} HeaderFraming(buf: Packet)
    requires ParseHeader(buf).Ok?
    ensures buf == EncodeHeader(ParseHeader(buf).value) + Payload(buf) + buf[HeaderSize + ParseHeader(buf).value.len as int..]
  {
    Uint16LeOfLeUint16(buf[2], buf[3]);
    var n := HeaderSize + ParseHeader(buf).value.len as int;
    assert buf[..HeaderSize] == EncodeHeader(ParseHeader(buf).value);
    assert buf == buf[..HeaderSize] + buf[HeaderSize..n] + buf[n..];
  }

  /** The motor command view: the two words as raw 32-bit patterns (IEEE-754 singles in the C code). */
  datatype MotorCommand = MotorCommand(forwardBack: uint32, leftRight: uint32)

  /**
   * Reads `forward_back` and `left_right` at offsets 4 and 8. The C code
   * reads them whatever `len` says, so only the buffer size is checked.
   */
  function ReadMotor(buf: Packet): (r: Result<MotorCommand>)
    ensures r.Err? <==> |buf| < MotorMsgSize
    ensures r.Err? ==> r.error == TooShort
    ensures r.Ok? ==>
      Uint32Le(r.value.forwardBack) == buf[ForwardBackOffset..ForwardBackOffset + 4] &&
      Uint32Le(r.value.leftRight) == buf[LeftRightOffset..LeftRightOffset + 4]
  {
    if |buf| < MotorMsgSize then Err(TooShort)
    else
      var cmd := MotorCommand(LeUint32(buf[ForwardBackOffset..ForwardBackOffset + 4]),
                              LeUint32(buf[LeftRightOffset..LeftRightOffset + 4]));
      Uint32LeOfLeUint32(buf[ForwardBackOffset..ForwardBackOffset + 4]);
      Uint32LeOfLeUint32(buf[LeftRightOffset..LeftRightOffset + 4]);
      Ok(cmd)
  }

  /** A complete motor message: header with type `MSG_MOTOR` and len 8, then the two words. */
  function EncodeMotor(id: uint8, cmd: MotorCommand): (r: Packet)
    ensures |r| == MotorMsgSize
  {
    EncodeHeader(Header(id, MsgMotor, 8)) + Uint32Le(cmd.forwardBack) + Uint32Le(cmd.leftRight)
  }

  lemma {:induction false} MotorRoundTrip(id: uint8, cmd: MotorCommand)
    ensures ParseHeader(EncodeMotor(id, cmd)) == Ok(Header(id, MsgMotor, 8))
    ensures ReadMotor(EncodeMotor(id, cmd)) == Ok(cmd)
  {
    var buf := EncodeMotor(id, cmd);
    var words := Uint32Le(cmd.forwardBack) + Uint32Le(cmd.leftRight);
    assert buf == EncodeHeader(Header(id, MsgMotor, 8)) + words;
    HeaderRoundTrip(Header(id, MsgMotor, 8), words);
    assert buf[ForwardBackOffset..ForwardBackOffset + 4] == Uint32Le(cmd.forwardBack);
    assert buf[LeftRightOffset..LeftRightOffset + 4] == Uint32Le(cmd.leftRight);
    LeUint32OfUint32Le(cmd.forwardBack);
    LeUint32OfUint32Le(cmd.leftRight);
  }

  /**
   * The buffers on which the C `dispatch` reads only memory it was given:
   * the header always (for the log line and the switch), the declared
   * payload for a display message, and the 12 bytes of `motor_msg_type`
   * for a motor message.
   */
  predicate Readable(buf: Packet) {
    |buf| >= HeaderSize &&
    (buf[1] == MsgDisplay ==> ParseHeader(buf).Ok?) &&
    (buf[1] == MsgMotor ==> |buf| >= MotorMsgSize)
  }

  /** On a readable buffer every read `dispatch` makes succeeds. */
  lemma ReadableReadsInBounds(buf: Packet)
    requires Readable(buf)
    ensures ParseHeader(buf) != Err(TooShort)
    ensures buf[1] == MsgDisplay ==> ParseHeader(buf).Ok? && HeaderSize + |Payload(buf)| <= |buf|
    ensures buf[1] == MsgMotor ==> ReadMotor(buf).Ok?
  {
  }
}
