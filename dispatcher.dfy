/**
 * `dispatch` and its two handlers. `dispatch` classifies a message by its
 * type byte and hands it to `display_message` or `update_motor`; it answers 1
 * for either known type, ignoring what the handler answered, and 0 for any
 * other type.
 */
module Dispatcher {
  import opened Bytes
  import opened MessageFormat

  /** Where the `switch` on `msg->type` sends a message. */
  datatype Route = ToDisplay | ToMotor | Unknown(msgType: uint8)

  function Classify(msgType: uint8): (r: Route)
    ensures r == ToDisplay <==> msgType == MsgDisplay
    ensures r == ToMotor <==> msgType == MsgMotor
    ensures r.Unknown? ==> r.msgType == msgType
  {
    if msgType == MsgDisplay then ToDisplay
    else if msgType == MsgMotor then ToMotor
    else Unknown(msgType)
  }

  predicate IsKnownType(msgType: uint8) {
    msgType == MsgDisplay || msgType == MsgMotor
  }

  /** The value `dispatch` returns for a message of type `msgType`: 0 failure, 1 success. */
  function DispatchCode(msgType: uint8): (r: int)
    ensures r == 0 <==> !IsKnownType(msgType)
    ensures r == 1 <==> IsKnownType(msgType)
  {
    match Classify(msgType)
    case Unknown(_) => 0
    case _ => 1
  }

  /**
   * Classifies `buf` and runs the matching handler. The result is a function
   * of the type byte alone: neither the id, the length, the payload nor the
   * outcome of the display allocation changes it.
   */
  method Dispatch(buf: Packet, allocSucceeds: bool) returns (result: int)
    requires Readable(buf)
    ensures result == DispatchCode(buf[1])
    ensures result == 0 <==> buf[1] != MsgDisplay && buf[1] != MsgMotor
  {
    // Each handler call is checked against the handler's own precondition:
    // its type assertion and the in-bounds reads, both discharged by
    // `Readable`. The handler's status is discarded, as in the source.
    match Classify(buf[1])
    case ToDisplay =>
      var status, text := DisplayMessage(buf, allocSucceeds);
      result := 1;
    case ToMotor =>
      var update := UpdateMotor(buf);
      result := 1;
    case Unknown(_) =>
      result := 0;
  }

  /** The NUL-terminated copy of the payload that `display_message` hands to `printf`. */
  function DisplayText(buf: Packet): (t: seq<uint8>)
    requires ParseHeader(buf).Ok?
    ensures |t| == ParseHeader(buf).value.len as int + 1
    ensures t[..ParseHeader(buf).value.len] == buf[HeaderSize..HeaderSize + ParseHeader(buf).value.len as int]
    ensures t[ParseHeader(buf).value.len] == 0
  {
    Payload(buf) + [0]
  }

  /**
   * Allocates `len + 1` bytes, copies the payload into them and terminates
   * the copy with 0 at index `len`. `allocSucceeds` stands for whether
   * `malloc` returned a buffer. The input is a value and so is never changed.
   */
  method DisplayMessage(buf: Packet, allocSucceeds: bool) returns (status: int, text: array?<uint8>)
    requires |buf| >= HeaderSize && buf[1] == MsgDisplay
    requires ParseHeader(buf).Ok?
    ensures status == (if allocSucceeds then 1 else 0)
    ensures !allocSucceeds ==> text == null
    ensures allocSucceeds ==> text != null && fresh(text) && text[..] == DisplayText(buf)
  {
    var len := ParseHeader(buf).value.len as int;
    if !allocSucceeds {
      return 0, null;
    }
    var t := new uint8[len + 1];
    forall i | 0 <= i < len {
      t[i] := buf[HeaderSize + i];
    }
    t[len] := 0;
    assert t[..len] == Payload(buf);
    assert t[..] == t[..len] + [t[len]];
    return 1, t;
  }

  /** The bytes `printf("%s", text)` shows: everything before the first 0. */
  function CString(s: seq<uint8>): (r: seq<uint8>)
    ensures |r| <= |s| && r == s[..|r|]
    ensures 0 !in r
    ensures |r| < |s| ==> s[|r|] == 0
  {
    if s == [] || s[0] == 0 then [] else [s[0]] + CString(s[1..])
  }

  /**
   * Terminating a byte string shows a prefix of it, and shows all of it
   * exactly when it holds no 0 byte.
   */
  lemma {:induction false} CStringOfTerminated(p: seq<uint8>)
    ensures CString(p + [0]) <= p
    ensures CString(p + [0]) == p <==> 0 !in p
  {
    if p != [] && p[0] != 0 {
      assert (p + [0])[1..] == p[1..] + [0];
      CStringOfTerminated(p[1..]);
      assert p == [p[0]] + p[1..];
    }
  }

  /** What the display shows is the payload cut at its first 0 byte, never more. */
  lemma {:induction false} DisplayShowsPayload(buf: Packet)
    requires ParseHeader(buf).Ok?
    ensures CString(DisplayText(buf)) <= Payload(buf)
    ensures CString(DisplayText(buf)) == Payload(buf) <==> 0 !in Payload(buf)
    ensures |CString(DisplayText(buf))| < |Payload(buf)| ==> Payload(buf)[|CString(DisplayText(buf))|] == 0
  {
    CStringOfTerminated(Payload(buf));
    var n := |CString(DisplayText(buf))|;
    if n < |Payload(buf)| {
      assert DisplayText(buf)[n] == Payload(buf)[n];
    }
  }

  /** `update_motor`'s answer, with the command it logs. */
  datatype MotorUpdate = MotorUpdate(status: int, command: MotorCommand)

  /** Reads the motor words from their byte offsets and always succeeds. */
  function UpdateMotor(buf: Packet): (r: MotorUpdate)
    requires |buf| >= MotorMsgSize && buf[1] == MsgMotor
    ensures r.status == 1
    ensures ReadMotor(buf) == Ok(r.command)
  {
    MotorUpdate(1, ReadMotor(buf).value)
  }

  // The display buffer as the source writes it: the terminator goes to
  // index len + 1 of a len + 1 byte allocation.

  /** Storing `v` at `index`, or None when `index` is outside `mem`. */
  function StoreByte(mem: seq<uint8>, index: nat, v: uint8): (r: Option<seq<uint8>>)
    ensures r.Some? <==> index < |mem|
    ensures r.Some? ==> |r.value| == |mem| && r.value[index] == v
    ensures r.Some? ==> forall j :: 0 <= j < |mem| && j != index ==> r.value[j] == mem[j]
  {
    if index < |mem| then Some(mem[index := v]) else None
  }

  /**
   * `text` after `memcpy` and `text[msg->len + 1] = 0` as written; `junk`
   * is the uninitialised last byte of the allocation. The store lands
   * outside the allocation for every display message, so there is no
   * resulting buffer.
   */
  function DisplayTextAsWritten(buf: Packet, junk: uint8): (r: Option<seq<uint8>>)
    requires ParseHeader(buf).Ok?
    ensures r == None
  {
    StoreByte(Payload(buf) + [junk], ParseHeader(buf).value.len as int + 1, 0)
  }
}
