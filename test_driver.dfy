/**
 * The test tally of `main`: the null-terminated table of test vectors is
 * walked in order, each vector is dispatched, and a vector fails when
 * `dispatch` answers 0. The run's exit status is the number of failures.
 */
module TestDriver {
  import opened Bytes
  import opened MessageFormat
  import opened Dispatcher

  /** `display_packet`: id 1, type display, len 5, "Hello". */
  const DisplayPacket: Packet := [0x01, 0x34, 0x05, 0x00, 0x48, 0x65, 0x6c, 0x6c, 0x6f]
  /** `motor_packet`: id 2, type motor, len 8, words 0x3F800000 and 0xBF000000. */
  const MotorPacket: Packet := [0x02, 0x80, 0x08, 0x00, 0x00, 0x00, 0x80, 0x3f, 0x00, 0x00, 0x00, 0xbf]
  /** `invalid_packet`, commented out of the table in the source: id 3, type 0x22. */
  const InvalidPacket: Packet := [0x03, 0x22, 0x04, 0x00]

  /** `test_data`, with its terminating null entry. */
  const TestData: seq<Option<Packet>> := [Some(DisplayPacket), Some(MotorPacket), None]
  /** `test_data` with the commented-out `invalid_packet` entry restored. */
  const TestDataWithInvalid: seq<Option<Packet>> :=
    [Some(DisplayPacket), Some(MotorPacket), Some(InvalidPacket), None]

  /** The vectors visited before the first null entry. */
  function Live(t: seq<Option<Packet>>): (ps: seq<Packet>)
    requires None in t
    ensures |ps| < |t| && t[|ps|] == None
    ensures forall k :: 0 <= k < |ps| ==> t[k] == Some(ps[k])
    decreases |t|
  {
    if t[0] == None then []
    else
      assert t == [t[0]] + t[1..];
      [t[0].value] + Live(t[1..])
  }

  predicate AllReadable(ps: seq<Packet>) {
    forall k :: 0 <= k < |ps| ==> Readable(ps[k])
  }

  /** How many of `ps` `dispatch` answers 0 for. */
  function Failures(ps: seq<Packet>): (n: nat)
    requires AllReadable(ps)
    ensures n <= |ps|
  {
    if ps == [] then 0
    else
      var last := ps[|ps| - 1];
      Failures(ps[..|ps| - 1]) + (if DispatchCode(last[1]) == 0 then 1 else 0)
  }

  /** Dispatching one more vector adds one failure exactly when `dispatch` answers 0 for it. */
  lemma FailuresStep(ps: seq<Packet>, i: nat)
    requires AllReadable(ps) && i <= |ps|
    ensures AllReadable(ps[..i])
    ensures i < |ps| ==>
      (Readable(ps[i]) && AllReadable(ps[..i + 1]) &&
       Failures(ps[..i + 1]) == Failures(ps[..i]) + (if DispatchCode(ps[i][1]) == 0 then 1 else 0))
  {
    if i < |ps| {
      assert ps[..i + 1][..i] == ps[..i];
    }
  }

  /** A run has no failures exactly when every vector carries a known type. */
  lemma {:induction false} NoFailuresIffAllKnown(ps: seq<Packet>)
    requires AllReadable(ps)
    ensures Failures(ps) == 0 <==> forall k :: 0 <= k < |ps| ==> IsKnownType(ps[k][1])
  {
    if ps != [] {
      var init := ps[..|ps| - 1];
      NoFailuresIffAllKnown(init);
      assert forall k :: 0 <= k < |init| ==> init[k] == ps[k];
    }
  }

  /**
   * The loop of `main`: dispatches every vector before the null entry,
   * counting a failure for each 0 answer. `allocOutcomes[i]` stands for
   * whether the display buffer allocation succeeds for vector `i`.
   */
  method RunTests(testData: seq<Option<Packet>>, allocOutcomes: seq<bool>)
    returns (totalFail: int, totalPass: int, totalTests: int)
    requires None in testData
    requires AllReadable(Live(testData))
    requires |allocOutcomes| >= |Live(testData)|
    ensures totalTests == |Live(testData)|
    ensures totalFail == Failures(Live(testData))
    ensures totalPass + totalFail == totalTests && 0 <= totalPass
  {
    ghost var live := Live(testData);
    totalFail := 0;
    var i := 0;
    FailuresStep(live, 0);
    while testData[i] != None
      invariant 0 <= i <= |live|
      invariant AllReadable(live[..i]) && totalFail == Failures(live[..i])
      decreases |live| - i
    {
      assert testData[i].value == live[i];
      var result := Dispatch(testData[i].value, allocOutcomes[i]);
      FailuresStep(live, i);
      if result == 0 {
        totalFail := totalFail + 1;
      }
      i := i + 1;
    }
    assert live[..i] == live;
    totalTests := i;
    totalPass := i - totalFail;
  }

  lemma ShippedVectors()
    ensures None in TestData && Live(TestData) == [DisplayPacket, MotorPacket]
    ensures AllReadable(Live(TestData)) && Failures(Live(TestData)) == 0
  {
    assert TestData[2] == None;
    assert Live(TestData[2..]) == [];
    assert Live(TestData[1..]) == [MotorPacket];
    assert [DisplayPacket, MotorPacket][..1] == [DisplayPacket];
  }

  lemma InvalidVectorRejected()
    ensures None in TestDataWithInvalid
    ensures Live(TestDataWithInvalid) == [DisplayPacket, MotorPacket, InvalidPacket]
    ensures AllReadable(Live(TestDataWithInvalid)) && Failures(Live(TestDataWithInvalid)) == 1
  {
    assert TestDataWithInvalid[3] == None;
    assert Live(TestDataWithInvalid[3..]) == [];
    assert Live(TestDataWithInvalid[2..]) == [InvalidPacket];
    assert Live(TestDataWithInvalid[1..]) == [MotorPacket, InvalidPacket];
    var ps := [DisplayPacket, MotorPacket, InvalidPacket];
    assert ps[..2] == [DisplayPacket, MotorPacket];
    assert ps[..2][..1] == [DisplayPacket];
    assert Failures(ps[..2]) == 0;
    assert DispatchCode(InvalidPacket[1]) == 0;
  }

  /** `main` over the shipped table: both vectors pass and the exit status is 0. */
  method RunShippedTests(allocOutcomes: seq<bool>) returns (exitStatus: int)
    requires |allocOutcomes| >= 2
    ensures exitStatus == 0
  {
    ShippedVectors();
    var totalFail, totalPass, totalTests := RunTests(TestData, allocOutcomes);
    exitStatus := totalFail;
  }

  /** The motor vector is exactly one `motor_msg_type`, and its words decode to 0x3F800000 and 0xBF000000. */
  lemma MotorVectorLayout()
    ensures |MotorPacket| == MotorMsgSize
    ensures ParseHeader(MotorPacket) == Ok(Header(2, MsgMotor, 8))
    ensures ReadMotor(MotorPacket) == Ok(MotorCommand(0x3F80_0000, 0xBF00_0000))
  {
    var fb, lr := MotorPacket[ForwardBackOffset..ForwardBackOffset + 4], MotorPacket[LeftRightOffset..LeftRightOffset + 4];
    assert fb == [0x00, 0x00, 0x80, 0x3f] && lr == [0x00, 0x00, 0x00, 0xbf];
    WordValue(0x00, 0x00, 0x80, 0x3f, 0x3F80_0000);
    WordValue(0x00, 0x00, 0x00, 0xbf, 0xBF00_0000);
  }

  lemma WordValue(b0: uint8, b1: uint8, b2: uint8, b3: uint8, v: int)
    requires v == b0 as int + 0x100 * b1 as int + 0x1_0000 * b2 as int + 0x100_0000 * b3 as int
    ensures LeUint32([b0, b1, b2, b3]) as int == v
  {
    assert LeUint16(b0, b1) as int == b0 as int + 0x100 * b1 as int;
    assert LeUint16(b2, b3) as int == b2 as int + 0x100 * b3 as int;
  }

  /** The display vector carries the 5 bytes of "Hello" and that is what is shown. */
  lemma DisplayVectorLayout()
    ensures ParseHeader(DisplayPacket) == Ok(Header(1, MsgDisplay, 5))
    ensures Payload(DisplayPacket) == [0x48, 0x65, 0x6c, 0x6c, 0x6f]
    ensures CString(DisplayText(DisplayPacket)) == Payload(DisplayPacket)
  {
    DisplayShowsPayload(DisplayPacket);
  }

  /** The header refuses a declared length the buffer cannot hold, and a buffer shorter than the header. */
  lemma MalformedHeaders()
    ensures ParseHeader([0x01, 0x34, 0xFF, 0x7F]) == Err(LengthOutOfBounds)
    ensures ParseHeader([0x01, 0x34]) == Err(TooShort)
    ensures ParseHeader(InvalidPacket) == Err(LengthOutOfBounds) && Readable(InvalidPacket)
  {
  }

  /** The as-written terminator store is out of bounds on the shipped display vector. */
  lemma DisplayVectorAsWritten(junk: uint8)
    ensures ParseHeader(DisplayPacket).Ok? && |Payload(DisplayPacket) + [junk]| == 6
    ensures DisplayTextAsWritten(DisplayPacket, junk) == None
  {
  }
}
