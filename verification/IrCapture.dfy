/** Learning an infrared pattern: the board is told to record, asked until it has finished, and
    then read pulse by pulse. */
module IrCapture {
  import opened Bytes
  import opened IrRemote
  import opened Wrappers

  const CMDID_START_CAPTURE := 0x5020
  const CMDID_GET_CAPTURE_STATUS := 0x5024
  const CMDID_GET_CAPTURED_PATTERN := 0x5028
  const PROGRESS_FINISHED: Byte := 4
  const STATE_NORMAL_END: Byte := 4

  /** The end of one transaction: an error, or the command and the bytes of the reply. */
  datatype Answer = NoAnswer(error: int) | Answer(command: int, payload: seq<Byte>)

  /** What the board has recorded, with the state in which the recording ended. */
  datatype Recording = Recording(state: Byte, ir: IRData)

  function Status(progress: Byte, rec: Recording): seq<Byte> {
    [progress, rec.state] + LittleEndian(rec.ir.carrierPeriod, 4) + LittleEndian(|rec.ir.pattern| % SHORT_WRAP, 2)
  }

  /** What the replies of the board tell: its length goes into sixteen bits. */
  function Told(rec: Recording): (ir: IRData)
    ensures |ir.pattern| < SHORT_WRAP
  {
    rec.ir.(pattern := rec.ir.pattern[..|rec.ir.pattern| % SHORT_WRAP])
  }

  lemma StatusIsRead(progress: Byte, rec: Recording)
    ensures var s := Status(progress, rec);
            && |s| == 8 && s[0] == progress && s[1] == rec.state
            && ReadLong(s[2..6]) == rec.ir.carrierPeriod
            && ReadShort(s[6..8]) == |Told(rec).pattern|
  {
    hide LittleEndian, FromLittleEndian, After, Front, Power256;
    ShortPowers(4, 2);
    var carrier, length := rec.ir.carrierPeriod, |rec.ir.pattern| % SHORT_WRAP;
    var s := Status(progress, rec);
    assert s[2..6] == LittleEndian(carrier, 4) + [];
    assert s[6..8] == LittleEndian(length, 2) + [];
    ReadFront(carrier, 4, []);
    ReadFront(length, 2, []);
  }

  /** The board while it records. `pending` is how many more status questions find it unfinished;
      a transaction whose fault is negative is lost on the serial link. */
  class CaptureBoard {
    const rec: Recording
    const fault: nat -> int
    const accepts: bool
    var pending: nat
    var asked: nat

    constructor (rec: Recording, fault: nat -> int, accepts: bool, pending: nat)
      ensures this.rec == rec && this.fault == fault && this.accepts == accepts
      ensures this.pending == pending && asked == 0
    {
      this.rec, this.fault, this.accepts, this.pending, asked := rec, fault, accepts, pending, 0;
    }

    function Replied(p: Packet, pending: nat, asked: nat): Answer {
      if fault(asked) < 0 then NoAnswer(fault(asked))
      else if p.command == CMDID_START_CAPTURE then Answer(if accepts then CMDID_ACK else CMDID_NAK, [])
      else if p.command == CMDID_GET_CAPTURE_STATUS then
        Answer(p.command, Status(if pending == 0 then PROGRESS_FINISHED else 0, rec))
      else if p.command == CMDID_GET_CAPTURED_PATTERN && FromLittleEndian(p.payload) < |rec.ir.pattern| then
        Answer(p.command, PulseBytes(rec.ir.pattern[FromLittleEndian(p.payload)]))
      else Answer(CMDID_NAK, [])
    }

    /** One transaction: the board's answer to a packet. */
    method Transaction(p: Packet) returns (a: Answer)
      modifies this
      ensures asked == old(asked) + 1
      ensures pending ==
              if p.command == CMDID_GET_CAPTURE_STATUS && old(pending) > 0 then old(pending) - 1 else old(pending)
      ensures a == Replied(p, old(pending), old(asked))
    {
      a := Replied(p, pending, asked);
      asked := asked + 1;
      if p.command == CMDID_GET_CAPTURE_STATUS && pending > 0 {
        pending := pending - 1;
      }
    }

    /** Is none of the first `n` transactions lost? */
    ghost predicate Answers(n: nat) {
      forall i :: 0 <= i < n ==> fault(i) >= 0
    }

    /** Asks for pulse `i`. */
    method AskPulse(i: nat) returns (a: Answer)
      requires i < |rec.ir.pattern| && i < SHORT_WRAP
      modifies this
      ensures asked == old(asked) + 1
      ensures if fault(old(asked)) < 0 then a == NoAnswer(fault(old(asked)))
              else a.Answer? && |a.payload| == 6 && ReadPulse(a.payload) == rec.ir.pattern[i]
    {
      hide LittleEndian, FromLittleEndian, ReadPulse;
      Powers();
      LittleEndianRoundTrip(i, 2);
      var p := rec.ir.pattern[i];
      ReadPulseBytes(p, []);
      assert PulseBytes(p) + [] == PulseBytes(p);
      a := Transaction(Packet(CMDID_GET_CAPTURED_PATTERN, LittleEndian(i, 2)));
    }

    /** Starts a recording and asks until it has ended. */
    method AwaitEnd() returns (r: int, state: Byte, carrierPeriod: ULong, patternLength: UShort)
      requires asked == 0
      modifies this
      ensures r == 1 || r < 0
      ensures r == 1 <==> accepts && Answers(old(pending) + 2)
      ensures r == 1 ==> asked == old(pending) + 2 && state == rec.state
      ensures r != 1 ==> 0 < asked <= old(pending) + 2 && FailsAt(old(pending), asked - 1) && Answers(asked - 1)
      ensures r != 1 ==> r == CaptureError(old(pending), asked - 1)
      ensures r == 1 ==> carrierPeriod == rec.ir.carrierPeriod && patternLength == |Told(rec).pattern|
    {
      hide Status, LittleEndian, FromLittleEndian, ReadLong, ReadShort, Told;
      state, carrierPeriod, patternLength := 0, 0, 0;
      ghost var before := pending;
      var a := Transaction(Packet(CMDID_START_CAPTURE, []));
      if a.NoAnswer? {
        return -100 + a.error, state, carrierPeriod, patternLength;
      }
      if a.command != CMDID_ACK {
        return -200, state, carrierPeriod, patternLength;
      }
      while true
        invariant Answers(asked) && accepts && asked + pending == before + 1
        decreases pending
      {
        ghost var waiting := pending;
        a := Transaction(Packet(CMDID_GET_CAPTURE_STATUS, []));
        if a.NoAnswer? {
          return -300 + a.error, state, carrierPeriod, patternLength;
        }
        ghost var told: Byte := if waiting == 0 then PROGRESS_FINISHED else 0;
        StatusIsRead(told, rec);
        var progress := a.payload[0];
        state := a.payload[1];
        carrierPeriod := ReadLong(a.payload[2..6]);
        patternLength := ReadShort(a.payload[6..8]);
        if progress == PROGRESS_FINISHED {
          return 1, state, carrierPeriod, patternLength;
        }
      }
    }

    /** Capture: learns what the board has recorded. */
    method Capture() returns (r: int, ir: IRData)
      requires asked == 0
      modifies this
      ensures r == 1 || r < 0
      ensures r == 1 <==> Succeeds(old(pending))
      ensures r == 1 ==> ir == Told(rec)
      ensures r != 1 ==>
                && 0 < asked && Answers(asked - 1) && FailsAt(old(pending), asked - 1)
                && r == CaptureError(old(pending), asked - 1)
                && |ir.pattern| == if asked > old(pending) + 2 then asked - old(pending) - 3 else 0
      ensures ir.pattern <= rec.ir.pattern
    {
      hide ReadPulse;
      ghost var before := pending;
      ghost var all := Told(rec).pattern;
      ir := IRData(0, []);
      var state, carrierPeriod, patternLength;
      r, state, carrierPeriod, patternLength := AwaitEnd();
      if r != 1 {
        return;
      }
      if state != STATE_NORMAL_END {
        return -400, ir;
      }
      ir := IRData(carrierPeriod, []);
      var i := 0;
      while i < patternLength
        invariant i <= patternLength && asked == before + 2 + i && Answers(asked)
        invariant ir == IRData(rec.ir.carrierPeriod, all[..i])
      {
        var a := AskPulse(i);
        if a.NoAnswer? {
          return -500 + a.error, ir;
        }
        assert all[..i + 1] == all[..i] + [all[i]];
        ir := ir.(pattern := ir.pattern + [ReadPulse(a.payload)]);
        i := i + 1;
      }
      assert all[..i] == all;
    }

    /** Does learning end unsuccessfully with the i-th transaction? */
    predicate FailsAt(pending: nat, i: nat) {
      || fault(i) < 0
      || (i == 0 && !accepts)
      || (i == pending + 1 && rec.state != STATE_NORMAL_END)
    }

    /** The error of each stage has its own hundred. */
    function CaptureError(pending: nat, i: nat): int {
      if fault(i) < 0 then fault(i) - (if i == 0 then 100 else if i < pending + 2 then 300 else 500)
      else if i == 0 then -200
      else -400
    }

    /** The board takes the command, ends normally, and no transaction is lost. */
    ghost predicate Succeeds(pending: nat) {
      accepts && rec.state == STATE_NORMAL_END && Answers(pending + 2 + |Told(rec).pattern|)
    }

    /** Capture of a path: learns a pattern and, when it looks right, delivers the file to keep. */
    method CaptureFile() returns (file: Option<seq<Byte>>)
      requires asked == 0
      modifies this
      ensures file == if Succeeds(old(pending)) && CheckIR(Told(rec)) then Some(Saved(Told(rec))) else None
      ensures file.Some? ==>
                && |Told(rec).pattern| > 4
                && Told(rec).pattern[0].pulseOrder > 1 && Told(rec).pattern[1].pulseOrder > 1
    {
      hide Saved, Told;
      var r, ir := Capture();
      if r <= 0 || !CheckIR(ir) {
        return None;
      }
      var bytes := SaveIRData(ir);
      return Some(bytes);
    }
  }

  /** checkIR: enough pulses, and the first two no noise. */
  predicate CheckIR(ir: IRData) {
    |ir.pattern| > 4 && ir.pattern[0].pulseOrder > 1 && ir.pattern[1].pulseOrder > 1
  }

  /** The file kept of a recording loads, and its session makes the board hold what was recorded, if
      and only if the recording fits sixteen bits and none of its numbers is zero. */
  lemma LearnedIsRadiatedIff(rec: Recording, b: Board)
    ensures var (ok, ir) := Loaded(Saved(Told(rec)));
            ok && Holds(ReceiveAll(b, Session(ir)), rec.ir) <==>
            |rec.ir.pattern| < SHORT_WRAP && AllRadiate(rec.ir.pattern)
  {
    hide Session, ReceiveAll, Loaded, Saved, AllRadiate;
    SaveLoadIff(Told(rec));
    SessionTail(b, Told(rec));
    SessionLoadsIff(b, Told(rec));
    if |rec.ir.pattern| < SHORT_WRAP {
      assert rec.ir.pattern[..|rec.ir.pattern|] == rec.ir.pattern;
      assert Told(rec) == rec.ir;
    }
  }
}
