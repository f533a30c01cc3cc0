/** Infrared patterns: loading one into the board with a sequence of commands, and keeping it in a
    file. An unsigned long is the 32-bit one of the board's processor. */
module IrRemote {
  import opened Bytes

  const SHORT_WRAP := 65536
  const LONG_WRAP := 0x1_0000_0000

  type UShort = x: int | 0 <= x < SHORT_WRAP
  type ULong = x: int | 0 <= x < LONG_WRAP

  datatype Pulse = Pulse(pulseOrder: UShort, wait: ULong)
  datatype IRData = IRData(carrierPeriod: ULong, pattern: seq<Pulse>)

  // ----- commands to the board -----

  const CMDID_ACK := 0x7E20
  const CMDID_NAK := 0x7E21
  const CMDID_START_RADIATE := 0x5030
  const CMDID_SET_RADIATE_PARAMETERS := 0x5038
  const CMDID_SET_RADIATE_PATTERN := 0x503C
  const CMDID_VERIFY_RADIATE_PATTERN := 0x5040

  datatype Packet = Packet(command: int, payload: seq<Byte>)

  function PulsePacket(order: nat, p: Pulse): Packet {
    Packet(CMDID_SET_RADIATE_PATTERN,
           LittleEndian(order % SHORT_WRAP, 2) + LittleEndian(p.pulseOrder, 2) + LittleEndian(p.wait, 4))
  }

  function PulsePackets(pattern: seq<Pulse>): (r: seq<Packet>)
    ensures |r| == |pattern|
  {
    if pattern == [] then []
    else
      var n := |pattern| - 1;
      PulsePackets(pattern[..n]) + [PulsePacket(n, pattern[n])]
  }

  function ParameterPacket(ir: IRData): Packet {
    Packet(CMDID_SET_RADIATE_PARAMETERS,
           LittleEndian(ir.carrierPeriod, 4) + LittleEndian(|ir.pattern| % SHORT_WRAP, 2))
  }

  const VERIFY := Packet(CMDID_VERIFY_RADIATE_PATTERN, [])
  const START := Packet(CMDID_START_RADIATE, [])

  /** Everything that is sent to radiate a pattern. */
  function Session(ir: IRData): seq<Packet> {
    PulsePackets(ir.pattern) + [ParameterPacket(ir), VERIFY, START]
  }

  // ----- the board -----

  /** What the board holds; the numbers in a packet are laid out as in the board's own replies. */
  datatype Board = Board(memory: map<nat, (nat, nat)>, carrier: nat, length: nat, started: bool)

  function Receive(b: Board, p: Packet): Board {
    if p.command == CMDID_SET_RADIATE_PATTERN && |p.payload| == 8 then
      var order := FromLittleEndian(p.payload[..2]);
      b.(memory := b.memory[order := (FromLittleEndian(p.payload[2..4]), FromLittleEndian(p.payload[4..8]))])
    else if p.command == CMDID_SET_RADIATE_PARAMETERS && |p.payload| == 6 then
      b.(carrier := FromLittleEndian(p.payload[..4]), length := FromLittleEndian(p.payload[4..6]))
    else if p.command == CMDID_START_RADIATE then b.(started := true)
    else b
  }

  function ReceiveAll(b: Board, packets: seq<Packet>): Board {
    if packets == [] then b
    else Receive(ReceiveAll(b, packets[..|packets| - 1]), packets[|packets| - 1])
  }

  /** The board holds exactly this pattern: that many pulses, each as given. */
  predicate Holds(b: Board, ir: IRData) {
    && b.carrier == ir.carrierPeriod && b.length == |ir.pattern|
    && forall i :: 0 <= i < |ir.pattern| ==>
         i in b.memory && b.memory[i] == (ir.pattern[i].pulseOrder, ir.pattern[i].wait)
  }

  /** The outcome of the n-th transaction: a negative error, or the command of the reply. */
  datatype Reply = Failed(error: int) | Answered(command: int)

  /** Does the i-th transaction end the session of a pattern of n pulses? One that fails does, and so
      does a refusal of the pattern when it is verified. */
  predicate Ends(line: nat -> Reply, n: nat, i: nat) {
    line(i).Failed? || (i == n + 1 && line(i).command == CMDID_NAK)
  }

  /** Does the board go along with the whole session of a pattern of n pulses? */
  predicate Obeys(line: nat -> Reply, n: nat) {
    forall i: nat :: i < n + 3 ==> !Ends(line, n, i)
  }

  /** The error when the i-th transaction ends the session: each stage has its own hundred. */
  function StageError(line: nat -> Reply, n: nat, i: nat): int
    requires Ends(line, n, i)
  {
    if line(i).Answered? then -400
    else
      line(i).error + if i < n then -100 else if i == n then -200 else if i == n + 1 then -300 else -500
  }

  class Remote {
    var sent: seq<Packet>
    const line: nat -> Reply

    constructor (line: nat -> Reply)
      ensures sent == [] && this.line == line
    {
      sent := [];
      this.line := line;
    }

    method Transaction(p: Packet) returns (r: Reply)
      modifies this
      ensures sent == old(sent) + [p] && r == line(|old(sent)|)
    {
      r := line(|sent|);
      sent := sent + [p];
    }

    /** Sends a pattern and starts it; the first failed transaction or a refused pattern stops it. */
    method Radiate(ir: IRData) returns (r: int)
      requires sent == [] && forall i: nat :: line(i).Failed? ==> line(i).error < 0
      modifies this
      ensures sent <= Session(ir)
      ensures START in sent ==> sent == Session(ir)
      ensures r == 1 <==> Obeys(line, |ir.pattern|)
      ensures r == 1 ==> sent == Session(ir)
      ensures r != 1 ==>
                && sent != [] && Ends(line, |ir.pattern|, |sent| - 1)
                && r == StageError(line, |ir.pattern|, |sent| - 1) < 0
      ensures forall i :: 0 <= i < |sent| - 1 ==> !Ends(line, |ir.pattern|, i)
    {
      hide PulsePackets, PulsePacket, LittleEndian;
      ghost var n := |ir.pattern|;
      var order := 0;
      NoPulses();
      NoStart(ir.pattern);
      SessionParts(ir);
      while order < |ir.pattern|
        invariant 0 <= order <= |ir.pattern| && sent == PulsePackets(ir.pattern[..order])
        invariant forall i :: 0 <= i < order ==> !Ends(line, n, i)
      {
        PulseSnoc(ir.pattern, order);
        NoStart(ir.pattern[..order + 1]);
        PulsePrefix(ir.pattern, order + 1);
        var reply := Transaction(PulsePacket(order, ir.pattern[order]));
        if reply.Failed? {
          assert Ends(line, n, order);
          return -100 + reply.error;
        }
        order := order + 1;
      }
      assert ir.pattern[..order] == ir.pattern;
      ghost var pulses := PulsePackets(ir.pattern);
      var reply := Transaction(ParameterPacket(ir));
      assert sent == pulses + [ParameterPacket(ir)] <= Session(ir);
      if reply.Failed? {
        assert Ends(line, n, n);
        return -200 + reply.error;
      }
      reply := Transaction(VERIFY);
      assert sent == pulses + [ParameterPacket(ir), VERIFY] <= Session(ir);
      if reply.Failed? {
        assert Ends(line, n, n + 1);
        return -300 + reply.error;
      }
      if reply.command == CMDID_NAK {
        assert Ends(line, n, n + 1);
        return -400;
      }
      reply := Transaction(START);
      assert sent == Session(ir);
      if reply.Failed? {
        assert Ends(line, n, n + 2);
        return -500 + reply.error;
      }
      return 1;
    }
  }

  lemma {:induction false} NoStart(pattern: seq<Pulse>)
    ensures START !in PulsePackets(pattern)
    decreases |pattern|
  {
    if pattern != [] {
      NoStart(pattern[..|pattern| - 1]);
    }
  }

  lemma NoPulses()
    ensures PulsePackets([]) == []
  {
  }

  lemma PulseSnoc(pattern: seq<Pulse>, n: nat)
    requires n < |pattern|
    ensures PulsePackets(pattern[..n + 1]) == PulsePackets(pattern[..n]) + [PulsePacket(n, pattern[n])]
  {
    assert pattern[..n + 1][..n] == pattern[..n];
  }

  lemma SessionParts(ir: IRData)
    ensures PulsePackets(ir.pattern) <= Session(ir)
    ensures PulsePackets(ir.pattern) == Session(ir)[..|ir.pattern|]
  {
  }

  lemma {:induction false} PulsePrefix(pattern: seq<Pulse>, k: nat)
    requires k <= |pattern|
    ensures PulsePackets(pattern[..k]) == PulsePackets(pattern)[..k]
    decreases |pattern|
  {
    if k < |pattern| {
      var n := |pattern| - 1;
      PulsePrefix(pattern[..n], k);
      assert pattern[..n][..k] == pattern[..k];
    } else {
      assert pattern[..k] == pattern;
    }
  }

  // ----- what the board holds when it is started -----

  lemma ReceiveSnoc(b: Board, packets: seq<Packet>, p: Packet)
    ensures ReceiveAll(b, packets + [p]) == Receive(ReceiveAll(b, packets), p)
  {
    assert (packets + [p])[..|packets|] == packets;
  }

  lemma ReceivePulse(b: Board, order: nat, p: Pulse)
    ensures Receive(b, PulsePacket(order, p)) == b.(memory := b.memory[order % SHORT_WRAP := (p.pulseOrder, p.wait)])
  {
    var a, c, d := LittleEndian(order % SHORT_WRAP, 2), LittleEndian(p.pulseOrder, 2), LittleEndian(p.wait, 4);
    var s := a + c + d;
    assert s[..2] == a && s[2..4] == c && s[4..8] == d;
    Powers();
    LittleEndianRoundTrip(order % SHORT_WRAP, 2);
    LittleEndianRoundTrip(p.pulseOrder, 2);
    LittleEndianRoundTrip(p.wait, 4);
  }

  lemma ReceiveParameters(b: Board, ir: IRData)
    ensures Receive(b, ParameterPacket(ir)) ==
            b.(carrier := ir.carrierPeriod, length := |ir.pattern| % SHORT_WRAP)
  {
    var a, c := LittleEndian(ir.carrierPeriod, 4), LittleEndian(|ir.pattern| % SHORT_WRAP, 2);
    assert (a + c)[..4] == a && (a + c)[4..6] == c;
    Powers();
    LittleEndianRoundTrip(ir.carrierPeriod, 4);
    LittleEndianRoundTrip(|ir.pattern| % SHORT_WRAP, 2);
  }

  /** Slot i of the memory holds pulse i. */
  predicate Stores(memory: map<nat, (nat, nat)>, pattern: seq<Pulse>) {
    forall i :: 0 <= i < |pattern| ==> i in memory && memory[i] == (pattern[i].pulseOrder, pattern[i].wait)
  }

  lemma StoresSnoc(memory: map<nat, (nat, nat)>, pattern: seq<Pulse>, n: nat)
    requires |pattern| == n + 1 && Stores(memory, pattern[..n])
    ensures Stores(memory[n := (pattern[n].pulseOrder, pattern[n].wait)], pattern)
  {
  }

  lemma {:induction false} PulsesStored(b: Board, pattern: seq<Pulse>)
    ensures ReceiveAll(b, PulsePackets(pattern)).started == b.started
    ensures |pattern| <= SHORT_WRAP ==> Stores(ReceiveAll(b, PulsePackets(pattern)).memory, pattern)
    decreases |pattern|
  {
    hide Receive, PulsePacket, ReceiveAll, Stores;
    if pattern == [] {
      NothingStored(b);
    } else {
      var n := |pattern| - 1;
      var before := ReceiveAll(b, PulsePackets(pattern[..n]));
      PulsesStored(b, pattern[..n]);
      ReceiveSnoc(b, PulsePackets(pattern[..n]), PulsePacket(n, pattern[n]));
      ReceivePulse(before, n, pattern[n]);
      if |pattern| <= SHORT_WRAP {
        StoresSnoc(before.memory, pattern, n);
      }
    }
  }

  lemma NothingStored(b: Board)
    ensures ReceiveAll(b, []) == b && Stores(b.memory, [])
  {
  }

  lemma SessionTail(b: Board, ir: IRData)
    ensures ReceiveAll(b, Session(ir)) ==
            ReceiveAll(b, PulsePackets(ir.pattern))
              .(carrier := ir.carrierPeriod, length := |ir.pattern| % SHORT_WRAP, started := true)
  {
    hide Receive, ReceiveAll, PulsePackets, ParameterPacket;
    var pulses, last := PulsePackets(ir.pattern), ParameterPacket(ir);
    var b1 := ReceiveAll(b, pulses);
    ReceiveSnoc(b, pulses, last);
    ReceiveSnoc(b, pulses + [last], VERIFY);
    ReceiveSnoc(b, pulses + [last] + [VERIFY], START);
    assert Session(ir) == pulses + [last] + [VERIFY] + [START];
    ReceiveParameters(b1, ir);
    VerifyAndStart(Receive(b1, last));
  }

  /** A board that has received the whole session has started, and holds exactly the given pattern
      if and only if the pattern's length fits the sixteen bits it is sent in. */
  lemma SessionLoadsIff(b: Board, ir: IRData)
    ensures var r := ReceiveAll(b, Session(ir));
            r.started && (Holds(r, ir) <==> |ir.pattern| < SHORT_WRAP)
  {
    hide ReceiveAll, PulsePackets, Session;
    SessionTail(b, ir);
    PulsesStored(b, ir.pattern);
  }

  lemma VerifyAndStart(b: Board)
    ensures Receive(Receive(b, VERIFY), START) == b.(started := true)
  {
  }

  // ----- pattern files -----

  function PulseBytes(p: Pulse): seq<Byte> {
    LittleEndian(p.pulseOrder, 2) + LittleEndian(p.wait, 4)
  }

  function PatternBytes(pattern: seq<Pulse>): seq<Byte> {
    if pattern == [] then [] else PulseBytes(pattern[0]) + PatternBytes(pattern[1..])
  }

  function Saved(ir: IRData): seq<Byte> {
    LittleEndian(ir.carrierPeriod, 4) + LittleEndian(|ir.pattern| % LONG_WRAP, 4) + PatternBytes(ir.pattern)
  }

  /** What an fread of `k` bytes delivers. */
  function Front(rest: seq<Byte>, k: nat): (r: seq<Byte>)
    ensures |r| <= k
  {
    if |rest| < k then rest else rest[..k]
  }

  function After(rest: seq<Byte>, k: nat): (r: seq<Byte>)
    ensures |r| <= |rest|
  {
    if |rest| < k then [] else rest[k..]
  }

  /** Numbers read into variables that hold 0. */
  function ReadShort(rest: seq<Byte>): UShort {
    ShortPowers(2, |Front(rest, 2)|);
    FromLittleEndian(Front(rest, 2))
  }

  function ReadLong(rest: seq<Byte>): ULong {
    ShortPowers(4, |Front(rest, 4)|);
    FromLittleEndian(Front(rest, 4))
  }

  function ReadPulse(rest: seq<Byte>): Pulse {
    Pulse(ReadShort(rest), ReadLong(After(rest, 2)))
  }

  /** Up to `count` pulses, stopping at the first that is zero in either number. */
  function Pulses(rest: seq<Byte>, count: nat): seq<Pulse>
    decreases count
  {
    if count == 0 || !Radiates(ReadPulse(rest)) then []
    else [ReadPulse(rest)] + Pulses(After(After(rest, 2), 4), count - 1)
  }

  predicate Radiates(p: Pulse) {
    p.pulseOrder > 0 && p.wait > 0
  }

  /** Is the file complete, and what does it hold? */
  function Loaded(file: seq<Byte>): (bool, IRData) {
    var count := ReadLong(After(file, 4));
    var pattern := Pulses(After(After(file, 4), 4), count);
    (|pattern| == count, IRData(ReadLong(file), pattern))
  }

  lemma {:induction false} ShortPowers(k: nat, n: nat)
    requires n <= k
    ensures Power256(n) <= Power256(k)
    ensures Power256(2) == SHORT_WRAP && Power256(4) == LONG_WRAP
  {
    Powers();
    if n < k {
      ShortPowers(k - 1, n);
    }
  }

  method SaveIRData(ir: IRData) returns (file: seq<Byte>)
    ensures file == Saved(ir)
  {
    file := LittleEndian(ir.carrierPeriod, 4);
    file := file + LittleEndian(|ir.pattern| % LONG_WRAP, 4);
    ghost var head := file;
    hide PulseBytes, LittleEndian;
    assert ir.pattern[0..] == ir.pattern;
    for i := 0 to |ir.pattern|
      invariant file + PatternBytes(ir.pattern[i..]) == head + PatternBytes(ir.pattern)
    {
      ghost var tail := PatternBytes(ir.pattern[i + 1..]);
      assert ir.pattern[i..][1..] == ir.pattern[i + 1..];
      var entry := PulseBytes(ir.pattern[i]);
      assert file + (entry + tail) == file + entry + tail;
      file := file + entry;
    }
    assert file + [] == file;
  }

  method LoadIRData(file: seq<Byte>) returns (ok: bool, ir: IRData)
    ensures (ok, ir) == Loaded(file)
  {
    hide ReadPulse, ReadLong, After, Radiates;
    var carrierPeriod := ReadLong(file);
    var count := ReadLong(After(file, 4));
    var rest := After(After(file, 4), 4);
    ghost var start := rest;
    var pattern: seq<Pulse> := [];
    var i := 0;
    while i < count
      invariant 0 <= i <= count && |pattern| == i
      invariant pattern + Pulses(rest, count - i) == Pulses(start, count)
    {
      var p := ReadPulse(rest);
      if !Radiates(p) {
        assert pattern + [] == pattern;
        return false, IRData(carrierPeriod, pattern);
      }
      ghost var more := Pulses(After(After(rest, 2), 4), count - i - 1);
      assert pattern + ([p] + more) == pattern + [p] + more;
      rest := After(After(rest, 2), 4);
      pattern := pattern + [p];
      i := i + 1;
    }
    assert pattern + [] == pattern;
    return true, IRData(carrierPeriod, pattern);
  }

  lemma ReadFront(n: nat, k: nat, rest: seq<Byte>)
    requires n < Power256(k)
    ensures var s := LittleEndian(n, k) + rest;
            FromLittleEndian(Front(s, k)) == n && After(s, k) == rest
  {
    LittleEndianRoundTrip(n, k);
    assert (LittleEndian(n, k) + rest)[..k] == LittleEndian(n, k);
  }

  lemma ReadPulseBytes(p: Pulse, rest: seq<Byte>)
    ensures ReadPulse(PulseBytes(p) + rest) == p && After(After(PulseBytes(p) + rest, 2), 4) == rest
  {
    hide LittleEndian, FromLittleEndian, After, Front, Power256;
    ShortPowers(4, 2);
    assert PulseBytes(p) + rest == LittleEndian(p.pulseOrder, 2) + (LittleEndian(p.wait, 4) + rest);
    ReadFront(p.pulseOrder, 2, LittleEndian(p.wait, 4) + rest);
    ReadFront(p.wait, 4, rest);
  }

  predicate AllRadiate(pattern: seq<Pulse>) {
    forall i :: 0 <= i < |pattern| ==> pattern[i].pulseOrder != 0 && pattern[i].wait != 0
  }

  /** Reading back gives the whole pattern, or the part before the first zero. */
  lemma {:induction false} PulsesRead(pattern: seq<Pulse>)
    ensures var r := Pulses(PatternBytes(pattern), |pattern|);
            && |r| <= |pattern| && r == pattern[..|r|]
            && (|r| == |pattern| <==> AllRadiate(pattern))
    decreases |pattern|
  {
    hide PulseBytes, ReadPulse, After, Radiates, AllRadiate;
    NoneIsZero();
    if pattern != [] {
      ReadPulseBytes(pattern[0], PatternBytes(pattern[1..]));
      PulsesRead(pattern[1..]);
      AllStep(pattern);
    }
  }

  lemma NoneIsZero()
    ensures AllRadiate([])
  {
  }

  lemma AllStep(pattern: seq<Pulse>)
    requires pattern != []
    ensures AllRadiate(pattern) <==> Radiates(pattern[0]) && AllRadiate(pattern[1..])
  {
    assert forall i :: 1 <= i < |pattern| ==> pattern[i] == pattern[1..][i - 1];
  }

  /** A saved pattern loads, and loads as it was, if and only if none of its numbers is zero. */
  lemma SaveLoadIff(ir: IRData)
    requires |ir.pattern| < LONG_WRAP
    ensures Loaded(Saved(ir)).0 <==> AllRadiate(ir.pattern)
    ensures Loaded(Saved(ir)) == (true, ir) <==> AllRadiate(ir.pattern)
  {
    hide LittleEndian, FromLittleEndian, After, Front, Power256, Pulses, PatternBytes, AllRadiate;
    ShortPowers(4, 4);
    var body := PatternBytes(ir.pattern);
    var rest := LittleEndian(|ir.pattern|, 4) + body;
    assert Saved(ir) == LittleEndian(ir.carrierPeriod, 4) + rest;
    ReadFront(ir.carrierPeriod, 4, rest);
    ReadFront(|ir.pattern|, 4, body);
    PulsesRead(ir.pattern);
    assert ir.pattern[..|ir.pattern|] == ir.pattern;
  }

  // ----- radiating from a file -----

  /** Radiate of a path: loads the pattern and sends it; a file that does not load sends nothing. */
  method RadiateFile(remote: Remote, file: seq<Byte>) returns (ok: bool)
    requires remote.sent == [] && forall i: nat :: remote.line(i).Failed? ==> remote.line(i).error < 0
    modifies remote
    ensures !Loaded(file).0 ==> !ok && remote.sent == []
    ensures Loaded(file).0 ==> remote.sent <= Session(Loaded(file).1)
    ensures ok <==> Loaded(file).0 && Obeys(remote.line, |Loaded(file).1.pattern|)
    ensures ok ==> remote.sent == Session(Loaded(file).1)
    ensures Loaded(file).0 && !ok ==>
              remote.sent != [] && Ends(remote.line, |Loaded(file).1.pattern|, |remote.sent| - 1)
    ensures forall i :: 0 <= i < |remote.sent| - 1 ==> !Ends(remote.line, |Loaded(file).1.pattern|, i)
  {
    hide Loaded, Session, Ends, Obeys;
    var loaded, ir := LoadIRData(file);
    if !loaded {
      return false;
    }
    var r := remote.Radiate(ir);
    return r > 0;
  }

  /** The bytes of a file with one pulse of small numbers: carrier and count in four bytes each, then
      the order of the pulse in two and its wait in four. */
  lemma FileOfOnePulse(carrier: Byte, order: Byte, wait: Byte)
    ensures Saved(IRData(carrier, [Pulse(order, wait)])) == [carrier, 0, 0, 0, 1, 0, 0, 0, order, 0, wait, 0, 0, 0]
  {
    hide LittleEndian;
    SmallNumbers(carrier);
    SmallNumbers(1);
    SmallNumbers(order);
    SmallNumbers(wait);
    var pattern := [Pulse(order, wait)];
    assert PatternBytes(pattern) == PulseBytes(pattern[0]) + PatternBytes(pattern[1..]);
    assert PatternBytes([]) == [];
  }
}
