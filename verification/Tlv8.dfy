/** Type-length-value messages with one-byte lengths: long values are cut into fragments of 255
    bytes and merged again when parsed. */
module Tlv8 {

  import opened Bytes

  const MAX_FRAGMENT := 255
  const SLOTS := 10
  const LENGTH_WRAP := 65536

  datatype Record = Record(index: Byte, data: seq<Byte>, activate: bool)

  const UNUSED := Record(0, [], false)

  // ----- the format -----

  /** The length byte of the fragment a message starts with. */
  function FirstLength(msg: seq<Byte>): nat
    requires |msg| >= 2
  {
    msg[1]
  }

  /** The message is a run of fragments, each with all its bytes present. */
  predicate WellFormed(msg: seq<Byte>)
    decreases |msg|
  {
    msg == [] || (|msg| >= 2 && |msg| >= 2 + FirstLength(msg) && WellFormed(msg[2 + FirstLength(msg)..]))
  }

  function FirstFragment(msg: seq<Byte>): Record
    requires msg != [] && WellFormed(msg)
  {
    Record(msg[0], msg[2..2 + FirstLength(msg)], true)
  }

  function AfterFirst(msg: seq<Byte>): (r: seq<Byte>)
    requires msg != [] && WellFormed(msg)
    ensures WellFormed(r) && |r| < |msg|
  {
    msg[2 + FirstLength(msg)..]
  }

  function Fragments(msg: seq<Byte>): seq<Record>
    requires WellFormed(msg)
    decreases |msg|
  {
    if msg == [] then [] else [FirstFragment(msg)] + Fragments(AfterFirst(msg))
  }

  /** Position of the first active record with this type, or the number of records. */
  function Position(records: seq<Record>, index: Byte): (i: nat)
    ensures i <= |records|
    ensures i < |records| ==> records[i].activate && records[i].index == index
    ensures forall k :: 0 <= k < i ==> !(records[k].activate && records[k].index == index)
  {
    if records == [] || (records[0].activate && records[0].index == index) then 0
    else 1 + Position(records[1..], index)
  }

  /** A new record, or more bytes for the record of that type. */
  function Absorb(records: seq<Record>, f: Record): seq<Record> {
    var i := Position(records, f.index);
    if i < |records| then records[i := records[i].(data := records[i].data + f.data)]
    else records + [f]
  }

  function Merge(records: seq<Record>, fragments: seq<Record>): seq<Record>
    decreases |fragments|
  {
    if fragments == [] then records else Merge(Absorb(records, fragments[0]), fragments[1..])
  }

  function Parsed(msg: seq<Byte>): seq<Record>
    requires WellFormed(msg)
  {
    Merge([], Fragments(msg))
  }

  function FragmentLength(data: seq<Byte>): nat {
    if |data| > MAX_FRAGMENT then MAX_FRAGMENT else |data|
  }

  function EncodeData(index: Byte, data: seq<Byte>): seq<Byte>
    decreases |data|
  {
    if data == [] then []
    else
      var n := FragmentLength(data);
      [index, n] + data[..n] + EncodeData(index, data[n..])
  }

  function Encode(records: seq<Record>): seq<Byte> {
    if records == [] then []
    else
      var r := records[|records| - 1];
      Encode(records[..|records| - 1]) + if r.activate then EncodeData(r.index, r.data) else []
  }

  // ----- the message object -----

  class PHKNetworkMessageData {
    const records: array<Record>
    var count: nat

    /** Slots past `count` have never been filled. */
    ghost predicate Valid()
      reads this, records
    {
      records.Length == SLOTS && count <= SLOTS && forall i :: count <= i < SLOTS ==> records[i] == UNUSED
    }

    ghost function Contents(): seq<Record>
      reads this, records
      requires Valid()
    {
      records[..count]
    }

    constructor ()
      ensures Valid() && Contents() == [] && fresh(records)
    {
      records := new Record[SLOTS](_ => UNUSED);
      count := 0;
    }

    /** Parses a message of complete fragments with at most ten types. */
    constructor Parse(rawData: seq<Byte>)
      requires |rawData| < LENGTH_WRAP && WellFormed(rawData) && |Parsed(rawData)| <= SLOTS
      ensures Valid() && Contents() == Parsed(rawData) && fresh(records)
    {
      records := new Record[SLOTS](_ => UNUSED);
      count := 0;
      new;
      Load(rawData);
    }

    /** The parsing loop. */
    method Load(rawData: seq<Byte>)
      requires Valid() && Contents() == []
      requires |rawData| < LENGTH_WRAP && WellFormed(rawData) && |Parsed(rawData)| <= SLOTS
      modifies this`count, records
      ensures Valid() && Contents() == Parsed(rawData)
    {
      hide WellFormed, Fragments, Merge, Absorb, Position, FirstFragment, AfterFirst, FirstLength;
      var delta: nat := 0;
      assert rawData[0..] == rawData;
      while delta < |rawData|
        invariant Valid() && delta <= |rawData| && WellFormed(rawData[delta..])
        invariant Merge(Contents(), Fragments(rawData[delta..])) == Parsed(rawData)
      {
        MergeStep(Contents(), rawData[delta..]);
        FragmentAt(rawData, delta);
        var index, length := rawData[delta], rawData[delta + 1];
        var bytes := rawData[delta + 2..delta + 2 + length];
        AbsorbFragment(index, bytes);
        delta := delta + 2 + length;
      }
      assert rawData[delta..] == [];
      MergeStep(Contents(), []);
    }

    /** The loop body: a new slot, or more bytes for the slot of this type. */
    method AbsorbFragment(index: Byte, bytes: seq<Byte>)
      requires Valid() && |Absorb(Contents(), Record(index, bytes, true))| <= SLOTS
      modifies this`count, records
      ensures Valid() && Contents() == Absorb(old(Contents()), Record(index, bytes, true))
    {
      var slot := RecordIndex(index);
      if slot < 0 {
        records[count] := Record(index, bytes, true);
        count := count + 1;
      } else {
        records[slot] := records[slot].(data := records[slot].data + bytes);
      }
    }

    /** Slot of the active record of a type, or -1. */
    method RecordIndex(index: Byte) returns (slot: int)
      requires Valid()
      ensures slot == if Position(Contents(), index) < count then Position(Contents(), index) else -1
    {
      ghost var all := Contents();
      for i := 0 to count
        invariant forall k :: 0 <= k < i ==> !(all[k].activate && all[k].index == index)
      {
        assert all[i] == records[i];
        if records[i].activate && records[i].index == index {
          return i;
        }
      }
      return -1;
    }

    method AddRecord(record: Record)
      requires Valid() && count < SLOTS
      modifies this, records
      ensures Valid() && Contents() == old(Contents()) + [record]
    {
      records[count] := record;
      count := count + 1;
    }

    /** Serialises the active records; the length is kept in sixteen bits. */
    method RawData() returns (data: seq<Byte>, len: nat)
      requires Valid()
      ensures len == |Encode(Contents())| % LENGTH_WRAP && data == Encode(Contents())[..len]
    {
      var buffer: seq<Byte> := [];
      for i := 0 to SLOTS
        invariant buffer == Encode(records[..i])
      {
        assert records[..i + 1][..i] == records[..i];
        if records[i].activate {
          var fragments := Fragment(records[i]);
          buffer := buffer + fragments;
        }
      }
      EncodeUnused(Contents(), records[count..]);
      assert records[..SLOTS] == Contents() + records[count..];
      len := |buffer| % LENGTH_WRAP;
      data := buffer[..len];
    }

    /** The fragments of one record. */
    method Fragment(r: Record) returns (buffer: seq<Byte>)
      ensures buffer == EncodeData(r.index, r.data)
    {
      hide EncodeData;
      buffer := [];
      var j: nat := 0;
      assert r.data[0..] == r.data;
      while j != |r.data|
        invariant j <= |r.data|
        invariant buffer + EncodeData(r.index, r.data[j..]) == EncodeData(r.index, r.data)
        decreases |r.data| - j
      {
        var len := if |r.data| - j > MAX_FRAGMENT then MAX_FRAGMENT else |r.data| - j;
        var temp := [r.index, len] + r.data[j..j + len];
        EncodeStep(r.index, r.data, j, temp);
        buffer := buffer + temp;
        j := j + len;
      }
      assert r.data[j..] == [];
      EncodeNothing(r.index);
    }
  }

  lemma EncodeStep(index: Byte, data: seq<Byte>, j: nat, head: seq<Byte>)
    requires j < |data|
    requires var n := FragmentLength(data[j..]); head == [index, n] + data[j..j + n]
    ensures var n := FragmentLength(data[j..]); EncodeData(index, data[j..]) == head + EncodeData(index, data[j + n..])
  {
    var n := FragmentLength(data[j..]);
    assert data[j..][..n] == data[j..j + n] && data[j..][n..] == data[j + n..];
  }

  lemma EncodeNothing(index: Byte)
    ensures EncodeData(index, []) == []
  {
  }

  /** The fragment that starts at offset `delta`, in terms of the whole buffer. */
  lemma FragmentAt(msg: seq<Byte>, delta: nat)
    requires delta < |msg| && WellFormed(msg[delta..])
    ensures delta + 1 < |msg| && delta + 2 + msg[delta + 1] as int <= |msg|
    ensures var n: nat := msg[delta + 1];
            && FirstFragment(msg[delta..]) == Record(msg[delta], msg[delta + 2..delta + 2 + n], true)
            && AfterFirst(msg[delta..]) == msg[delta + 2 + n..]
  {
    var rest := msg[delta..];
    assert rest[1] == msg[delta + 1];
  }

  lemma MergeStep(records: seq<Record>, msg: seq<Byte>)
    requires WellFormed(msg)
    ensures msg == [] ==> Merge(records, Fragments(msg)) == records
    ensures msg != [] ==>
              && |msg| >= 2 + FirstLength(msg)
              && Merge(records, Fragments(msg)) ==
                 Merge(Absorb(records, FirstFragment(msg)), Fragments(AfterFirst(msg)))
              && |Absorb(records, FirstFragment(msg))| <= |Merge(records, Fragments(msg))|
  {
    if msg != [] {
      var tail := Fragments(AfterFirst(msg));
      assert ([FirstFragment(msg)] + tail)[1..] == tail;
      MergeGrows(Absorb(records, FirstFragment(msg)), tail);
    }
  }

  lemma {:induction false} MergeGrows(records: seq<Record>, fragments: seq<Record>)
    ensures |Merge(records, fragments)| >= |records|
    decreases |fragments|
  {
    if fragments != [] {
      MergeGrows(Absorb(records, fragments[0]), fragments[1..]);
    }
  }

  lemma {:induction false} EncodeUnused(records: seq<Record>, rest: seq<Record>)
    requires forall i :: 0 <= i < |rest| ==> rest[i] == UNUSED
    ensures Encode(records + rest) == Encode(records)
    decreases |rest|
  {
    if rest == [] {
      assert records + rest == records;
    } else {
      var n := |rest| - 1;
      EncodeUnused(records, rest[..n]);
      assert (records + rest)[..|records| + n] == records + rest[..n];
    }
  }
}
