/** The session files of the web server: length-prefixed keys and values, written from a map and
    read back into one through two fixed buffers. */
module SessionFile {
  import opened Bytes
  import opened Wrappers

  const BUFFER_SIZE: nat := 10000
  const SHORT_WRAP := 65536

  type Text = seq<Byte>

  /** "__regen__" and "__delete__": requests to the session layer, never stored. */
  const REGEN: Text := [95, 95, 114, 101, 103, 101, 110, 95, 95]
  const DELETE: Text := [95, 95, 100, 101, 108, 101, 116, 101, 95, 95]

  // ----- writing -----

  /** A length as an unsigned short and that many bytes of the text. */
  function Field(t: Text): seq<Byte> {
    var n := |t| % SHORT_WRAP;
    LittleEndian(n, 2) + t[..n]
  }

  function Entry(k: Text, v: Text): seq<Byte> {
    if k == REGEN || k == DELETE || |k| % SHORT_WRAP == 0 || |v| % SHORT_WRAP == 0 then []
    else Field(k) + Field(v)
  }

  function Written(data: map<Text, Text>, order: seq<Text>): seq<Byte>
    requires forall k :: k in order ==> k in data
  {
    if order == [] then []
    else Entry(order[0], data[order[0]]) + Written(data, order[1..])
  }

  // ----- reading -----

  /** The bytes up to the first zero. */
  function CString(s: seq<Byte>): (r: seq<Byte>)
    ensures 0 !in r && |r| <= |s|
  {
    if s == [] || s[0] == 0 then [] else [s[0]] + CString(s[1..])
  }

  /** One fread of `n` bytes: what it delivers, shorter at the end of the file. */
  function Delivered(rest: seq<Byte>, n: nat): (k: nat)
    ensures k <= n && k <= |rest|
  {
    if |rest| < n then |rest| else n
  }

  /** The buffer after reading `n` bytes and putting a zero behind them: bytes that the file does
      not have stay as they were. */
  function Fill(buffer: seq<Byte>, rest: seq<Byte>, n: nat): (r: seq<Byte>)
    requires |buffer| == BUFFER_SIZE && n < BUFFER_SIZE
    ensures |r| == BUFFER_SIZE
  {
    var k := Delivered(rest, n);
    (rest[..k] + buffer[k..])[n := 0]
  }

  function Number(rest: seq<Byte>): nat {
    FromLittleEndian(rest[..Delivered(rest, 2)])
  }

  function After(rest: seq<Byte>, n: nat): (r: seq<Byte>)
    ensures |r| <= |rest|
  {
    rest[Delivered(rest, n)..]
  }

  function Inserted(data: map<Text, Text>, k: Text, v: Text): map<Text, Text> {
    if k in data then data else data[k := v]
  }

  /** The reading loop, from the unread bytes, the two buffers and the map so far. */
  function ReadRest(rest: seq<Byte>, key: seq<Byte>, value: seq<Byte>, data: map<Text, Text>): map<Text, Text>
    requires |key| == BUFFER_SIZE && |value| == BUFFER_SIZE
    decreases |rest|
  {
    var keysize := Number(rest);
    if keysize == 0 || keysize >= BUFFER_SIZE then data
    else
      assert rest != [];
      var r1 := After(rest, 2);
      var key1 := Fill(key, r1, keysize);
      var r2 := After(r1, keysize);
      var valuesize := Number(r2);
      if valuesize >= BUFFER_SIZE then data
      else
        var r3 := After(r2, 2);
        var value1 := Fill(value, r3, valuesize);
        ReadRest(After(r3, valuesize), key1, value1, Inserted(data, CString(key1), CString(value1)))
  }

  function Blank(): (r: seq<Byte>)
    ensures |r| == BUFFER_SIZE
  {
    seq(BUFFER_SIZE, _ => 0)
  }

  function Read(file: seq<Byte>, data: map<Text, Text>): map<Text, Text> {
    ReadRest(file, Blank(), Blank(), data)
  }

  // ----- the loops -----

  /** procCookie: the reader, which adds to what the caller's map has. */
  method LoadSession(file: seq<Byte>, before: map<Text, Text>) returns (data: map<Text, Text>)
    ensures data == Read(file, before)
  {
    var key, value := new Byte[BUFFER_SIZE](_ => 0), new Byte[BUFFER_SIZE](_ => 0);
    data := before;
    var rest := file;
    assert key[..] == Blank() && value[..] == Blank();
    while true
      invariant fresh(key) && fresh(value) && key != value
      invariant key.Length == BUFFER_SIZE && value.Length == BUFFER_SIZE
      invariant ReadRest(rest, key[..], value[..], data) == Read(file, before)
      decreases |rest|
    {
      hide CString, Inserted, Blank, Number, After, Fill, Delivered;
      NumberNeedsBytes(rest);
      var keysize := Number(rest);
      if keysize == 0 || keysize >= BUFFER_SIZE {
        return;
      }
      var r1 := After(rest, 2);
      FillBuffer(key, r1, keysize);
      var r2 := After(r1, keysize);
      var valuesize := Number(r2);
      if valuesize >= BUFFER_SIZE {
        return;
      }
      var r3 := After(r2, 2);
      FillBuffer(value, r3, valuesize);
      data := Inserted(data, CString(key[..]), CString(value[..]));
      rest := After(r3, valuesize);
    }
  }

  method FillBuffer(buffer: array<Byte>, rest: seq<Byte>, n: nat)
    requires buffer.Length == BUFFER_SIZE && n < BUFFER_SIZE
    modifies buffer
    ensures buffer[..] == Fill(old(buffer[..]), rest, n)
  {
    for i := 0 to Delivered(rest, n)
      invariant buffer[..i] == rest[..i] && buffer[i..] == old(buffer[i..])
    {
      buffer[i] := rest[i];
    }
    ghost var k := Delivered(rest, n);
    assert buffer[..] == buffer[..k] + buffer[k..];
    buffer[n] := 0;
  }

  /** updateCookie: the writer; `order` is the order in which the map is walked. */
  method SaveSession(data: map<Text, Text>, order: seq<Text>) returns (file: seq<Byte>)
    requires forall k :: k in order ==> k in data
    ensures file == Written(data, order)
  {
    hide Entry, Written;
    file := [];
    WrittenStep(data, order, |order|);
    assert order[0..] == order;
    for i := 0 to |order|
      invariant file + Written(data, order[i..]) == Written(data, order)
    {
      WrittenStep(data, order, i);
      var entry := Entry(order[i], data[order[i]]);
      ghost var tail := Written(data, order[i + 1..]);
      assert file + (entry + tail) == file + entry + tail;
      file := file + entry;
    }
    assert file + [] == file;
  }

  lemma WrittenStep(data: map<Text, Text>, order: seq<Text>, i: nat)
    requires i <= |order| && forall k :: k in order ==> k in data
    ensures i == |order| ==> Written(data, order[i..]) == []
    ensures i < |order| ==>
              Written(data, order[i..]) == Entry(order[i], data[order[i]]) + Written(data, order[i + 1..])
  {
    if i < |order| {
      assert order[i..][0] == order[i] && order[i..][1..] == order[i + 1..];
    }
  }

  // ----- the round trip -----

  predicate Stored(k: Text, v: Text) {
    k != REGEN && k != DELETE && k != [] && v != []
  }

  predicate Fits(t: Text) {
    |t| < BUFFER_SIZE && 0 !in t
  }

  function Kept(data: map<Text, Text>): map<Text, Text> {
    map k | k in data && Stored(k, data[k]) :: data[k]
  }

  lemma {:induction false} CStringOfText(t: Text, rest: seq<Byte>)
    requires 0 !in t && rest != [] && rest[0] == 0
    ensures CString(t + rest) == t
    decreases |t|
  {
    if t == [] {
      assert t + rest == rest;
    } else {
      assert (t + rest)[1..] == t[1..] + rest;
      CStringOfText(t[1..], rest);
    }
  }

  /** Reading a field that fits delivers its text and leaves what follows. */
  lemma ReadField(t: Text, tail: seq<Byte>, buffer: seq<Byte>)
    requires Fits(t) && |buffer| == BUFFER_SIZE
    ensures var rest := Field(t) + tail;
            && Number(rest) == |t|
            && CString(Fill(buffer, After(rest, 2), |t|)) == t
            && After(After(rest, 2), |t|) == tail
  {
    hide CString, LittleEndian, FromLittleEndian;
    var rest := Field(t) + tail;
    Powers();
    LittleEndianRoundTrip(|t|, 2);
    assert t[..|t|] == t;
    assert rest[..2] == LittleEndian(|t|, 2) && rest[2..] == t + tail;
    var r1 := After(rest, 2);
    assert r1 == t + tail;
    assert r1[..|t|] == t && r1[|t|..] == tail;
    var filled := Fill(buffer, r1, |t|);
    assert filled == t + filled[|t|..];
    CStringOfText(t, filled[|t|..]);
  }

  lemma ReadEntry(k: Text, v: Text, tail: seq<Byte>, key: seq<Byte>, value: seq<Byte>, data: map<Text, Text>)
    returns (key1: seq<Byte>, value1: seq<Byte>)
    requires |key| == BUFFER_SIZE && |value| == BUFFER_SIZE && Stored(k, v) && Fits(k) && Fits(v)
    ensures |key1| == BUFFER_SIZE && |value1| == BUFFER_SIZE
    ensures ReadRest(Entry(k, v) + tail, key, value, data) == ReadRest(tail, key1, value1, Inserted(data, k, v))
  {
    hide Field, Number, After, CString, Fill, Inserted;
    var rest := Entry(k, v) + tail;
    assert rest == Field(k) + (Field(v) + tail);
    ReadField(k, Field(v) + tail, key);
    ReadField(v, tail, value);
    var r1 := After(rest, 2);
    key1 := Fill(key, r1, |k|);
    var r2 := After(r1, |k|);
    value1 := Fill(value, After(r2, 2), |v|);
  }

  ghost predicate AllFit(data: map<Text, Text>) {
    forall k :: k in Kept(data) ==> Fits(k) && Fits(data[k])
  }

  lemma {:induction false} ReadWritten(data: map<Text, Text>, order: seq<Text>, key: seq<Byte>, value: seq<Byte>,
                                       got: map<Text, Text>)
    requires AllFit(data) && |key| == BUFFER_SIZE && |value| == BUFFER_SIZE
    requires forall k :: k in order ==> k in data
    requires forall i, j :: 0 <= i < j < |order| ==> order[i] != order[j]
    requires forall k :: k in order ==> k !in got
    ensures var r := ReadRest(Written(data, order), key, value, got);
            && (forall k :: k in r <==> k in got || (k in order && Stored(k, data[k])))
            && (forall k :: k in r ==> r[k] == if k in got then got[k] else data[k])
    decreases |order|
  {
    hide ReadRest, Entry, Stored;
    if order == [] {
      ReadNothing(key, value, got);
    } else {
      var k, v := order[0], data[order[0]];
      var tail := Written(data, order[1..]);
      if Stored(k, v) {
        assert k in Kept(data);
        var key1, value1 := ReadEntry(k, v, tail, key, value, got);
        ReadWritten(data, order[1..], key1, value1, Inserted(got, k, v));
      } else {
        SkippedEntry(k, v);
        assert [] + tail == tail;
        ReadWritten(data, order[1..], key, value, got);
      }
    }
  }

  lemma ReadNothing(key: seq<Byte>, value: seq<Byte>, data: map<Text, Text>)
    requires |key| == BUFFER_SIZE && |value| == BUFFER_SIZE
    ensures ReadRest([], key, value, data) == data
  {
  }

  lemma SkippedEntry(k: Text, v: Text)
    requires !Stored(k, v)
    ensures Entry(k, v) == []
  {
  }

  /** Whatever the file, only texts that fit the buffers are read from it. */
  lemma {:induction false} ReadFits(rest: seq<Byte>, key: seq<Byte>, value: seq<Byte>, data: map<Text, Text>)
    requires |key| == BUFFER_SIZE && |value| == BUFFER_SIZE
    requires forall k :: k in data ==> Fits(k) && Fits(data[k])
    ensures var r := ReadRest(rest, key, value, data);
            forall k :: k in r ==> Fits(k) && Fits(r[k])
    decreases |rest|
  {
    hide CString, Number, After, Fill;
    var keysize := Number(rest);
    if 0 < keysize < BUFFER_SIZE {
      var r1 := After(rest, 2);
      var key1 := Fill(key, r1, keysize);
      var r2 := After(r1, keysize);
      var valuesize := Number(r2);
      if valuesize < BUFFER_SIZE {
        var value1 := Fill(value, After(r2, 2), valuesize);
        FilledFits(key, r1, keysize);
        FilledFits(value, After(r2, 2), valuesize);
        NumberNeedsBytes(rest);
        ReadFits(After(After(r2, 2), valuesize), key1, value1, Inserted(data, CString(key1), CString(value1)));
      }
    }
  }

  lemma NumberNeedsBytes(rest: seq<Byte>)
    ensures Number(rest) > 0 ==> |After(rest, 2)| < |rest|
  {
  }

  lemma {:induction false} CStringStops(s: seq<Byte>, n: nat)
    requires n < |s| && s[n] == 0
    ensures |CString(s)| <= n
    decreases n
  {
    if n > 0 && s[0] != 0 {
      CStringStops(s[1..], n - 1);
    }
  }

  lemma FilledFits(buffer: seq<Byte>, rest: seq<Byte>, n: nat)
    requires |buffer| == BUFFER_SIZE && n < BUFFER_SIZE
    ensures Fits(CString(Fill(buffer, rest, n)))
  {
    CStringStops(Fill(buffer, rest, n), n);
  }

  /** Reading a written session gives back its storable entries if and only if every one of them
      is shorter than the reader's buffers and free of zero bytes. */
  lemma RoundTripIff(data: map<Text, Text>, order: seq<Text>)
    requires Lists(order, data)
    ensures Read(Written(data, order), map[]) == Kept(data) <==> AllFit(data)
  {
    hide ReadRest, Written, Fits, Stored, Blank;
    if AllFit(data) {
      ReadWritten(data, order, Blank(), Blank(), map[]);
    }
    ReadFits(Written(data, order), Blank(), Blank(), map[]);
  }

  // ----- what was there before -----

  /** Reading never changes an entry: what the caller's map had and what the file had first stays. */
  lemma {:induction false} ReadKeeps(rest: seq<Byte>, key: seq<Byte>, value: seq<Byte>, data: map<Text, Text>)
    requires |key| == BUFFER_SIZE && |value| == BUFFER_SIZE
    ensures var r := ReadRest(rest, key, value, data);
            forall k :: k in data ==> k in r && r[k] == data[k]
    decreases |rest|
  {
    hide Number, Fill, After, CString, Inserted;
    NumberNeedsBytes(rest);
    var keysize := Number(rest);
    if 0 < keysize < BUFFER_SIZE {
      var r1 := After(rest, 2);
      var key1 := Fill(key, r1, keysize);
      var r2 := After(r1, keysize);
      var valuesize := Number(r2);
      if valuesize < BUFFER_SIZE {
        var r3 := After(r2, 2);
        var value1 := Fill(value, r3, valuesize);
        InsertedKeeps(data, CString(key1), CString(value1));
        ReadKeeps(After(r3, valuesize), key1, value1, Inserted(data, CString(key1), CString(value1)));
      }
    }
  }

  lemma InsertedKeeps(data: map<Text, Text>, k: Text, v: Text)
    ensures forall q :: q in data ==> q in Inserted(data, k, v) && Inserted(data, k, v)[q] == data[q]
  {
  }

  lemma EarlierEntriesWin(file: seq<Byte>, data: map<Text, Text>)
    ensures forall k :: k in data ==> k in Read(file, data) && Read(file, data)[k] == data[k]
  {
    hide Blank, ReadRest;
    ReadKeeps(file, Blank(), Blank(), data);
  }

  /** The bytes of a short entry: the length of the key in two bytes and the key, then the value alike. */
  lemma ShortEntry(k: Text, v: Text)
    requires 0 < |k| < 256 && 0 < |v| < 256 && k != REGEN && k != DELETE
    ensures Entry(k, v) == [|k|, 0] + k + [|v|, 0] + v
  {
    SmallNumbers(|k|);
    SmallNumbers(|v|);
    assert k[..|k|] == k && v[..|v|] == v;
    assert [|k|, 0] + k + ([|v|, 0] + v) == [|k|, 0] + k + [|v|, 0] + v;
  }
}
