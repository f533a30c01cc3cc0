/** What parsing and serialising TLV messages do to each other. */
module TlvTheorems {
  import opened Bytes
  import opened Tlv8
  import opened Wrappers

  predicate AllActive(records: seq<Record>) {
    forall i :: 0 <= i < |records| ==> records[i].activate
  }

  predicate DistinctTypes(records: seq<Record>) {
    forall i, j :: 0 <= i < j < |records| ==> records[i].index != records[j].index
  }

  // ----- merging, independently of the order of the steps -----

  /** All bytes of one type, fragment by fragment. */
  function Gather(fragments: seq<Record>, index: Byte): seq<Byte> {
    if fragments == [] then []
    else
      var f := fragments[|fragments| - 1];
      Gather(fragments[..|fragments| - 1], index) + if f.index == index then f.data else []
  }

  /** The types of a message in the order of their first fragments. */
  function TypesInOrder(fragments: seq<Record>): seq<Byte> {
    if fragments == [] then []
    else
      var types := TypesInOrder(fragments[..|fragments| - 1]);
      var index := fragments[|fragments| - 1].index;
      if index in types then types else types + [index]
  }

  lemma {:induction false} MergeSnoc(records: seq<Record>, fragments: seq<Record>, f: Record)
    ensures Merge(records, fragments + [f]) == Absorb(Merge(records, fragments), f)
    decreases |fragments|
  {
    hide Absorb;
    if fragments == [] {
      assert [f][1..] == [];
      assert Merge(records, [f]) == Merge(Absorb(records, f), []);
      assert fragments + [f] == [f];
    } else {
      MergeSnoc(Absorb(records, fragments[0]), fragments[1..], f);
      assert (fragments + [f])[1..] == fragments[1..] + [f];
    }
  }

  lemma {:induction false} MergeConcat(records: seq<Record>, a: seq<Record>, b: seq<Record>)
    ensures Merge(records, a + b) == Merge(Merge(records, a), b)
    decreases |b|
  {
    hide Absorb;
    if b == [] {
      assert a + b == a;
    } else {
      var n := |b| - 1;
      MergeConcat(records, a, b[..n]);
      MergeSnoc(records, a + b[..n], b[n]);
      MergeSnoc(Merge(records, a), b[..n], b[n]);
      assert a + b == a + b[..n] + [b[n]] && b == b[..n] + [b[n]];
    }
  }

  ghost predicate IsMergeOf(records: seq<Record>, fragments: seq<Record>) {
    var types := TypesInOrder(fragments);
    && |records| == |types|
    && forall i :: 0 <= i < |records| ==>
         records[i] == Record(types[i], Gather(fragments, types[i]), true)
  }

  lemma {:induction false} GatherAbsent(fragments: seq<Record>, index: Byte)
    requires index !in TypesInOrder(fragments)
    ensures Gather(fragments, index) == []
    decreases |fragments|
  {
    if fragments != [] {
      GatherAbsent(fragments[..|fragments| - 1], index);
    }
  }

  lemma {:induction false} TypesDistinct(fragments: seq<Record>)
    ensures Once(TypesInOrder(fragments))
    decreases |fragments|
  {
    if fragments != [] {
      TypesDistinct(fragments[..|fragments| - 1]);
      var before, index := TypesInOrder(fragments[..|fragments| - 1]), fragments[|fragments| - 1].index;
      if index !in before {
        assert TypesInOrder(fragments) == before + [index];
        assert forall i :: 0 <= i < |before| ==> before[i] in before;
      } else {
        assert TypesInOrder(fragments) == before;
      }
    }
  }

  lemma AbsorbKeepsMerge(records: seq<Record>, fragments: seq<Record>, f: Record)
    requires IsMergeOf(records, fragments) && f.activate
    ensures IsMergeOf(Absorb(records, f), fragments + [f])
  {
    hide Gather, TypesInOrder;
    var all := fragments + [f];
    var types, i := TypesInOrder(fragments), Position(records, f.index);
    TypesDistinct(fragments);
    LastFragment(fragments, f);
    if i < |records| {
      assert types[i] == f.index;
    } else {
      assert f.index !in types by {
        assert forall k :: 0 <= k < |types| ==> records[k].index == types[k];
      }
      GatherAbsent(fragments, f.index);
    }
  }

  lemma LastFragment(fragments: seq<Record>, f: Record)
    ensures forall t :: Gather(fragments + [f], t) == Gather(fragments, t) + if f.index == t then f.data else []
    ensures var types := TypesInOrder(fragments);
            TypesInOrder(fragments + [f]) == if f.index in types then types else types + [f.index]
  {
    assert (fragments + [f])[..|fragments|] == fragments;
  }

  /** Merging keeps one record per type, in the order of the first fragments, each holding its
      fragments' bytes in order. */
  lemma {:induction false} MergeGathers(fragments: seq<Record>)
    requires AllActive(fragments)
    ensures IsMergeOf(Merge([], fragments), fragments)
    decreases |fragments|
  {
    hide IsMergeOf, Absorb;
    if fragments == [] {
      NothingMerged();
    } else {
      var n := |fragments| - 1;
      MergeGathers(fragments[..n]);
      MergeSnoc([], fragments[..n], fragments[n]);
      AbsorbKeepsMerge(Merge([], fragments[..n]), fragments[..n], fragments[n]);
      assert fragments == fragments[..n] + [fragments[n]];
    }
  }

  lemma NothingMerged()
    ensures IsMergeOf([], [])
  {
  }

  lemma {:induction false} FragmentsActive(msg: seq<Byte>)
    requires WellFormed(msg)
    ensures AllActive(Fragments(msg))
    ensures forall f :: f in Fragments(msg) ==> |f.data| <= MAX_FRAGMENT
    decreases |msg|
  {
    if msg != [] {
      FragmentsActive(AfterFirst(msg));
    }
  }

  /** Parsing gives each type the bytes of all its fragments, types in order of appearance. */
  lemma ParsedGathers(msg: seq<Byte>)
    requires WellFormed(msg)
    ensures IsMergeOf(Parsed(msg), Fragments(msg))
    ensures DistinctTypes(Parsed(msg)) && AllActive(Parsed(msg))
  {
    hide Merge, Fragments;
    FragmentsActive(msg);
    MergeGathers(Fragments(msg));
    TypesDistinct(Fragments(msg));
    var types, records := TypesInOrder(Fragments(msg)), Parsed(msg);
    forall i, j | 0 <= i < j < |records| ensures records[i].index != records[j].index {
      assert records[i].index == types[i] && records[j].index == types[j] && types[i] != types[j];
    }
  }

  // ----- serialising then parsing -----

  /** The records that reach the wire: active ones that hold something. */
  function Sent(records: seq<Record>): seq<Record> {
    if records == [] then []
    else
      var r := records[|records| - 1];
      Sent(records[..|records| - 1]) + if r.activate && r.data != [] then [r] else []
  }

  lemma {:induction false} FragmentsConcat(a: seq<Byte>, b: seq<Byte>)
    requires WellFormed(a) && WellFormed(b)
    ensures WellFormed(a + b) && Fragments(a + b) == Fragments(a) + Fragments(b)
    decreases |a|
  {
    hide WellFormed, Fragments, FirstFragment, AfterFirst;
    EmptyMessage();
    if a == [] {
      assert a + b == b && [] + Fragments(b) == Fragments(b);
    } else {
      FragmentsConcat(AfterFirst(a), b);
      ConcatFirst(a, b);
      FragmentsUnfold(a);
      FragmentsUnfold(a + b);
      assert a + b != [];
    }
  }

  lemma FragmentsUnfold(msg: seq<Byte>)
    requires WellFormed(msg)
    ensures msg != [] ==> Fragments(msg) == [FirstFragment(msg)] + Fragments(AfterFirst(msg))
  {
  }

  lemma ConcatFirst(a: seq<Byte>, b: seq<Byte>)
    requires a != [] && WellFormed(a) && WellFormed(AfterFirst(a) + b)
    ensures WellFormed(a + b) && FirstFragment(a + b) == FirstFragment(a) && AfterFirst(a + b) == AfterFirst(a) + b
  {
    var n := 2 + FirstLength(a);
    assert (a + b)[1] == a[1];
    assert (a + b)[n..] == a[n..] + b && (a + b)[2..n] == a[2..n];
  }

  /** One encoded fragment. */
  lemma OneFragment(index: Byte, bytes: seq<Byte>, rest: seq<Byte>)
    requires |bytes| <= MAX_FRAGMENT && WellFormed(rest)
    ensures var n: Byte := |bytes|;
            var msg := [index, n] + bytes + rest;
            WellFormed(msg) && Fragments(msg) == [Record(index, bytes, true)] + Fragments(rest)
  {
    var n: Byte := |bytes|;
    var msg := [index, n] + bytes + rest;
    assert msg[2..2 + |bytes|] == bytes && msg[2 + |bytes|..] == rest;
  }

  lemma AbsorbTwice(records: seq<Record>, index: Byte, a: seq<Byte>, b: seq<Byte>)
    ensures Absorb(Absorb(records, Record(index, a, true)), Record(index, b, true)) ==
            Absorb(records, Record(index, a + b, true))
  {
    var once := Absorb(records, Record(index, a, true));
    var i := Position(records, index);
    PositionAfterAbsorb(records, Record(index, a, true));
    if i < |records| {
      assert records[i].data + a + b == records[i].data + (a + b);
    }
  }

  lemma {:induction false} PositionAfterAbsorb(records: seq<Record>, f: Record)
    requires f.activate
    ensures Position(Absorb(records, f), f.index) == Position(records, f.index)
  {
    if records != [] && !(records[0].activate && records[0].index == f.index) {
      PositionAfterAbsorb(records[1..], f);
      var i := Position(records[1..], f.index);
      assert Absorb(records, f)[1..] == Absorb(records[1..], f);
    }
  }

  /** Absorbing the fragments of a long value is absorbing the value. */
  lemma {:induction false} EncodedValue(records: seq<Record>, index: Byte, data: seq<Byte>)
    requires data != []
    ensures WellFormed(EncodeData(index, data))
    ensures Merge(records, Fragments(EncodeData(index, data))) == Absorb(records, Record(index, data, true))
    decreases |data|
  {
    hide Absorb, WellFormed, Fragments;
    var n := FragmentLength(data);
    var head, tail := data[..n], data[n..];
    var first := Absorb(records, Record(index, head, true));
    assert data == head + tail;
    EmptyMessage();
    if tail == [] {
      OneFragment(index, head, []);
      assert [index, n] + head + [] == EncodeData(index, data);
      assert [Record(index, head, true)] + [] == [Record(index, head, true)];
      MergeOne(records, Record(index, head, true));
      assert head == data;
    } else {
      EncodedValue(first, index, tail);
      OneFragment(index, head, EncodeData(index, tail));
      MergeCons(records, Record(index, head, true), Fragments(EncodeData(index, tail)));
      AbsorbTwice(records, index, head, tail);
    }
  }

  lemma EmptyMessage()
    ensures WellFormed([]) && Fragments([]) == []
  {
  }

  lemma MergeCons(records: seq<Record>, f: Record, rest: seq<Record>)
    ensures Merge(records, [f] + rest) == Merge(Absorb(records, f), rest)
  {
    assert ([f] + rest)[1..] == rest;
  }

  lemma MergeOne(records: seq<Record>, f: Record)
    ensures Merge(records, [f]) == Absorb(records, f)
  {
    MergeCons(records, f, []);
    assert [f] + [] == [f];
  }

  /** Parsing what was serialised merges the sent records by type. */
  lemma {:induction false} ParsedEncoding(records: seq<Record>)
    ensures WellFormed(Encode(records)) && Parsed(Encode(records)) == Merge([], Sent(records))
    decreases |records|
  {
    hide Absorb, WellFormed, Fragments, EncodeData, Merge;
    EmptyMessage();
    if records != [] {
      var n, r := |records| - 1, records[|records| - 1];
      var init := Encode(records[..n]);
      ParsedEncoding(records[..n]);
      if r.activate && r.data != [] {
        var value := EncodeData(r.index, r.data);
        EncodedValue(Parsed(init), r.index, r.data);
        FragmentsConcat(init, value);
        MergeConcat([], Fragments(init), Fragments(value));
        MergeSnoc([], Sent(records[..n]), r);
        assert Record(r.index, r.data, true) == r;
      } else {
        if r.activate {
          EncodeNothing(r.index);
        }
        assert init + [] == init && Sent(records[..n]) + [] == Sent(records[..n]);
      }
    }
  }

  lemma {:induction false} MergeDistinct(records: seq<Record>)
    requires AllActive(records) && DistinctTypes(records)
    ensures Merge([], records) == records
    decreases |records|
  {
    hide Absorb;
    if records != [] {
      var n := |records| - 1;
      MergeDistinct(records[..n]);
      MergeSnoc([], records[..n], records[n]);
      assert records == records[..n] + [records[n]];
      AbsorbNew(records[..n], records[n]);
    }
  }

  lemma AbsorbNew(records: seq<Record>, f: Record)
    requires forall i :: 0 <= i < |records| ==> records[i].index != f.index
    ensures Absorb(records, f) == records + [f]
  {
  }

  lemma {:induction false} SentIsSubsequence(records: seq<Record>)
    requires AllActive(records) && DistinctTypes(records)
    ensures AllActive(Sent(records)) && DistinctTypes(Sent(records)) && |Sent(records)| <= |records|
    ensures forall r :: r in Sent(records) <==> r in records && r.data != []
    decreases |records|
  {
    if records != [] {
      var n := |records| - 1;
      SentIsSubsequence(records[..n]);
      assert records == records[..n] + [records[n]];
      var before := Sent(records[..n]);
      forall i | 0 <= i < |before| ensures before[i].index != records[n].index {
        assert before[i] in before && before[i] in records[..n];
      }
    }
  }

  lemma {:induction false} SentAll(records: seq<Record>)
    requires AllActive(records) && forall i :: 0 <= i < |records| ==> records[i].data != []
    ensures Sent(records) == records
    decreases |records|
  {
    if records != [] {
      SentAll(records[..|records| - 1]);
    }
  }

  /** Records of distinct types with values of any length come back as they were. */
  lemma RoundTrip(records: seq<Record>)
    requires AllActive(records) && DistinctTypes(records)
    requires forall i :: 0 <= i < |records| ==> records[i].data != []
    ensures WellFormed(Encode(records)) && Parsed(Encode(records)) == records
  {
    hide WellFormed, Merge, Encode;
    ParsedEncoding(records);
    SentAll(records);
    MergeDistinct(records);
  }

  // ----- the sixteen-bit length -----

  /** Bytes that the value of `n` bytes takes on the wire. */
  function Cost(n: nat): nat {
    n + 2 * ((n + 254) / 255)
  }

  function TotalCost(records: seq<Record>): nat {
    if records == [] then 0
    else
      var r := records[|records| - 1];
      TotalCost(records[..|records| - 1]) + if r.activate then Cost(|r.data|) else 0
  }

  lemma {:induction false} EncodeDataCost(index: Byte, data: seq<Byte>)
    ensures |EncodeData(index, data)| == Cost(|data|)
    decreases |data|
  {
    if data != [] {
      EncodeDataCost(index, data[FragmentLength(data)..]);
    }
  }

  lemma {:induction false} EncodeCost(records: seq<Record>)
    ensures |Encode(records)| == TotalCost(records)
    decreases |records|
  {
    if records != [] {
      var r := records[|records| - 1];
      EncodeCost(records[..|records| - 1]);
      EncodeDataCost(r.index, r.data);
    }
  }

  lemma {:induction false} CostOfUpdate(records: seq<Record>, i: nat, r: Record)
    requires i < |records| && records[i].activate && r.activate
    ensures TotalCost(records[i := r]) == TotalCost(records) - Cost(|records[i].data|) + Cost(|r.data|)
    decreases |records|
  {
    var n := |records| - 1;
    if i < n {
      CostOfUpdate(records[..n], i, r);
      assert records[i := r][..n] == records[..n][i := r];
    } else {
      assert records[i := r][..n] == records[..n];
    }
  }

  lemma AbsorbCost(records: seq<Record>, f: Record)
    requires f.activate && |f.data| <= MAX_FRAGMENT
    ensures TotalCost(Absorb(records, f)) <= TotalCost(records) + 2 + |f.data|
  {
    var i := Position(records, f.index);
    if i < |records| {
      CostOfUpdate(records, i, records[i].(data := records[i].data + f.data));
    } else {
      assert (records + [f])[..|records|] == records;
    }
  }

  lemma {:induction false} MergeCost(records: seq<Record>, msg: seq<Byte>)
    requires WellFormed(msg)
    ensures TotalCost(Merge(records, Fragments(msg))) <= TotalCost(records) + |msg|
    decreases |msg|
  {
    hide Absorb, Merge, TotalCost, Fragments;
    MergeStep(records, msg);
    if msg != [] {
      AbsorbCost(records, FirstFragment(msg));
      MergeCost(Absorb(records, FirstFragment(msg)), AfterFirst(msg));
    }
  }

  /** What the serialiser hands out: the encoding cut to a length that fits sixteen bits. */
  function OnTheWire(records: seq<Record>): seq<Byte> {
    Encode(records)[..|Encode(records)| % LENGTH_WRAP]
  }

  lemma SentStep(records: seq<Record>)
    requires records != []
    ensures var n := |records| - 1;
            Sent(records) == if records[n].activate && records[n].data != [] then Sent(records[..n]) + [records[n]]
                             else Sent(records[..n])
  {
  }

  lemma {:induction false} SentCost(records: seq<Record>)
    ensures AllActive(Sent(records)) && TotalCost(Sent(records)) == TotalCost(records)
    decreases |records|
  {
    hide Sent, TotalCost, Cost;
    if records == [] {
      NothingSent();
    } else {
      var n := |records| - 1;
      SentCost(records[..n]);
      SentStep(records);
      NothingSent();
      TotalCostSnoc(records[..n], records[n]);
      TotalCostSnoc(Sent(records[..n]), records[n]);
      assert records == records[..n] + [records[n]];
    }
  }

  lemma NothingSent()
    ensures Sent([]) == [] && Cost(0) == 0
  {
  }

  lemma TotalCostSnoc(records: seq<Record>, r: Record)
    ensures TotalCost(records + [r]) == TotalCost(records) + if r.activate then Cost(|r.data|) else 0
  {
    assert (records + [r])[..|records|] == records;
  }

  /** The bytes handed out parse back to the records that hold something if and only if their cost
      fits sixteen bits. */
  lemma WireRoundTripIff(records: seq<Record>)
    requires DistinctTypes(Sent(records))
    ensures WellFormed(OnTheWire(records)) && Parsed(OnTheWire(records)) == Sent(records) <==>
            TotalCost(records) < LENGTH_WRAP
  {
    hide Encode, WellFormed, Merge, TotalCost, Fragments, Sent, DistinctTypes;
    var full := Encode(records);
    ParsedEncoding(records);
    SentCost(records);
    MergeDistinct(Sent(records));
    EncodeCost(records);
    if |full| < LENGTH_WRAP {
      assert full[..|full|] == full;
    } else if WellFormed(OnTheWire(records)) {
      MergeCost([], OnTheWire(records));
      NoCost();
    }
  }

  /** Parse, serialise, parse again: the records of the first parse that hold something. */
  lemma ParseAgain(msg: seq<Byte>)
    requires WellFormed(msg) && |msg| < LENGTH_WRAP
    ensures WellFormed(OnTheWire(Parsed(msg)))
    ensures Parsed(OnTheWire(Parsed(msg))) == Sent(Parsed(msg))
  {
    hide WellFormed, Merge, Encode, Fragments, TotalCost, Sent, OnTheWire, DistinctTypes, AllActive;
    ParsedGathers(msg);
    SentIsSubsequence(Parsed(msg));
    MergeCost([], msg);
    NoCost();
    WireRoundTripIff(Parsed(msg));
  }

  lemma NoCost()
    ensures TotalCost([]) == 0
  {
  }

  // ----- the layout of a long value -----

  /** Where the fragment of byte `k` of a value begins. */
  function FragmentStart(k: nat): nat {
    k / MAX_FRAGMENT * (MAX_FRAGMENT + 2)
  }

  /** Every byte of a value lies in the fragment of 255 that it belongs to, behind the type and the
      length of that fragment. */
  lemma {:induction false} FragmentLayout(index: Byte, data: seq<Byte>, k: nat)
    requires k < |data|
    ensures var at, out := FragmentStart(k), EncodeData(index, data);
            var n := |data| - k / MAX_FRAGMENT * MAX_FRAGMENT;
            && at + 2 + k % MAX_FRAGMENT < |out|
            && out[at] == index && out[at + 1] == (if n > MAX_FRAGMENT then MAX_FRAGMENT else n)
            && out[at + 2 + k % MAX_FRAGMENT] == data[k]
    decreases k
  {
    hide EncodeData;
    FragmentPlace(k);
    if k >= MAX_FRAGMENT {
      FragmentLayout(index, data[MAX_FRAGMENT..], k - MAX_FRAGMENT);
    }
    FirstFragmentOf(index, data);
  }

  lemma FragmentPlace(k: nat)
    ensures k < MAX_FRAGMENT ==> FragmentStart(k) == 0 && k / MAX_FRAGMENT == 0 && k % MAX_FRAGMENT == k
    ensures k >= MAX_FRAGMENT ==>
              && FragmentStart(k) == FragmentStart(k - MAX_FRAGMENT) + MAX_FRAGMENT + 2
              && k / MAX_FRAGMENT == (k - MAX_FRAGMENT) / MAX_FRAGMENT + 1
              && k % MAX_FRAGMENT == (k - MAX_FRAGMENT) % MAX_FRAGMENT
  {
  }

  lemma FirstFragmentOf(index: Byte, data: seq<Byte>)
    requires data != []
    ensures var n := FragmentLength(data);
            EncodeData(index, data) == [index, n] + data[..n] + EncodeData(index, data[n..])
  {
  }
}
