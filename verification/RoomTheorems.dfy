/** What repeated merges do, and walking round the rooms in their order. */
module RoomTheorems {
  import opened Numbers
  import opened Rooms

  // ----- merging again -----

  /** After a merge, everything the sender offers is known, and everything else is as it was. */
  lemma MergeSummary(a: Entries, json: Entries, me: string, c: Entries)
    requires Merged(a, json, me, c)
    ensures forall k :: IsRoom(a, k) ==> HasUuid(c, k, a[Key(k, Uuid)])
    ensures forall k, f :: HasUuid(a, k, me) ==> SameAt(a, c, Key(k, f))
    ensures forall k :: HasUuid(c, k, me) <==> HasUuid(a, k, me)
    ensures UniqueUuids(a) ==> UniqueUuids(c)
    ensures forall j :: Offered(json, me, j) ==>
              (Known(c, Get(json, j, Uuid)) <==> Known(a, Get(json, j, Uuid)) || Storable(Get(json, j, Uuid)))
    ensures forall k, r :: IsRoom(c, k) && !IsRoom(a, k) && IsRoom(a, r) ==> r < k
  {
    hide Storable, Get, Precise;
    RoomIdsAreRooms(json);
    assert !OfferedUuid(json, me, RoomIds(json), me) by { NotOfferedToOneself(json, me, RoomIds(json)); }
    forall k | HasUuid(a, k, me) ensures forall f :: SameAt(a, c, Key(k, f)) {
      SameGets(a, json, me, RoomIds(json), c, k);
    }
    forall k ensures HasUuid(c, k, me) <==> HasUuid(a, k, me) {
      if IsRoom(a, k) {
        assert HasUuid(c, k, a[Key(k, Uuid)]);
      }
    }
  }

  lemma NotOfferedToOneself(json: Entries, me: string, seen: set<int>)
    ensures !OfferedUuid(json, me, seen, me)
  {
  }

  lemma MergedClean(a: Entries, json: Entries, me: string, b: Entries)
    requires Clean(a, json, me) && Merged(a, json, me, b)
    ensures Clean(b, json, me)
  {
  }

  lemma MergeKnows(a: Entries, json: Entries, me: string, b: Entries)
    requires Clean(a, json, me) && Merged(a, json, me, b)
    ensures forall j :: Offered(json, me, j) ==> Known(b, Get(json, j, Uuid))
  {
    hide Storable, Get;
    RoomIdsAreRooms(json);
  }

  lemma KeptBack(a: Entries, c: Entries, k: int)
    requires Kept(a, c) && !IsRoom(c, k)
    ensures !IsRoom(a, k)
  {
  }

  /** Does room `k` have the order that the sender's room `j` gives it? */
  predicate OrderIs(b: Entries, json: Entries, j: int, k: int) {
    Storable(Get(json, j, Order)) ==> Key(k, Order) in b && b[Key(k, Order)] == Get(json, j, Order)
  }

  ghost predicate Settled(b: Entries, json: Entries, me: string) {
    forall j, k :: Offered(json, me, j) && HasUuid(b, k, Get(json, j, Uuid)) ==> OrderIs(b, json, j, k)
  }

  /** The second merge at one room. */
  lemma AgainAtRoom(a: Entries, json: Entries, me: string, b: Entries, c: Entries, k: int)
    requires Clean(a, json, me) && Merged(a, json, me, b) && Merged(b, json, me, c)
    ensures IsRoom(c, k) <==> IsRoom(b, k)
    ensures forall f :: f != Order || Settled(b, json, me) ==> SameAt(b, c, Key(k, f))
  {
    hide Storable, Get, Arrives, SameAt;
    RoomIdsAreRooms(json);
    MergedClean(a, json, me, b);
    if !IsRoom(c, k) {
      KeptBack(b, c, k);
    } else {
      var uuid := c[Key(k, Uuid)];
      if OfferedUuid(json, me, RoomIds(json), uuid) {
        var j :| j in RoomIds(json) && Offered(json, me, j) && Get(json, j, Uuid) == uuid;
        assert Known(b, uuid);
        assert IsRoom(b, k);
        assert HasUuid(c, k, b[Key(k, Uuid)]);
        ArrivesTwice(a, b, c, json, j, k);
      } else {
        assert IsRoom(b, k);
        assert HasUuid(c, k, b[Key(k, Uuid)]);
        SameGets(b, json, me, RoomIds(json), c, k);
      }
    }
  }

  lemma ArrivesTwice(a: Entries, b: Entries, c: Entries, json: Entries, j: int, k: int)
    requires Arrives(a, json, j, k, b) && Arrives(b, json, j, k, c)
    requires Known(b, Get(json, j, Uuid))
    ensures forall f :: f != Order || OrderIs(b, json, j, k) ==> SameAt(b, c, Key(k, f))
    ensures OrderIs(c, json, j, k)
  {
    hide Storable, Known, Get;
    assert ArrivesField(b, Get(json, j, Order), k, Order, true, c);
    forall f | f != Order || OrderIs(b, json, j, k) ensures SameAt(b, c, Key(k, f)) {
      assert ArrivesField(a, Get(json, j, f), k, f, Known(a, Get(json, j, Uuid)), b);
      assert ArrivesField(b, Get(json, j, f), k, f, true, c);
    }
  }

  /** An offered room is there under one number: with what the sender gave, order included, if it
      was known, and with a fresh number if it was not. */
  lemma OfferedRoomArrives(a: Entries, json: Entries, me: string, c: Entries, j: int) returns (k: int)
    requires Clean(a, json, me) && Merged(a, json, me, c) && Offered(json, me, j)
    ensures HasUuid(c, k, Get(json, j, Uuid)) && forall l :: HasUuid(c, l, Get(json, j, Uuid)) ==> l == k
    ensures forall f :: f != Order && Storable(Get(json, j, f)) ==> Key(k, f) in c && c[Key(k, f)] == Get(json, j, f)
    ensures Known(a, Get(json, j, Uuid)) ==> HasUuid(a, k, Get(json, j, Uuid)) && OrderIs(c, json, j, k)
    ensures !Known(a, Get(json, j, Uuid)) ==> forall r :: IsRoom(a, r) ==> r < k
  {
    hide Storable, Get, Arrives;
    var uuid := Get(json, j, Uuid);
    RoomIdsAreRooms(json);
    MergeKnows(a, json, me, c);
    k :| HasUuid(c, k, uuid);
    forall l | HasUuid(c, l, uuid) ensures l == k {
      OneUuid(c, k, l, uuid);
    }
    if Known(a, uuid) {
      var l :| HasUuid(a, l, uuid);
      assert HasUuid(c, l, a[Key(l, Uuid)]);
      ArrivesOrder(a, json, j, k, c);
    }
    ArrivesFields(a, json, j, k, c);
    KeptUuid(a, c, k, uuid);
  }

  lemma KeptUuid(a: Entries, c: Entries, k: int, uuid: string)
    requires Kept(a, c) && HasUuid(c, k, uuid)
    ensures IsRoom(a, k) ==> Known(a, uuid)
  {
    if IsRoom(a, k) {
      assert HasUuid(a, k, uuid);
    }
  }

  lemma ArrivesFields(a: Entries, json: Entries, j: int, k: int, c: Entries)
    requires Arrives(a, json, j, k, c)
    ensures forall f :: f != Order && Storable(Get(json, j, f)) ==> Key(k, f) in c && c[Key(k, f)] == Get(json, j, f)
  {
    hide Storable, Get, Known;
    forall f | f != Order && Storable(Get(json, j, f)) ensures Key(k, f) in c && c[Key(k, f)] == Get(json, j, f) {
      assert ArrivesField(a, Get(json, j, f), k, f, Known(a, Get(json, j, Uuid)), c);
    }
  }

  /** Merging the same table again changes no entry but orders. */
  lemma SecondMerge(a: Entries, json: Entries, me: string, b: Entries, c: Entries)
    requires Clean(a, json, me) && Merged(a, json, me, b) && Merged(b, json, me, c)
    ensures forall key: Key :: key.field != Order ==> SameAt(b, c, key)
    ensures forall k :: IsRoom(c, k) <==> IsRoom(b, k)
    ensures Settled(c, json, me)
  {
    hide Merged, Invariant, Precise, Storable, Get, SameAt, IsRoom, Settled;
    forall k ensures IsRoom(c, k) <==> IsRoom(b, k) {
      AgainAtRoom(a, json, me, b, c, k);
    }
    forall key: Key | key.field != Order ensures SameAt(b, c, key) {
      AgainAtRoom(a, json, me, b, c, key.id);
      assert key == Key(key.id, key.field);
    }
    SettledAfter(a, json, me, b, c);
  }

  lemma SettledAfter(a: Entries, json: Entries, me: string, b: Entries, c: Entries)
    requires Clean(a, json, me) && Merged(a, json, me, b) && Merged(b, json, me, c)
    ensures Settled(c, json, me)
  {
    hide Storable, Get, Arrives, SameAt, Invariant;
    RoomIdsAreRooms(json);
    MergedClean(a, json, me, b);
    MergeKnows(a, json, me, b);
    forall j, k | Offered(json, me, j) && HasUuid(c, k, Get(json, j, Uuid)) ensures OrderIs(c, json, j, k) {
      assert ArrivesField(b, Get(json, j, Order), k, Order, true, c) by {
        assert Arrives(b, json, j, k, c);
        ArrivesOrder(b, json, j, k, c);
      }
    }
  }

  lemma ArrivesOrder(b: Entries, json: Entries, j: int, k: int, c: Entries)
    requires Arrives(b, json, j, k, c) && Known(b, Get(json, j, Uuid))
    ensures ArrivesField(b, Get(json, j, Order), k, Order, true, c)
  {
  }

  /** Merging again changes nothing exactly when the known rooms have the sender's orders; a room
      that the first merge added has an order of its own. */
  lemma SecondMergeIff(a: Entries, json: Entries, me: string, b: Entries, c: Entries)
    requires Clean(a, json, me) && Merged(a, json, me, b) && Merged(b, json, me, c)
    ensures c == b <==> Settled(b, json, me)
  {
    hide Merged, Invariant, Precise, Storable, Get, Settled;
    SettledAfter(a, json, me, b, c);
    if Settled(b, json, me) {
      forall key: Key ensures SameAt(b, c, key) {
        AgainAtRoom(a, json, me, b, c, key.id);
        assert key == Key(key.id, key.field);
      }
      SameEverywhere(b, c);
    }
  }

  /** A third merge changes nothing at all. */
  lemma ThirdMerge(a: Entries, json: Entries, me: string, b: Entries, c: Entries, d: Entries)
    requires Clean(a, json, me) && Merged(a, json, me, b) && Merged(b, json, me, c) && Merged(c, json, me, d)
    ensures d == c
  {
    hide Merged, Settled;
    MergedClean(a, json, me, b);
    SettledAfter(a, json, me, b, c);
    SecondMergeIff(b, json, me, c, d);
  }

  /** A room that a step adds comes after all others in number and in order. */
  lemma NewRoomIsLast(c: Entries, json: Entries, me: string, j: int, d: Entries, k: int)
    requires Step(c, json, me, j, d) && IsRoom(d, k) && !IsRoom(c, k)
    ensures forall r :: IsRoom(c, r) ==> r < k && OrderOf(c, r) < OrderOf(d, k)
  {
    hide Storable;
    var sent := RoomOf(json, j);
    var l, order :| Place(c, sent, l, order) && Written(c, l, sent.(order := order), d);
    assert l == k;
    var n: nat :| NextOrder(c, n) && order == Num2Str(n);
    AtoiOfNum2Str(n);
    DigitsAreStorable(n);
    assert Writes(k, sent.(order := order), Order, Key(k, Order));
    assert Get(d, k, Order) == order;
  }

  lemma SameEverywhere(c: Entries, d: Entries)
    requires forall key: Key :: SameAt(c, d, key)
    ensures d == c
  {
    assert forall key: Key :: (key in c <==> key in d) by {
      forall key: Key ensures key in c <==> key in d {
        assert SameAt(c, d, key);
      }
    }
    assert forall key :: key in c ==> c[key] == d[key] by {
      forall key | key in c ensures c[key] == d[key] {
        assert SameAt(c, d, key);
      }
    }
  }
}
