/** The rooms known to a station: a table in the configuration that is merged with the table
    another station sends. */
module Rooms {
  import opened Numbers
  import opened ConfigFile

  datatype Field = Uuid | Url | Authkey | Name | Order | Account

  /** The entry "multiroom_<id>_<field>". */
  datatype Key = Key(id: int, field: Field)

  type Entries = map<Key, string>

  predicate IsRoom(c: Entries, k: int) {
    k > 0 && Key(k, Uuid) in c
  }

  /** mapfind: the entry, or the empty text. */
  function Get(c: Entries, k: int, f: Field): string {
    if Key(k, f) in c then c[Key(k, f)] else ""
  }

  ghost predicate HasUuid(c: Entries, k: int, uuid: string) {
    IsRoom(c, k) && c[Key(k, Uuid)] == uuid
  }

  ghost predicate Known(c: Entries, uuid: string) {
    exists k :: HasUuid(c, k, uuid)
  }

  ghost predicate UniqueUuids(c: Entries) {
    forall k, l :: IsRoom(c, k) && IsRoom(c, l) && c[Key(k, Uuid)] == c[Key(l, Uuid)] ==> k == l
  }

  // ----- searches -----

  method FindRoom(search: string, c: Entries) returns (k: int)
    ensures k != 0 <==> Known(c, search)
    ensures k != 0 ==> HasUuid(c, k, search)
  {
    var keys := c.Keys;
    while keys != {}
      invariant keys <= c.Keys
      invariant forall r :: HasUuid(c, r, search) ==> Key(r, Uuid) in keys
      decreases keys
    {
      var key :| key in keys;
      keys := keys - {key};
      if key.field != Uuid || key.id <= 0 {
        continue;
      }
      if c[key] == search {
        assert HasUuid(c, key.id, search);
        return key.id;
      }
    }
    return 0;
  }

  /** The number after the largest room number. */
  ghost predicate NextId(c: Entries, k: int) {
    && k > 0
    && (forall r :: IsRoom(c, r) ==> r < k)
    && (k == 1 || IsRoom(c, k - 1))
  }

  method NewMultiRoomID(c: Entries) returns (k: int)
    ensures NextId(c, k)
  {
    var keys := c.Keys;
    var max := 0;
    while keys != {}
      invariant keys <= c.Keys
      invariant forall r :: IsRoom(c, r) ==> r <= max || Key(r, Uuid) in keys
      invariant max == 0 || IsRoom(c, max)
      decreases keys
    {
      var key :| key in keys;
      keys := keys - {key};
      if key.field != Uuid || key.id <= 0 {
        continue;
      }
      if key.id > max {
        max := key.id;
      }
    }
    return max + 1;
  }

  function OrderOf(c: Entries, k: int): int {
    Atoi(Get(c, k, Order))
  }

  /** The number after the largest order, counted from 1. */
  ghost predicate NextOrder(c: Entries, n: int) {
    && n > 0
    && (forall r :: IsRoom(c, r) ==> OrderOf(c, r) < n)
    && (n == 1 || exists r :: IsRoom(c, r) && OrderOf(c, r) == n - 1)
  }

  method NewMultiRoomOrder(c: Entries) returns (n: nat)
    ensures NextOrder(c, n)
  {
    hide OrderOf;
    var keys := c.Keys;
    var max := 0;
    while keys != {}
      invariant keys <= c.Keys && max >= 0
      invariant forall r :: IsRoom(c, r) ==> OrderOf(c, r) <= max || Key(r, Uuid) in keys
      invariant max == 0 || exists r :: IsRoom(c, r) && OrderOf(c, r) == max
      decreases keys
    {
      var key :| key in keys;
      keys := keys - {key};
      if key.field != Uuid || key.id <= 0 {
        continue;
      }
      var order := OrderOf(c, key.id);
      if order > max {
        assert IsRoom(c, key.id);
        max := order;
      }
    }
    return max + 1;
  }

  // ----- what one room of the sender does -----

  datatype Room = Room(uuid: string, url: string, authkey: string, name: string, order: string, account: string)

  function Value(r: Room, f: Field): string {
    match f
    case Uuid => r.uuid
    case Url => r.url
    case Authkey => r.authkey
    case Name => r.name
    case Order => r.order
    case Account => r.account
  }

  function RoomOf(json: Entries, j: int): Room {
    Room(Get(json, j, Uuid), Get(json, j, Url), Get(json, j, Authkey),
         Get(json, j, Name), Get(json, j, Order), Get(json, j, Account))
  }

  /** Is `j` a complete room of the sender, other than the station itself? */
  predicate Offered(json: Entries, me: string, j: int) {
    && IsRoom(json, j)
    && Get(json, j, Uuid) != "" && Get(json, j, Url) != "" && Get(json, j, Authkey) != ""
    && Get(json, j, Uuid) != me
  }

  /** The store refuses values with a line break. */
  predicate Storable(v: string) {
    IsNotReturnCode(v)
  }

  /** Does writing the field `f` of `r` into room `k` change `key`? */
  predicate Writes(k: int, r: Room, f: Field, key: Key) {
    key == Key(k, f) && Storable(Value(r, f))
  }

  /** Does `d` differ from `c` only in these fields of room `k`, which hold `r` as far as it can be stored? */
  ghost predicate WrittenFields(c: Entries, k: int, r: Room, fields: seq<Field>, d: Entries) {
    && (forall key :: key in d <==> key in c || (key.field in fields && Writes(k, r, key.field, key)))
    && (forall key :: key in d ==>
          d[key] == if key.field in fields && Writes(k, r, key.field, key) then Value(r, key.field) else c[key])
  }

  ghost predicate Written(c: Entries, k: int, r: Room, d: Entries) {
    && (forall key :: key in d <==> key in c || Writes(k, r, key.field, key))
    && (forall key :: key in d ==> d[key] == if Writes(k, r, key.field, key) then Value(r, key.field) else c[key])
  }

  function Put(c: Entries, key: Key, value: string): Entries {
    if Storable(value) then c[key := value] else c
  }

  lemma NothingWritten(c: Entries, k: int, r: Room)
    ensures WrittenFields(c, k, r, [], c)
  {
  }

  lemma WriteField(c: Entries, k: int, r: Room, fields: seq<Field>, d: Entries, f: Field)
    requires WrittenFields(c, k, r, fields, d)
    ensures WrittenFields(c, k, r, fields + [f], Put(d, Key(k, f), Value(r, f)))
  {
    hide Storable, Value;
    forall g ensures g in fields + [f] <==> g in fields || g == f {
    }
  }

  lemma WriteAll(c: Entries, k: int, r: Room, d: Entries)
    requires WrittenFields(c, k, r, [Uuid, Url, Authkey, Name, Order, Account], d)
    ensures Written(c, k, r, d)
  {
    hide Storable, Value;
    forall f: Field ensures f in [Uuid, Url, Authkey, Name, Order, Account] {
      match f case Uuid => case Url => case Authkey => case Name => case Order => case Account =>
    }
  }

  /** The room to write for the sender's room `r` and the order it gets: a known room keeps its
      number and takes the sender's order; a new one comes after all others in both. */
  ghost predicate Place(c: Entries, r: Room, k: int, order: string) {
    if Known(c, r.uuid) then HasUuid(c, k, r.uuid) && order == r.order
    else NextId(c, k) && exists n: nat :: NextOrder(c, n) && order == Num2Str(n)
  }

  ghost predicate Step(c: Entries, json: Entries, me: string, j: int, d: Entries) {
    if Offered(json, me, j) then
      exists k, order ::
        && Place(c, RoomOf(json, j), k, order)
        && Written(c, k, RoomOf(json, j).(order := order), d)
    else d == c
  }

  /** A room without uuid, url or key, and the station's own one, changes nothing. */
  lemma IncompleteIgnored(c: Entries, json: Entries, me: string, j: int, d: Entries)
    requires Step(c, json, me, j, d)
    requires || Get(json, j, Uuid) == "" || Get(json, j, Url) == "" || Get(json, j, Authkey) == ""
             || Get(json, j, Uuid) == me
    ensures d == c
  {
  }

  lemma DigitsAreStorable(n: nat)
    ensures Storable(Num2Str(n))
  {
    CStrKeepsChars(Num2Str(n));
  }

  lemma {:induction false} CStrKeepsChars(s: string)
    ensures forall c :: c in Text.CStr(s) ==> c in s
  {
    if s != "" {
      CStrKeepsChars(s[1..]);
    }
  }

  // ----- what a merge keeps, from table `a` to `c`, after the rooms `seen` of the sender -----

  /** Rooms keep their number and uuid. */
  ghost predicate Kept(a: Entries, c: Entries) {
    forall k :: IsRoom(a, k) ==> HasUuid(c, k, a[Key(k, Uuid)])
  }

  /** Is `uuid` that of a seen room the sender offers? */
  ghost predicate OfferedUuid(json: Entries, me: string, seen: set<int>, uuid: string) {
    exists j :: j in seen && Offered(json, me, j) && Get(json, j, Uuid) == uuid
  }

  /** A room that was not offered keeps every entry. */
  ghost predicate OthersUntouched(a: Entries, json: Entries, me: string, seen: set<int>, c: Entries) {
    forall k :: IsRoom(a, k) && !OfferedUuid(json, me, seen, a[Key(k, Uuid)]) ==>
      forall f :: (Key(k, f) in a <==> Key(k, f) in c) && Get(a, k, f) == Get(c, k, f)
  }

  /** A new room was offered, was not known, and has a number above all earlier ones. */
  ghost predicate NewAreOffered(a: Entries, json: Entries, me: string, seen: set<int>, c: Entries) {
    forall k :: IsRoom(c, k) && !IsRoom(a, k) ==>
      && OfferedUuid(json, me, seen, c[Key(k, Uuid)])
      && !Known(a, c[Key(k, Uuid)])
      && forall r :: IsRoom(a, r) ==> r < k
  }

  /** Exactly the offered rooms that were known or whose uuid can be stored are known now. */
  ghost predicate OfferedAreKnown(a: Entries, json: Entries, me: string, seen: set<int>, c: Entries) {
    forall j :: j in seen && Offered(json, me, j) ==>
      (Known(c, Get(json, j, Uuid)) <==> Known(a, Get(json, j, Uuid)) || Storable(Get(json, j, Uuid)))
  }

  ghost predicate Invariant(a: Entries, json: Entries, me: string, seen: set<int>, c: Entries) {
    && Kept(a, c)
    && OthersUntouched(a, json, me, seen, c)
    && NewAreOffered(a, json, me, seen, c)
    && OfferedAreKnown(a, json, me, seen, c)
    && (UniqueUuids(a) ==> UniqueUuids(c))
  }

  /** What is known is never forgotten, and what is newly known was offered. */
  lemma KnownThrough(a: Entries, json: Entries, me: string, seen: set<int>, c: Entries, uuid: string)
    requires Kept(a, c) && NewAreOffered(a, json, me, seen, c)
    ensures Known(a, uuid) ==> Known(c, uuid)
    ensures Known(c, uuid) && !Known(a, uuid) ==> OfferedUuid(json, me, seen, uuid)
  {
    if Known(a, uuid) {
      var k :| HasUuid(a, k, uuid);
      assert HasUuid(c, k, uuid);
    } else if Known(c, uuid) {
      var k :| HasUuid(c, k, uuid);
      if IsRoom(a, k) {
        assert HasUuid(c, k, a[Key(k, Uuid)]);
        assert HasUuid(a, k, uuid);
      }
    }
  }

  lemma KeptTrans(a: Entries, b: Entries, c: Entries)
    requires Kept(a, b) && Kept(b, c)
    ensures Kept(a, c)
  {
    forall k | IsRoom(a, k) ensures HasUuid(c, k, a[Key(k, Uuid)]) {
      assert HasUuid(b, k, a[Key(k, Uuid)]);
    }
  }

  lemma OfferedMore(json: Entries, me: string, s: set<int>, t: set<int>)
    requires s <= t
    ensures forall uuid :: OfferedUuid(json, me, s, uuid) ==> OfferedUuid(json, me, t, uuid)
  {
    forall uuid | OfferedUuid(json, me, s, uuid) ensures OfferedUuid(json, me, t, uuid) {
      var j :| j in s && Offered(json, me, j) && Get(json, j, Uuid) == uuid;
      assert j in t;
    }
  }

  lemma OthersTrans(a: Entries, b: Entries, c: Entries, json: Entries, me: string, s: set<int>, t: set<int>)
    requires Kept(a, b) && OthersUntouched(a, json, me, s, b) && OthersUntouched(b, json, me, t, c)
    ensures OthersUntouched(a, json, me, s + t, c)
  {
    hide OfferedUuid, Get;
    OfferedMore(json, me, s, s + t);
    OfferedMore(json, me, t, s + t);
    forall k | IsRoom(a, k) && !OfferedUuid(json, me, s + t, a[Key(k, Uuid)])
      ensures forall f :: (Key(k, f) in a <==> Key(k, f) in c) && Get(a, k, f) == Get(c, k, f)
    {
      assert HasUuid(b, k, a[Key(k, Uuid)]);
      assert forall f :: (Key(k, f) in b <==> Key(k, f) in c) && Get(b, k, f) == Get(c, k, f);
      assert forall f :: (Key(k, f) in a <==> Key(k, f) in b) && Get(a, k, f) == Get(b, k, f);
    }
  }

  lemma NewTrans(a: Entries, b: Entries, c: Entries, json: Entries, me: string, s: set<int>, t: set<int>)
    requires Kept(a, b) && NewAreOffered(a, json, me, s, b)
    requires Kept(b, c) && NewAreOffered(b, json, me, t, c)
    ensures NewAreOffered(a, json, me, s + t, c)
  {
    hide OfferedUuid, Known;
    OfferedMore(json, me, s, s + t);
    OfferedMore(json, me, t, s + t);
    forall k | IsRoom(c, k) && !IsRoom(a, k)
      ensures OfferedUuid(json, me, s + t, c[Key(k, Uuid)])
      ensures !Known(a, c[Key(k, Uuid)])
      ensures forall r :: IsRoom(a, r) ==> r < k
    {
      KnownThrough(a, json, me, s, b, c[Key(k, Uuid)]);
      if IsRoom(b, k) {
        assert HasUuid(c, k, b[Key(k, Uuid)]);
      } else {
        forall r | IsRoom(a, r) ensures r < k {
          assert HasUuid(b, r, a[Key(r, Uuid)]);
        }
      }
    }
  }

  lemma KnownTrans(a: Entries, b: Entries, c: Entries, json: Entries, me: string, s: set<int>, t: set<int>)
    requires Kept(a, b) && NewAreOffered(a, json, me, s, b) && OfferedAreKnown(a, json, me, s, b)
    requires Kept(b, c) && NewAreOffered(b, json, me, t, c) && OfferedAreKnown(b, json, me, t, c)
    ensures OfferedAreKnown(a, json, me, s + t, c)
  {
    hide Known, Kept, NewAreOffered, Offered, Storable;
    forall j | j in s + t && Offered(json, me, j)
      ensures Known(c, Get(json, j, Uuid)) <==> Known(a, Get(json, j, Uuid)) || Storable(Get(json, j, Uuid))
    {
      KnownThrough(a, json, me, s, b, Get(json, j, Uuid));
      KnownThrough(b, json, me, t, c, Get(json, j, Uuid));
    }
  }

  lemma InvariantTrans(a: Entries, b: Entries, c: Entries, json: Entries, me: string, s: set<int>, t: set<int>)
    requires Invariant(a, json, me, s, b) && Invariant(b, json, me, t, c)
    ensures Invariant(a, json, me, s + t, c)
  {
    hide Kept, OthersUntouched, NewAreOffered, OfferedAreKnown, UniqueUuids;
    KeptTrans(a, b, c);
    OthersTrans(a, b, c, json, me, s, t);
    NewTrans(a, b, c, json, me, s, t);
    KnownTrans(a, b, c, json, me, s, t);
  }

  lemma InvariantStart(a: Entries, json: Entries, me: string)
    ensures Invariant(a, json, me, {}, a)
  {
  }

  /** One step, with its witnesses. */
  lemma StepInvariant(c: Entries, json: Entries, me: string, j: int, d: Entries)
    requires Step(c, json, me, j, d)
    ensures Invariant(c, json, me, {j}, d)
  {
    if Offered(json, me, j) {
      var r := RoomOf(json, j);
      var k, order :| Place(c, r, k, order) && Written(c, k, r.(order := order), d);
      WrittenInvariant(c, json, me, j, k, r.(order := order), d);
    } else {
      InvariantStart(c, json, me);
    }
  }

  lemma SameEntries(c: Entries, k: int, r: Room, d: Entries, l: int)
    requires Written(c, k, r, d) && l != k
    ensures forall f :: (Key(l, f) in c <==> Key(l, f) in d) && Get(c, l, f) == Get(d, l, f)
  {
    hide Storable, Value;
    forall f ensures (Key(l, f) in c <==> Key(l, f) in d) && Get(c, l, f) == Get(d, l, f) {
      assert Key(l, f).field == f;
      assert !Writes(k, r, f, Key(l, f));
    }
  }

  /** The rooms and uuids after the write. */
  lemma WrittenUuids(c: Entries, k: int, r: Room, d: Entries)
    requires if Known(c, r.uuid) then HasUuid(c, k, r.uuid) else k > 0 && !IsRoom(c, k)
    requires Written(c, k, r, d)
    ensures forall l :: IsRoom(d, l) <==> IsRoom(c, l) || (l == k && Storable(r.uuid))
    ensures forall l :: IsRoom(c, l) ==> HasUuid(d, l, c[Key(l, Uuid)])
    ensures Known(c, r.uuid) || Storable(r.uuid) ==> HasUuid(d, k, r.uuid)
  {
    hide Storable;
  }

  lemma WrittenInvariant(c: Entries, json: Entries, me: string, j: int, k: int, r: Room, d: Entries)
    requires Offered(json, me, j) && r.uuid == Get(json, j, Uuid)
    requires if Known(c, r.uuid) then HasUuid(c, k, r.uuid) else NextId(c, k)
    requires Written(c, k, r, d)
    ensures Invariant(c, json, me, {j}, d)
  {
    hide Storable, Get, Written;
    assert OfferedUuid(json, me, {j}, r.uuid);
    WrittenUuids(c, k, r, d);
    if Known(d, r.uuid) {
      var l :| HasUuid(d, l, r.uuid);
      assert IsRoom(c, l) ==> HasUuid(c, l, r.uuid);
    }
    assert OfferedAreKnown(c, json, me, {j}, d);
    forall l | IsRoom(c, l) && !OfferedUuid(json, me, {j}, c[Key(l, Uuid)])
      ensures forall f :: (Key(l, f) in c <==> Key(l, f) in d) && Get(c, l, f) == Get(d, l, f)
    {
      assert l != k;
      SameEntries(c, k, r, d, l);
    }
    assert OthersUntouched(c, json, me, {j}, d);
    assert NewAreOffered(c, json, me, {j}, d);
    forall l, m | UniqueUuids(c) && IsRoom(d, l) && IsRoom(d, m) && d[Key(l, Uuid)] == d[Key(m, Uuid)]
      ensures l == m
    {
      assert IsRoom(c, l) ==> HasUuid(c, l, d[Key(m, Uuid)]);
      assert IsRoom(c, m) ==> HasUuid(c, m, d[Key(m, Uuid)]);
    }
  }

  // ----- what a merge delivers -----

  /** The sender's room `j` as it arrives at room `k`: what can be stored is stored, except that a
      new room gets an order of its own; what cannot be stored is as before. */
  ghost predicate Arrives(a: Entries, json: Entries, j: int, k: int, c: Entries) {
    forall f :: ArrivesField(a, Get(json, j, f), k, f, Known(a, Get(json, j, Uuid)), c)
  }

  predicate ArrivesField(a: Entries, v: string, k: int, f: Field, known: bool, c: Entries) {
    if !Storable(v) && (known || f != Order) then SameAt(a, c, Key(k, f))
    else Key(k, f) in c && (known || f != Order ==> c[Key(k, f)] == v)
  }

  predicate SameAt(a: Entries, c: Entries, key: Key) {
    (key in a <==> key in c) && (key in a && key in c ==> a[key] == c[key])
  }

  ghost predicate Delivered(a: Entries, json: Entries, me: string, seen: set<int>, c: Entries) {
    forall j, k :: j in seen && Offered(json, me, j) && HasUuid(c, k, Get(json, j, Uuid)) ==> Arrives(a, json, j, k, c)
  }

  /** Entries of numbers that are no rooms stay. */
  ghost predicate RestUntouched(a: Entries, c: Entries) {
    forall key: Key :: !IsRoom(c, key.id) ==> SameAt(a, c, key)
  }

  /** No uuid occurs twice on either side, and those on offer have no line break. */
  ghost predicate Clean(a: Entries, json: Entries, me: string) {
    && UniqueUuids(a)
    && (forall i, j :: Offered(json, me, i) && Offered(json, me, j) && Get(json, i, Uuid) == Get(json, j, Uuid) ==> i == j)
    && (forall j :: Offered(json, me, j) ==> Storable(Get(json, j, Uuid)))
  }

  ghost predicate Precise(a: Entries, json: Entries, me: string, seen: set<int>, c: Entries) {
    Clean(a, json, me) ==> Delivered(a, json, me, seen, c) && RestUntouched(a, c)
  }

  lemma PreciseStart(a: Entries, json: Entries, me: string)
    ensures Precise(a, json, me, {}, a)
  {
  }

  lemma WrittenArrives(c: Entries, json: Entries, me: string, j: int, k: int, order: string, d: Entries)
    requires Offered(json, me, j)
    requires if Known(c, Get(json, j, Uuid)) then order == Get(json, j, Order) else Storable(order)
    requires Written(c, k, RoomOf(json, j).(order := order), d)
    ensures Arrives(c, json, j, k, d)
  {
    forall f ensures ArrivesField(c, Get(json, j, f), k, f, Known(c, Get(json, j, Uuid)), d) {
      hide Storable, Get, Known;
      assert Key(k, f).field == f;
    }
  }

  lemma WrittenRest(c: Entries, k: int, r: Room, d: Entries)
    requires Written(c, k, r, d) && IsRoom(d, k)
    ensures RestUntouched(c, d)
  {
    hide Storable, Value;
  }

  lemma OneUuid(c: Entries, k: int, l: int, uuid: string)
    requires UniqueUuids(c) && HasUuid(c, k, uuid) && HasUuid(c, l, uuid)
    ensures k == l
  {
  }

  lemma StepPrecise(c: Entries, json: Entries, me: string, j: int, d: Entries)
    requires Step(c, json, me, j, d)
    ensures Precise(c, json, me, {j}, d)
  {
    hide Invariant, Written, Arrives, RestUntouched, Get, Storable;
    if Clean(c, json, me) && Offered(json, me, j) {
      var r := RoomOf(json, j);
      var k, order :| Place(c, r, k, order) && Written(c, k, r.(order := order), d);
      if !Known(c, r.uuid) {
        var n: nat :| NextOrder(c, n) && order == Num2Str(n);
        DigitsAreStorable(n);
      }
      WrittenArrives(c, json, me, j, k, order, d);
      WrittenRoom(c, k, r.(order := order), d);
      WrittenRest(c, k, r.(order := order), d);
      WrittenInvariant(c, json, me, j, k, r.(order := order), d);
      InvariantUnique(c, json, me, {j}, d);
      forall l | HasUuid(d, l, r.uuid) ensures l == k {
        OneUuid(d, k, l, r.uuid);
      }
    }
    PreciseStart(c, json, me);
  }

  lemma WrittenRoom(c: Entries, k: int, r: Room, d: Entries)
    requires Written(c, k, r, d) && Storable(r.uuid) && k > 0
    ensures HasUuid(d, k, r.uuid)
  {
  }

  lemma InvariantUnique(a: Entries, json: Entries, me: string, seen: set<int>, c: Entries)
    requires Invariant(a, json, me, seen, c) && UniqueUuids(a)
    ensures UniqueUuids(c)
  {
  }

  /** The entries that a later step leaves alone. */
  lemma DeliveredStays(a: Entries, b: Entries, c: Entries, json: Entries, me: string, i: int, k: int, s: set<int>, j: int)
    requires Clean(a, json, me) && i in s && Offered(json, me, i) && i != j
    requires Delivered(a, json, me, s, b) && Invariant(b, json, me, {j}, c)
    requires HasUuid(c, k, Get(json, i, Uuid))
    ensures Arrives(a, json, i, k, c)
  {
    hide Storable, Get, Arrives, Known;
    assert !OfferedUuid(json, me, {j}, Get(json, i, Uuid));
    assert IsRoom(b, k);
    assert HasUuid(c, k, b[Key(k, Uuid)]);
    assert HasUuid(b, k, Get(json, i, Uuid));
    ArrivesSame(a, b, c, json, me, i, k, {j});
  }

  lemma ArrivesSame(a: Entries, b: Entries, c: Entries, json: Entries, me: string, i: int, k: int, t: set<int>)
    requires OthersUntouched(b, json, me, t, c) && IsRoom(b, k) && !OfferedUuid(json, me, t, b[Key(k, Uuid)])
    requires Arrives(a, json, i, k, b)
    ensures Arrives(a, json, i, k, c)
  {
    hide Storable, Known, OfferedUuid;
    forall f ensures ArrivesField(a, Get(json, i, f), k, f, Known(a, Get(json, i, Uuid)), c) {
      assert (Key(k, f) in b <==> Key(k, f) in c) && Get(b, k, f) == Get(c, k, f);
      assert ArrivesField(a, Get(json, i, f), k, f, Known(a, Get(json, i, Uuid)), b);
    }
  }

  /** A room not seen before `j` is as it was at the start. */
  lemma NotYetSeen(a: Entries, b: Entries, json: Entries, me: string, s: set<int>, j: int, k: int, uuid: string)
    requires Clean(a, json, me) && Offered(json, me, j) && j !in s && uuid == Get(json, j, Uuid)
    requires Invariant(a, json, me, s, b) && RestUntouched(a, b)
    requires IsRoom(b, k) ==> HasUuid(b, k, uuid)
    ensures forall f :: SameAt(a, b, Key(k, f))
    ensures Known(b, uuid) <==> Known(a, uuid)
  {
    hide Storable, Get;
    assert !OfferedUuid(json, me, s, uuid);
    KnownThrough(a, json, me, s, b, uuid);
    if IsRoom(b, k) {
      assert IsRoom(a, k) && HasUuid(b, k, a[Key(k, Uuid)]);
      SameGets(a, json, me, s, b, k);
    }
  }

  lemma SameGets(a: Entries, json: Entries, me: string, s: set<int>, b: Entries, k: int)
    requires OthersUntouched(a, json, me, s, b) && IsRoom(a, k) && !OfferedUuid(json, me, s, a[Key(k, Uuid)])
    ensures forall f :: SameAt(a, b, Key(k, f))
  {
    forall f ensures SameAt(a, b, Key(k, f)) {
      assert (Key(k, f) in a <==> Key(k, f) in b) && Get(a, k, f) == Get(b, k, f);
    }
  }

  lemma ArrivesLater(a: Entries, b: Entries, c: Entries, json: Entries, j: int, k: int)
    requires Arrives(b, json, j, k, c)
    requires Known(b, Get(json, j, Uuid)) <==> Known(a, Get(json, j, Uuid))
    requires forall f :: SameAt(a, b, Key(k, f))
    ensures Arrives(a, json, j, k, c)
  {
    hide Storable, Known, Get;
    forall f ensures ArrivesField(a, Get(json, j, f), k, f, Known(a, Get(json, j, Uuid)), c) {
      assert ArrivesField(b, Get(json, j, f), k, f, Known(b, Get(json, j, Uuid)), c);
      assert SameAt(a, b, Key(k, f));
    }
  }

  lemma PreciseTrans(a: Entries, b: Entries, c: Entries, json: Entries, me: string, s: set<int>, j: int)
    requires Invariant(a, json, me, s, b) && Precise(a, json, me, s, b) && j !in s
    requires Invariant(b, json, me, {j}, c) && Precise(b, json, me, {j}, c)
    ensures Precise(a, json, me, s + {j}, c)
  {
    if Clean(a, json, me) {
      assert Clean(b, json, me);
      forall i, k | i in s + {j} && Offered(json, me, i) && HasUuid(c, k, Get(json, i, Uuid))
        ensures Arrives(a, json, i, k, c)
      {
        hide Storable, Get, Arrives, Known, RestUntouched, SameAt;
        if i != j {
          DeliveredStays(a, b, c, json, me, i, k, s, j);
        } else {
          assert IsRoom(b, k) ==> HasUuid(c, k, b[Key(k, Uuid)]);
          NotYetSeen(a, b, json, me, s, j, k, Get(json, j, Uuid));
          ArrivesLater(a, b, c, json, j, k);
        }
      }
      RestTrans(a, b, c);
    }
  }

  lemma RestTrans(a: Entries, b: Entries, c: Entries)
    requires RestUntouched(a, b) && RestUntouched(b, c) && Kept(b, c)
    ensures RestUntouched(a, c)
  {
    forall key: Key | !IsRoom(c, key.id) ensures SameAt(a, c, key) {
      assert !IsRoom(b, key.id);
      assert SameAt(a, b, key) && SameAt(b, c, key);
    }
  }

  function RoomIds(json: Entries): set<int> {
    set key | key in json.Keys && key.field == Uuid && key.id > 0 :: key.id
  }

  lemma RoomIdsAreRooms(json: Entries)
    ensures forall j :: j in RoomIds(json) <==> IsRoom(json, j)
  {
    forall j | IsRoom(json, j) ensures j in RoomIds(json) {
      assert Key(j, Uuid) in json.Keys;
    }
  }

  /** What merging the sender's table makes of table `a`. */
  ghost predicate Merged(a: Entries, json: Entries, me: string, c: Entries) {
    Invariant(a, json, me, RoomIds(json), c) && Precise(a, json, me, RoomIds(json), c)
  }

  class RoomConfig {
    var entries: Entries

    constructor (c: Entries)
      ensures entries == c
    {
      entries := c;
    }

    method Set(key: Key, value: string)
      modifies this
      ensures entries == if Storable(value) then old(entries)[key := value] else old(entries)
    {
      if !Storable(value) {
        return;
      }
      entries := entries[key := value];
    }

    method SetRoom(k: int, r: Room)
      modifies this
      ensures Written(old(entries), k, r, entries)
    {
      hide Storable, WrittenFields, Written, Put;
      ghost var c := entries;
      NothingWritten(c, k, r);
      Write(c, k, r, [], Uuid, r.uuid);
      Write(c, k, r, [Uuid], Url, r.url);
      Write(c, k, r, [Uuid, Url], Authkey, r.authkey);
      Write(c, k, r, [Uuid, Url, Authkey], Name, r.name);
      Write(c, k, r, [Uuid, Url, Authkey, Name], Order, r.order);
      Write(c, k, r, [Uuid, Url, Authkey, Name, Order], Account, r.account);
      assert [Uuid, Url, Authkey, Name, Order] + [Account] == [Uuid, Url, Authkey, Name, Order, Account];
      WriteAll(c, k, r, entries);
    }

    /** One call of Set in that sequence. */
    method Write(ghost c: Entries, k: int, ghost r: Room, ghost fields: seq<Field>, f: Field, value: string)
      requires WrittenFields(c, k, r, fields, entries) && value == Value(r, f)
      modifies this
      ensures WrittenFields(c, k, r, fields + [f], entries)
    {
      WriteField(c, k, r, fields, entries, f);
      Set(Key(k, f), value);
    }

    /** The loop body of Merge. */
    method MergeRoom(json: Entries, me: string, j: int)
      requires IsRoom(json, j)
      modifies this
      ensures Step(old(entries), json, me, j, entries)
    {
      hide Written, NextOrder, NextId;
      var yours := RoomOf(json, j);
      if yours.uuid == "" || yours.url == "" || yours.authkey == "" {
        return;
      }
      if me == yours.uuid {
        return;
      }
      var k := FindRoom(yours.uuid, entries);
      var order := yours.order;
      if k == 0 {
        k := NewMultiRoomID(entries);
        var n := NewMultiRoomOrder(entries);
        order := Num2Str(n);
      }
      SetRoom(k, yours.(order := order));
    }

    /** Takes over the rooms another station sends; `me` is this station's uuid. */
    method Merge(json: Entries, me: string)
      modifies this
      ensures Merged(old(entries), json, me, entries)
    {
      hide Invariant, Step, Precise;
      ghost var a := entries;
      InvariantStart(a, json, me);
      PreciseStart(a, json, me);
      var keys := json.Keys;
      ghost var seen: set<int> := {};
      while keys != {}
        invariant keys <= json.Keys
        invariant forall j :: j in seen <==> IsRoom(json, j) && Key(j, Uuid) !in keys
        invariant Invariant(a, json, me, seen, entries) && Precise(a, json, me, seen, entries)
        decreases keys
      {
        var key :| key in keys;
        keys := keys - {key};
        if key.field != Uuid || key.id <= 0 {
          continue;
        }
        ghost var b := entries;
        MergeRoom(json, me, key.id);
        StepInvariant(b, json, me, key.id, entries);
        StepPrecise(b, json, me, key.id, entries);
        InvariantTrans(a, b, entries, json, me, seen, {key.id});
        PreciseTrans(a, b, entries, json, me, seen, key.id);
        seen := seen + {key.id};
      }
      RoomIdsAreRooms(json);
      assert forall j :: j in seen <==> j in RoomIds(json);
      assert seen == RoomIds(json);
    }
  }
}
