/** Walking from room to room in the order of the table, both ways round. */
module RoomOrder {
  import opened Numbers
  import opened Wrappers
  import opened Rooms

  /** The rooms of the table, each once, in ascending order. */
  ghost predicate Line(c: Entries, line: seq<int>) {
    && (forall k :: k in line <==> IsRoom(c, k))
    && Once(line)
    && forall i, j :: 0 <= i < j < |line| ==> OrderOf(c, line[i]) <= OrderOf(c, line[j])
  }

  /** The place after or before place `p` in a ring of `n`. */
  function Turn(p: nat, n: nat, isNext: bool): (q: nat)
    requires p < n
    ensures q < n
  {
    if isNext then (if p + 1 == n then 0 else p + 1)
    else if p == 0 then n - 1 else p - 1
  }

  /** Is `room` the answer for the room of `uuid` when the rooms are sorted as `line`? */
  ghost predicate NextRoom(c: Entries, line: seq<int>, uuid: string, isNext: bool, room: int) {
    && Line(c, line)
    && if !Known(c, uuid) || |line| == 1 then room == 0
       else exists p :: 0 <= p < |line| && HasUuid(c, line[p], uuid) && room == line[Turn(p, |line|, isNext)]
  }

  /** The rooms with their orders, as collected from the table. */
  ghost predicate Collected(c: Entries, s: seq<Ranked<int>>) {
    && (forall i :: 0 <= i < |s| ==> IsRoom(c, s[i].item) && s[i].rank == OrderOf(c, s[i].item))
    && (forall i, j :: 0 <= i < j < |s| ==> s[i].item != s[j].item)
  }

  class OrderedRooms {
    var sortVec: seq<Ranked<int>>
    /** This station's room, or 0. */
    var myRoom: int

    constructor (uuid: string, c: Entries)
      ensures Line(c, Items(sortVec))
      ensures if myRoom == 0 then !Known(c, uuid) else HasUuid(c, myRoom, uuid)
    {
      hide OrderOf, Line;
      var keys := c.Keys;
      var rooms: seq<Ranked<int>> := [];
      var mine := 0;
      while keys != {}
        invariant keys <= c.Keys
        invariant Collected(c, rooms)
        invariant forall i :: 0 <= i < |rooms| ==> Key(rooms[i].item, Uuid) !in keys
        invariant forall k :: IsRoom(c, k) ==> Key(k, Uuid) in keys || Ranked(OrderOf(c, k), k) in rooms
        invariant if mine == 0 then forall k :: HasUuid(c, k, uuid) ==> Key(k, Uuid) in keys else HasUuid(c, mine, uuid)
        decreases keys
      {
        var key :| key in keys;
        keys := keys - {key};
        if key.field != Uuid || key.id <= 0 {
          continue;
        }
        if uuid == c[key] {
          mine := key.id;
        }
        rooms := rooms + [Ranked(OrderOf(c, key.id), key.id)];
      }
      var sorted := Sort(rooms);
      SortedIsLine(c, rooms, sorted);
      sortVec := sorted;
      myRoom := mine;
    }
  }

  lemma SortedIsLine(c: Entries, rooms: seq<Ranked<int>>, sorted: seq<Ranked<int>>)
    requires Collected(c, rooms) && forall k :: IsRoom(c, k) ==> Ranked(OrderOf(c, k), k) in rooms
    requires multiset(sorted) == multiset(rooms) && Ascending(sorted)
    ensures Line(c, Items(sorted))
  {
    hide OrderOf;
    Rearranged(rooms, sorted);
    assert Once(rooms);
    var line := Items(sorted);
    forall i | 0 <= i < |sorted| ensures IsRoom(c, line[i]) && sorted[i].rank == OrderOf(c, line[i]) {
      assert sorted[i] in rooms;
    }
    forall i, j | 0 <= i < j < |line| ensures line[i] != line[j] {
      assert sorted[i] != sorted[j] && sorted[i].rank == OrderOf(c, line[i]) && sorted[j].rank == OrderOf(c, line[j]);
    }
    forall k | IsRoom(c, k) ensures k in line {
      var i :| 0 <= i < |sorted| && sorted[i] == Ranked(OrderOf(c, k), k);
      assert line[i] == k;
    }
  }

  /** The number of the next or of the previous room; 0 when there is none to go to. */
  method GetNextRoom(uuid: string, c: Entries, isNext: bool) returns (room: int)
    ensures exists line :: NextRoom(c, line, uuid, isNext, room)
  {
    hide OrderOf;
    var order := new OrderedRooms(uuid, c);
    var rooms := order.sortVec;
    ghost var line := Items(rooms);
    if order.myRoom == 0 {
      assert NextRoom(c, line, uuid, isNext, 0);
      return 0;
    }
    assert HasUuid(c, order.myRoom, uuid) && order.myRoom in line;
    if |rooms| == 1 {
      assert NextRoom(c, line, uuid, isNext, 0);
      return 0;
    }
    if isNext {
      room := After(c, rooms, order.myRoom);
    } else {
      room := Before(c, rooms, order.myRoom);
    }
    assert NextRoom(c, line, uuid, isNext, room);
  }

  /** The forward search: 0 until a successor is found, then the head of the list instead. */
  method After(c: Entries, rooms: seq<Ranked<int>>, mine: int) returns (room: int)
    requires Line(c, Items(rooms)) && mine in Items(rooms)
    ensures exists p :: 0 <= p < |rooms| && rooms[p].item == mine && room == rooms[Turn(p, |rooms|, true)].item
  {
    hide OrderOf;
    room := 0;
    var i := 0;
    while i < |rooms|
      invariant i <= |rooms|
      invariant forall j :: 0 <= j < i ==> rooms[j].item != mine
      invariant room == 0
    {
      if rooms[i].item == mine {
        var next := i + 1;
        if next == |rooms| {
          break;
        }
        assert IsRoom(c, Items(rooms)[next]);
        assert next == Turn(i, |rooms|, true);
        room := rooms[next].item;
        break;
      }
      i := i + 1;
    }
    assert rooms[i].item == mine by {
      assert exists j :: 0 <= j < |rooms| && Items(rooms)[j] == mine;
    }
    if room == 0 {
      assert 0 == Turn(i, |rooms|, true);
      room := rooms[0].item;
    }
  }

  /** The backward search. */
  method Before(c: Entries, rooms: seq<Ranked<int>>, mine: int) returns (room: int)
    requires Line(c, Items(rooms)) && mine in Items(rooms)
    ensures exists p :: 0 <= p < |rooms| && rooms[p].item == mine && room == rooms[Turn(p, |rooms|, false)].item
  {
    hide OrderOf;
    room := 0;
    var i := |rooms| - 1;
    while i >= 0
      invariant -1 <= i < |rooms|
      invariant forall j :: i < j < |rooms| ==> rooms[j].item != mine
      invariant room == 0
    {
      if rooms[i].item == mine {
        if i == 0 {
          break;
        }
        assert IsRoom(c, Items(rooms)[i - 1]);
        assert i - 1 == Turn(i, |rooms|, false);
        room := rooms[i - 1].item;
        break;
      }
      i := i - 1;
    }
    assert i >= 0 && rooms[i].item == mine by {
      assert exists j :: 0 <= j < |rooms| && Items(rooms)[j] == mine;
    }
    if room == 0 {
      assert |rooms| - 1 == Turn(i, |rooms|, false);
      room := rooms[|rooms| - 1].item;
    }
  }

  // ----- there and back, and all the way round -----

  ghost predicate DistinctOrders(c: Entries) {
    forall k, l :: IsRoom(c, k) && IsRoom(c, l) && OrderOf(c, k) == OrderOf(c, l) ==> k == l
  }

  /** The answer, whatever way the sort puts rooms of equal order. */
  ghost predicate GoesTo(c: Entries, from: int, isNext: bool, to: int) {
    && IsRoom(c, from)
    && exists line :: NextRoom(c, line, c[Key(from, Uuid)], isNext, to)
  }

  /** With distinct orders there is one way to sort the rooms. */
  lemma {:induction false} LineUnique(c: Entries, a: seq<int>, b: seq<int>)
    requires DistinctOrders(c) && Line(c, a) && Line(c, b)
    ensures a == b
  {
    hide OrderOf;
    SameLength(a, b);
    LinePrefix(c, a, b, |a|);
  }

  lemma SameLength(a: seq<int>, b: seq<int>)
    requires Once(a) && Once(b) && forall k :: k in a <==> k in b
    ensures |a| == |b|
  {
    OnceMultiset(a);
    OnceMultiset(b);
    forall k ensures multiset(a)[k] == multiset(b)[k] {
      assert (k in a <==> k in multiset(a)) && (k in b <==> k in multiset(b));
    }
    assert multiset(a) == multiset(b);
    assert |multiset(a)| == |multiset(b)|;
  }

  lemma NotEarlier(c: Entries, a: seq<int>, b: seq<int>, i: nat)
    requires Line(c, a) && Line(c, b) && i < |a| == |b| && forall j :: 0 <= j < i ==> a[j] == b[j]
    ensures OrderOf(c, a[i]) <= OrderOf(c, b[i])
  {
    hide OrderOf;
    assert b[i] in b;
    assert b[i] in a;
    var k :| 0 <= k < |a| && a[k] == b[i];
    assert k < i ==> b[k] == b[i];
  }

  lemma {:induction false} LinePrefix(c: Entries, a: seq<int>, b: seq<int>, n: nat)
    requires DistinctOrders(c) && Line(c, a) && Line(c, b) && n <= |a| == |b|
    ensures forall j :: 0 <= j < n ==> a[j] == b[j]
  {
    hide OrderOf;
    if n > 0 {
      var i := n - 1;
      LinePrefix(c, a, b, i);
      NotEarlier(c, a, b, i);
      NotEarlier(c, b, a, i);
      assert a[i] in a && b[i] in b;
      assert a[i] == b[i];
    }
  }

  /** Where a walk that starts at place `p` is after `i` moves, up to one time round. */
  function At(p: nat, n: nat, isNext: bool, i: nat): (q: nat)
    requires p < n && i <= n
    ensures q < n
  {
    if isNext then (if p + i < n then p + i else p + i - n)
    else if i <= p then p - i else p - i + n
  }

  /** One move in a fixed line. */
  lemma Move(c: Entries, line: seq<int>, p: nat, isNext: bool, to: int)
    requires UniqueUuids(c) && Line(c, line) && DistinctOrders(c) && |line| >= 2 && p < |line|
    requires GoesTo(c, line[p], isNext, to)
    ensures to == line[Turn(p, |line|, isNext)]
  {
    hide OrderOf, DistinctOrders, UniqueUuids, Turn;
    var k := line[p];
    var uuid := c[Key(k, Uuid)];
    var other :| NextRoom(c, other, uuid, isNext, to);
    LineUnique(c, line, other);
    assert line[p] in line;
    assert HasUuid(c, k, uuid);
    var q :| 0 <= q < |line| && HasUuid(c, line[q], uuid) && to == line[Turn(q, |line|, isNext)];
    OneUuid(c, k, line[q], uuid);
    assert q == p;
  }

  /** A station without other rooms goes nowhere; otherwise the move back undoes the move. */
  lemma ThereAndBack(c: Entries, from: int, isNext: bool, to: int, back: int)
    requires UniqueUuids(c) && DistinctOrders(c)
    requires GoesTo(c, from, isNext, to)
    ensures to == 0 <==> forall k :: IsRoom(c, k) ==> k == from
    ensures to != 0 && GoesTo(c, to, !isNext, back) ==> back == from
  {
    hide OrderOf, DistinctOrders, UniqueUuids;
    var line :| NextRoom(c, line, c[Key(from, Uuid)], isNext, to);
    assert HasUuid(c, from, c[Key(from, Uuid)]);
    assert from in line;
    var p :| 0 <= p < |line| && line[p] == from;
    if |line| == 1 {
      assert forall k :: IsRoom(c, k) ==> k in line;
    } else {
      Move(c, line, p, isNext, to);
      var q := Turn(p, |line|, isNext);
      assert q != p && line[q] != line[p] && line[q] in line;
      if GoesTo(c, to, !isNext, back) {
        Move(c, line, q, !isNext, back);
      }
    }
  }

  /** A walk of as many moves as there are rooms. */
  ghost predicate Walk(c: Entries, isNext: bool, walk: seq<int>) {
    forall i :: 0 <= i < |walk| - 1 ==> GoesTo(c, walk[i], isNext, walk[i + 1])
  }

  lemma {:induction false} WalkAt(c: Entries, line: seq<int>, p: nat, isNext: bool, walk: seq<int>, i: nat)
    requires UniqueUuids(c) && Line(c, line) && DistinctOrders(c) && |line| >= 2 && p < |line|
    requires |walk| == |line| + 1 && Walk(c, isNext, walk) && walk[0] == line[p] && i <= |line|
    ensures walk[i] == line[At(p, |line|, isNext, i)]
  {
    hide OrderOf, DistinctOrders, UniqueUuids, Line, GoesTo;
    if i > 0 {
      WalkAt(c, line, p, isNext, walk, i - 1);
      assert GoesTo(c, walk[i - 1], isNext, walk[i - 1 + 1]);
      Move(c, line, At(p, |line|, isNext, i - 1), isNext, walk[i]);
    }
  }

  lemma EachPlace(p: nat, n: nat, isNext: bool, q: nat) returns (i: nat)
    requires p < n && q < n
    ensures i < n && At(p, n, isNext, i) == q
  {
    i := if isNext then (if q >= p then q - p else q + n - p) else if q <= p then p - q else p + n - q;
  }

  /** Going on in one direction visits every room once before it is back at the start. */
  lemma FullRound(c: Entries, isNext: bool, walk: seq<int>, n: nat)
    requires UniqueUuids(c) && DistinctOrders(c)
    requires n == |RoomIds(c)| && n >= 2 && |walk| == n + 1 && Walk(c, isNext, walk)
    ensures walk[n] == walk[0]
    ensures Once(walk[..n])
    ensures forall k :: k in walk[..n] <==> IsRoom(c, k)
  {
    hide OrderOf, DistinctOrders, UniqueUuids, At;
    assert GoesTo(c, walk[0], isNext, walk[0 + 1]);
    var line :| NextRoom(c, line, c[Key(walk[0], Uuid)], isNext, walk[1]);
    LineLength(c, line);
    assert walk[0] in line;
    var p :| 0 <= p < n && line[p] == walk[0];
    forall i | 0 <= i <= n ensures walk[i] == line[At(p, n, isNext, i)] {
      WalkAt(c, line, p, isNext, walk, i);
    }
    AtFacts(p, n, isNext);
    var round := walk[..n];
    forall i, j | 0 <= i < j < n ensures round[i] != round[j] {
      assert At(p, n, isNext, i) != At(p, n, isNext, j);
    }
    forall k ensures k in round <==> IsRoom(c, k) {
      if k in round {
        var i :| 0 <= i < n && round[i] == k;
        assert walk[i] in line;
      }
      if IsRoom(c, k) {
        assert k in line;
        var q :| 0 <= q < n && line[q] == k;
        var i := EachPlace(p, n, isNext, q);
        assert walk[i] == k && round[i] == k;
      }
    }
  }

  lemma AtFacts(p: nat, n: nat, isNext: bool)
    requires p < n
    ensures At(p, n, isNext, n) == At(p, n, isNext, 0) == p
    ensures forall i, j :: 0 <= i < j < n ==> At(p, n, isNext, i) != At(p, n, isNext, j)
  {
  }

  lemma LineLength(c: Entries, line: seq<int>)
    requires Line(c, line)
    ensures |line| == |RoomIds(c)|
  {
    RoomIdsAreRooms(c);
    OnceLength(line);
    assert (set k | k in line) == RoomIds(c);
  }

  lemma {:induction false} OnceLength(s: seq<int>)
    requires Once(s)
    ensures |set k | k in s| == |s|
  {
    if s != [] {
      var rest := s[..|s| - 1];
      OnceLength(rest);
      assert s == rest + [s[|s| - 1]];
      assert (set k | k in s) == (set k | k in rest) + {s[|s| - 1]};
      assert s[|s| - 1] !in rest;
    }
  }

  // ----- which room is the next one -----

  /** Does room `l` come later than room `k` in this direction? */
  predicate Later(c: Entries, k: int, l: int, isNext: bool) {
    if isNext then OrderOf(c, k) < OrderOf(c, l) else OrderOf(c, l) < OrderOf(c, k)
  }

  ghost predicate SomeLater(c: Entries, k: int, isNext: bool) {
    exists l :: IsRoom(c, l) && Later(c, k, l, isNext)
  }

  /** The next room has the smallest order above one's own, the previous room the largest below it;
      where there is none, it is the room of the smallest or of the largest order of all. */
  lemma NextIsNearest(c: Entries, from: int, isNext: bool, to: int)
    requires UniqueUuids(c) && DistinctOrders(c) && GoesTo(c, from, isNext, to) && to != 0
    ensures IsRoom(c, to)
    ensures SomeLater(c, from, isNext) ==>
              Later(c, from, to, isNext) && forall k :: IsRoom(c, k) && Later(c, from, k, isNext) ==> !Later(c, k, to, isNext)
    ensures !SomeLater(c, from, isNext) ==> forall k :: IsRoom(c, k) ==> !Later(c, k, to, isNext)
  {
    hide OrderOf, DistinctOrders, UniqueUuids;
    var line :| NextRoom(c, line, c[Key(from, Uuid)], isNext, to);
    assert HasUuid(c, from, c[Key(from, Uuid)]);
    assert from in line;
    var p :| 0 <= p < |line| && line[p] == from;
    Move(c, line, p, isNext, to);
    NearestInLine(c, line, p, isNext);
  }

  lemma NearestInLine(c: Entries, line: seq<int>, p: nat, isNext: bool)
    requires Line(c, line) && DistinctOrders(c) && p < |line| && |line| >= 2
    ensures var from, to := line[p], line[Turn(p, |line|, isNext)];
            && IsRoom(c, to)
            && (SomeLater(c, from, isNext) ==>
                  && Later(c, from, to, isNext)
                  && forall k :: IsRoom(c, k) && Later(c, from, k, isNext) ==> !Later(c, k, to, isNext))
            && (!SomeLater(c, from, isNext) ==> forall k :: IsRoom(c, k) ==> !Later(c, k, to, isNext))
  {
    hide OrderOf, DistinctOrders;
    var q := Turn(p, |line|, isNext);
    assert line[q] in line;
    LineStrict(c, line);
    forall k | IsRoom(c, k)
      ensures Later(c, line[p], k, isNext) ==> (if isNext then q == p + 1 else q == p - 1) && !Later(c, k, line[q], isNext)
      ensures p + 1 == |line| && isNext ==> !Later(c, k, line[q], isNext)
      ensures p == 0 && !isNext ==> !Later(c, k, line[q], isNext)
    {
      assert k in line;
      var m :| 0 <= m < |line| && line[m] == k;
    }
    assert (if isNext then q == p + 1 else q == p - 1) ==> Later(c, line[p], line[q], isNext);
  }

  lemma LineStrict(c: Entries, line: seq<int>)
    requires Line(c, line) && DistinctOrders(c)
    ensures forall i, j :: 0 <= i < j < |line| ==> OrderOf(c, line[i]) < OrderOf(c, line[j])
  {
    hide OrderOf;
    forall i, j | 0 <= i < j < |line| ensures OrderOf(c, line[i]) < OrderOf(c, line[j]) {
      assert line[i] in line && line[j] in line;
    }
  }
}
