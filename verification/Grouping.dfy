/** The two-level index of appliances and their actions, gathered from the flat configuration:
    "elec_<id>_..." entries belong to an appliance, "elec_<id>_..._action_<id>_..." entries to one
    of its actions; both levels are sorted by an order entry. */
module Grouping {
  import opened Numbers
  import opened Wrappers
  import Text

  datatype Entry = Entry(name: string, value: string)

  // ----- where an entry belongs -----

  /** Nowhere; an appliance; one of its actions; or an action without a usable number, whose entry
      is dropped after its appliance has been noted. */
  datatype Place = Nowhere | Elec(id: int) | Act(id: int, action: int) | Dropped(id: int)

  const ELEC := "elec_"
  const ACTION := "_action_"
  const ORDER := "_order"
  const TYPE := "_type"

  predicate Contains(s: string, part: string) {
    Text.Find(part, s, 0) >= 0
  }

  function PlaceOf(name: string): Place {
    if !(ELEC <= name) then Nowhere
    else
      var id := Atoi(name[|ELEC|..]);
      if id <= 0 then Nowhere
      else
        var p := Text.Find(ACTION, name, 0);
        if p < 0 then Elec(id)
        else
          var action := Atoi(name[p + |ACTION|..]);
          if action <= 0 then Dropped(id) else Act(id, action)
  }

  /** The appliance an entry belongs to, or 0. */
  function IdOf(place: Place): int {
    if place.Nowhere? then 0 else place.id
  }

  // ----- what belongs to a place -----

  function Mine(entries: seq<Entry>, place: Place): seq<Entry> {
    if entries == [] then []
    else
      var rest, e := entries[..|entries| - 1], entries[|entries| - 1];
      Mine(rest, place) + if PlaceOf(e.name) == place then [e] else []
  }

  const DEFAULT_ORDER := 9999

  /** The number of the last order entry of a place. */
  function OrderAt(entries: seq<Entry>, place: Place): int {
    if entries == [] then DEFAULT_ORDER
    else
      var rest, e := entries[..|entries| - 1], entries[|entries| - 1];
      if PlaceOf(e.name) == place && Contains(e.name, ORDER) then Atoi(e.value) else OrderAt(rest, place)
  }

  ghost predicate HasElec(entries: seq<Entry>, id: int) {
    exists e :: e in entries && PlaceOf(e.name) != Nowhere && IdOf(PlaceOf(e.name)) == id
  }

  lemma Snoc(entries: seq<Entry>, e: Entry, place: Place)
    ensures Mine(entries + [e], place) == Mine(entries, place) + if PlaceOf(e.name) == place then [e] else []
    ensures OrderAt(entries + [e], place) ==
            if PlaceOf(e.name) == place && Contains(e.name, ORDER) then Atoi(e.value) else OrderAt(entries, place)
  {
    hide PlaceOf, Contains, Atoi;
    assert (entries + [e])[..|entries|] == entries;
  }

  lemma HasElecSnoc(entries: seq<Entry>, e: Entry, id: int)
    ensures HasElec(entries + [e], id) <==>
              HasElec(entries, id) || (PlaceOf(e.name) != Nowhere && IdOf(PlaceOf(e.name)) == id)
  {
    hide PlaceOf, IdOf;
    if HasElec(entries, id) {
      var f :| f in entries && PlaceOf(f.name) != Nowhere && IdOf(PlaceOf(f.name)) == id;
      assert f in entries + [e];
    }
    assert e in entries + [e];
  }

  // ----- nodes -----

  datatype Action = Action(key: int, order: int, arraykeys: seq<Entry>)

  datatype Work = Work(key: int, order: int, action: seq<Action>, arraykeys: seq<Entry>)

  ghost predicate ActionOk(entries: seq<Entry>, id: int, a: Action) {
    && a.arraykeys == Mine(entries, Act(id, a.key)) != []
    && a.order == OrderAt(entries, Act(id, a.key))
  }

  ghost predicate HasAction(actions: seq<Action>, key: int) {
    exists a :: a in actions && a.key == key
  }

  ghost predicate DistinctActions(actions: seq<Action>) {
    forall i, j :: 0 <= i < j < |actions| ==> actions[i].key != actions[j].key
  }

  /** One node for each action of the appliance that has entries, with all of them. */
  ghost predicate ActionsOk(entries: seq<Entry>, id: int, actions: seq<Action>) {
    && DistinctActions(actions)
    && (forall a :: a in actions ==> ActionOk(entries, id, a))
    && (forall key :: Mine(entries, Act(id, key)) != [] ==> HasAction(actions, key))
  }

  ghost predicate WorkOk(entries: seq<Entry>, w: Work) {
    && w.arraykeys == Mine(entries, Elec(w.key))
    && w.order == OrderAt(entries, Elec(w.key))
    && ActionsOk(entries, w.key, w.action)
  }

  ghost predicate HasWork(list: seq<Work>, id: int) {
    exists w :: w in list && w.key == id
  }

  ghost predicate DistinctWorks(list: seq<Work>) {
    forall i, j :: 0 <= i < j < |list| ==> list[i].key != list[j].key
  }

  /** One node for each appliance that is mentioned, with all that belongs to it. */
  ghost predicate Grouped(entries: seq<Entry>, list: seq<Work>) {
    && DistinctWorks(list)
    && (forall w :: w in list ==> WorkOk(entries, w))
    && (forall id :: HasWork(list, id) <==> HasElec(entries, id))
  }

  // ----- one more entry -----

  /** An entry that belongs elsewhere changes nothing for an appliance. */
  lemma OtherEntry(entries: seq<Entry>, e: Entry, w: Work)
    requires WorkOk(entries, w)
    requires PlaceOf(e.name) != Elec(w.key) && !(PlaceOf(e.name).Act? && PlaceOf(e.name).id == w.key)
    ensures WorkOk(entries + [e], w)
  {
    hide PlaceOf, Contains, Mine, OrderAt, Atoi, DistinctActions, HasAction;
    Snoc(entries, e, Elec(w.key));
    forall key ensures Mine(entries + [e], Act(w.key, key)) == Mine(entries, Act(w.key, key))
      && OrderAt(entries + [e], Act(w.key, key)) == OrderAt(entries, Act(w.key, key))
    {
      Snoc(entries, e, Act(w.key, key));
    }
  }

  /** The appliance with an entry of its own. */
  function WithEntry(w: Work, e: Entry): Work {
    w.(arraykeys := w.arraykeys + [e], order := if Contains(e.name, ORDER) then Atoi(e.value) else w.order)
  }

  lemma OwnEntry(entries: seq<Entry>, e: Entry, w: Work)
    requires WorkOk(entries, w) && PlaceOf(e.name) == Elec(w.key)
    ensures WorkOk(entries + [e], WithEntry(w, e))
  {
    hide PlaceOf, Contains, Mine, OrderAt, Atoi, DistinctActions, HasAction;
    Snoc(entries, e, Elec(w.key));
    forall key ensures Mine(entries + [e], Act(w.key, key)) == Mine(entries, Act(w.key, key))
      && OrderAt(entries + [e], Act(w.key, key)) == OrderAt(entries, Act(w.key, key))
    {
      Snoc(entries, e, Act(w.key, key));
    }
  }

  function WithActionEntry(a: Action, e: Entry): Action {
    a.(arraykeys := a.arraykeys + [e], order := if Contains(e.name, ORDER) then Atoi(e.value) else a.order)
  }

  /** The actions with an entry for the node at `i`, or for a new node when there is none. */
  function WithAction(actions: seq<Action>, i: nat, key: int, e: Entry): seq<Action>
    requires i <= |actions|
  {
    if i < |actions| then actions[i := WithActionEntry(actions[i], e)]
    else actions + [WithActionEntry(Action(key, DEFAULT_ORDER, []), e)]
  }

  lemma {:induction false} NoOrder(entries: seq<Entry>, place: Place)
    requires Mine(entries, place) == []
    ensures OrderAt(entries, place) == DEFAULT_ORDER
  {
    hide PlaceOf, Contains, Atoi;
    if entries != [] {
      NoOrder(entries[..|entries| - 1], place);
    }
  }

  lemma ActionEntry(entries: seq<Entry>, e: Entry, id: int, actions: seq<Action>, i: nat, key: int)
    requires ActionsOk(entries, id, actions) && PlaceOf(e.name) == Act(id, key) && i <= |actions|
    requires if i < |actions| then actions[i].key == key else !HasAction(actions, key)
    ensures ActionsOk(entries + [e], id, WithAction(actions, i, key, e))
  {
    hide PlaceOf, Contains, Mine, OrderAt, Atoi;
    var after := WithAction(actions, i, key, e);
    forall k ensures Mine(entries + [e], Act(id, k)) == Mine(entries, Act(id, k)) + (if k == key then [e] else [])
      && (k != key ==> OrderAt(entries + [e], Act(id, k)) == OrderAt(entries, Act(id, k)))
    {
      Snoc(entries, e, Act(id, k));
    }
    Snoc(entries, e, Act(id, key));
    if i == |actions| {
      NoOrder(entries, Act(id, key));
    } else {
      assert ActionOk(entries, id, actions[i]);
    }
    assert ActionOk(entries + [e], id, after[i]);
    forall j | 0 <= j < |after| ensures ActionOk(entries + [e], id, after[j]) {
      if j != i {
        assert after[j] == actions[j] && actions[j] in actions && actions[j].key != key by {
          assert actions[j] in actions;
        }
      }
    }
    forall k | Mine(entries + [e], Act(id, k)) != [] ensures HasAction(after, k) {
      if k == key {
        assert after[i] in after;
      } else {
        var j :| 0 <= j < |actions| && actions[j].key == k;
        assert after[j] == actions[j];
        assert after[j] in after;
      }
    }
  }

  lemma {:induction false} MineMembers(entries: seq<Entry>, place: Place)
    ensures forall e :: e in Mine(entries, place) <==> e in entries && PlaceOf(e.name) == place
  {
    hide PlaceOf;
    if entries != [] {
      var rest, last := entries[..|entries| - 1], entries[|entries| - 1];
      assert entries == rest + [last];
      MineMembers(rest, place);
    }
  }

  lemma {:induction false} NoneMine(entries: seq<Entry>, place: Place)
    requires forall e :: e in entries ==> PlaceOf(e.name) != place
    ensures Mine(entries, place) == []
  {
    hide PlaceOf;
    if entries != [] {
      NoneMine(entries[..|entries| - 1], place);
    }
  }

  lemma NewWork(entries: seq<Entry>, id: int)
    requires !HasElec(entries, id)
    ensures WorkOk(entries, Work(id, DEFAULT_ORDER, [], []))
  {
    hide PlaceOf, Mine, OrderAt;
    forall place: Place | place != Nowhere && IdOf(place) == id ensures Mine(entries, place) == [] {
      NoneMine(entries, place);
    }
    NoOrder(entries, Elec(id));
    assert forall key :: Mine(entries, Act(id, key)) == [];
  }

  lemma {:induction false} GroupStep(entries: seq<Entry>, e: Entry, list: seq<Work>, i: nat, w: Work)
    requires Grouped(entries, list) && PlaceOf(e.name) != Nowhere && w.key == IdOf(PlaceOf(e.name)) && i <= |list|
    requires if i < |list| then list[i].key == w.key else !HasWork(list, w.key)
    requires WorkOk(entries + [e], w)
    ensures Grouped(entries + [e], if i < |list| then list[i := w] else list + [w])
  {
    hide PlaceOf, WorkOk, HasElec;
    var after := if i < |list| then list[i := w] else list + [w];
    assert after[i] == w;
    forall j | 0 <= j < |after| ensures WorkOk(entries + [e], after[j]) {
      if j != i {
        assert after[j] == list[j] && list[j] in list;
        assert list[j].key != w.key;
        OtherEntry(entries, e, list[j]);
      }
    }
    forall id ensures HasWork(after, id) <==> HasElec(entries + [e], id) {
      HasElecSnoc(entries, e, id);
      WorkAfter(list, i, w, id);
    }
  }

  lemma WorkAfter(list: seq<Work>, i: nat, w: Work, id: int)
    requires i <= |list| && (i < |list| ==> list[i].key == w.key)
    ensures HasWork(if i < |list| then list[i := w] else list + [w], id) <==> HasWork(list, id) || id == w.key
  {
    var after := if i < |list| then list[i := w] else list + [w];
    assert after[i] == w;
    if HasWork(list, id) && id != w.key {
      var j :| 0 <= j < |list| && list[j].key == id;
      assert after[j] == list[j];
    }
    if HasWork(after, id) && id != w.key {
      var j :| 0 <= j < |after| && after[j].key == id;
      assert after[j] == list[j];
    }
  }

  lemma NowhereStep(entries: seq<Entry>, e: Entry, list: seq<Work>)
    requires Grouped(entries, list) && PlaceOf(e.name) == Nowhere
    ensures Grouped(entries + [e], list)
  {
    hide PlaceOf, WorkOk, HasElec, DistinctWorks;
    forall w | w in list ensures WorkOk(entries + [e], w) {
      OtherEntry(entries, e, w);
    }
    forall id ensures HasWork(list, id) <==> HasElec(entries + [e], id) {
      HasElecSnoc(entries, e, id);
    }
  }

  lemma Nothing()
    ensures Grouped([], [])
  {
  }

  lemma OldWork(entries: seq<Entry>, list: seq<Work>, i: nat, p: Work)
    requires Grouped(entries, list) && i <= |list|
    requires if i < |list| then p == list[i] else !HasWork(list, p.key) && p == Work(p.key, DEFAULT_ORDER, [], [])
    ensures WorkOk(entries, p)
  {
    hide WorkOk, HasElec;
    if i < |list| {
      assert list[i] in list;
    } else {
      NewWork(entries, p.key);
    }
  }

  // ----- sorting keeps the groups -----

  lemma RearrangedActions(entries: seq<Entry>, id: int, a: seq<Action>, b: seq<Action>)
    requires ActionsOk(entries, id, a) && Once(b) && forall x :: x in b <==> x in a
    ensures ActionsOk(entries, id, b)
  {
    hide Mine, OrderAt;
    forall i, j | 0 <= i < j < |b| ensures b[i].key != b[j].key {
      assert b[i] in a && b[j] in a;
    }
    forall key | Mine(entries, Act(id, key)) != [] ensures HasAction(b, key) {
      assert HasAction(a, key);
    }
  }

  lemma RearrangedWorks(entries: seq<Entry>, a: seq<Work>, b: seq<Work>)
    requires Grouped(entries, a) && Once(b) && forall x :: x in b <==> x in a
    ensures Grouped(entries, b)
  {
    hide WorkOk, HasElec;
    forall i, j | 0 <= i < j < |b| ensures b[i].key != b[j].key {
      assert b[i] in a && b[j] in a;
    }
    forall id ensures HasWork(b, id) <==> HasWork(a, id) {
    }
  }

  /** Sorting the actions of one node. */
  lemma ActionsReplaced(entries: seq<Entry>, list: seq<Work>, i: nat, actions: seq<Action>)
    requires Grouped(entries, list) && i < |list| && ActionsOk(entries, list[i].key, actions)
    ensures Grouped(entries, list[i := list[i].(action := actions)])
  {
    hide ActionsOk, HasElec, Mine, OrderAt;
    var w := list[i].(action := actions);
    var after := list[i := w];
    assert WorkOk(entries, list[i]) by {
      assert list[i] in list;
    }
    forall j | 0 <= j < |after| ensures WorkOk(entries, after[j]) {
      assert j != i ==> after[j] == list[j] && list[j] in list;
    }
    forall id ensures HasWork(after, id) <==> HasWork(list, id) {
      WorkAfter(list, i, w, id);
      assert list[i] in list;
    }
  }

  ghost predicate SortedActions(actions: seq<Action>) {
    forall i, j :: 0 <= i < j < |actions| ==> actions[i].order <= actions[j].order
  }

  /** Appliances and their actions in ascending order. */
  ghost predicate Sorted(list: seq<Work>) {
    && (forall i, j :: 0 <= i < j < |list| ==> list[i].order <= list[j].order)
    && (forall w :: w in list ==> SortedActions(w.action))
  }

  class ScriptRemoconWebOrderby {
    var sortlist: seq<Work>

    /** Builds the index from the entries of the configuration, in the order of the map. */
    constructor (configmap: seq<Entry>)
      ensures Grouped(configmap, sortlist) && Sorted(sortlist)
    {
      sortlist := [];
      new;
      hide Grouped;
      Nothing();
      assert configmap[..0] == [];
      for n := 0 to |configmap|
        invariant Grouped(configmap[..n], sortlist)
      {
        assert configmap[..n + 1] == configmap[..n] + [configmap[n]];
        AddEntry(configmap[..n], configmap[n]);
      }
      assert configmap[..|configmap|] == configmap;
      SortAll(configmap);
    }

    /** The loop body for one entry. */
    method AddEntry(ghost entries: seq<Entry>, e: Entry)
      requires Grouped(entries, sortlist)
      modifies this
      ensures Grouped(entries + [e], sortlist)
    {
      hide Grouped, WorkOk, Contains, Atoi;
      if !(ELEC <= e.name) {
        NowhereStep(entries, e, sortlist);
        return;
      }
      var key := Atoi(e.name[|ELEC|..]);
      if key <= 0 {
        NowhereStep(entries, e, sortlist);
        return;
      }
      var i := FindWork(key);
      var p := Work(key, DEFAULT_ORDER, [], []);
      if i < |sortlist| {
        p := sortlist[i];
      }
      OldWork(entries, sortlist, i, p);
      var actionpos := Text.Find(ACTION, e.name, 0);
      if actionpos >= 0 {
        var actionkey := Atoi(e.name[actionpos + |ACTION|..]);
        if actionkey > 0 {
          p := AddAction(entries, e, p, actionkey);
        } else {
          OtherEntry(entries, e, p);
        }
      } else {
        OwnEntry(entries, e, p);
        p := WithEntry(p, e);
      }
      GroupStep(entries, e, sortlist, i, p);
      sortlist := if i < |sortlist| then sortlist[i := p] else sortlist + [p];
    }

    method FindWork(key: int) returns (i: nat)
      ensures i <= |sortlist|
      ensures if i < |sortlist| then sortlist[i].key == key else !HasWork(sortlist, key)
    {
      i := 0;
      while i < |sortlist| && sortlist[i].key != key
        invariant i <= |sortlist| && forall j :: 0 <= j < i ==> sortlist[j].key != key
      {
        i := i + 1;
      }
    }

    static method AddAction(ghost entries: seq<Entry>, e: Entry, w: Work, key: int) returns (r: Work)
      requires WorkOk(entries, w) && PlaceOf(e.name) == Act(w.key, key)
      ensures WorkOk(entries + [e], r) && r.key == w.key
    {
      hide PlaceOf, Contains, Atoi, ActionsOk, Mine, OrderAt;
      var i := 0;
      while i < |w.action| && w.action[i].key != key
        invariant i <= |w.action| && forall j :: 0 <= j < i ==> w.action[j].key != key
      {
        i := i + 1;
      }
      ActionEntry(entries, e, w.key, w.action, i, key);
      Snoc(entries, e, Elec(w.key));
      r := w.(action := WithAction(w.action, i, key, e));
    }

    static method SortActions(ghost entries: seq<Entry>, ghost id: int, actions: seq<Action>) returns (r: seq<Action>)
      requires ActionsOk(entries, id, actions)
      ensures ActionsOk(entries, id, r) && SortedActions(r)
    {
      hide ActionOk, HasAction, Mine;
      var ranked := seq(|actions|, i requires 0 <= i < |actions| => Ranked(actions[i].order, actions[i]));
      assert Items(ranked) == actions;
      var sorted := Sort(ranked);
      r := Items(sorted);
      ItemsRearranged(ranked, sorted);
      Rearranged(ranked, sorted);
      RearrangedActions(entries, id, actions, r);
      forall i | 0 <= i < |r| ensures sorted[i].rank == r[i].order {
        assert sorted[i] in ranked;
      }
    }

    method SortAll(ghost entries: seq<Entry>)
      requires Grouped(entries, sortlist)
      modifies this
      ensures Grouped(entries, sortlist) && Sorted(sortlist)
    {
      hide ActionsOk, HasElec, Mine, OrderAt, SortedActions;
      for n := 0 to |sortlist|
        invariant |sortlist| == |old(sortlist)|
        invariant Grouped(entries, sortlist)
        invariant forall i :: 0 <= i < n ==> SortedActions(sortlist[i].action)
      {
        assert WorkOk(entries, sortlist[n]) by {
          assert sortlist[n] in sortlist;
        }
        var actions := SortActions(entries, sortlist[n].key, sortlist[n].action);
        ActionsReplaced(entries, sortlist, n, actions);
        sortlist := sortlist[n := sortlist[n].(action := actions)];
      }
      SortWorks(entries);
    }

    method SortWorks(ghost entries: seq<Entry>)
      requires Grouped(entries, sortlist) && forall w :: w in sortlist ==> SortedActions(w.action)
      modifies this
      ensures Grouped(entries, sortlist) && Sorted(sortlist)
    {
      hide WorkOk, HasElec, HasWork, SortedActions;
      var list := sortlist;
      var ranked := seq(|list|, i requires 0 <= i < |list| => Ranked(list[i].order, list[i]));
      assert Items(ranked) == list;
      var sorted := Sort(ranked);
      sortlist := Items(sorted);
      ItemsRearranged(ranked, sorted);
      Rearranged(ranked, sorted);
      RearrangedWorks(entries, list, sortlist);
      forall i | 0 <= i < |sortlist| ensures sorted[i].rank == sortlist[i].order {
        assert sorted[i] in ranked;
      }
    }

    /** The numbers of the appliances in their order. */
    method GetElecIDs() returns (ret: seq<int>)
      ensures |ret| == |sortlist| && forall i :: 0 <= i < |ret| ==> ret[i] == sortlist[i].key
    {
      ret := [];
      for n := 0 to |sortlist|
        invariant |ret| == n && forall i :: 0 <= i < n ==> ret[i] == sortlist[i].key
      {
        ret := ret + [sortlist[n].key];
      }
    }

    /** The numbers of the actions of the first appliance of the given type, and its own number;
        0 when there is none. */
    method GetElecActionIDs(elec: string) returns (ret: seq<int>, elecID: int)
      ensures ActionIDs(sortlist, elec, ret, elecID)
    {
      hide Contains;
      for n := 0 to |sortlist|
        invariant forall i :: 0 <= i < n ==> !IsOfType(sortlist[i], elec)
      {
        var w := sortlist[n];
        var k := 0;
        while k < |w.arraykeys| && !NamesType(w.arraykeys[k])
          invariant k <= |w.arraykeys| && forall i :: 0 <= i < k ==> !NamesType(w.arraykeys[i])
        {
          k := k + 1;
        }
        if k < |w.arraykeys| && w.arraykeys[k].value == elec {
          assert IsOfType(w, elec);
          ret := [];
          for m := 0 to |w.action|
            invariant |ret| == m && forall i :: 0 <= i < m ==> ret[i] == w.action[i].key
          {
            ret := ret + [w.action[m].key];
          }
          return ret, w.key;
        }
      }
      return [], 0;
    }
  }

  predicate NamesType(e: Entry) {
    Contains(e.name, TYPE) || Contains(e.name, ACTION)
  }

  /** The first entry of the appliance that names a type decides. */
  ghost predicate IsOfType(w: Work, elec: string) {
    exists k :: 0 <= k < |w.arraykeys| && NamesType(w.arraykeys[k]) && w.arraykeys[k].value == elec
                && forall i :: 0 <= i < k ==> !NamesType(w.arraykeys[i])
  }

  ghost predicate ActionIDs(list: seq<Work>, elec: string, ret: seq<int>, elecID: int) {
    || (ret == [] && elecID == 0 && forall i :: 0 <= i < |list| ==> !IsOfType(list[i], elec))
    || exists n :: 0 <= n < |list| && IsOfType(list[n], elec)
                   && (forall i :: 0 <= i < n ==> !IsOfType(list[i], elec))
                   && elecID == list[n].key
                   && |ret| == |list[n].action| && forall i :: 0 <= i < |ret| ==> ret[i] == list[n].action[i].key
  }

  // ----- nothing is lost, nothing is doubled -----

  /** Does node `w` itself hold the entry? */
  predicate Holds(w: Work, e: Entry) {
    e in w.arraykeys
  }

  /** Each entry of an appliance is held by the node of that appliance and by no other node or action. */
  lemma ElecEntryOnce(entries: seq<Entry>, list: seq<Work>, e: Entry)
    requires Grouped(entries, list) && e in entries && PlaceOf(e.name).Elec?
    ensures exists w :: w in list && Holds(w, e)
    ensures forall w :: w in list && Holds(w, e) ==> w.key == PlaceOf(e.name).id
    ensures forall w, a :: w in list && a in w.action ==> e !in a.arraykeys
  {
    hide PlaceOf, OrderAt, Mine, DistinctActions, DistinctWorks;
    var id := PlaceOf(e.name).id;
    assert HasElec(entries, id) && HasWork(list, id);
    forall place ensures e in Mine(entries, place) <==> PlaceOf(e.name) == place {
      MineMembers(entries, place);
    }
    var w :| w in list && w.key == id;
    assert WorkOk(entries, w) && Holds(w, e);
  }

  /** Each entry of an action is held by that action of the node of its appliance, and nowhere else. */
  lemma ActionEntryOnce(entries: seq<Entry>, list: seq<Work>, e: Entry)
    requires Grouped(entries, list) && e in entries && PlaceOf(e.name).Act?
    ensures exists w, a :: w in list && a in w.action && e in a.arraykeys
    ensures forall w, a :: w in list && a in w.action && e in a.arraykeys ==>
              w.key == PlaceOf(e.name).id && a.key == PlaceOf(e.name).action
    ensures forall w :: w in list ==> !Holds(w, e)
  {
    hide PlaceOf, OrderAt, Mine, DistinctActions, DistinctWorks;
    var place := PlaceOf(e.name);
    assert HasElec(entries, place.id) && HasWork(list, place.id);
    forall p ensures e in Mine(entries, p) <==> PlaceOf(e.name) == p {
      MineMembers(entries, p);
    }
    var w :| w in list && w.key == place.id;
    assert WorkOk(entries, w);
    assert e in Mine(entries, place) && place == Act(w.key, place.action);
    assert HasAction(w.action, place.action);
    var a :| a in w.action && a.key == place.action;
    assert ActionOk(entries, w.key, a);
  }

  /** Every other entry is dropped, and no node holds anything that is not an entry. */
  lemma OthersDropped(entries: seq<Entry>, list: seq<Work>, e: Entry)
    requires Grouped(entries, list) && (e !in entries || PlaceOf(e.name).Nowhere? || PlaceOf(e.name).Dropped?)
    ensures forall w :: w in list ==> !Holds(w, e)
    ensures forall w, a :: w in list && a in w.action ==> e !in a.arraykeys
  {
    hide PlaceOf, OrderAt, Mine, DistinctActions, DistinctWorks, HasWork, HasElec;
    forall p ensures e in Mine(entries, p) <==> e in entries && PlaceOf(e.name) == p {
      MineMembers(entries, p);
    }
  }

  /** The index depends on the entries alone, up to nodes of equal order. */
  lemma SameNodes(entries: seq<Entry>, l1: seq<Work>, l2: seq<Work>, id: int)
    requires Grouped(entries, l1) && Grouped(entries, l2)
    ensures HasWork(l1, id) <==> HasWork(l2, id)
    ensures forall v, w :: v in l1 && w in l2 && v.key == w.key ==>
              v.order == w.order && v.arraykeys == w.arraykeys && forall a :: a in v.action <==> a in w.action
  {
    hide HasElec, Mine, OrderAt, DistinctActions, DistinctWorks;
    forall v, w | v in l1 && w in l2 && v.key == w.key
      ensures v.order == w.order && v.arraykeys == w.arraykeys && forall a :: a in v.action <==> a in w.action
    {
      assert WorkOk(entries, v) && WorkOk(entries, w);
      SubActions(entries, v.key, v.action, w.action);
      SubActions(entries, v.key, w.action, v.action);
    }
  }

  lemma SubActions(entries: seq<Entry>, id: int, a: seq<Action>, b: seq<Action>)
    requires ActionsOk(entries, id, a) && ActionsOk(entries, id, b)
    ensures forall x :: x in a ==> x in b
  {
    hide Mine, OrderAt, DistinctActions;
    forall x | x in a ensures x in b {
      assert ActionOk(entries, id, x);
      var y :| y in b && y.key == x.key;
      assert ActionOk(entries, id, y);
    }
  }

  // ----- names and orders -----

  /** The name of an entry of an appliance, and of one of its actions. */
  function ElecName(id: nat, field: string): string {
    ELEC + Num2Str(id) + field
  }

  function ActionName(id: nat, action: nat, field: string): string {
    ELEC + Num2Str(id) + ACTION + Num2Str(action) + field
  }

  lemma AfterElec(id: nat, rest: string)
    requires rest != "" ==> !IsDigit(rest[0])
    ensures var name := ELEC + Num2Str(id) + rest;
            ELEC <= name && Atoi(name[|ELEC|..]) == id
  {
    AtoiBefore(id, rest);
    var name := ELEC + Num2Str(id) + rest;
    assert name == ELEC + (Num2Str(id) + rest);
    assert name[..|ELEC|] == ELEC && name[|ELEC|..] == Num2Str(id) + rest;
  }

  lemma UnderscoreIsNoDigit()
    ensures !IsDigit(ACTION[0]) && |ACTION| == 8 && ACTION[0] == '_' && ACTION[1] == 'a' && |ELEC| == 5
  {
  }

  lemma ActionBegins(s: string, i: nat)
    ensures Text.OccursAt(ACTION, s, i) ==> i + 1 < |s| && s[i] == '_' && s[i + 1] == 'a'
  {
    if Text.OccursAt(ACTION, s, i) {
      var part := s[i..i + |ACTION|];
      assert s[i] == part[0] && s[i + 1] == part[1];
    }
  }

  /** In the name of an entry of an action, the first "_action_" is the one in front of its number. */
  lemma FirstAction(id: nat, action: nat, field: string)
    ensures Text.Find(ACTION, ActionName(id, action, field), 0) == |ELEC| + |Num2Str(id)|
  {
    hide Num2Str;
    UnderscoreIsNoDigit();
    var digits, rest := Num2Str(id), Num2Str(action) + field;
    var name, p := ActionName(id, action, field), |ELEC| + |digits|;
    assert name == ELEC + digits + ACTION + rest;
    assert name[p..p + |ACTION|] == ACTION;
    forall i: nat | i < p ensures !Text.OccursAt(ACTION, name, i) {
      ActionBegins(name, i);
      assert i < 5 ==> name[i] == ELEC[i];
      assert 5 <= i < p ==> name[i] == digits[i - 5] && digits[i - 5] in digits;
      assert i == 4 ==> name[5] == digits[0] && digits[0] in digits;
    }
    Text.FindIs(ACTION, name, 0, p);
  }

  /** The names that the store uses are put where they belong. */
  lemma NamesBelong(id: nat, action: nat, field: string)
    requires id > 0 && (field != "" ==> !IsDigit(field[0]))
    ensures PlaceOf(ActionName(id, action, field)) == if action > 0 then Act(id, action) else Dropped(id)
    ensures !Contains(ElecName(id, field), ACTION) ==> PlaceOf(ElecName(id, field)) == Elec(id)
  {
    hide Num2Str, Atoi;
    UnderscoreIsNoDigit();
    var digits, rest := Num2Str(id), Num2Str(action) + field;
    var name := ActionName(id, action, field);
    assert name == ELEC + digits + (ACTION + rest);
    AfterElec(id, ACTION + rest);
    AfterElec(id, field);
    FirstAction(id, action, field);
    AtoiBefore(action, field);
    assert name == (ELEC + digits + ACTION) + rest;
    assert name[|ELEC| + |digits| + |ACTION|..] == rest;
  }

  /** Where one order entry belongs to a place, its number is the order of the place; without one it is
      the default. */
  lemma {:induction false} OrderIsThat(entries: seq<Entry>, place: Place, i: nat)
    requires i <= |entries|
    requires forall j :: 0 <= j < |entries| ==>
               (PlaceOf(entries[j].name) == place && Contains(entries[j].name, ORDER) <==> j == i)
    ensures OrderAt(entries, place) == if i < |entries| then Atoi(entries[i].value) else DEFAULT_ORDER
    decreases |entries|
  {
    hide PlaceOf, Contains, Atoi;
    if entries != [] && i != |entries| - 1 {
      OrderIsThat(entries[..|entries| - 1], place, if i < |entries| then i else |entries| - 1);
    }
  }
}
