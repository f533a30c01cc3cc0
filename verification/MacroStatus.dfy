/** What a run remembers: the status of each appliance after the actions that were done, and which
    conditional steps it makes a macro skip. */
module MacroStatus {
  import opened Wrappers
  import opened MacroTable
  import opened MacroRun

  // ----- the actions done -----

  predicate Sets(t: Table, action: Key, elec: int) {
    action.0 == elec && action !in t.keepsStatus
  }

  predicate SameStatus(a: map<int, string>, b: map<int, string>, elec: int) {
    (elec in a <==> elec in b) && (elec in a ==> a[elec] == b[elec])
  }

  /** After these actions each appliance has the type of the last of them that belongs to it and
      does not keep the status; without one it has what it had. */
  ghost predicate Remembers(t: Table, before: map<int, string>, done: seq<Key>, after: map<int, string>) {
    forall elec :: RemembersOne(t, before, done, after, elec)
  }

  ghost predicate RemembersOne(t: Table, before: map<int, string>, done: seq<Key>, after: map<int, string>, elec: int) {
    && (NoneSets(t, done, elec) ==> SameStatus(before, after, elec))
    && (forall i :: IsLastSetter(t, done, elec, i) ==>
          0 <= i < |done| && elec in after && after[elec] == TypeOf(t.actionTypes, done[i]))
  }

  ghost predicate IsLastSetter(t: Table, done: seq<Key>, elec: int, i: int) {
    0 <= i < |done| && Sets(t, done[i], elec) && forall j :: i < j < |done| ==> !Sets(t, done[j], elec)
  }

  /** How many of the actions are no macros. */
  function LeafCount(t: Table, done: seq<Key>): nat {
    if done == [] then 0
    else LeafCount(t, done[..|done| - 1]) + if done[|done| - 1] in t.macros then 0 else 1
  }

  lemma {:induction false} LeafCountConcat(t: Table, a: seq<Key>, b: seq<Key>)
    ensures LeafCount(t, a + b) == LeafCount(t, a) + LeafCount(t, b)
    decreases |b|
  {
    if b == [] {
      assert a + b == a;
    } else {
      assert (a + b)[..|a + b| - 1] == a + b[..|b| - 1];
      LeafCountConcat(t, a, b[..|b| - 1]);
    }
  }

  lemma RemembersConcat(t: Table, s0: map<int, string>, a: seq<Key>, s1: map<int, string>, b: seq<Key>, s2: map<int, string>)
    requires Remembers(t, s0, a, s1) && Remembers(t, s1, b, s2)
    ensures Remembers(t, s0, a + b, s2)
  {
    forall elec ensures RemembersOne(t, s0, a + b, s2, elec) {
      assert RemembersOne(t, s0, a, s1, elec) && RemembersOne(t, s1, b, s2, elec);
      ConcatOne(t, s0, a, s1, b, s2, elec);
    }
  }

  ghost predicate NoneSets(t: Table, done: seq<Key>, elec: int) {
    forall i :: 0 <= i < |done| ==> !Sets(t, done[i], elec)
  }

  lemma NoneSetsConcat(t: Table, a: seq<Key>, b: seq<Key>, elec: int)
    ensures NoneSets(t, a + b, elec) <==> NoneSets(t, a, elec) && NoneSets(t, b, elec)
  {
    hide Sets;
    assert forall i :: 0 <= i < |a| ==> (a + b)[i] == a[i];
    assert forall i :: 0 <= i < |b| ==> (a + b)[|a| + i] == b[i];
  }

  lemma LastSetterConcat(t: Table, a: seq<Key>, b: seq<Key>, elec: int, i: int)
    requires IsLastSetter(t, a + b, elec, i)
    ensures i < |a| ==> IsLastSetter(t, a, elec, i) && NoneSets(t, b, elec) && (a + b)[i] == a[i]
    ensures i >= |a| ==> IsLastSetter(t, b, elec, i - |a|) && (a + b)[i] == b[i - |a|]
  {
    hide Sets;
    assert forall k :: 0 <= k < |a| ==> (a + b)[k] == a[k];
    forall k | i - |a| < k < |b| && 0 <= k ensures !Sets(t, b[k], elec) {
      assert !Sets(t, (a + b)[|a| + k], elec);
    }
  }

  lemma InRange(t: Table, done: seq<Key>, elec: int, i: int)
    requires IsLastSetter(t, done, elec, i)
    ensures 0 <= i < |done|
  {
  }

  lemma ConcatOne(t: Table, s0: map<int, string>, a: seq<Key>, s1: map<int, string>, b: seq<Key>,
                  s2: map<int, string>, elec: int)
    requires RemembersOne(t, s0, a, s1, elec) && RemembersOne(t, s1, b, s2, elec)
    ensures RemembersOne(t, s0, a + b, s2, elec)
  {
    hide Sets, TypeOf, IsLastSetter, NoneSets;
    NoneSetsConcat(t, a, b, elec);
    forall i | IsLastSetter(t, a + b, elec, i)
      ensures 0 <= i < |a + b| && elec in s2 && s2[elec] == TypeOf(t.actionTypes, (a + b)[i])
    {
      InRange(t, a + b, elec, i);
      LastSetterConcat(t, a, b, elec, i);
    }
  }

  lemma UpdateRemembers(t: Table, key: Key, w: World)
    ensures Remembers(t, w.status, [], w.status)
    ensures Remembers(t, w.status, [key], Updated(t, key, w).status) && Updated(t, key, w).ticks == w.ticks
    ensures LeafCount(t, [key]) == (if key in t.macros then 0 else 1) && LeafCount(t, []) == 0
  {
    forall elec ensures RemembersOne(t, w.status, [key], Updated(t, key, w).status, elec) {
      assert !Sets(t, key, elec) || !NoneSets(t, [key], elec) by {
        assert [key][0] == key;
      }
    }
  }

  /** Do calls lead from one action to the other? */
  ghost predicate Reaches(t: Table, from: Key, to: Key) {
    exists path :: IsPathFrom(t, from, path) && path[|path| - 1] == to
  }

  ghost predicate AllReached(t: Table, from: Key, done: seq<Key>) {
    forall k :: k in done ==> Reaches(t, from, k)
  }

  lemma ReachesItself(t: Table, key: Key)
    ensures Reaches(t, key, key)
  {
    assert IsPathFrom(t, key, [key]);
  }

  lemma ReachesThrough(t: Table, from: Key, i: int, next: Key, to: Key)
    requires from in t.macros && 1 <= i <= STEP_COUNT && StepCalls(t, from, i, next) && Reaches(t, next, to)
    ensures Reaches(t, from, to)
  {
    hide StepCalls;
    var path :| IsPathFrom(t, next, path) && path[|path| - 1] == to;
    var longer := [from] + path;
    assert Calls(t, from, next);
    forall k | 0 <= k < |longer| - 1 ensures Calls(t, longer[k], longer[k + 1]) {
      assert k > 0 ==> longer[k] == path[k - 1] && longer[k + 1] == path[k];
    }
    assert IsPathFrom(t, from, longer) && longer[|longer| - 1] == to;
  }

  /** What is known of the actions done in a run: the status they leave, the leaf actions among them
      (one that fails is performed and not done), and that calls lead to each of them. */
  ghost predicate Did(t: Table, from: Key, w: World, done: seq<Key>, r: Run) {
    && Remembers(t, w.status, done, r.world.status)
    && r.world.ticks == w.ticks + LeafCount(t, done) + (if r.outcome == LeafError then 1 else 0)
    && AllReached(t, from, done)
  }

  /** Every run does some actions, one that ends `Done` the action itself as the last one. */
  lemma {:induction false} StatusHistory(t: Table, leaf: LeafOracle, depth: nat, key: Key, n: int, w: World)
    returns (done: seq<Key>)
    ensures var r := FireAction(t, leaf, depth, key, n, w);
            && Did(t, key, w, done, r)
            && (r.outcome == Done ==> done != [] && done[|done| - 1] == key)
    decreases depth, 1
  {
    hide Remembers, RunMacro, LeafCount, Reaches, Updated;
    done := [];
    UpdateRemembers(t, key, w);
    ReachesItself(t, key);
    var r := FireAction(t, leaf, depth, key, n, w);
    if depth > 0 {
      if key in t.macros {
        done := StepsHistory(t, leaf, depth - 1, key, 1, n, w);
        var inner := RunMacro(t, leaf, depth - 1, key, 1, n, w);
        if r.outcome == Done {
          UpdateRemembers(t, key, inner.world);
          RemembersConcat(t, w.status, done, inner.world.status, [key], r.world.status);
          LeafCountConcat(t, done, [key]);
          done := done + [key];
        }
      } else if r.outcome == Done {
        UpdateRemembers(t, key, w.(ticks := w.ticks + 1));
        done := [key];
      }
    }
  }

  lemma {:induction false} StepsHistory(t: Table, leaf: LeafOracle, depth: nat, key: Key, i: int, n: int, w: World)
    returns (done: seq<Key>)
    requires 1 <= i && key in t.macros
    ensures Did(t, key, w, done, RunMacro(t, leaf, depth, key, i, n, w))
    decreases depth, if i > STEP_COUNT then 4 else STEP_COUNT + 5 - i
  {
    hide Remembers, FireAction, LeafCount, Reaches, Updated, Skipped, Resolve;
    done := [];
    UpdateRemembers(t, key, w);
    if i <= STEP_COUNT {
      var s := StepAt(t, key, i);
      if IsNone(s) {
        done := StepsHistory(t, leaf, depth, key, i + 1, n, w);
      } else {
        done := OneStepHistory(t, leaf, depth, key, i, n, w);
        var r := StepRun(t, leaf, depth, s, n, w);
        if r.outcome == Done && r.count + 1 <= NAICHICHI_MACRO_MAX_CALLCOUNT {
          var rest := StepsHistory(t, leaf, depth, key, i + 1, r.count + 1, r.world);
          var end := RunMacro(t, leaf, depth, key, i + 1, r.count + 1, r.world);
          RemembersConcat(t, w.status, done, r.world.status, rest, end.world.status);
          LeafCountConcat(t, done, rest);
          done := done + rest;
        }
      }
    }
  }

  lemma {:induction false} OneStepHistory(t: Table, leaf: LeafOracle, depth: nat, key: Key, i: int, n: int, w: World)
    returns (done: seq<Key>)
    requires 1 <= i <= STEP_COUNT && key in t.macros && !IsNone(StepAt(t, key, i))
    ensures Did(t, key, w, done, StepRun(t, leaf, depth, StepAt(t, key, i), n, w))
    decreases depth, 3
  {
    hide Remembers, FireAction, LeafCount, Reaches, Updated, Skipped, Resolve;
    done := [];
    UpdateRemembers(t, key, w);
    var s := StepAt(t, key, i);
    if !Skipped(t, s, w) && !Reserved(s.elec) && !Reserved(s.action) {
      var found := Resolve(t, s.elec, s.action);
      if found.Some? {
        done := StatusHistory(t, leaf, depth, found.value, n, w);
        forall k | k in done ensures Reaches(t, key, k) {
          ReachesThrough(t, key, i, found.value, k);
        }
      }
    }
  }

  // ----- what the status is afterwards -----

  /** After a run that ends: an action that does not keep the status leaves its appliance with its
      own type, a leaf action that keeps it leaves it as it was, and every appliance has the status it
      had or the type of an action that calls lead to and that does not keep the status. */
  lemma StatusAfter(t: Table, leaf: LeafOracle, depth: nat, key: Key, n: int, w: World)
    requires FireAction(t, leaf, depth, key, n, w).outcome == Done
    ensures var after := FireAction(t, leaf, depth, key, n, w).world.status;
            && (key !in t.keepsStatus ==> key.0 in after && after[key.0] == TypeOf(t.actionTypes, key))
            && (key in t.keepsStatus && key !in t.macros ==> after == w.status)
            && forall elec :: SameStatus(w.status, after, elec) || SetBySome(t, key, after, elec)
  {
    hide FireAction, TypeOf, Reaches;
    var r := FireAction(t, leaf, depth, key, n, w);
    var done := StatusHistory(t, leaf, depth, key, n, w);
    assert RemembersOne(t, w.status, done, r.world.status, key.0);
    assert Sets(t, key, key.0) ==> IsLastSetter(t, done, key.0, |done| - 1);
    forall elec ensures SameStatus(w.status, r.world.status, elec) || SetBySome(t, key, r.world.status, elec) {
      assert RemembersOne(t, w.status, done, r.world.status, elec);
      if m :| 0 <= m < |done| && Sets(t, done[m], elec) {
        var i := LastSetter(t, done, elec, m);
        assert done[i] in done && Reaches(t, key, done[i]);
      }
    }
    if key in t.keepsStatus && key !in t.macros {
      LeafKeeps(t, leaf, depth, key, n, w);
    }
  }

  ghost predicate SetBySome(t: Table, from: Key, after: map<int, string>, elec: int) {
    exists k :: && Reaches(t, from, k) && Sets(t, k, elec)
                && elec in after && after[elec] == TypeOf(t.actionTypes, k)
  }

  lemma LastSetter(t: Table, done: seq<Key>, elec: int, m: int) returns (i: int)
    requires 0 <= m < |done| && Sets(t, done[m], elec)
    ensures IsLastSetter(t, done, elec, i)
  {
    i := |done| - 1;
    while !Sets(t, done[i], elec)
      invariant m <= i < |done|
      invariant forall j :: i < j < |done| ==> !Sets(t, done[j], elec)
      decreases i
    {
      i := i - 1;
    }
  }

  lemma LeafKeeps(t: Table, leaf: LeafOracle, depth: nat, key: Key, n: int, w: World)
    requires key in t.keepsStatus && key !in t.macros
    ensures FireAction(t, leaf, depth, key, n, w).world.status == w.status
  {
  }

  /** A macro that keeps the status leaves each appliance what its steps left; one that does not
      differs from that at its own appliance alone. */
  lemma MacroLeavesSteps(t: Table, leaf: LeafOracle, depth: nat, key: Key, n: int, w: World)
    requires depth > 0 && key in t.macros && FireAction(t, leaf, depth, key, n, w).outcome == Done
    ensures var after := FireAction(t, leaf, depth, key, n, w).world;
            var steps := RunMacro(t, leaf, depth - 1, key, 1, n, w).world;
            && after.ticks == steps.ticks
            && forall elec :: elec != key.0 || key in t.keepsStatus ==> SameStatus(steps.status, after.status, elec)
  {
    hide RunMacro;
  }

  // ----- conditional steps -----

  /** The action that a conditional step stands for, when its names are no reserved ones. */
  predicate StandsFor(t: Table, s: Step, action: Key) {
    !IsNone(s) && !Reserved(s.elec) && !Reserved(s.action) && Resolve(t, s.elec, s.action) == Some(action)
  }

  predicate HasStatus(w: World, elec: int, status: string) {
    elec in w.status && w.status[elec] == status
  }

  lemma SkippedIff(t: Table, s: Step, action: Key, w: World)
    requires StandsFor(t, s, action)
    ensures Skipped(t, s, w) <==> s.after == "ifnext" && HasStatus(w, action.0, s.action)
  {
    hide FindElec, FindAction;
    FindActionHas(t.actionTypes, FindElec(t.elecTypes, s.elec), s.action);
  }

  /** A step "ifnext" whose action the appliance already has as its status performs nothing, changes
      nothing, and still counts; every other step performs its action, and then counts. */
  lemma StepDecides(t: Table, leaf: LeafOracle, depth: nat, key: Key, i: int, n: int, w: World, action: Key)
    requires 1 <= i <= STEP_COUNT && StandsFor(t, StepAt(t, key, i), action)
    ensures var s, run := StepAt(t, key, i), RunMacro(t, leaf, depth, key, i, n, w);
            var r := if s.after == "ifnext" && HasStatus(w, action.0, s.action) then Run(Done, n, w)
                     else FireAction(t, leaf, depth, action, n, w);
            run == if r.outcome != Done then r
                   else if r.count + 1 > NAICHICHI_MACRO_MAX_CALLCOUNT then Run(NestError, r.count + 1, r.world)
                   else RunMacro(t, leaf, depth, key, i + 1, r.count + 1, r.world)
  {
    hide FireAction, Skipped, Resolve;
    SkippedIff(t, StepAt(t, key, i), action, w);
    assert FireString(t, leaf, depth, StepAt(t, key, i).elec, StepAt(t, key, i).action, n, w) ==
           FireAction(t, leaf, depth, action, n, w);
  }

  /** A step with "none" for the appliance or for the action does nothing and does not count, neither
      in a run nor in the check. */
  lemma NoneDoesNothing(t: Table, leaf: LeafOracle, depth: nat, key: Key, i: int, n: int, w: World)
    requires 1 <= i <= STEP_COUNT && (StepAt(t, key, i).elec == "none" || StepAt(t, key, i).action == "none")
    ensures RunMacro(t, leaf, depth, key, i, n, w) == RunMacro(t, leaf, depth, key, i + 1, n, w)
    ensures CheckSteps(t, key, i, n) == CheckSteps(t, key, i + 1, n)
  {
  }

  /** Of two calls of the same leaf action one after the other, the second one conditional, one is
      performed if the action does not keep the status, and both are if it keeps it, unless the
      appliance had that status already. */
  lemma TwiceInARow(t: Table, leaf: LeafOracle, depth: nat, s: Step, again: Step, action: Key, n: int, m: int, w: World)
    requires StandsFor(t, s, action) && action !in t.macros && depth > 0
    requires s.after != "ifnext" && again == s.(after := "ifnext") && TypeOf(t.actionTypes, action) == s.action
    requires forall tick: nat :: leaf(tick, action)
    ensures var first := StepRun(t, leaf, depth, s, n, w);
            var second := StepRun(t, leaf, depth, again, m, first.world);
            && first.outcome == Done && first.world.ticks == w.ticks + 1
            && second.outcome == Done
            && second.world.ticks == first.world.ticks +
               if action !in t.keepsStatus || HasStatus(w, action.0, s.action) then 0 else 1
  {
    hide FireAction, Skipped, Resolve, TypeOf;
    var first := StepRun(t, leaf, depth, s, n, w);
    SkippedIff(t, s, action, w);
    SkippedIff(t, again, action, first.world);
    OneLeaf(t, leaf, depth, action, n, w);
    OneLeaf(t, leaf, depth, action, m, first.world);
    StatusAfter(t, leaf, depth, action, n, w);
  }

  lemma OneLeaf(t: Table, leaf: LeafOracle, depth: nat, action: Key, n: int, w: World)
    requires action !in t.macros && depth > 0 && leaf(w.ticks, action)
    ensures var r := FireAction(t, leaf, depth, action, n, w);
            r.outcome == Done && r.world.ticks == w.ticks + 1
  {
  }
}
