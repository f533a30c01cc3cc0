/** How far the executor is protected by its own counter: exactly when it ends without the static check. */
module MacroGuard {
  import opened MacroTable
  import opened MacroRun
  import opened Wrappers

  // ----- more stack never changes a run that had enough -----

  lemma {:induction false} MoreStackAction(t: Table, leaf: LeafOracle, d: nat, d': nat, key: Key, n: int, w: World)
    requires d <= d' && FireAction(t, leaf, d, key, n, w).outcome != StackOverflow
    ensures FireAction(t, leaf, d', key, n, w) == FireAction(t, leaf, d, key, n, w)
    decreases d, 1
  {
    if key in t.macros {
      MoreStackSteps(t, leaf, d - 1, d' - 1, key, 1, n, w);
    }
  }

  lemma {:induction false} MoreStackString(t: Table, leaf: LeafOracle, d: nat, d': nat, elec: string, action: string,
                                           n: int, w: World)
    requires d <= d' && FireString(t, leaf, d, elec, action, n, w).outcome != StackOverflow
    ensures FireString(t, leaf, d', elec, action, n, w) == FireString(t, leaf, d, elec, action, n, w)
    decreases d, 2
  {
    var found := Resolve(t, elec, action);
    if !Reserved(elec) && !Reserved(action) && found.Some? {
      MoreStackAction(t, leaf, d, d', found.value, n, w);
    }
  }

  lemma {:induction false} MoreStackSteps(t: Table, leaf: LeafOracle, d: nat, d': nat, key: Key, i: int,
                                          n: int, w: World)
    requires 1 <= i && d <= d' && RunMacro(t, leaf, d, key, i, n, w).outcome != StackOverflow
    ensures RunMacro(t, leaf, d', key, i, n, w) == RunMacro(t, leaf, d, key, i, n, w)
    decreases d, if i > STEP_COUNT then 4 else STEP_COUNT + 5 - i
  {
    if i <= STEP_COUNT {
      var s := StepAt(t, key, i);
      if IsNone(s) {
        MoreStackSteps(t, leaf, d, d', key, i + 1, n, w);
      } else {
        if !Skipped(t, s, w) {
          MoreStackString(t, leaf, d, d', s.elec, s.action, n, w);
        }
        var r := StepRun(t, leaf, d, s, n, w);
        if r.outcome == Done && r.count + 1 <= NAICHICHI_MACRO_MAX_CALLCOUNT {
          MoreStackSteps(t, leaf, d, d', key, i + 1, r.count + 1, r.world);
        }
      }
    }
  }

  // ----- ending without the check -----

  /** The first step of `key` at or after `i` that is not "none", or STEP_COUNT + 1. */
  function FirstStep(t: Table, key: Key, i: int): (j: int)
    requires 1 <= i <= STEP_COUNT + 1
    ensures i <= j <= STEP_COUNT + 1
    ensures forall k :: i <= k < j ==> IsNone(StepAt(t, key, k))
    ensures j <= STEP_COUNT ==> !IsNone(StepAt(t, key, j))
    decreases STEP_COUNT - i
  {
    if i > STEP_COUNT || !IsNone(StepAt(t, key, i)) then i else FirstStep(t, key, i + 1)
  }

  /** The action a macro calls before the counter has moved: through its first step. */
  function FirstCallee(t: Table, key: Key): Option<Key> {
    var j := FirstStep(t, key, 1);
    if key !in t.macros || j > STEP_COUNT then None
    else
      var s := StepAt(t, key, j);
      if Reserved(s.elec) || Reserved(s.action) then None else Resolve(t, s.elec, s.action)
  }

  /** Following first calls from `key` is possible `k` times. */
  predicate FirstCalls(t: Table, key: Key, k: nat)
    decreases k
  {
    k == 0 || (FirstCallee(t, key).Some? && FirstCalls(t, FirstCallee(t, key).value, k - 1))
  }

  /** A chain of first calls as long as the stack exhausts it, when no status is remembered that
      could skip a conditional step. */
  lemma {:induction false} ChainExhaustsStack(t: Table, leaf: LeafOracle, depth: nat, key: Key, n: int, w: World)
    requires FirstCalls(t, key, depth) && w.status == map[]
    ensures FireAction(t, leaf, depth, key, n, w).outcome == StackOverflow
    decreases depth, STEP_COUNT + 1
  {
    if depth > 0 {
      ChainExhaustsSteps(t, leaf, depth - 1, key, 1, n, w);
    }
  }

  lemma {:induction false} ChainExhaustsSteps(t: Table, leaf: LeafOracle, depth: nat, key: Key, i: int,
                                              n: int, w: World)
    requires FirstCalls(t, key, depth + 1) && w.status == map[]
    requires 1 <= i <= FirstStep(t, key, 1)
    ensures RunMacro(t, leaf, depth, key, i, n, w).outcome == StackOverflow
    decreases depth, STEP_COUNT + 2, STEP_COUNT - i
  {
    var j := FirstStep(t, key, 1);
    if i < j {
      ChainExhaustsSteps(t, leaf, depth, key, i + 1, n, w);
    } else {
      var s := StepAt(t, key, j);
      assert !Skipped(t, s, w);
      ChainExhaustsStack(t, leaf, depth, FirstCallee(t, key).value, n, w);
      assert StepRun(t, leaf, depth, s, n, w).outcome == StackOverflow;
    }
  }

  ghost predicate EndsFor(t: Table, leaf: LeafOracle, key: Key, n: int, w: World) {
    exists depth: nat :: FireAction(t, leaf, depth, key, n, w).outcome != StackOverflow
  }

  ghost predicate ChainsEnd(t: Table) {
    forall key :: ChainEnds(t, key)
  }

  ghost predicate ChainEnds(t: Table, key: Key) {
    exists k: nat :: !FirstCalls(t, key, k)
  }

  lemma {:induction false} ActionEnds(t: Table, leaf: LeafOracle, key: Key, k: nat, n: int, w: World)
    returns (depth: nat)
    requires ChainsEnd(t) && !FirstCalls(t, key, k)
    ensures FireAction(t, leaf, depth, key, n, w).outcome != StackOverflow
    decreases 2 * Budget(n), k, STEP_COUNT + 1
  {
    depth := 1;
    if key in t.macros {
      var d := FirstStepEnds(t, leaf, key, k, 1, n, w);
      depth := d + 1;
    }
  }

  lemma {:induction false} StringEnds(t: Table, leaf: LeafOracle, elec: string, action: string, n: int, w: World)
    returns (depth: nat)
    requires ChainsEnd(t)
    ensures FireString(t, leaf, depth, elec, action, n, w).outcome != StackOverflow
    decreases 2 * Budget(n) + 1, 0, 0
  {
    depth := 0;
    var found := Resolve(t, elec, action);
    if !Reserved(elec) && !Reserved(action) && found.Some? {
      assert ChainEnds(t, found.value);
      var k: nat :| !FirstCalls(t, found.value, k);
      depth := ActionEnds(t, leaf, found.value, k, n, w);
    }
  }

  /** Before the counter has moved: only the first call can recurse, along a shorter chain. */
  lemma {:induction false} FirstStepEnds(t: Table, leaf: LeafOracle, key: Key, k: nat, i: int, n: int, w: World)
    returns (depth: nat)
    requires ChainsEnd(t) && key in t.macros && !FirstCalls(t, key, k) && 1 <= i <= FirstStep(t, key, 1)
    ensures RunMacro(t, leaf, depth, key, i, n, w).outcome != StackOverflow
    decreases 2 * Budget(n), k, STEP_COUNT + 1 - i
  {
    if i > STEP_COUNT {
      depth := 0;
    } else if i < FirstStep(t, key, 1) {
      depth := FirstStepEnds(t, leaf, key, k, i + 1, n, w);
    } else {
      var s := StepAt(t, key, i);
      var callee := FirstCallee(t, key);
      var d: nat := 0;
      if !Skipped(t, s, w) && callee.Some? {
        d := ActionEnds(t, leaf, callee.value, k - 1, n, w);
      }
      depth := RestEnds(t, leaf, key, i, n, w, d);
    }
  }

  /** After a step that ends, the counter has moved and the rest has a smaller budget. */
  lemma {:induction false} RestEnds(t: Table, leaf: LeafOracle, key: Key, i: int, n: int, w: World, d: nat)
    returns (depth: nat)
    requires ChainsEnd(t) && 1 <= i <= STEP_COUNT && !IsNone(StepAt(t, key, i))
    requires StepRun(t, leaf, d, StepAt(t, key, i), n, w).outcome != StackOverflow
    ensures RunMacro(t, leaf, depth, key, i, n, w).outcome != StackOverflow
    decreases 2 * Budget(n), 0, 0
  {
    var s := StepAt(t, key, i);
    var r := StepRun(t, leaf, d, s, n, w);
    depth := d;
    if r.outcome == Done && r.count + 1 <= NAICHICHI_MACRO_MAX_CALLCOUNT {
      var e := LaterStepsEnd(t, leaf, key, i + 1, r.count + 1, r.world);
      depth := if d < e then e else d;
      if !Skipped(t, s, w) {
        MoreStackString(t, leaf, d, depth, s.elec, s.action, n, w);
      }
      MoreStackSteps(t, leaf, e, depth, key, i + 1, r.count + 1, r.world);
    }
  }

  lemma {:induction false} LaterStepsEnd(t: Table, leaf: LeafOracle, key: Key, i: int, n: int, w: World)
    returns (depth: nat)
    requires ChainsEnd(t) && 1 <= i
    ensures RunMacro(t, leaf, depth, key, i, n, w).outcome != StackOverflow
    decreases 2 * Budget(n) + 1, 1, if i > STEP_COUNT then 0 else STEP_COUNT + 1 - i
  {
    if i > STEP_COUNT {
      depth := 0;
    } else {
      var s := StepAt(t, key, i);
      if IsNone(s) {
        depth := LaterStepsEnd(t, leaf, key, i + 1, n, w);
      } else {
        var d := StringEnds(t, leaf, s.elec, s.action, n, w);
        depth := RestEnds(t, leaf, key, i, n, w, d);
      }
    }
  }

  /** The executor on its own ends on every action from every state if and only if no chain of
      first calls goes on for ever: the limit of 30 stops every other cycle. */
  lemma EndsIffChainsEnd(t: Table, leaf: LeafOracle)
    ensures (forall key, n, w :: EndsFor(t, leaf, key, n, w)) <==> ChainsEnd(t)
  {
    if ChainsEnd(t) {
      forall key, n, w ensures EndsFor(t, leaf, key, n, w) {
        assert ChainEnds(t, key);
        var k: nat :| !FirstCalls(t, key, k);
        var depth := ActionEnds(t, leaf, key, k, n, w);
      }
    } else {
      var key :| !ChainEnds(t, key);
      var w := World(map[], 0);
      forall depth: nat ensures FireAction(t, leaf, depth, key, 0, w).outcome == StackOverflow {
        assert FirstCalls(t, key, depth);
        ChainExhaustsStack(t, leaf, depth, key, 0, w);
      }
      assert !EndsFor(t, leaf, key, 0, w);
    }
  }
}
