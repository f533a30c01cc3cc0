/** Executing actions (fireAction, run_macroE, fireStringAction). The executor advances the shared
    counter after each nested call, so nothing but the machine stack bounds its recursion; the
    stack is modelled by the number of frames left. */
module MacroRun {
  import opened MacroTable
  import opened Wrappers

  /** What a run can change: the remembered status of each appliance, and how many leaf actions
      have been performed. */
  datatype World = World(status: map<int, string>, ticks: nat)

  datatype Outcome = Done | NestError | LeafError | StackOverflow

  datatype Run = Run(outcome: Outcome, count: int, world: World)

  /** Whether the leaf action `key` succeeds when it is the `tick`-th leaf action performed. */
  type LeafOracle = (nat, Key) -> bool

  predicate Reserved(name: string) {
    name == "" || name == "none" || name == "SPACE"
  }

  function ElecStatus(t: Table, w: World, elec: string): string {
    var key1 := FindElec(t.elecTypes, elec);
    if key1 > 0 && key1 in w.status then w.status[key1] else ""
  }

  /** The status update at the end of an action. */
  function Updated(t: Table, key: Key, w: World): World {
    if key in t.keepsStatus then w
    else w.(status := w.status[key.0 := TypeOf(t.actionTypes, key)])
  }

  predicate Skipped(t: Table, s: Step, w: World) {
    s.after == "ifnext" && ElecStatus(t, w, s.elec) == s.action
  }

  function FireString(t: Table, leaf: LeafOracle, depth: nat, elec: string, action: string, n: int, w: World): (r: Run)
    ensures r.count >= n
    decreases depth, 2
  {
    if Reserved(elec) || Reserved(action) then Run(Done, n, w)
    else
      match Resolve(t, elec, action)
      case None => Run(Done, n, w)
      case Some(key) => FireAction(t, leaf, depth, key, n, w)
  }

  function FireAction(t: Table, leaf: LeafOracle, depth: nat, key: Key, n: int, w: World): (r: Run)
    ensures r.count >= n
    decreases depth, 1
  {
    if depth == 0 then Run(StackOverflow, n, w)
    else
      var r :=
        if key in t.macros then RunMacro(t, leaf, depth - 1, key, 1, n, w)
        else Run(if leaf(w.ticks, key) then Done else LeafError, n, w.(ticks := w.ticks + 1));
      if r.outcome == Done then r.(world := Updated(t, key, r.world)) else r
  }

  /** One step of a macro, before the counter is advanced. */
  function StepRun(t: Table, leaf: LeafOracle, depth: nat, s: Step, n: int, w: World): (r: Run)
    ensures r.count >= n
    decreases depth, 3
  {
    if Skipped(t, s, w) then Run(Done, n, w) else FireString(t, leaf, depth, s.elec, s.action, n, w)
  }

  function RunMacro(t: Table, leaf: LeafOracle, depth: nat, key: Key, i: int, n: int, w: World): (r: Run)
    requires 1 <= i
    ensures r.count >= n
    decreases depth, if i > STEP_COUNT then 4 else STEP_COUNT + 5 - i
  {
    if i > STEP_COUNT then Run(Done, n, w)
    else
      var s := StepAt(t, key, i);
      if IsNone(s) then RunMacro(t, leaf, depth, key, i + 1, n, w)
      else
        var r := StepRun(t, leaf, depth, s, n, w);
        if r.outcome != Done then r
        else if r.count + 1 > NAICHICHI_MACRO_MAX_CALLCOUNT then Run(NestError, r.count + 1, r.world)
        else RunMacro(t, leaf, depth, key, i + 1, r.count + 1, r.world)
  }

  // ----- the executor -----

  class Fire {
    const t: Table
    const leaf: LeafOracle
    var world: World

    constructor (t: Table, leaf: LeafOracle, status: map<int, string>)
      ensures this.t == t && this.leaf == leaf && world == World(status, 0)
    {
      this.t, this.leaf, world := t, leaf, World(status, 0);
    }

    /** Fires the action two names resolve to; names nothing answers to are ignored. */
    method FireStringAction(depth: nat, elec: string, action: string, nestcount: Counter)
      returns (fired: bool, outcome: Outcome)
      modifies this`world, nestcount
      ensures Run(outcome, nestcount.value, world) ==
              FireString(t, leaf, depth, elec, action, old(nestcount.value), old(world))
      ensures fired <==> !Reserved(elec) && !Reserved(action) && Resolve(t, elec, action).Some? && outcome == Done
      decreases depth, 2
    {
      if Reserved(elec) || Reserved(action) {
        return false, Done;
      }
      var found := Resolve(t, elec, action);
      if found.None? {
        return false, Done;
      }
      outcome := FireOne(depth, found.value, nestcount);
      fired := outcome == Done;
    }

    /** fireAction: run the macro or perform the leaf action, then remember the status. */
    method FireOne(depth: nat, key: Key, nestcount: Counter) returns (outcome: Outcome)
      modifies this`world, nestcount
      ensures Run(outcome, nestcount.value, world) ==
              FireAction(t, leaf, depth, key, old(nestcount.value), old(world))
      decreases depth, 1
    {
      if depth == 0 {
        return StackOverflow;
      }
      if key in t.macros {
        outcome := RunSteps(depth - 1, key, nestcount);
      } else {
        outcome := if leaf(world.ticks, key) then Done else LeafError;
        world := world.(ticks := world.ticks + 1);
      }
      if outcome == Done {
        world := Updated(t, key, world);
      }
    }

    /** run_macroE: the nine steps in order, the counter advanced after each one. */
    method RunSteps(depth: nat, key: Key, nestcount: Counter) returns (outcome: Outcome)
      modifies this`world, nestcount
      ensures Run(outcome, nestcount.value, world) ==
              RunMacro(t, leaf, depth, key, 1, old(nestcount.value), old(world))
      decreases depth, 4
    {
      for i := 1 to STEP_COUNT + 1
        invariant RunMacro(t, leaf, depth, key, i, nestcount.value, world) ==
                  RunMacro(t, leaf, depth, key, 1, old(nestcount.value), old(world))
      {
        var s := StepAt(t, key, i);
        if IsNone(s) {
          continue;
        }
        var runfire := !Skipped(t, s, world);
        if runfire {
          var fired, r := FireStringAction(depth, s.elec, s.action, nestcount);
          if r != Done {
            return r;
          }
        }
        nestcount.value := nestcount.value + 1;
        if nestcount.value > NAICHICHI_MACRO_MAX_CALLCOUNT {
          return NestError;
        }
      }
      return Done;
    }
  }

  // ----- runs of finite call trees -----

  /** Number of steps in a call tree: what a run that skips nothing adds to the counter. */
  function Steps(tree: Tree): nat {
    match tree
    case Macro(_, b) => BranchSteps(b)
    case _ => 0
  }

  function BranchSteps(b: Branches): nat {
    match b
    case End => 0
    case Skip(rest) => BranchSteps(rest)
    case Call(tree, rest) => 1 + Steps(tree) + BranchSteps(rest)
  }

  lemma {:induction false} StepsBelowSize(tree: Tree)
    ensures Steps(tree) <= Size(tree) && (tree != Unresolved ==> Steps(tree) < Size(tree))
  {
    if tree.Macro? {
      BranchStepsBelowSize(tree.first);
    }
  }

  lemma {:induction false} BranchStepsBelowSize(b: Branches)
    ensures BranchSteps(b) <= BranchSize(b)
  {
    if b.Skip? {
      BranchStepsBelowSize(b.rest);
    } else if b.Call? {
      StepsBelowSize(b.tree);
      BranchStepsBelowSize(b.rest);
    }
  }

  predicate RanWithin(r: Run, n: int, steps: nat) {
    (r.outcome == Done || r.outcome == LeafError) && n <= r.count <= n + steps
  }

  /** A finite call tree whose steps fit in what is left runs without either guard tripping,
      whichever steps are skipped and whatever the leaf actions do, on as many stack frames as
      the tree has actions and steps. */
  lemma {:induction false} TreeRuns(t: Table, leaf: LeafOracle, depth: nat, elec: string, action: string,
                                    n: int, w: World, tree: Tree)
    requires Unrolls(t, elec, action, tree) && depth >= Size(tree)
    requires Steps(tree) > 0 ==> n + Steps(tree) <= NAICHICHI_MACRO_MAX_CALLCOUNT
    ensures RanWithin(FireString(t, leaf, depth, elec, action, n, w), n, Steps(tree))
    decreases tree, 1
  {
    var found := Resolve(t, elec, action);
    if found.Some? {
      ActionRuns(t, leaf, depth, found.value, n, w, tree);
    }
  }

  lemma {:induction false} ActionRuns(t: Table, leaf: LeafOracle, depth: nat, key: Key, n: int, w: World, tree: Tree)
    requires UnrollsKey(t, key, tree) && depth >= Size(tree)
    requires Steps(tree) > 0 ==> n + Steps(tree) <= NAICHICHI_MACRO_MAX_CALLCOUNT
    ensures RanWithin(FireAction(t, leaf, depth, key, n, w), n, Steps(tree))
    decreases tree, 0
  {
    if key in t.macros {
      StepsRun(t, leaf, depth - 1, key, 1, n, w, tree.first);
    }
  }

  lemma {:induction false} StepsRun(t: Table, leaf: LeafOracle, depth: nat, key: Key, i: int, n: int, w: World,
                                    b: Branches)
    requires 1 <= i && UnrollsSteps(t, key, i, b) && depth >= BranchSize(b)
    requires BranchSteps(b) > 0 ==> n + BranchSteps(b) <= NAICHICHI_MACRO_MAX_CALLCOUNT
    ensures RanWithin(RunMacro(t, leaf, depth, key, i, n, w), n, BranchSteps(b))
    decreases b
  {
    if i <= STEP_COUNT {
      var s := StepAt(t, key, i);
      if IsNone(s) {
        StepsRun(t, leaf, depth, key, i + 1, n, w, b.rest);
      } else {
        TreeRuns(t, leaf, depth, s.elec, s.action, n, w, b.tree);
        var r := StepRun(t, leaf, depth, s, n, w);
        if r.outcome == Done {
          StepsRun(t, leaf, depth, key, i + 1, r.count + 1, r.world, b.rest);
        }
      }
    }
  }

  /** If the static check accepts an action, running it from any count not above the checked one
      ends, never reports the nesting error, and advances the counter by no more than the check did. */
  lemma CheckedActionsRun(t: Table, leaf: LeafOracle, depth: nat, elec: string, action: string,
                          n: int, m: int, w: World)
    requires n <= NAICHICHI_MACRO_MAX_CALLCOUNT && m <= n && Check(t, elec, action, n).accepted
    requires depth >= NAICHICHI_MACRO_MAX_CALLCOUNT - n
    ensures RanWithin(FireString(t, leaf, depth, elec, action, m, w), m, Check(t, elec, action, n).count - n)
  {
    var tree := AcceptedTree(t, elec, action, n);
    StepsBelowSize(tree);
    TreeRuns(t, leaf, depth, elec, action, m, w, tree);
  }

  /** With no conditional step, no failing leaf and no reserved name that resolves, a finite tree
      fits exactly when its steps do: otherwise the run stops with the nesting error. */
  ghost predicate Unconditional(t: Table) {
    && (forall k :: k in t.steps ==> t.steps[k].after != "ifnext")
    && (forall elec, action :: Resolve(t, elec, action).Some? ==> !Reserved(elec) && !Reserved(action))
  }

  function ExactOutcome(n: int, steps: nat): (Outcome, int) {
    if steps == 0 || n + steps <= NAICHICHI_MACRO_MAX_CALLCOUNT then (Done, n + steps)
    else (NestError, if n > NAICHICHI_MACRO_MAX_CALLCOUNT then n + 1 else NAICHICHI_MACRO_MAX_CALLCOUNT + 1)
  }

  lemma {:induction false} ExactRun(t: Table, leaf: LeafOracle, depth: nat, key: Key, n: int, w: World, tree: Tree)
    requires Unconditional(t) && (forall i: nat, k :: leaf(i, k))
    requires UnrollsKey(t, key, tree) && depth >= Size(tree)
    ensures var r := FireAction(t, leaf, depth, key, n, w);
            (r.outcome, r.count) == ExactOutcome(n, Steps(tree))
    decreases tree, 0
  {
    if key in t.macros {
      ExactSteps(t, leaf, depth - 1, key, 1, n, w, tree.first);
    }
  }

  /** A step, then the rest: the outcomes compose. */
  lemma ExactCombines(n: int, first: nat, rest: nat)
    ensures var (o, c) := ExactOutcome(n, first);
            ExactOutcome(n, 1 + first + rest) ==
            if o != Done then (o, c)
            else if c + 1 > NAICHICHI_MACRO_MAX_CALLCOUNT then (NestError, c + 1)
            else ExactOutcome(c + 1, rest)
    ensures ExactOutcome(n, 0) == (Done, n)
  {
  }

  lemma {:induction false} ExactSteps(t: Table, leaf: LeafOracle, depth: nat, key: Key, i: int, n: int, w: World,
                                      b: Branches)
    requires Unconditional(t) && (forall i: nat, k :: leaf(i, k))
    requires 1 <= i && UnrollsSteps(t, key, i, b) && depth >= BranchSize(b)
    ensures var r := RunMacro(t, leaf, depth, key, i, n, w);
            (r.outcome, r.count) == ExactOutcome(n, BranchSteps(b))
    decreases b
  {
    hide StepRun, Unrolls, Size, Steps, ExactOutcome, Unconditional;
    ExactCombines(n, 0, 0);
    if i <= STEP_COUNT {
      var s := StepAt(t, key, i);
      if IsNone(s) {
        ExactSteps(t, leaf, depth, key, i + 1, n, w, b.rest);
      } else {
        ExactStep(t, leaf, depth, key, i, n, w, b.tree);
        var r := StepRun(t, leaf, depth, s, n, w);
        ExactCombines(n, Steps(b.tree), BranchSteps(b.rest));
        if r.outcome == Done && r.count + 1 <= NAICHICHI_MACRO_MAX_CALLCOUNT {
          ExactSteps(t, leaf, depth, key, i + 1, r.count + 1, r.world, b.rest);
        }
      }
    }
  }

  lemma {:induction false} ExactStep(t: Table, leaf: LeafOracle, depth: nat, key: Key, i: int, n: int, w: World,
                                     tree: Tree)
    requires Unconditional(t) && (forall i: nat, k :: leaf(i, k))
    requires var s := StepAt(t, key, i);
             !IsNone(s) && Unrolls(t, s.elec, s.action, tree) && depth >= Size(tree)
    ensures var r := StepRun(t, leaf, depth, StepAt(t, key, i), n, w);
            (r.outcome, r.count) == ExactOutcome(n, Steps(tree))
    decreases tree, 1
  {
    var s := StepAt(t, key, i);
    var found := Resolve(t, s.elec, s.action);
    if found.Some? {
      ExactRun(t, leaf, depth, found.value, n, w, tree);
    }
  }
}
