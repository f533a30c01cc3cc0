/** Saving an action as a macro: the check of its steps against the table before the edit, and
    what it does and does not guarantee for the table after the edit. */
module MacroEdit {
  import opened MacroTable
  import opened MacroRun
  import opened MacroGuard
  import opened MacroStatus
  import opened Wrappers

  // ----- the edit -----

  /** A submitted macro: the action, its name, the nine steps, whether it leaves the status alone,
      and where a new name goes in the order of the map. */
  datatype Edit = Edit(key: Key, actionType: string, steps: seq<Step>, noState: bool, at: nat) {
    predicate Valid() {
      key.0 > 0 && key.1 > 0 && |steps| == STEP_COUNT
    }
  }

  /** Position of the entry of `key`, or the length. */
  function EntryOf(types: seq<(Key, string)>, key: Key): (i: nat)
    ensures i <= |types|
    ensures i < |types| ==> types[i].0 == key
    ensures forall j :: 0 <= j < i ==> types[j].0 != key
  {
    if types == [] || types[0].0 == key then 0 else 1 + EntryOf(types[1..], key)
  }

  /** The entries after the name of `key` has been set. */
  function Named(types: seq<(Key, string)>, key: Key, name: string, at: nat): seq<(Key, string)> {
    var i := EntryOf(types, key);
    if i < |types| then types[i := (key, name)]
    else
      var p := if at <= |types| then at else |types|;
      types[..p] + [(key, name)] + types[p..]
  }

  /** The table with the new name. */
  function Renamed(t: Table, e: Edit): Table {
    t.(actionTypes := Named(t.actionTypes, e.key, e.actionType, e.at))
  }

  /** The entries of the submitted steps. */
  function NewSteps(e: Edit): map<(Key, int), Step>
    requires e.Valid()
  {
    map i: int | 1 <= i <= STEP_COUNT :: (e.key, i) := e.steps[i - 1]
  }

  /** The table after the edit. */
  function Edited(t: Table, e: Edit): Table
    requires e.Valid()
  {
    Renamed(t, e).(
      macros := t.macros + {e.key},
      steps := t.steps + NewSteps(e),
      keepsStatus := if e.noState then t.keepsStatus + {e.key} else t.keepsStatus - {e.key})
  }

  /** The check: the submitted steps one after the other with one counter, in the table as it was. */
  function EditCheck(t: Table, steps: seq<Step>, i: nat, count: int): Verdict
    requires |steps| == STEP_COUNT && i <= STEP_COUNT
    decreases STEP_COUNT - i
  {
    if i == STEP_COUNT then Verdict(true, count)
    else
      var v := Check(t, steps[i].elec, steps[i].action, count);
      if !v.accepted then v else EditCheck(t, steps, i + 1, v.count)
  }

  /** checkUniqElecActionType: no other action of the appliance has the name; blanks may repeat. */
  ghost predicate NameIsFree(types: seq<(Key, string)>, key: Key, name: string) {
    name == SPACE || forall i :: 0 <= i < |types| && types[i].0.0 == key.0 && types[i].1 == name ==> types[i].0 == key
  }

  const SPACE := "SPACE"

  class MacroEditor {
    var t: Table

    constructor (t: Table)
      ensures this.t == t
    {
      this.t := t;
    }

    method CheckUniqElecActionType(key: Key, name: string) returns (free: bool)
      ensures free <==> NameIsFree(t.actionTypes, key, name)
    {
      if name == SPACE {
        return true;
      }
      for i := 0 to |t.actionTypes|
        invariant forall j :: 0 <= j < i && t.actionTypes[j].0.0 == key.0 && t.actionTypes[j].1 == name ==>
                    t.actionTypes[j].0 == key
      {
        var entry := t.actionTypes[i];
        if entry.0.0 == key.0 && entry.0 != key && entry.1 == name {
          return false;
        }
      }
      return true;
    }

    /** Saves a macro: refuses a bad or taken name and steps that do not pass, and stores the rest. */
    method UpdateElecAction(e: Edit) returns (ok: bool)
      requires e.Valid()
      modifies this
      ensures ok <==>
                && e.actionType != "" && e.actionType != "none" && NameIsFree(old(t).actionTypes, e.key, e.actionType)
                && EditCheck(old(t), e.steps, 0, 0).accepted
      ensures t == if ok then Edited(old(t), e) else old(t)
    {
      if e.actionType == "" {
        return false;
      }
      var free := CheckUniqElecActionType(e.key, e.actionType);
      if !free || e.actionType == "none" {
        return false;
      }
      var nestcount := new Counter(0);
      for i := 0 to STEP_COUNT
        invariant fresh(nestcount) && t == old(t)
        invariant EditCheck(t, e.steps, i, nestcount.value) == EditCheck(t, e.steps, 0, 0)
      {
        var accepted := CheckMacro(t, e.steps[i].elec, e.steps[i].action, nestcount);
        if !accepted {
          return false;
        }
      }
      t := Edited(t, e);
      return true;
    }
  }

  // ----- what the new name changes -----

  /** The first action of that name other than `key`. */
  function FindOther(types: seq<(Key, string)>, elec: int, action: string, key: Key): Option<Key> {
    if types == [] then None
    else if types[0].0 != key && types[0].0.0 == elec && types[0].1 == action then Some(types[0].0)
    else FindOther(types[1..], elec, action, key)
  }

  lemma {:induction false} FindIsKeyOrOther(types: seq<(Key, string)>, elec: int, action: string, key: Key)
    ensures FindAction(types, elec, action) == Some(key)
            || FindAction(types, elec, action) == FindOther(types, elec, action, key)
  {
    if types != [] {
      FindIsKeyOrOther(types[1..], elec, action, key);
    }
  }

  lemma {:induction false} FindOtherConcat(a: seq<(Key, string)>, b: seq<(Key, string)>, elec: int, action: string, key: Key)
    ensures FindOther(a + b, elec, action, key) ==
            if FindOther(a, elec, action, key).Some? then FindOther(a, elec, action, key)
            else FindOther(b, elec, action, key)
  {
    if a == [] {
      assert a + b == b;
    } else {
      FindOtherConcat(a[1..], b, elec, action, key);
      assert (a + b)[1..] == a[1..] + b;
    }
  }

  /** An entry of `key` between others is not seen. */
  lemma OwnEntryUnseen(head: seq<(Key, string)>, own: (Key, string), tail: seq<(Key, string)>, elec: int, action: string)
    ensures FindOther(head + [own] + tail, elec, action, own.0) == FindOther(head + tail, elec, action, own.0)
  {
    FindOtherConcat(head, tail, elec, action, own.0);
    FindOtherConcat(head + [own], tail, elec, action, own.0);
    FindOtherConcat(head, [own], elec, action, own.0);
    assert [own][1..] == [];
  }

  /** Without the entry of `key` the lists before and after are the same. */
  lemma OtherStays(types: seq<(Key, string)>, key: Key, name: string, at: nat, elec: int, action: string)
    ensures FindOther(Named(types, key, name, at), elec, action, key) == FindOther(types, elec, action, key)
  {
    hide FindOther;
    var i := EntryOf(types, key);
    if i < |types| {
      assert types == types[..i] + [types[i]] + types[i + 1..];
      OwnEntryUnseen(types[..i], types[i], types[i + 1..], elec, action);
      assert Named(types, key, name, at) == types[..i] + [(key, name)] + types[i + 1..];
      OwnEntryUnseen(types[..i], (key, name), types[i + 1..], elec, action);
    } else {
      var p := if at <= |types| then at else |types|;
      OwnEntryUnseen(types[..p], (key, name), types[p..], elec, action);
      assert types == types[..p] + types[p..];
    }
  }

  /** No other action answers to the name of `key`. */
  ghost predicate NameNotShared(t: Table, key: Key) {
    forall elec, action :: Resolve(t, elec, action) == Some(key) ==>
      FindOther(t.actionTypes, key.0, action, key) == None
  }

  /** What a pair of names stands for changes only if it stood for `key` or stands for it now. */
  lemma ResolveRenamed(t: Table, e: Edit, elec: string, action: string)
    requires e.Valid()
    ensures var old_, new_ := Resolve(t, elec, action), Resolve(Renamed(t, e), elec, action);
            && (old_ != Some(e.key) && new_ != Some(e.key) ==> new_ == old_)
            && (old_ == Some(e.key) && NameNotShared(t, e.key) ==> new_ == None || new_ == Some(e.key))
  {
    hide FindOther, FindAction, FindElec, Named;
    var key1 := FindElec(t.elecTypes, elec);
    FindIsKeyOrOther(t.actionTypes, key1, action, e.key);
    FindIsKeyOrOther(Renamed(t, e).actionTypes, key1, action, e.key);
    OtherStays(t.actionTypes, e.key, e.actionType, e.at, key1, action);
    FindActionHas(t.actionTypes, key1, action);
  }

  // ----- the edited table -----

  lemma EditedSteps(t: Table, e: Edit, other: Key, i: int)
    requires e.Valid() && 1 <= i <= STEP_COUNT
    ensures StepAt(Edited(t, e), e.key, i) == e.steps[i - 1]
    ensures other != e.key ==> StepAt(Edited(t, e), other, i) == StepAt(t, other, i)
  {
    hide NewSteps, Named;
    NewStepsAt(e, other, i);
  }

  lemma NewStepsAt(e: Edit, other: Key, i: int)
    requires e.Valid() && 1 <= i <= STEP_COUNT
    ensures (e.key, i) in NewSteps(e) && NewSteps(e)[(e.key, i)] == e.steps[i - 1]
    ensures other != e.key ==> (other, i) !in NewSteps(e)
  {
  }

  lemma EditedTable(t: Table, e: Edit)
    requires e.Valid()
    ensures forall elec, action :: Resolve(Edited(t, e), elec, action) == Resolve(Renamed(t, e), elec, action)
    ensures Renamed(t, e).macros == t.macros && Edited(t, e).macros == t.macros + {e.key}
    ensures forall key, i :: StepAt(Renamed(t, e), key, i) == StepAt(t, key, i)
  {
  }

  // ----- calls that lead back -----

  /** Do calls lead from the action of these names to `key`? */
  ghost predicate LeadsTo(t: Table, elec: string, action: string, key: Key) {
    exists path :: CallPath(t, elec, action, path) && path[|path| - 1] == key
  }

  ghost predicate CallPath(t: Table, elec: string, action: string, path: seq<Key>) {
    path != [] && Resolve(t, elec, action) == Some(path[0]) && IsCallPath(t, path)
  }

  /** Once the action has its new name, no step calls anything that leads to it. */
  ghost predicate StepsAvoid(t: Table, e: Edit) {
    forall i :: 0 <= i < |e.steps| && !IsNone(e.steps[i]) ==>
      !LeadsTo(Renamed(t, e), e.steps[i].elec, e.steps[i].action, e.key)
  }

  /** What the callee leads to, the caller leads to. */
  lemma LeadsThrough(t: Table, elec: string, action: string, from: Key, i: int, key: Key)
    requires Resolve(t, elec, action) == Some(from) && from in t.macros && 1 <= i <= STEP_COUNT
    requires !IsNone(StepAt(t, from, i))
    requires LeadsTo(t, StepAt(t, from, i).elec, StepAt(t, from, i).action, key)
    ensures LeadsTo(t, elec, action, key)
  {
    var s := StepAt(t, from, i);
    var path :| CallPath(t, s.elec, s.action, path) && path[|path| - 1] == key;
    var longer := [from] + path;
    assert StepCalls(t, from, i, path[0]);
    forall k | 0 <= k < |longer| - 1 ensures Calls(t, longer[k], longer[k + 1]) {
      assert k > 0 ==> longer[k] == path[k - 1] && longer[k + 1] == path[k];
    }
    assert CallPath(t, elec, action, longer);
  }

  lemma LeadsToItself(t: Table, elec: string, action: string, key: Key)
    requires Resolve(t, elec, action) == Some(key)
    ensures LeadsTo(t, elec, action, key)
  {
    assert CallPath(t, elec, action, [key]);
  }

  // ----- a finite tree when nothing leads back -----

  /** A call tree that does not lead to the edited action stays finite: the name that the action
      had before answers no longer, everything else is the same. */
  lemma {:induction false} TreeAfterEdit(t: Table, e: Edit, elec: string, action: string, tree: Tree)
    returns (after: Tree)
    requires e.Valid() && NameNotShared(t, e.key)
    requires Unrolls(t, elec, action, tree) && !LeadsTo(Renamed(t, e), elec, action, e.key)
    ensures Unrolls(Edited(t, e), elec, action, after) && Steps(after) <= Steps(tree)
    decreases tree, 1
  {
    hide Resolve, Renamed, Edited, NameNotShared, LeadsTo;
    EditedTable(t, e);
    ResolveRenamed(t, e, elec, action);
    var old_, new_ := Resolve(t, elec, action), Resolve(Renamed(t, e), elec, action);
    if new_ == Some(e.key) {
      LeadsToItself(Renamed(t, e), elec, action, e.key);
    }
    if new_ == None {
      after := Unresolved;
    } else if new_.value !in t.macros {
      after := Leaf(new_.value);
    } else {
      var b := BranchesAfterEdit(t, e, elec, action, new_.value, 1, tree.first);
      after := Macro(new_.value, b);
    }
  }

  lemma {:induction false} BranchesAfterEdit(t: Table, e: Edit, elec: string, action: string, from: Key, i: int,
                                             b: Branches)
    returns (after: Branches)
    requires e.Valid() && NameNotShared(t, e.key) && 1 <= i
    requires from in t.macros && from != e.key && Resolve(Renamed(t, e), elec, action) == Some(from)
    requires UnrollsSteps(t, from, i, b) && !LeadsTo(Renamed(t, e), elec, action, e.key)
    ensures UnrollsSteps(Edited(t, e), from, i, after) && BranchSteps(after) <= BranchSteps(b)
    decreases b
  {
    hide Resolve, Renamed, Edited, NameNotShared, LeadsTo, Unrolls;
    EditedTable(t, e);
    if i > STEP_COUNT {
      after := End;
    } else {
      EditedSteps(t, e, from, i);
      var s := StepAt(t, from, i);
      var rest := BranchesAfterEdit(t, e, elec, action, from, i + 1, b.rest);
      if IsNone(s) {
        after := Skip(rest);
      } else {
        if LeadsTo(Renamed(t, e), s.elec, s.action, e.key) {
          LeadsThrough(Renamed(t, e), elec, action, from, i, e.key);
        }
        var tree := TreeAfterEdit(t, e, s.elec, s.action, b.tree);
        after := Call(tree, rest);
      }
    }
  }

  function UnansweredSteps(t: Table, steps: seq<Step>): nat {
    if steps == [] then 0
    else
      var s := steps[0];
      (if !IsNone(s) && Resolve(t, s.elec, s.action).None? then 1 else 0) + UnansweredSteps(t, steps[1..])
  }

  lemma CostOfCall(t: Table, s: Step, tree: Tree)
    requires Unrolls(t, s.elec, s.action, tree)
    ensures 1 + Steps(tree) <= Size(tree) + if Resolve(t, s.elec, s.action).None? then 1 else 0
  {
    StepsBelowSize(tree);
  }

  lemma {:induction false} EditedBranches(t: Table, e: Edit, i: nat, count: int) returns (b: Branches)
    requires e.Valid() && NameNotShared(t, e.key) && StepsAvoid(t, e) && i <= STEP_COUNT
    requires EditCheck(t, e.steps, i, count).accepted
    ensures UnrollsSteps(Edited(t, e), e.key, i + 1, b)
    ensures BranchSteps(b) <= EditCheck(t, e.steps, i, count).count - count + UnansweredSteps(t, e.steps[i..])
    decreases STEP_COUNT - i
  {
    hide Check, Unrolls, Size, Steps, Edited, Renamed, Resolve, LeadsTo, NameNotShared;
    if i == STEP_COUNT {
      b := End;
    } else {
      var s := e.steps[i];
      var tree := AcceptedTree(t, s.elec, s.action, count);
      var rest := EditedBranches(t, e, i + 1, count + Size(tree));
      EditedSteps(t, e, e.key, i + 1);
      assert e.steps[i..][0] == s && e.steps[i..][1..] == e.steps[i + 1..];
      if IsNone(s) {
        b := Skip(rest);
      } else {
        var after := TreeAfterEdit(t, e, s.elec, s.action, tree);
        CostOfCall(t, s, tree);
        b := Call(after, rest);
      }
    }
  }

  /** If the check passes and no step leads back to the edited action, the new macro has a finite
      call tree; it runs from a fresh counter without the stack or the nesting limit intervening as
      long as the steps nothing answered to leave room. */
  lemma EditIsSafe(t: Table, e: Edit, leaf: LeafOracle, w: World)
    requires e.Valid() && NameNotShared(t, e.key) && StepsAvoid(t, e) && EditCheck(t, e.steps, 0, 0).accepted
    requires EditCheck(t, e.steps, 0, 0).count + UnansweredSteps(t, e.steps) <= NAICHICHI_MACRO_MAX_CALLCOUNT
    ensures exists depth: nat ::
              RanWithin(FireAction(Edited(t, e), leaf, depth, e.key, 0, w), 0, NAICHICHI_MACRO_MAX_CALLCOUNT)
  {
    hide EditCheck, UnrollsSteps, StepsAvoid, UnansweredSteps, Edited, BranchSize;
    var b := EditedBranches(t, e, 0, 0);
    assert e.steps[0..] == e.steps;
    var tree := Macro(e.key, b);
    EditedTable(t, e);
    ActionRuns(Edited(t, e), leaf, Size(tree), e.key, 0, w, tree);
  }

  /** Without conditional steps and failing leaves, such a macro ends from a fresh counter exactly
      when the steps of its call tree, its own ones included, are at most 30; otherwise the run stops
      with the nesting error. The check of the save does not count the macro's own steps. */
  lemma AcceptedEditRunsIff(t: Table, e: Edit, leaf: LeafOracle, w: World) returns (tree: Tree)
    requires e.Valid() && NameNotShared(t, e.key) && StepsAvoid(t, e) && EditCheck(t, e.steps, 0, 0).accepted
    requires Unconditional(Edited(t, e)) && forall i: nat, k :: leaf(i, k)
    ensures UnrollsKey(Edited(t, e), e.key, tree)
    ensures forall depth: nat :: depth >= Size(tree) ==>
              FireAction(Edited(t, e), leaf, depth, e.key, 0, w).outcome ==
              if Steps(tree) <= NAICHICHI_MACRO_MAX_CALLCOUNT then Done else NestError
  {
    hide EditCheck, StepsAvoid, Edited, Unconditional, UnrollsSteps, FireAction, NameNotShared, Size;
    var b := EditedBranches(t, e, 0, 0);
    tree := Macro(e.key, b);
    EditedTable(t, e);
    forall depth: nat | depth >= Size(tree)
      ensures FireAction(Edited(t, e), leaf, depth, e.key, 0, w).outcome ==
              if Steps(tree) <= NAICHICHI_MACRO_MAX_CALLCOUNT then Done else NestError
    {
      ExactRun(Edited(t, e), leaf, depth, e.key, 0, w, tree);
    }
  }

  // ----- no finite tree when a step leads back -----

  /** A path that keeps away from the edited action is the same after the edit and before. */
  lemma PathElsewhere(t: Table, e: Edit, path: seq<Key>)
    requires e.Valid() && forall k :: 0 <= k < |path| - 1 ==> path[k] != e.key
    ensures IsCallPath(Edited(t, e), path) <==> IsCallPath(Renamed(t, e), path)
  {
    hide Calls, Edited, Renamed;
    forall k | 0 <= k < |path| - 1
      ensures Calls(Edited(t, e), path[k], path[k + 1]) <==> Calls(Renamed(t, e), path[k], path[k + 1])
    {
      CallsElsewhere(t, e, path[k], path[k + 1]);
    }
  }

  lemma CallsElsewhere(t: Table, e: Edit, from: Key, to: Key)
    requires e.Valid() && from != e.key
    ensures Calls(Edited(t, e), from, to) <==> Calls(Renamed(t, e), from, to)
  {
    hide Resolve, Edited, Renamed;
    EditedTable(t, e);
    forall i | 1 <= i <= STEP_COUNT
      ensures StepCalls(Edited(t, e), from, i, to) <==> StepCalls(Renamed(t, e), from, i, to)
    {
      EditedSteps(t, e, from, i);
    }
  }

  /** The first time a path comes to the edited action, or its length. */
  function FirstArrival(path: seq<Key>, key: Key): (n: nat)
    ensures n <= |path| && (n < |path| ==> path[n] == key)
    ensures forall k :: 0 <= k < n ==> path[k] != key
  {
    if path == [] || path[0] == key then 0 else 1 + FirstArrival(path[1..], key)
  }

  lemma LeadingBackIsCycle(t: Table, e: Edit, i: nat)
    requires e.Valid() && i < STEP_COUNT && !IsNone(e.steps[i])
    requires LeadsTo(Renamed(t, e), e.steps[i].elec, e.steps[i].action, e.key)
    ensures ReachesCycle(Edited(t, e), e.key)
  {
    hide Resolve, Edited, Renamed, Once;
    var s := e.steps[i];
    var path :| CallPath(Renamed(t, e), s.elec, s.action, path) && path[|path| - 1] == e.key;
    var n := FirstArrival(path, e.key);
    var back := path[0..n + 1];
    PrefixIsPath(Renamed(t, e), path, 0, n + 1);
    PathElsewhere(t, e, back);
    FirstCall(t, e, i, back);
    TwiceAtEnds([e.key] + back);
  }

  /** A path from what a step calls, as a path from the edited action. */
  lemma FirstCall(t: Table, e: Edit, i: nat, path: seq<Key>)
    requires e.Valid() && i < STEP_COUNT && !IsNone(e.steps[i])
    requires path != [] && Resolve(Renamed(t, e), e.steps[i].elec, e.steps[i].action) == Some(path[0])
    requires IsCallPath(Edited(t, e), path)
    ensures IsPathFrom(Edited(t, e), e.key, [e.key] + path)
  {
    hide Resolve, Edited, Renamed;
    var t', longer := Edited(t, e), [e.key] + path;
    EditedTable(t, e);
    EditedSteps(t, e, e.key, i + 1);
    assert StepCalls(t', e.key, i + 1, path[0]);
    forall k | 0 <= k < |longer| - 1 ensures Calls(t', longer[k], longer[k + 1]) {
      assert k > 0 ==> longer[k] == path[k - 1] && longer[k + 1] == path[k];
    }
  }

  lemma TwiceAtEnds(path: seq<Key>)
    requires |path| > 1 && path[0] == path[|path| - 1]
    ensures !Once(path)
  {
  }

  /** Once the action has its new name, no step calls anything from where calls come twice to an action. */
  ghost predicate StepsAvoidCycles(t: Table, e: Edit) {
    forall i :: 0 <= i < |e.steps| && !IsNone(e.steps[i]) ==>
      AvoidsCycles(Renamed(t, e), e.steps[i].elec, e.steps[i].action)
  }

  ghost predicate AvoidsCycles(t: Table, elec: string, action: string) {
    forall path :: CallPath(t, elec, action, path) ==> Once(path)
  }

  /** The step through which a call path leaves the edited action. */
  lemma LeavesThroughStep(t: Table, e: Edit, path: seq<Key>) returns (i: nat)
    requires e.Valid() && |path| > 1 && IsPathFrom(Edited(t, e), e.key, path)
    ensures i < STEP_COUNT && !IsNone(e.steps[i])
    ensures Resolve(Renamed(t, e), e.steps[i].elec, e.steps[i].action) == Some(path[1])
    ensures IsCallPath(Edited(t, e), path[1..])
  {
    hide Resolve, Edited, Renamed;
    assert Calls(Edited(t, e), path[0], path[0 + 1]);
    var n :| 1 <= n <= STEP_COUNT && StepCalls(Edited(t, e), e.key, n, path[1]);
    EditedTable(t, e);
    EditedSteps(t, e, e.key, n);
    PrefixIsPath(Edited(t, e), path, 1, |path|);
    i := n - 1;
  }

  /** What a call path from the edited action does after its first call. */
  lemma CycleComesFromStep(t: Table, e: Edit, path: seq<Key>)
    requires e.Valid() && IsPathFrom(Edited(t, e), e.key, path) && !Once(path)
    ensures !StepsAvoid(t, e) || !StepsAvoidCycles(t, e)
  {
    hide Resolve, Edited, Renamed, IsCallPath;
    OneIsOnce(path);
    var i := LeavesThroughStep(t, e, path);
    var s, rest := e.steps[i], path[1..];
    var n := FirstArrival(rest, e.key);
    if n < |rest| {
      var back := rest[0..n + 1];
      PrefixIsPath(Edited(t, e), rest, 0, n + 1);
      PathElsewhere(t, e, back);
      assert CallPath(Renamed(t, e), s.elec, s.action, back);
    } else {
      PathElsewhere(t, e, rest);
      assert CallPath(Renamed(t, e), s.elec, s.action, rest);
      TwiceInTail(path);
    }
  }

  lemma OneIsOnce(path: seq<Key>)
    ensures !Once(path) ==> |path| > 1
  {
  }

  lemma TwiceInTail(path: seq<Key>)
    requires path != [] && !Once(path) && forall k :: 0 < k < |path| ==> path[k] != path[0]
    ensures !Once(path[1..])
  {
    var i, j :| 0 <= i < j < |path| && path[i] == path[j];
    assert path[1..][i - 1] == path[1..][j - 1];
  }

  lemma StepIntoCycle(t: Table, e: Edit, i: nat, path: seq<Key>)
    requires e.Valid() && i < STEP_COUNT && !IsNone(e.steps[i]) && !Once(path)
    requires CallPath(Renamed(t, e), e.steps[i].elec, e.steps[i].action, path)
    ensures ReachesCycle(Edited(t, e), e.key)
  {
    hide Resolve, Edited, Renamed;
    var n := FirstArrival(path, e.key);
    if n < |path| {
      PrefixIsPath(Renamed(t, e), path, 0, n + 1);
      assert CallPath(Renamed(t, e), e.steps[i].elec, e.steps[i].action, path[0..n + 1]);
      LeadingBackIsCycle(t, e, i);
    } else {
      PathElsewhere(t, e, path);
      FirstCall(t, e, i, path);
      TwiceLonger(e.key, path);
    }
  }

  lemma TwiceLonger(key: Key, path: seq<Key>)
    requires !Once(path)
    ensures !Once([key] + path)
  {
    var i, j :| 0 <= i < j < |path| && path[i] == path[j];
    assert ([key] + path)[i + 1] == ([key] + path)[j + 1];
  }

  /** The new macro has a finite call tree if and only if, once the action has its new name, no
      step leads to it and no step leads into a cycle. */
  lemma EditFiniteIff(t: Table, e: Edit)
    requires e.Valid()
    ensures HasTree(Edited(t, e), e.key) <==> StepsAvoid(t, e) && StepsAvoidCycles(t, e)
  {
    hide Resolve, Edited, Renamed, IsPathFrom, CallPath, Once, LeadsTo;
    FiniteIffNoCycle(Edited(t, e), e.key);
    if ReachesCycle(Edited(t, e), e.key) {
      var path :| IsPathFrom(Edited(t, e), e.key, path) && !Once(path);
      CycleComesFromStep(t, e, path);
    } else {
      forall i | 0 <= i < |e.steps| && !IsNone(e.steps[i])
        ensures !LeadsTo(Renamed(t, e), e.steps[i].elec, e.steps[i].action, e.key)
      {
        if LeadsTo(Renamed(t, e), e.steps[i].elec, e.steps[i].action, e.key) {
          LeadingBackIsCycle(t, e, i);
        }
      }
      forall i | 0 <= i < |e.steps| && !IsNone(e.steps[i])
        ensures AvoidsCycles(Renamed(t, e), e.steps[i].elec, e.steps[i].action)
      {
        forall path | CallPath(Renamed(t, e), e.steps[i].elec, e.steps[i].action, path) && !Once(path) ensures false {
          StepIntoCycle(t, e, i, path);
        }
      }
    }
  }

  /** After an edit that passed the check, it has one if and only if no step leads to the action
      under its new name, provided that no other action takes over its old name. */
  lemma AcceptedEditFiniteIff(t: Table, e: Edit)
    requires e.Valid() && NameNotShared(t, e.key) && EditCheck(t, e.steps, 0, 0).accepted
    ensures HasTree(Edited(t, e), e.key) <==> StepsAvoid(t, e)
  {
    hide EditCheck, Edited, Renamed, NameNotShared, LeadsTo, ReachesCycle;
    if StepsAvoid(t, e) {
      var b := EditedBranches(t, e, 0, 0);
      var tree := Macro(e.key, b);
      EditedTable(t, e);
      assert UnrollsKey(Edited(t, e), e.key, tree);
    } else {
      var i :| 0 <= i < |e.steps| && !IsNone(e.steps[i])
               && LeadsTo(Renamed(t, e), e.steps[i].elec, e.steps[i].action, e.key);
      LeadingBackIsCycle(t, e, i);
      FiniteIffNoCycle(Edited(t, e), e.key);
    }
  }

  // ----- the status after a saved macro -----

  lemma TypeOfNamed(types: seq<(Key, string)>, key: Key, name: string, at: nat)
    ensures TypeOf(Named(types, key, name, at), key) == name
  {
    var named := Named(types, key, name, at);
    var i := EntryOf(types, key);
    FirstEntryDecides(named, key, name, if i < |types| then i else if at <= |types| then at else |types|);
  }

  lemma {:induction false} FirstEntryDecides(types: seq<(Key, string)>, key: Key, name: string, i: nat)
    requires i < |types| && types[i] == (key, name) && forall j :: 0 <= j < i ==> types[j].0 != key
    ensures TypeOf(types, key) == name
  {
    if i > 0 {
      FirstEntryDecides(types[1..], key, name, i - 1);
    }
  }

  /** A saved macro that ends leaves its appliance with the new name as its status, if it was not
      saved to leave the status alone; then it leaves what its steps left. For every other action it
      stays as it was whether it keeps the status. */
  lemma SavedMacroStatus(t: Table, e: Edit, leaf: LeafOracle, depth: nat, n: int, w: World)
    requires e.Valid() && depth > 0 && FireAction(Edited(t, e), leaf, depth, e.key, n, w).outcome == Done
    ensures var after := FireAction(Edited(t, e), leaf, depth, e.key, n, w).world.status;
            var steps := RunMacro(Edited(t, e), leaf, depth - 1, e.key, 1, n, w).world.status;
            if e.noState then forall elec :: SameStatus(steps, after, elec)
            else HasStatus(World(after, 0), e.key.0, e.actionType)
    ensures forall k :: k != e.key ==> (k in Edited(t, e).keepsStatus <==> k in t.keepsStatus)
  {
    hide FireAction, RunMacro, NewSteps, Named;
    StatusAfter(Edited(t, e), leaf, depth, e.key, n, w);
    MacroLeavesSteps(Edited(t, e), leaf, depth, e.key, n, w);
    TypeOfNamed(t.actionTypes, e.key, e.actionType, e.at);
  }

  // ----- names stay unique -----

  predicate SameName(a: (Key, string), b: (Key, string)) {
    a.0.0 == b.0.0 && a.1 == b.1 != SPACE
  }

  /** Two actions of an appliance have the same name only if it is the one for blanks. */
  ghost predicate NamesAreUnique(types: seq<(Key, string)>) {
    forall i, j :: 0 <= i < |types| && 0 <= j < |types| && SameName(types[i], types[j]) ==> types[i].0 == types[j].0
  }

  /** The test of the name keeps names unique. */
  lemma NamesStayUnique(types: seq<(Key, string)>, key: Key, name: string, at: nat)
    requires NamesAreUnique(types) && NameIsFree(types, key, name)
    ensures NamesAreUnique(Named(types, key, name, at))
  {
    var named := Named(types, key, name, at);
    forall i | 0 <= i < |named|
      ensures named[i] == (key, name) || exists k :: 0 <= k < |types| && named[i] == types[k]
    {
      var n := EntryOf(types, key);
      var p := if at <= |types| then at else |types|;
      if n < |types| {
        assert i != n ==> named[i] == types[i];
      } else {
        assert i < p ==> named[i] == types[i];
        assert i > p ==> named[i] == types[i - 1];
      }
    }
  }

  lemma {:induction false} FoundEntry(types: seq<(Key, string)>, elec: int, action: string, key: Key)
    ensures FindAction(types, elec, action) == Some(key) ==> (key, action) in types && key.0 == elec
    ensures FindOther(types, elec, action, key).Some? ==>
              var other := FindOther(types, elec, action, key).value;
              other != key && other.0 == elec && (other, action) in types
  {
    if types != [] {
      FoundEntry(types[1..], elec, action, key);
    }
  }

  lemma {:induction false} FindElecFirst(types: seq<(int, string)>, elec: string)
    ensures FindElec(types, elec) > 0 ==>
              exists i :: && 0 <= i < |types| && types[i] == (FindElec(types, elec), elec)
                          && forall j :: 0 <= j < i ==> types[j].1 != elec
  {
    if types != [] && types[0].1 != elec {
      FindElecFirst(types[1..], elec);
      if FindElec(types, elec) > 0 {
        var i :| 0 <= i < |types[1..]| && types[1..][i] == (FindElec(types, elec), elec)
                 && forall j :: 0 <= j < i ==> types[1..][j].1 != elec;
        assert types[i + 1] == types[1..][i];
        forall j | 0 <= j < i + 1 ensures types[j].1 != elec {
          assert j > 0 ==> types[1..][j - 1].1 != elec;
        }
      }
    }
  }

  /** What a pair of names stands for is an action of the first appliance of that type, with that
      name, and both have positive numbers. */
  lemma ResolvesTo(t: Table, elec: string, action: string, key: Key)
    requires Resolve(t, elec, action) == Some(key)
    ensures key.0 > 0 && key.1 > 0 && (key, action) in t.actionTypes
    ensures exists i :: && 0 <= i < |t.elecTypes| && t.elecTypes[i] == (key.0, elec)
                        && forall j :: 0 <= j < i ==> t.elecTypes[j].1 != elec
  {
    FindElecFirst(t.elecTypes, elec);
    FoundEntry(t.actionTypes, FindElec(t.elecTypes, elec), action, key);
  }

  /** With unique names no other action answers to the name of an action that is no blank. */
  lemma UniqueIsNotShared(t: Table, key: Key)
    requires NamesAreUnique(t.actionTypes) && forall elec :: Resolve(t, elec, SPACE) != Some(key)
    ensures NameNotShared(t, key)
  {
    hide FindOther, FindElec, FindAction;
    forall elec, action | Resolve(t, elec, action) == Some(key)
      ensures FindOther(t.actionTypes, key.0, action, key) == None
    {
      FoundEntry(t.actionTypes, FindElec(t.elecTypes, elec), action, key);
      FoundEntry(t.actionTypes, key.0, action, key);
    }
  }

  // ----- two macros that call themselves -----

  /** A "tv" with its actions. */
  function Television(actions: seq<(Key, string)>): Table {
    Table([(1, "tv")], actions, {}, map[], {})
  }

  /** Steps that call the "on" of the "tv" first. */
  function SwitchOnFirst(): seq<Step> {
    [Step("tv", "on", "")] + seq(STEP_COUNT - 1, _ => Step("none", "none", ""))
  }

  lemma {:induction false} EditCheckOfNones(t: Table, steps: seq<Step>, i: nat, count: int)
    requires |steps| == STEP_COUNT && i <= STEP_COUNT && Resolve(t, "none", "none") == None
    requires forall k :: i <= k < STEP_COUNT ==> steps[k] == Step("none", "none", "")
    ensures EditCheck(t, steps, i, count) == Verdict(true, count)
    decreases STEP_COUNT - i
  {
    if i < STEP_COUNT {
      EditCheckOfNones(t, steps, i + 1, count);
    }
  }

  lemma {:induction false} LoopIsEndless(t: Table, key: Key, k: nat)
    requires FirstCallee(t, key) == Some(key)
    ensures FirstCalls(t, key, k)
  {
    if k > 0 {
      LoopIsEndless(t, key, k - 1);
    }
  }

  lemma FirstStepIsFirstCall(t: Table, e: Edit)
    requires e.Valid() && !IsNone(e.steps[0]) && !Reserved(e.steps[0].elec) && !Reserved(e.steps[0].action)
    requires Resolve(Edited(t, e), e.steps[0].elec, e.steps[0].action) == Some(e.key)
    ensures FirstCallee(Edited(t, e), e.key) == Some(e.key)
  {
    hide Resolve, Edited;
    EditedTable(t, e);
    EditedSteps(t, e, e.key, 1);
    assert FirstStep(Edited(t, e), e.key, 1) == 1;
  }

  /** The check does not see the edit itself: a step that calls the very action being saved passes
      it, and the saved macro then exhausts every stack. */
  lemma EditCheckMissesSelfCall(leaf: LeafOracle, depth: nat)
    ensures var t := Television([((1, 1), "on")]);
            var e := Edit((1, 1), "on", SwitchOnFirst(), false, 0);
            && EditCheck(t, e.steps, 0, 0) == Verdict(true, 1) && NameIsFree(t.actionTypes, e.key, e.actionType)
            && FireAction(Edited(t, e), leaf, depth, e.key, 0, World(map[], 0)).outcome == StackOverflow
  {
    hide FireAction;
    var t := Television([((1, 1), "on")]);
    var e := Edit((1, 1), "on", SwitchOnFirst(), false, 0);
    assert Check(t, "tv", "on", 0) == Verdict(true, 1);
    EditCheckOfNones(t, e.steps, 1, 1);
    assert Named(t.actionTypes, e.key, "on", 0) == [((1, 1), "on")];
    SavedLoops(t, e, leaf, depth);
  }

  /** The same with a new action: the check finds no action of its name, and after the save the
      name is its own. */
  lemma EditCheckMissesNewName(leaf: LeafOracle, depth: nat)
    ensures var t := Television([]);
            var e := Edit((1, 2), "on", SwitchOnFirst(), false, 0);
            && EditCheck(t, e.steps, 0, 0) == Verdict(true, 0) && NameIsFree(t.actionTypes, e.key, e.actionType)
            && FireAction(Edited(t, e), leaf, depth, e.key, 0, World(map[], 0)).outcome == StackOverflow
  {
    hide FireAction;
    var t := Television([]);
    var e := Edit((1, 2), "on", SwitchOnFirst(), false, 0);
    assert Check(t, "tv", "on", 0) == Verdict(true, 0);
    EditCheckOfNones(t, e.steps, 1, 0);
    assert Named(t.actionTypes, e.key, "on", 0) == [((1, 2), "on")];
    SavedLoops(t, e, leaf, depth);
  }

  lemma SavedLoops(t: Table, e: Edit, leaf: LeafOracle, depth: nat)
    requires e.Valid() && e.steps == SwitchOnFirst()
    requires t.elecTypes == [(1, "tv")] && e.key.0 == 1
    requires Named(t.actionTypes, e.key, e.actionType, e.at) == [(e.key, "on")]
    ensures FireAction(Edited(t, e), leaf, depth, e.key, 0, World(map[], 0)).outcome == StackOverflow
  {
    assert Resolve(Edited(t, e), "tv", "on") == Some(e.key);
    FirstStepIsFirstCall(t, e);
    LoopIsEndless(Edited(t, e), e.key, depth);
    ChainExhaustsStack(Edited(t, e), leaf, depth, e.key, 0, World(map[], 0));
  }

  // ----- an accepted macro that is too long -----

  /** The "tv" whose action "a" is a macro of nine steps that nothing answers to. */
  function WithIdle(): Table {
    Table([(1, "tv")], [((1, 2), "a")], {(1, 2)},
          map i: int | 1 <= i <= STEP_COUNT :: ((1, 2), i) := Step("x", "y", ""), {})
  }

  /** Three calls of it and six more steps that nothing answers to. */
  function ThreeIdle(): Edit {
    Edit((1, 1), "new", seq(STEP_COUNT, i => if i < 3 then Step("tv", "a", "") else Step("x", "y", "")), false, 0)
  }

  /** The branches from step `i` on when no step from there resolves. */
  function Unanswered(i: int): (b: Branches)
    requires 1 <= i <= STEP_COUNT + 1
    ensures BranchSteps(b) == STEP_COUNT + 1 - i
    ensures BranchSize(b) == STEP_COUNT + 1 - i
    decreases STEP_COUNT - i
  {
    if i > STEP_COUNT then End else Call(Unresolved, Unanswered(i + 1))
  }

  lemma {:induction false} UnansweredUnrolls(t: Table, key: Key, i: int)
    requires 1 <= i <= STEP_COUNT + 1 && Resolve(t, "x", "y") == None
    requires forall k :: i <= k <= STEP_COUNT ==> StepAt(t, key, k) == Step("x", "y", "")
    ensures UnrollsSteps(t, key, i, Unanswered(i))
    decreases STEP_COUNT - i
  {
    if i <= STEP_COUNT {
      UnansweredUnrolls(t, key, i + 1);
    }
  }

  lemma {:induction false} CheckOfIdle(t: Table, steps: seq<Step>, i: nat, count: int)
    requires |steps| == STEP_COUNT && i <= STEP_COUNT && Resolve(t, "x", "y") == None
    requires forall k :: i <= k < STEP_COUNT ==> steps[k] == Step("x", "y", "")
    ensures EditCheck(t, steps, i, count) == Verdict(true, count)
    decreases STEP_COUNT - i
  {
    hide Resolve;
    if i < STEP_COUNT {
      CheckOfIdle(t, steps, i + 1, count);
    }
  }

  /** What the names of the example stand for, before and after. */
  lemma IdleNames()
    ensures Edited(WithIdle(), ThreeIdle()).elecTypes == [(1, "tv")]
    ensures Edited(WithIdle(), ThreeIdle()).actionTypes == [((1, 1), "new"), ((1, 2), "a")]
    ensures Resolve(WithIdle(), "tv", "a") == Some((1, 2)) && Resolve(WithIdle(), "x", "y") == None
    ensures Resolve(Edited(WithIdle(), ThreeIdle()), "tv", "a") == Some((1, 2))
    ensures Resolve(Edited(WithIdle(), ThreeIdle()), "x", "y") == None
  {
    var types := WithIdle().actionTypes;
    assert EntryOf(types, (1, 1)) == 1;
    assert Named(types, (1, 1), "new", 0) == [((1, 1), "new"), ((1, 2), "a")];
  }

  /** The steps of the example, before and after. */
  lemma IdleSteps(i: int)
    requires 1 <= i <= STEP_COUNT
    ensures ThreeIdle().Valid() && ThreeIdle().key == (1, 1) && (1, 2) in WithIdle().macros
    ensures StepAt(WithIdle(), (1, 2), i) == Step("x", "y", "")
    ensures StepAt(Edited(WithIdle(), ThreeIdle()), (1, 2), i) == Step("x", "y", "")
    ensures StepAt(Edited(WithIdle(), ThreeIdle()), (1, 1), i) == Idling(i)
  {
    EditedSteps(WithIdle(), ThreeIdle(), (1, 2), i);
  }

  function Idling(i: int): Step {
    if i <= 3 then Step("tv", "a", "") else Step("x", "y", "")
  }

  /** The macro whose nine steps nothing answers to has this call tree. */
  lemma IdleCallUnrolls(t: Table) returns (tree: Tree)
    requires (1, 2) in t.macros && Resolve(t, "tv", "a") == Some((1, 2)) && Resolve(t, "x", "y") == None
    requires forall i :: 1 <= i <= STEP_COUNT ==> StepAt(t, (1, 2), i) == Step("x", "y", "")
    ensures tree == Macro((1, 2), Unanswered(1)) && Size(tree) == 10
    ensures Unrolls(t, "tv", "a", tree)
  {
    hide Resolve, StepAt;
    tree := Macro((1, 2), Unanswered(1));
    UnansweredUnrolls(t, (1, 2), 1);
  }

  /** Each call of the "a" of the "tv" costs the check ten. */
  lemma CheckOfCall(count: int)
    requires count <= 20
    ensures Check(WithIdle(), "tv", "a", count) == Verdict(true, count + 10)
  {
    IdleNames();
    forall i | 1 <= i <= STEP_COUNT ensures StepAt(WithIdle(), (1, 2), i) == Step("x", "y", "") {
      IdleSteps(i);
    }
    hide *;
    var tree := IdleCallUnrolls(WithIdle());
    TreeDecides(WithIdle(), "tv", "a", count, tree);
    Fits(count);
  }

  lemma Fits(count: int)
    requires count <= 20
    ensures Decision(count, 10) == Verdict(true, count + 10) && count <= NAICHICHI_MACRO_MAX_CALLCOUNT
  {
  }

  lemma CheckOfThreeIdle()
    ensures EditCheck(WithIdle(), ThreeIdle().steps, 0, 0) == Verdict(true, 30)
  {
    hide Check, Resolve, Edited, WithIdle;
    IdleNames();
    var t, steps := WithIdle(), ThreeIdle().steps;
    CheckOfCall(0);
    CheckOfCall(10);
    CheckOfCall(20);
    CheckOfIdle(t, steps, 3, 30);
    assert EditCheck(t, steps, 2, 20) == Verdict(true, 30);
    assert EditCheck(t, steps, 1, 10) == Verdict(true, 30);
  }

  /** No step of the example leads back. */
  lemma IdleAvoids()
    ensures StepsAvoid(WithIdle(), ThreeIdle())
  {
    var t := Renamed(WithIdle(), ThreeIdle());
    hide Resolve, Renamed, Edited, WithIdle;
    IdleNames();
    EditedTable(WithIdle(), ThreeIdle());
    forall i | 1 <= i <= STEP_COUNT ensures StepAt(t, (1, 2), i) == Step("x", "y", "") {
      IdleSteps(i);
    }
    forall to ensures !Calls(t, (1, 2), to) {
    }
    forall elec, action, path | (elec, action) in {("tv", "a"), ("x", "y")} && CallPath(t, elec, action, path)
      ensures path[|path| - 1] != (1, 1)
    {
      FirstOfPath(t, path);
    }
    assert !LeadsTo(t, "tv", "a", (1, 1)) && !LeadsTo(t, "x", "y", (1, 1));
  }

  lemma FirstOfPath(t: Table, path: seq<Key>)
    requires IsCallPath(t, path)
    ensures |path| > 1 ==> Calls(t, path[0], path[1])
  {
  }

  lemma IdleIsUnconditional()
    ensures Unconditional(Edited(WithIdle(), ThreeIdle()))
  {
    var t := Edited(WithIdle(), ThreeIdle());
    forall elec, action | Resolve(t, elec, action).Some? ensures !Reserved(elec) && !Reserved(action) {
      IdleNames();
      FindElecHas(t.elecTypes, elec);
      FoundEntry(t.actionTypes, 1, action, Resolve(t, elec, action).value);
    }
  }

  lemma {:induction false} FindElecHas(types: seq<(int, string)>, elec: string)
    ensures FindElec(types, elec) > 0 ==> (FindElec(types, elec), elec) in types
  {
    if types != [] {
      FindElecHas(types[1..], elec);
    }
  }

  /** The call tree of the saved macro: three calls of nine steps each, and six steps. */
  function IdleTree(): (tree: Tree)
    ensures Steps(tree) == 36 && Size(tree) == 40
  {
    var call := Macro((1, 2), Unanswered(1));
    Macro((1, 1), Call(call, Call(call, Call(call, Unanswered(4)))))
  }

  lemma IdleUnrolls()
    ensures UnrollsKey(Edited(WithIdle(), ThreeIdle()), (1, 1), IdleTree())
  {
    IdleNames();
    var t := Edited(WithIdle(), ThreeIdle());
    forall i | 1 <= i <= STEP_COUNT
      ensures StepAt(t, (1, 2), i) == Step("x", "y", "") && StepAt(t, (1, 1), i) == Idling(i)
    {
      IdleSteps(i);
    }
    IdleSteps(1);
    hide *;
    BothAreMacros();
    UnrollsThree(t);
  }

  lemma BothAreMacros()
    ensures var t := Edited(WithIdle(), ThreeIdle()); (1, 1) in t.macros && (1, 2) in t.macros
  {
  }

  lemma UnrollsThree(t: Table)
    requires (1, 1) in t.macros && (1, 2) in t.macros
    requires Resolve(t, "tv", "a") == Some((1, 2)) && Resolve(t, "x", "y") == None
    requires forall i :: 1 <= i <= STEP_COUNT ==>
               StepAt(t, (1, 2), i) == Step("x", "y", "") && StepAt(t, (1, 1), i) == Idling(i)
    ensures UnrollsKey(t, (1, 1), IdleTree())
  {
    hide Resolve, StepAt, Unrolls;
    UnansweredUnrolls(t, (1, 1), 4);
    var call := IdleCallUnrolls(t);
    var b3 := Call(call, Unanswered(4));
    assert UnrollsSteps(t, (1, 1), 3, b3);
    assert UnrollsSteps(t, (1, 1), 2, Call(call, b3));
    assert UnrollsSteps(t, (1, 1), 1, Call(call, Call(call, b3)));
  }

  /** A macro that passes every test of the save and calls nothing that leads to it, and that throws
      the nesting error on its first run. */
  lemma AcceptedEditCanFail(leaf: LeafOracle, w: World, depth: nat)
    requires (forall i: nat, k :: leaf(i, k)) && depth >= 40
    ensures var t, e := WithIdle(), ThreeIdle();
            && NameIsFree(t.actionTypes, e.key, e.actionType) && NameNotShared(t, e.key) && StepsAvoid(t, e)
            && EditCheck(t, e.steps, 0, 0) == Verdict(true, 30)
            && FireAction(Edited(t, e), leaf, depth, e.key, 0, w).outcome == NestError
  {
    CheckOfThreeIdle();
    IdleAvoids();
    IdleIsUnconditional();
    IdleUnrolls();
    IdleIsNew();
    IdleSteps(1);
    hide *;
    ExactRun(Edited(WithIdle(), ThreeIdle()), leaf, depth, (1, 1), 0, w, IdleTree());
    TooLong();
  }

  lemma TooLong()
    ensures ExactOutcome(0, 36).0 == NestError && ThreeIdle().key == (1, 1) && ThreeIdle().Valid()
  {
  }

  lemma IdleIsNew()
    ensures NameIsFree(WithIdle().actionTypes, (1, 1), ThreeIdle().actionType)
    ensures NameNotShared(WithIdle(), (1, 1))
  {
    forall elec, action ensures Resolve(WithIdle(), elec, action) != Some((1, 1)) {
      FoundEntry(WithIdle().actionTypes, FindElec(WithIdle().elecTypes, elec), action, (1, 1));
    }
  }
}
