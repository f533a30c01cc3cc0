/** Macros: an action may be a list of up to nine steps, each naming another action. This module
    is the table of actions, the static check (check_macroE) and what the check decides. */
module MacroTable {
  import opened Wrappers

  const NAICHICHI_MACRO_MAX_CALLCOUNT := 30
  const STEP_COUNT := 9

  type Key = (int, int)

  datatype Step = Step(elec: string, action: string, after: string)

  /** The part of the configuration that drives macros. The two lists are the "_type" entries of
      appliances and the "_actiontype" entries of actions in the order in which the map is walked;
      a step whose entries are missing reads as three empty strings. */
  datatype Table = Table(
    elecTypes: seq<(int, string)>,
    actionTypes: seq<(Key, string)>,
    macros: set<Key>,
    steps: map<(Key, int), Step>,
    keepsStatus: set<Key>)

  function StepAt(t: Table, key: Key, i: int): Step {
    if (key, i) in t.steps then t.steps[(key, i)] else Step("", "", "")
  }

  predicate IsNone(s: Step) {
    s.elec == "none" || s.action == "none"
  }

  /** The number in the first entry with this type, or 0. */
  function FindElec(types: seq<(int, string)>, elec: string): int {
    if types == [] then 0
    else if types[0].1 == elec then types[0].0
    else FindElec(types[1..], elec)
  }

  /** The first action of an appliance with this type. */
  function FindAction(types: seq<(Key, string)>, elec: int, action: string): Option<Key> {
    if types == [] then None
    else if types[0].0.0 == elec && types[0].1 == action then Some(types[0].0)
    else FindAction(types[1..], elec, action)
  }

  lemma {:induction false} FindActionHas(types: seq<(Key, string)>, elec: int, action: string)
    ensures FindAction(types, elec, action).Some? ==> FindAction(types, elec, action).value.0 == elec
  {
    if types != [] {
      FindActionHas(types[1..], elec, action);
    }
  }

  /** type2key: the action that a pair of names stands for. */
  function Resolve(t: Table, elec: string, action: string): Option<Key> {
    var key1 := FindElec(t.elecTypes, elec);
    if key1 <= 0 then None
    else
      var found := FindAction(t.actionTypes, key1, action);
      if found.Some? && found.value.1 <= 0 then None else found
  }

  /** The "_actiontype" entry of an action, or the empty text. */
  function TypeOf(types: seq<(Key, string)>, key: Key): string {
    if types == [] then "" else if types[0].0 == key then types[0].1 else TypeOf(types[1..], key)
  }

  // ----- unrolled call trees -----

  /** The calls an action makes, unrolled: a name nothing answers to, an action that is not a
      macro, or a macro with the trees of its steps, `Skip` for a "none" step. */
  datatype Tree =
    | Unresolved
    | Leaf(key: Key)
    | Macro(key: Key, first: Branches)

  datatype Branches = End | Skip(rest: Branches) | Call(tree: Tree, rest: Branches)

  /** Is `tree` the unrolling of the action these names resolve to? */
  predicate Unrolls(t: Table, elec: string, action: string, tree: Tree)
    decreases tree, 1
  {
    match Resolve(t, elec, action)
    case None => tree == Unresolved
    case Some(key) => UnrollsKey(t, key, tree)
  }

  predicate UnrollsKey(t: Table, key: Key, tree: Tree)
    decreases tree, 0
  {
    if key in t.macros then tree.Macro? && tree.key == key && UnrollsSteps(t, key, 1, tree.first)
    else tree == Leaf(key)
  }

  predicate UnrollsSteps(t: Table, key: Key, i: int, b: Branches)
    decreases b
  {
    if i > STEP_COUNT then b == End
    else
      var s := StepAt(t, key, i);
      if IsNone(s) then b.Skip? && UnrollsSteps(t, key, i + 1, b.rest)
      else b.Call? && Unrolls(t, s.elec, s.action, b.tree) && UnrollsSteps(t, key, i + 1, b.rest)
  }

  /** Number of resolved actions and of non-"none" steps in a call tree. */
  function Size(tree: Tree): nat {
    match tree
    case Unresolved => 0
    case Leaf(_) => 1
    case Macro(_, b) => 1 + BranchSize(b)
  }

  function BranchSize(b: Branches): nat {
    match b
    case End => 0
    case Skip(rest) => BranchSize(rest)
    case Call(tree, rest) => 1 + Size(tree) + BranchSize(rest)
  }

  // ----- the check -----

  /** Verdict and counter after the check. */
  datatype Verdict = Verdict(accepted: bool, count: int)

  function Budget(count: int): nat {
    if count > NAICHICHI_MACRO_MAX_CALLCOUNT then 0 else NAICHICHI_MACRO_MAX_CALLCOUNT - count + 1
  }

  function Check(t: Table, elec: string, action: string, count: int): (v: Verdict)
    ensures v.count >= count
    decreases Budget(count), STEP_COUNT + 1
  {
    match Resolve(t, elec, action)
    case None => Verdict(true, count)
    case Some(key) =>
      if count + 1 > NAICHICHI_MACRO_MAX_CALLCOUNT then Verdict(false, count + 1)
      else if key !in t.macros then Verdict(true, count + 1)
      else CheckSteps(t, key, 1, count + 1)
  }

  function CheckSteps(t: Table, key: Key, i: int, count: int): (v: Verdict)
    requires 1 <= i
    ensures v.count >= count
    decreases Budget(count), if i > STEP_COUNT then 0 else STEP_COUNT + 1 - i
  {
    if i > STEP_COUNT then Verdict(true, count)
    else
      var s := StepAt(t, key, i);
      if IsNone(s) then CheckSteps(t, key, i + 1, count)
      else if count + 1 > NAICHICHI_MACRO_MAX_CALLCOUNT then Verdict(false, count + 1)
      else
        var v := Check(t, s.elec, s.action, count + 1);
        if !v.accepted then v else CheckSteps(t, key, i + 1, v.count)
  }

  /** The counter that the recursive calls share. */
  class Counter {
    var value: int

    constructor (n: int)
      ensures value == n
    {
      value := n;
    }
  }

  /** check_macroE: count every resolved action and every step, before descending into it. */
  method CheckMacro(t: Table, elec: string, action: string, nestcount: Counter) returns (ok: bool)
    modifies nestcount
    ensures Verdict(ok, nestcount.value) == Check(t, elec, action, old(nestcount.value))
    decreases Budget(nestcount.value)
  {
    var found := Resolve(t, elec, action);
    if found.None? {
      return true;
    }
    var key := found.value;
    nestcount.value := nestcount.value + 1;
    if nestcount.value > NAICHICHI_MACRO_MAX_CALLCOUNT {
      return false;
    }
    if key !in t.macros {
      return true;
    }
    ghost var entry := nestcount.value;
    for i := 1 to STEP_COUNT + 1
      invariant nestcount.value >= entry
      invariant CheckSteps(t, key, i, nestcount.value) == CheckSteps(t, key, 1, entry)
    {
      var s := StepAt(t, key, i);
      if IsNone(s) {
        continue;
      }
      nestcount.value := nestcount.value + 1;
      if nestcount.value > NAICHICHI_MACRO_MAX_CALLCOUNT {
        return false;
      }
      var accepted := CheckMacro(t, s.elec, s.action, nestcount);
      if !accepted {
        return false;
      }
    }
    return true;
  }

  // ----- what the check decides -----

  /** An accepted check has unrolled the whole call tree: the tree is finite and the counter
      advanced by its size. */
  lemma {:induction false} AcceptedTree(t: Table, elec: string, action: string, count: int) returns (tree: Tree)
    requires Check(t, elec, action, count).accepted
    ensures Unrolls(t, elec, action, tree)
    ensures Check(t, elec, action, count).count == count + Size(tree)
    ensures tree != Unresolved ==> count + Size(tree) <= NAICHICHI_MACRO_MAX_CALLCOUNT
    decreases Budget(count), STEP_COUNT + 1
  {
    var found := Resolve(t, elec, action);
    if found.None? {
      tree := Unresolved;
    } else if found.value !in t.macros {
      tree := Leaf(found.value);
    } else {
      var b := AcceptedSteps(t, found.value, 1, count + 1);
      tree := Macro(found.value, b);
    }
  }

  lemma {:induction false} AcceptedSteps(t: Table, key: Key, i: int, count: int) returns (b: Branches)
    requires 1 <= i <= STEP_COUNT + 1 && count <= NAICHICHI_MACRO_MAX_CALLCOUNT
    requires CheckSteps(t, key, i, count).accepted
    ensures UnrollsSteps(t, key, i, b)
    ensures CheckSteps(t, key, i, count).count == count + BranchSize(b) <= NAICHICHI_MACRO_MAX_CALLCOUNT
    decreases Budget(count), STEP_COUNT + 1 - i
  {
    if i > STEP_COUNT {
      b := End;
    } else {
      var s := StepAt(t, key, i);
      if IsNone(s) {
        var rest := AcceptedSteps(t, key, i + 1, count);
        b := Skip(rest);
      } else {
        var tree := AcceptedTree(t, s.elec, s.action, count + 1);
        var rest := AcceptedSteps(t, key, i + 1, count + 1 + Size(tree));
        b := Call(tree, rest);
      }
    }
  }

  /** The verdict on something of this size: accepted with the counter advanced by the size, or
      rejected with the counter one past the limit. */
  function Decision(count: int, size: nat): Verdict {
    if count + size <= NAICHICHI_MACRO_MAX_CALLCOUNT then Verdict(true, count + size)
    else Verdict(false, NAICHICHI_MACRO_MAX_CALLCOUNT + 1)
  }

  /** A finite call tree is accepted exactly when it fits. */
  lemma {:induction false} TreeDecides(t: Table, elec: string, action: string, count: int, tree: Tree)
    requires Unrolls(t, elec, action, tree) && count <= NAICHICHI_MACRO_MAX_CALLCOUNT
    ensures Check(t, elec, action, count) == Decision(count, Size(tree))
    decreases tree, 1
  {
    var found := Resolve(t, elec, action);
    if found.Some? && found.value in t.macros && count < NAICHICHI_MACRO_MAX_CALLCOUNT {
      BranchesDecide(t, found.value, 1, count + 1, tree.first);
    }
  }

  lemma {:induction false} BranchesDecide(t: Table, key: Key, i: int, count: int, b: Branches)
    requires 1 <= i && UnrollsSteps(t, key, i, b) && count <= NAICHICHI_MACRO_MAX_CALLCOUNT
    ensures CheckSteps(t, key, i, count) == Decision(count, BranchSize(b))
    decreases b
  {
    hide Unrolls, Size, Check;
    if i <= STEP_COUNT {
      var s := StepAt(t, key, i);
      if IsNone(s) {
        BranchesDecide(t, key, i + 1, count, b.rest);
      } else if count < NAICHICHI_MACRO_MAX_CALLCOUNT {
        TreeDecides(t, s.elec, s.action, count + 1, b.tree);
        var next := count + 1 + Size(b.tree);
        assert BranchSize(b) == 1 + Size(b.tree) + BranchSize(b.rest);
        if next <= NAICHICHI_MACRO_MAX_CALLCOUNT {
          BranchesDecide(t, key, i + 1, next, b.rest);
        }
      }
    }
  }

  /** From a count within the limit the check accepts if and only if the action has a finite
      unrolled call tree whose size fits in what is left. */
  lemma CheckIffFits(t: Table, elec: string, action: string, count: int)
    requires count <= NAICHICHI_MACRO_MAX_CALLCOUNT
    ensures Check(t, elec, action, count).accepted <==>
            exists tree :: Unrolls(t, elec, action, tree) && count + Size(tree) <= NAICHICHI_MACRO_MAX_CALLCOUNT
  {
    if Check(t, elec, action, count).accepted {
      var tree := AcceptedTree(t, elec, action, count);
    }
    forall tree | Unrolls(t, elec, action, tree) {
      TreeDecides(t, elec, action, count, tree);
    }
  }

  // ----- cycles -----

  /** Does macro `from` have a step that calls `to`? */
  predicate Calls(t: Table, from: Key, to: Key) {
    from in t.macros && exists i :: 1 <= i <= STEP_COUNT && StepCalls(t, from, i, to)
  }

  predicate StepCalls(t: Table, from: Key, i: int, to: Key) {
    var s := StepAt(t, from, i);
    !IsNone(s) && Resolve(t, s.elec, s.action) == Some(to)
  }

  predicate IsCallPath(t: Table, path: seq<Key>) {
    forall k :: 0 <= k < |path| - 1 ==> Calls(t, path[k], path[k + 1])
  }

  lemma {:induction false} UniqueTree(t: Table, key: Key, a: Tree, b: Tree)
    requires UnrollsKey(t, key, a) && UnrollsKey(t, key, b)
    ensures a == b
    decreases a, 0
  {
    if key in t.macros {
      UniqueBranches(t, key, 1, a.first, b.first);
    }
  }

  lemma {:induction false} UniqueBranches(t: Table, key: Key, i: int, a: Branches, b: Branches)
    requires UnrollsSteps(t, key, i, a) && UnrollsSteps(t, key, i, b)
    ensures a == b
    decreases a
  {
    if i <= STEP_COUNT {
      var s := StepAt(t, key, i);
      if !IsNone(s) && Resolve(t, s.elec, s.action).Some? {
        UniqueTree(t, Resolve(t, s.elec, s.action).value, a.tree, b.tree);
      }
      UniqueBranches(t, key, i + 1, a.rest, b.rest);
    }
  }

  /** The tree of a callee is a smaller part of the caller's tree. */
  lemma {:induction false} CalleeTree(t: Table, from: Key, i: int, j: int, to: Key, b: Branches)
    returns (sub: Tree)
    requires i <= j <= STEP_COUNT && StepCalls(t, from, j, to) && UnrollsSteps(t, from, i, b)
    ensures UnrollsKey(t, to, sub) && Size(sub) < BranchSize(b)
    decreases b
  {
    if i == j {
      sub := b.tree;
    } else {
      sub := CalleeTree(t, from, i + 1, j, to, b.rest);
    }
  }

  lemma {:induction false} PathTree(t: Table, path: seq<Key>, tree: Tree) returns (sub: Tree)
    requires path != [] && IsCallPath(t, path) && UnrollsKey(t, path[0], tree)
    ensures UnrollsKey(t, path[|path| - 1], sub)
    ensures Size(sub) <= Size(tree) && (|path| > 1 ==> Size(sub) < Size(tree))
    decreases |path|
  {
    sub := tree;
    if |path| > 1 {
      assert Calls(t, path[0], path[1]);
      var i :| 1 <= i <= STEP_COUNT && StepCalls(t, path[0], i, path[1]);
      var next := CalleeTree(t, path[0], 1, i, path[1], tree.first);
      forall k | 0 <= k < |path| - 2 ensures Calls(t, path[1..][k], path[1..][k + 1]) {
        assert Calls(t, path[k + 1], path[k + 2]);
      }
      sub := PathTree(t, path[1..], next);
    }
  }

  /** An action from which calls lead into a cycle is rejected from every count. */
  lemma CyclesRejected(t: Table, elec: string, action: string, path: seq<Key>, cycle: seq<Key>, count: int)
    requires path != [] && IsCallPath(t, path) && Resolve(t, elec, action) == Some(path[0])
    requires |cycle| > 1 && IsCallPath(t, cycle)
    requires cycle[0] == cycle[|cycle| - 1] == path[|path| - 1]
    ensures !Check(t, elec, action, count).accepted
  {
    if Check(t, elec, action, count).accepted {
      var tree := AcceptedTree(t, elec, action, count);
      var entry := PathTree(t, path, tree);
      var again := PathTree(t, cycle, entry);
      UniqueTree(t, cycle[0], entry, again);
      assert false;
    }
  }

  // ----- finite trees and cycles -----

  /** Is the unrolled call tree of `key` finite? */
  ghost predicate HasTree(t: Table, key: Key) {
    exists tree :: UnrollsKey(t, key, tree)
  }

  /** Can calls from `key` come twice to the same action? */
  ghost predicate ReachesCycle(t: Table, key: Key) {
    exists path :: IsPathFrom(t, key, path) && !Once(path)
  }

  ghost predicate IsPathFrom(t: Table, key: Key, path: seq<Key>) {
    path != [] && path[0] == key && IsCallPath(t, path)
  }

  lemma PathExtends(t: Table, key: Key, path: seq<Key>, next: Key)
    requires IsPathFrom(t, key, path) && Calls(t, path[|path| - 1], next)
    ensures IsPathFrom(t, key, path + [next])
    ensures Once(path) && next !in path ==> Once(path + [next])
    ensures next in path ==> !Once(path + [next])
  {
    hide Calls;
    var longer := path + [next];
    forall k | 0 <= k < |longer| - 1 ensures Calls(t, longer[k], longer[k + 1]) {
      assert k < |path| - 1 ==> longer[k] == path[k] && longer[k + 1] == path[k + 1];
    }
    assert longer[|path|] == next;
    assert forall k :: 0 <= k < |path| ==> longer[k] == path[k];
  }

  function Visited(path: seq<Key>): set<Key> {
    set k | k in path
  }

  /** Without a cycle ahead, the tree at the end of a path is finite: the path cannot grow beyond the macros. */
  lemma {:induction false} TreeWithoutCycle(t: Table, key: Key, path: seq<Key>) returns (tree: Tree)
    requires !ReachesCycle(t, key) && IsPathFrom(t, key, path) && Once(path)
    ensures UnrollsKey(t, path[|path| - 1], tree)
    decreases t.macros - Visited(path[..|path| - 1]), 1, 0
  {
    var last := path[|path| - 1];
    if last !in t.macros {
      tree := Leaf(last);
    } else {
      var b := BranchesWithoutCycle(t, key, path, 1);
      tree := Macro(last, b);
    }
  }

  lemma {:induction false} BranchesWithoutCycle(t: Table, key: Key, path: seq<Key>, i: int) returns (b: Branches)
    requires !ReachesCycle(t, key) && IsPathFrom(t, key, path) && Once(path)
    requires path[|path| - 1] in t.macros && 1 <= i <= STEP_COUNT + 1
    ensures UnrollsSteps(t, path[|path| - 1], i, b)
    decreases t.macros - Visited(path[..|path| - 1]), 0, STEP_COUNT + 1 - i
  {
    hide IsCallPath, Once, ReachesCycle;
    var last := path[|path| - 1];
    if i > STEP_COUNT {
      b := End;
    } else {
      var s := StepAt(t, last, i);
      var rest := BranchesWithoutCycle(t, key, path, i + 1);
      if IsNone(s) {
        b := Skip(rest);
      } else {
        var tree := Unresolved;
        var found := Resolve(t, s.elec, s.action);
        if found.Some? {
          assert StepCalls(t, last, i, found.value);
          StaysOnce(t, key, path, found.value);
          Shrinks(t, path);
          assert (path + [found.value])[..|path|] == path;
          tree := TreeWithoutCycle(t, key, path + [found.value]);
        }
        b := Call(tree, rest);
      }
    }
  }

  lemma StaysOnce(t: Table, key: Key, path: seq<Key>, next: Key)
    requires !ReachesCycle(t, key) && IsPathFrom(t, key, path) && Once(path) && Calls(t, path[|path| - 1], next)
    ensures IsPathFrom(t, key, path + [next]) && Once(path + [next])
  {
    PathExtends(t, key, path, next);
  }

  lemma Shrinks(t: Table, path: seq<Key>)
    requires path != [] && Once(path) && path[|path| - 1] in t.macros
    ensures t.macros - Visited(path) < t.macros - Visited(path[..|path| - 1])
  {
    var init, last := path[..|path| - 1], path[|path| - 1];
    assert path == init + [last];
    assert last in t.macros - Visited(init) && last !in t.macros - Visited(path);
  }

  lemma PrefixIsPath(t: Table, path: seq<Key>, from: nat, to: nat)
    requires IsCallPath(t, path) && from <= to <= |path|
    ensures IsCallPath(t, path[from..to])
  {
    hide Calls;
    forall k | 0 <= k < to - from - 1 ensures Calls(t, path[from..to][k], path[from..to][k + 1]) {
      assert Calls(t, path[from + k], path[from + k + 1]);
    }
  }

  /** The unrolled call tree of an action is finite if and only if its calls never come twice to
      the same action. */
  lemma FiniteIffNoCycle(t: Table, key: Key)
    ensures HasTree(t, key) <==> !ReachesCycle(t, key)
  {
    if !ReachesCycle(t, key) {
      assert IsPathFrom(t, key, [key]);
      var tree := TreeWithoutCycle(t, key, [key]);
    } else if HasTree(t, key) {
      var path :| IsPathFrom(t, key, path) && !Once(path);
      var tree :| UnrollsKey(t, key, tree);
      var i, j :| 0 <= i < j < |path| && path[i] == path[j];
      PrefixIsPath(t, path, 0, i + 1);
      PrefixIsPath(t, path, i, j + 1);
      var entry := PathTree(t, path[0..i + 1], tree);
      var again := PathTree(t, path[i..j + 1], entry);
      UniqueTree(t, path[i], entry, again);
      assert false;
    }
  }
}
