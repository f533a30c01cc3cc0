/** The voice-command grammar compiler: a list of multi-word commands becomes a finite
    automaton that reads an utterance right to left, and a word dictionary. */
module Grammar {
  import opened Text

  /** One line of the automaton file: an edge and its two flag columns. */
  datatype Row = Row(from: int, sym: int, to: int, startFlag: int, endFlag: int)

  /** One line of the dictionary file: the label it realises, the text between the square
      brackets, and the phone column. */
  datatype Word = Word(sym: int, output: string, phones: string)

  const SEPARATOR := " @ "

  const END_LABEL := 0
  const START_LABEL := 1
  const GARBAGE_CALL_LABEL := 2
  const GARBAGE_LABEL := 3
  const CALL_LABEL := 4
  const COMMAND_LABEL := 5
  const END_STATE := 0
  const START_STATE := 1
  const FINAL_STATE := 2
  const CALL_STATE := 4
  const COMMAND_STATE := 5
  const FIRST_CHAIN_STATE := 6
  const FIRST_WORD_LABEL := 6

  // ----- the compiled automaton, as a function of the commands -----

  function Header(): seq<Row> {
    [ Row(END_STATE, END_LABEL, COMMAND_STATE, 0, 1),
      Row(START_STATE, START_LABEL, FINAL_STATE, 1, 1),
      Row(FINAL_STATE, -1, -1, 1, 0),
      Row(COMMAND_STATE, GARBAGE_LABEL, CALL_STATE, 0, 0),
      Row(COMMAND_STATE, COMMAND_LABEL, CALL_STATE, 0, 0),
      Row(CALL_STATE, GARBAGE_CALL_LABEL, START_STATE, 0, 0),
      Row(CALL_STATE, CALL_LABEL, START_STATE, 0, 0) ]
  }

  predicate Labelled(words: seq<string>, sym: map<string, int>) {
    forall w :: w in words ==> w in sym
  }

  predicate AllLabelled(cmds: seq<seq<string>>, sym: map<string, int>) {
    forall c :: c in cmds ==> Labelled(c, sym)
  }

  function LabelsOf(words: seq<string>, sym: map<string, int>): (r: seq<int>)
    requires Labelled(words, sym)
    ensures |r| == |words| && forall j :: 0 <= j < |r| ==> r[j] == sym[words[j]]
  {
    seq(|words|, j requires 0 <= j < |words| => sym[words[j]])
  }

  /** The state a chain that starts at `first` reaches backwards from word `j`. */
  function Before(first: int, j: int): int {
    if j == 0 then CALL_STATE else first + j - 1
  }

  function ChainRow(words: seq<string>, first: int, sym: map<string, int>, j: nat): Row
    requires j < |words| && words[j] in sym
  {
    Row(first + j, sym[words[j]], Before(first, j), 0, 0)
  }

  function Chain(words: seq<string>, first: int, sym: map<string, int>): (r: seq<Row>)
    requires Labelled(words, sym)
    ensures |r| == |words|
    ensures forall j :: 0 <= j < |r| ==> r[j] == ChainRow(words, first, sym, j)
  {
    seq(|words|, j requires 0 <= j < |words| => ChainRow(words, first, sym, j))
  }

  function Closing(words: seq<string>, first: int): Row {
    Row(END_STATE, END_LABEL, Before(first, |words|), 0, 1)
  }

  function Total(cmds: seq<seq<string>>): nat {
    if cmds == [] then 0 else Total(cmds[..|cmds| - 1]) + |cmds[|cmds| - 1]|
  }

  /** First chain state of command `i`. */
  function FirstState(cmds: seq<seq<string>>, i: nat): int
    requires i <= |cmds|
  {
    FIRST_CHAIN_STATE + Total(cmds[..i])
  }

  function CommandRows(cmds: seq<seq<string>>, sym: map<string, int>): seq<Row>
    requires AllLabelled(cmds, sym)
  {
    if cmds == [] then []
    else
      var init, last := cmds[..|cmds| - 1], cmds[|cmds| - 1];
      var first := FIRST_CHAIN_STATE + Total(init);
      CommandRows(init, sym) + Chain(last, first, sym) + [Closing(last, first)]
  }

  function Automaton(cmds: seq<seq<string>>, sym: map<string, int>): seq<Row>
    requires AllLabelled(cmds, sym)
  {
    Header() + CommandRows(cmds, sym)
  }

  // ----- the language of an automaton -----

  ghost predicate Path(rows: seq<Row>, s: int, labels: seq<int>, t: int)
    decreases |labels|
  {
    if labels == [] then s == t
    else exists r :: r in rows && r.from == s && r.sym == labels[0] && Path(rows, r.to, labels[1..], t)
  }

  function Reverse<T>(s: seq<T>): (r: seq<T>)
    ensures |r| == |s| && forall i :: 0 <= i < |s| ==> r[i] == s[|s| - 1 - i]
  {
    if s == [] then [] else Reverse(s[1..]) + [s[0]]
  }

  predicate IsCallLabel(y: int) {
    y == GARBAGE_CALL_LABEL || y == CALL_LABEL
  }

  predicate IsGarbageSentence(labels: seq<int>) {
    && |labels| == 4 && labels[0] == END_LABEL
    && (labels[1] == GARBAGE_LABEL || labels[1] == COMMAND_LABEL)
    && IsCallLabel(labels[2]) && labels[3] == START_LABEL
  }

  /** The labels of a command, right to left, between the end mark, the call and the start mark. */
  predicate IsCommandSentence(words: seq<string>, sym: map<string, int>, labels: seq<int>)
    requires Labelled(words, sym)
  {
    && |labels| == |words| + 3 && labels[0] == END_LABEL
    && labels[1..|words| + 1] == Reverse(LabelsOf(words, sym))
    && IsCallLabel(labels[|words| + 1]) && labels[|words| + 2] == START_LABEL
  }

  // ----- where the rows of a compiled automaton are -----

  lemma {:induction false} TotalStep(cmds: seq<seq<string>>, i: nat)
    requires i < |cmds|
    ensures FirstState(cmds, i + 1) == FirstState(cmds, i) + |cmds[i]|
    ensures FirstState(cmds, i) >= FIRST_CHAIN_STATE
  {
    assert cmds[..i + 1][..i] == cmds[..i];
  }

  lemma {:induction false} TotalMonotone(cmds: seq<seq<string>>, i: nat, k: nat)
    requires i <= k <= |cmds|
    ensures FirstState(cmds, i) <= FirstState(cmds, k)
    decreases k - i
  {
    if i < k {
      TotalStep(cmds, k - 1);
      TotalMonotone(cmds, i, k - 1);
    }
  }

  /** Every row written for the commands leaves the end state or a chain state of some command;
      chain state j of command i has one outgoing row, the one for word j. */
  lemma {:induction false} RowsOfCommands(cmds: seq<seq<string>>, sym: map<string, int>)
    requires AllLabelled(cmds, sym)
    ensures forall r :: r in CommandRows(cmds, sym) ==>
              (r.from == END_STATE && r.sym == END_LABEL)
              || FIRST_CHAIN_STATE <= r.from < FIRST_CHAIN_STATE + Total(cmds)
    decreases |cmds|
  {
    if cmds != [] {
      RowsOfCommands(cmds[..|cmds| - 1], sym);
    }
  }

  /** Chain state j of command i has an outgoing row, for word j of the command. */
  lemma {:induction false} ChainRowPresent(cmds: seq<seq<string>>, sym: map<string, int>, i: nat, j: nat)
    requires AllLabelled(cmds, sym) && i < |cmds| && j < |cmds[i]|
    ensures cmds[i] in cmds && cmds[i][j] in cmds[i]
    ensures ChainRow(cmds[i], FirstState(cmds, i), sym, j) in CommandRows(cmds, sym)
    decreases |cmds|
  {
    assert cmds[i] in cmds && cmds[i][j] in cmds[i];
    var n := |cmds| - 1;
    if i == n {
      assert Chain(cmds[n], FirstState(cmds, n), sym)[j] == ChainRow(cmds[i], FirstState(cmds, i), sym, j);
    } else {
      assert cmds[..n][i] == cmds[i] && cmds[..n][..i] == cmds[..i];
      ChainRowPresent(cmds[..n], sym, i, j);
    }
  }

  /** It has no other. */
  lemma {:induction false} ChainRowUnique(cmds: seq<seq<string>>, sym: map<string, int>, i: nat, j: nat, r: Row)
    requires AllLabelled(cmds, sym) && i < |cmds| && j < |cmds[i]|
    requires r in CommandRows(cmds, sym) && r.from == FirstState(cmds, i) + j
    ensures cmds[i] in cmds && cmds[i][j] in cmds[i]
    ensures r == ChainRow(cmds[i], FirstState(cmds, i), sym, j)
    decreases |cmds|
  {
    assert cmds[i] in cmds && cmds[i][j] in cmds[i];
    var n := |cmds| - 1;
    TotalStep(cmds, i);
    if i < n {
      TotalMonotone(cmds, i + 1, n);
      assert cmds[..n][i] == cmds[i] && cmds[..n][..i] == cmds[..i];
      ChainRowUnique(cmds[..n], sym, i, j, r);
    } else {
      RowsOfCommands(cmds[..n], sym);
    }
  }

  /** No two words, of one command or of two, own the same chain state. */
  lemma ChainStatesDistinct(cmds: seq<seq<string>>, i: nat, j: nat, i': nat, j': nat)
    requires i < |cmds| && j < |cmds[i]| && i' < |cmds| && j' < |cmds[i']|
    requires FirstState(cmds, i) + j == FirstState(cmds, i') + j'
    ensures i == i' && j == j'
  {
    TotalStep(cmds, i);
    TotalStep(cmds, i');
    if i < i' {
      TotalMonotone(cmds, i + 1, i');
    } else if i' < i {
      TotalMonotone(cmds, i' + 1, i);
    }
  }

  lemma {:induction false} ClosingRowPresent(cmds: seq<seq<string>>, sym: map<string, int>, i: nat)
    requires AllLabelled(cmds, sym) && i < |cmds|
    ensures Closing(cmds[i], FirstState(cmds, i)) in CommandRows(cmds, sym)
    decreases |cmds|
  {
    var n := |cmds| - 1;
    if i < n {
      assert cmds[..n][i] == cmds[i] && cmds[..n][..i] == cmds[..i];
      ClosingRowPresent(cmds[..n], sym, i);
    }
  }

  lemma {:induction false} ClosingRowOrigin(cmds: seq<seq<string>>, sym: map<string, int>, r: Row)
    returns (i: nat)
    requires AllLabelled(cmds, sym) && r in CommandRows(cmds, sym) && r.from == END_STATE
    ensures i < |cmds| && r == Closing(cmds[i], FirstState(cmds, i))
    decreases |cmds|
  {
    var n := |cmds| - 1;
    var init, last := cmds[..n], cmds[n];
    if r in CommandRows(init, sym) {
      i := ClosingRowOrigin(init, sym, r);
      assert init[i] == cmds[i] && init[..i] == cmds[..i];
    } else {
      i := n;
    }
  }

  // ----- the language theorem -----

  /** Nothing but the empty string leads from the final state to itself: its one row leaves the
      automaton. */
  lemma PathFromFinal(cmds: seq<seq<string>>, sym: map<string, int>, labels: seq<int>)
    requires AllLabelled(cmds, sym)
    ensures Path(Automaton(cmds, sym), FINAL_STATE, labels, FINAL_STATE) <==> labels == []
  {
    var rows := Automaton(cmds, sym);
    RowsOfCommands(cmds, sym);
    assert forall r :: r in rows && r.from == FINAL_STATE ==> r.to == -1;
    assert forall r :: r in rows ==> r.from != -1;
    if labels != [] {
      assert !Path(rows, -1, labels[1..], FINAL_STATE);
    }
  }

  lemma PathFromStart(cmds: seq<seq<string>>, sym: map<string, int>, labels: seq<int>)
    requires AllLabelled(cmds, sym)
    ensures Path(Automaton(cmds, sym), START_STATE, labels, FINAL_STATE) <==> labels == [START_LABEL]
  {
    var rows := Automaton(cmds, sym);
    var row := Row(START_STATE, START_LABEL, FINAL_STATE, 1, 1);
    RowsOfCommands(cmds, sym);
    assert row == rows[1];
    if labels != [] {
      OnlyRow(rows, row, labels);
      PathFromFinal(cmds, sym, labels[1..]);
    }
  }

  /** From the call state only the call word and the start mark remain. */
  lemma PathFromCall(cmds: seq<seq<string>>, sym: map<string, int>, labels: seq<int>)
    requires AllLabelled(cmds, sym)
    ensures Path(Automaton(cmds, sym), CALL_STATE, labels, FINAL_STATE) <==>
            |labels| == 2 && IsCallLabel(labels[0]) && labels[1] == START_LABEL
  {
    hide CommandRows, Total;
    var rows := Automaton(cmds, sym);
    RowsOfCommands(cmds, sym);
    assert rows[5] == Row(CALL_STATE, GARBAGE_CALL_LABEL, START_STATE, 0, 0);
    assert rows[6] == Row(CALL_STATE, CALL_LABEL, START_STATE, 0, 0);
    if labels != [] {
      PathFromStart(cmds, sym, labels[1..]);
      assert Path(rows, CALL_STATE, labels, FINAL_STATE) <==>
             IsCallLabel(labels[0]) && Path(rows, START_STATE, labels[1..], FINAL_STATE);
    }
  }

  /** The labels of words j-1, ..., 0, a call word and the start mark. */
  predicate IsRest(word: seq<int>, j: nat, labels: seq<int>)
    requires j <= |word|
  {
    && |labels| == j + 2
    && (forall k :: 0 <= k < j ==> labels[k] == word[j - 1 - k])
    && IsCallLabel(labels[j]) && labels[j + 1] == START_LABEL
  }

  lemma RestStep(word: seq<int>, j: nat, labels: seq<int>)
    requires 0 < j <= |word| && labels != []
    ensures IsRest(word, j, labels) <==> labels[0] == word[j - 1] && IsRest(word, j - 1, labels[1..])
  {
    var tail := labels[1..];
    if labels[0] == word[j - 1] && IsRest(word, j - 1, tail) {
      forall k | 0 <= k < j ensures labels[k] == word[j - 1 - k] {
        assert k > 0 ==> labels[k] == tail[k - 1];
      }
      assert labels[j] == tail[j - 1] && labels[j + 1] == tail[j];
    }
  }

  /** From the state before word `j` of command `i` exactly the words j-1, ..., 0 remain. */
  lemma {:induction false} PathFromChain(cmds: seq<seq<string>>, sym: map<string, int>, i: nat, j: nat,
                                         labels: seq<int>)
    requires AllLabelled(cmds, sym) && i < |cmds| && j <= |cmds[i]|
    ensures cmds[i] in cmds
    ensures Path(Automaton(cmds, sym), Before(FirstState(cmds, i), j), labels, FINAL_STATE) <==>
            IsRest(LabelsOf(cmds[i], sym), j, labels)
    decreases j
  {
    assert cmds[i] in cmds;
    if j == 0 {
      PathFromCall(cmds, sym, labels);
    } else {
      var rows := Automaton(cmds, sym);
      TotalStep(cmds, i);
      ChainRowPresent(cmds, sym, i, j - 1);
      var row := ChainRow(cmds[i], FirstState(cmds, i), sym, j - 1);
      forall r | r in rows && r.from == row.from ensures r == row {
        ChainRowUnique(cmds, sym, i, j - 1, r);
      }
      if labels != [] {
        OnlyRow(rows, row, labels);
        PathFromChain(cmds, sym, i, j - 1, labels[1..]);
        RestStep(LabelsOf(cmds[i], sym), j, labels);
      }
    }
  }

  lemma OnlyRow(rows: seq<Row>, row: Row, labels: seq<int>)
    requires row in rows && labels != []
    requires forall r :: r in rows && r.from == row.from ==> r == row
    ensures Path(rows, row.from, labels, FINAL_STATE) <==>
            labels[0] == row.sym && Path(rows, row.to, labels[1..], FINAL_STATE)
  {
  }

  /** The label strings from the end state to the final state are the two garbage sentences
      for each call word and, for each command, its words read backwards. */
  lemma AutomatonLanguage(cmds: seq<seq<string>>, sym: map<string, int>, labels: seq<int>)
    requires AllLabelled(cmds, sym)
    ensures Path(Automaton(cmds, sym), END_STATE, labels, FINAL_STATE) <==>
            || IsGarbageSentence(labels)
            || exists i :: 0 <= i < |cmds| && IsCommandSentence(cmds[i], sym, labels)
  {
    var rows := Automaton(cmds, sym);
    if Path(rows, END_STATE, labels, FINAL_STATE) {
      var r :| r in rows && r.from == END_STATE && r.sym == labels[0]
               && Path(rows, r.to, labels[1..], FINAL_STATE);
      if r in Header() {
        GarbagePath(cmds, sym, labels[1..]);
      } else {
        var i := ClosingRowOrigin(cmds, sym, r);
        CommandPath(cmds, sym, i, labels);
      }
    }
    if IsGarbageSentence(labels) {
      GarbagePath(cmds, sym, labels[1..]);
      assert rows[0] == Row(END_STATE, END_LABEL, COMMAND_STATE, 0, 1);
    }
    forall i | 0 <= i < |cmds| && IsCommandSentence(cmds[i], sym, labels)
      ensures Path(rows, END_STATE, labels, FINAL_STATE)
    {
      CommandPath(cmds, sym, i, labels);
      ClosingRowPresent(cmds, sym, i);
      assert Closing(cmds[i], FirstState(cmds, i)) in rows;
    }
  }

  lemma GarbagePath(cmds: seq<seq<string>>, sym: map<string, int>, labels: seq<int>)
    requires AllLabelled(cmds, sym)
    ensures Path(Automaton(cmds, sym), COMMAND_STATE, labels, FINAL_STATE) <==>
            IsGarbageSentence([END_LABEL] + labels)
  {
    var rows := Automaton(cmds, sym);
    RowsOfCommands(cmds, sym);
    assert rows[3] == Row(COMMAND_STATE, GARBAGE_LABEL, CALL_STATE, 0, 0);
    assert rows[4] == Row(COMMAND_STATE, COMMAND_LABEL, CALL_STATE, 0, 0);
    if labels != [] {
      PathFromCall(cmds, sym, labels[1..]);
      assert Path(rows, COMMAND_STATE, labels, FINAL_STATE) <==>
             (labels[0] == GARBAGE_LABEL || labels[0] == COMMAND_LABEL)
             && Path(rows, CALL_STATE, labels[1..], FINAL_STATE);
    }
  }

  lemma CommandPath(cmds: seq<seq<string>>, sym: map<string, int>, i: nat, labels: seq<int>)
    requires AllLabelled(cmds, sym) && i < |cmds|
    ensures cmds[i] in cmds
    ensures IsCommandSentence(cmds[i], sym, labels) <==>
            && |labels| > 0 && labels[0] == END_LABEL
            && Path(Automaton(cmds, sym), Before(FirstState(cmds, i), |cmds[i]|), labels[1..], FINAL_STATE)
  {
    hide Path, Automaton, Total, FirstState;
    assert cmds[i] in cmds;
    var n := |cmds[i]|;
    if labels != [] {
      PathFromChain(cmds, sym, i, n, labels[1..]);
      if |labels| == n + 3 {
        var spoken, back := labels[1..n + 1], Reverse(LabelsOf(cmds[i], sym));
        assert forall k :: 0 <= k < n ==> spoken[k] == labels[1..][k];
        if IsRest(LabelsOf(cmds[i], sym), n, labels[1..]) {
          assert spoken == back;
        }
      }
    }
  }

  // ----- the flag columns -----

  /** Exactly the edges out of the first state carry the flag of the end, and those that touch the
      start and the final state the flag of the start. */
  ghost predicate Flagged(rows: seq<Row>) {
    forall row :: row in rows ==>
      && row.endFlag == (if row.from == END_STATE || row.from == START_STATE then 1 else 0)
      && row.startFlag == (if row.from == START_STATE || row.from == FINAL_STATE then 1 else 0)
  }

  lemma {:induction false} CommandRowsFlagged(cmds: seq<seq<string>>, sym: map<string, int>)
    requires AllLabelled(cmds, sym)
    ensures Flagged(CommandRows(cmds, sym))
    decreases |cmds|
  {
    if cmds != [] {
      CommandRowsFlagged(cmds[..|cmds| - 1], sym);
    }
  }

  lemma AutomatonFlags(cmds: seq<seq<string>>, sym: map<string, int>)
    requires AllLabelled(cmds, sym)
    ensures Flagged(Automaton(cmds, sym))
  {
    hide CommandRows;
    CommandRowsFlagged(cmds, sym);
  }
}
