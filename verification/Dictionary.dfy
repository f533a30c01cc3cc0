/** The word dictionary that goes with the automaton, and the utterances both accept together. */
module Dictionary {
  import opened Text
  import opened Grammar

  const END_WORD := Word(END_LABEL, "</s>", " sil")
  const START_WORD := Word(START_LABEL, "<s>", " sil")

  function GarbageWord(g: string): Word { Word(GARBAGE_LABEL, "gomi", g) }
  function CallWord(y: string): Word { Word(CALL_LABEL, y, y) }
  function CommandWord(w: string, sym: int): Word { Word(sym, w, w) }

  function GarbageWords(gomi: seq<string>): seq<Word> {
    if gomi == [] then [] else GarbageWords(gomi[..|gomi| - 1]) + [GarbageWord(gomi[|gomi| - 1])]
  }

  function CallWords(calls: seq<string>): seq<Word> {
    if calls == [] then [] else CallWords(calls[..|calls| - 1]) + [CallWord(calls[|calls| - 1])]
  }

  lemma {:induction false} GarbageWordsAre(gomi: seq<string>, w: Word)
    ensures w in GarbageWords(gomi) <==> w.phones in gomi && w == GarbageWord(w.phones)
    decreases |gomi|
  {
    if gomi != [] {
      GarbageWordsAre(gomi[..|gomi| - 1], w);
      assert gomi == gomi[..|gomi| - 1] + [gomi[|gomi| - 1]];
    }
  }

  lemma {:induction false} CallWordsAre(calls: seq<string>, w: Word)
    ensures w in CallWords(calls) <==> w.output in calls && w == CallWord(w.output)
    decreases |calls|
  {
    if calls != [] {
      CallWordsAre(calls[..|calls| - 1], w);
      assert calls == calls[..|calls| - 1] + [calls[|calls| - 1]];
    }
  }

  function CommandWords(words: seq<string>, sym: map<string, int>): (r: seq<Word>)
    requires Labelled(words, sym)
    ensures |r| == |words| && forall j :: 0 <= j < |r| ==> r[j] == CommandWord(words[j], sym[words[j]])
  {
    seq(|words|, j requires 0 <= j < |words| => CommandWord(words[j], sym[words[j]]))
  }

  function BaseWords(gomi: seq<string>, calls: seq<string>): seq<Word> {
    [END_WORD, START_WORD] + GarbageWords(gomi) + CallWords(calls)
  }

  /** `rows` lists each word of `sym` once, numbered upwards from the first free label. */
  predicate IsWordTable(rows: seq<Word>, sym: map<string, int>) {
    && (forall n :: 0 <= n < |rows| ==>
          && rows[n].output in sym && sym[rows[n].output] == FIRST_WORD_LABEL + n
          && rows[n] == CommandWord(rows[n].output, FIRST_WORD_LABEL + n))
    && (forall w :: w in sym ==>
          && FIRST_WORD_LABEL <= sym[w] < FIRST_WORD_LABEL + |rows|
          && rows[sym[w] - FIRST_WORD_LABEL].output == w)
  }

  ghost predicate IsDictionary(dict: seq<Word>, gomi: seq<string>, calls: seq<string>, sym: map<string, int>) {
    exists rows :: IsWordTable(rows, sym) && dict == BaseWords(gomi, calls) + rows
  }

  /** Words get distinct labels, none of them one of the six reserved labels. */
  lemma LabelsAreFresh(rows: seq<Word>, sym: map<string, int>, v: string, w: string)
    requires IsWordTable(rows, sym) && v in sym && w in sym
    ensures sym[v] == sym[w] ==> v == w
    ensures sym[w] !in {END_LABEL, START_LABEL, GARBAGE_CALL_LABEL, GARBAGE_LABEL, CALL_LABEL, COMMAND_LABEL}
  {
  }

  /** What the dictionary holds, label by label: nothing at all for two of the labels. */
  lemma WordsByLabel(dict: seq<Word>, gomi: seq<string>, calls: seq<string>, sym: map<string, int>, w: Word)
    requires IsDictionary(dict, gomi, calls, sym)
    ensures w in dict <==>
            || w == END_WORD
            || w == START_WORD
            || (w.sym == GARBAGE_LABEL && w.phones in gomi && w == GarbageWord(w.phones))
            || (w.sym == CALL_LABEL && w.output in calls && w == CallWord(w.output))
            || (w.output in sym && w.sym >= FIRST_WORD_LABEL && w == CommandWord(w.output, sym[w.output]))
    ensures w in dict ==> w.sym != GARBAGE_CALL_LABEL && w.sym != COMMAND_LABEL
  {
    var rows :| IsWordTable(rows, sym) && dict == BaseWords(gomi, calls) + rows;
    var g, c := GarbageWords(gomi), CallWords(calls);
    assert dict == [END_WORD, START_WORD] + g + c + rows;
    if w.output in sym && w == CommandWord(w.output, sym[w.output]) {
      assert rows[sym[w.output] - FIRST_WORD_LABEL] == w;
      assert w in rows;
    }
    GarbageWordsAre(gomi, w);
    CallWordsAre(calls, w);
    assert [END_WORD, START_WORD][0] == END_WORD && [END_WORD, START_WORD][1] == START_WORD;
  }

  // ----- utterances -----

  function Syms(s: seq<Word>): (r: seq<int>)
    ensures |r| == |s| && forall i :: 0 <= i < |r| ==> r[i] == s[i].sym
  {
    seq(|s|, i requires 0 <= i < |s| => s[i].sym)
  }

  /** An utterance in spoken order: dictionary words whose labels, last word first, lead the
      automaton from its end state to its final state. */
  ghost predicate Recognised(dfa: seq<Row>, dict: seq<Word>, s: seq<Word>) {
    (forall w :: w in s ==> w in dict) && Path(dfa, END_STATE, Reverse(Syms(s)), FINAL_STATE)
  }

  function GarbageUtterance(y: string, g: string): seq<Word> {
    [START_WORD, CallWord(y), GarbageWord(g), END_WORD]
  }

  function CommandUtterance(y: string, words: seq<string>, sym: map<string, int>): seq<Word>
    requires Labelled(words, sym)
  {
    [START_WORD, CallWord(y)] + CommandWords(words, sym) + [END_WORD]
  }

  lemma RecognisedGarbage(dict: seq<Word>, gomi: seq<string>, calls: seq<string>, cmds: seq<seq<string>>,
                          sym: map<string, int>, y: string, g: string)
    requires AllLabelled(cmds, sym) && IsDictionary(dict, gomi, calls, sym)
    requires y in calls && g in gomi
    ensures Recognised(Automaton(cmds, sym), dict, GarbageUtterance(y, g))
  {
    var s := GarbageUtterance(y, g);
    forall w | w in s ensures w in dict {
      WordsByLabel(dict, gomi, calls, sym, w);
    }
    AutomatonLanguage(cmds, sym, Reverse(Syms(s)));
  }

  lemma LabelsOfUtterance(y: string, words: seq<string>, sym: map<string, int>)
    requires Labelled(words, sym)
    ensures IsCommandSentence(words, sym, Reverse(Syms(CommandUtterance(y, words, sym))))
  {
    var s := CommandUtterance(y, words, sym);
    var back, n := Reverse(Syms(s)), |words|;
    var inner, expected := back[1..n + 1], Reverse(LabelsOf(words, sym));
    forall k | 0 <= k < n ensures inner[k] == expected[k] {
      assert inner[k] == s[n + 1 - k].sym;
      assert s[n + 1 - k] == CommandWords(words, sym)[n - 1 - k];
    }
    assert inner == expected;
  }

  lemma RecognisedCommand(dict: seq<Word>, gomi: seq<string>, calls: seq<string>, cmds: seq<seq<string>>,
                          sym: map<string, int>, y: string, i: nat)
    requires AllLabelled(cmds, sym) && IsDictionary(dict, gomi, calls, sym)
    requires y in calls && i < |cmds|
    ensures cmds[i] in cmds
    ensures Recognised(Automaton(cmds, sym), dict, CommandUtterance(y, cmds[i], sym))
  {
    assert cmds[i] in cmds;
    var s := CommandUtterance(y, cmds[i], sym);
    forall w | w in s ensures w in dict {
      WordsByLabel(dict, gomi, calls, sym, w);
    }
    LabelsOfUtterance(y, cmds[i], sym);
    AutomatonLanguage(cmds, sym, Reverse(Syms(s)));
  }

  lemma GarbageOfRecognised(dict: seq<Word>, gomi: seq<string>, calls: seq<string>, sym: map<string, int>,
                            s: seq<Word>)
    requires IsDictionary(dict, gomi, calls, sym)
    requires forall w :: w in s ==> w in dict
    requires IsGarbageSentence(Reverse(Syms(s)))
    ensures |s| == 4 && s[1].output in calls && s[2].phones in gomi
    ensures s == GarbageUtterance(s[1].output, s[2].phones)
  {
    var back := Reverse(Syms(s));
    forall k | 0 <= k < 4 ensures s[k] in dict && s[k].sym == back[3 - k] {
    }
    forall k | 0 <= k < 4 {
      WordsByLabel(dict, gomi, calls, sym, s[k]);
    }
    var u := GarbageUtterance(s[1].output, s[2].phones);
    assert forall k :: 0 <= k < 4 ==> s[k] == u[k];
  }

  /** The dictionary word for a command word's label is that command word. */
  lemma WordOfLabel(dict: seq<Word>, gomi: seq<string>, calls: seq<string>, sym: map<string, int>, w: Word, v: string)
    requires IsDictionary(dict, gomi, calls, sym) && w in dict && v in sym && w.sym == sym[v]
    ensures w == CommandWord(v, sym[v])
  {
    var rows :| IsWordTable(rows, sym) && dict == BaseWords(gomi, calls) + rows;
    WordsByLabel(dict, gomi, calls, sym, w);
    LabelsAreFresh(rows, sym, v, v);
    if w.output in sym {
      LabelsAreFresh(rows, sym, v, w.output);
    }
  }

  lemma CommandOfRecognised(dict: seq<Word>, gomi: seq<string>, calls: seq<string>, words: seq<string>,
                            sym: map<string, int>, s: seq<Word>)
    requires Labelled(words, sym) && IsDictionary(dict, gomi, calls, sym)
    requires forall w :: w in s ==> w in dict
    requires IsCommandSentence(words, sym, Reverse(Syms(s)))
    ensures |s| == |words| + 3 && s[1].output in calls && s == CommandUtterance(s[1].output, words, sym)
  {
    hide IsDictionary;
    var back, n := Reverse(Syms(s)), |words|;
    assert s[0].sym == back[n + 2] && s[1].sym == back[n + 1] && s[n + 2].sym == back[0];
    assert s[0] in dict && s[1] in dict && s[n + 2] in dict;
    WordsByLabel(dict, gomi, calls, sym, s[0]);
    WordsByLabel(dict, gomi, calls, sym, s[1]);
    WordsByLabel(dict, gomi, calls, sym, s[n + 2]);
    var middle, expected := s[2..n + 2], CommandWords(words, sym);
    forall j | 0 <= j < n ensures middle[j] == expected[j] {
      assert s[2 + j].sym == back[1..n + 1][n - 1 - j] == sym[words[j]];
      assert s[2 + j] in dict && words[j] in words;
      WordOfLabel(dict, gomi, calls, sym, s[2 + j], words[j]);
    }
    assert middle == expected;
    assert s == [s[0], s[1]] + middle + [s[n + 2]];
  }

  /** The compiled grammar accepts exactly: a call and a garbage word, or a call and the words of
      one command in order, between the start and end marks. */
  lemma UtteranceLanguage(dict: seq<Word>, gomi: seq<string>, calls: seq<string>, cmds: seq<seq<string>>,
                          sym: map<string, int>, s: seq<Word>)
    requires AllLabelled(cmds, sym) && IsDictionary(dict, gomi, calls, sym)
    ensures Recognised(Automaton(cmds, sym), dict, s) <==>
            || (exists y, g :: y in calls && g in gomi && s == GarbageUtterance(y, g))
            || (exists y, i :: y in calls && 0 <= i < |cmds| && s == CommandUtterance(y, cmds[i], sym))
  {
    if Recognised(Automaton(cmds, sym), dict, s) {
      var back := Reverse(Syms(s));
      AutomatonLanguage(cmds, sym, back);
      if IsGarbageSentence(back) {
        GarbageOfRecognised(dict, gomi, calls, sym, s);
      } else {
        var i :| 0 <= i < |cmds| && IsCommandSentence(cmds[i], sym, back);
        CommandOfRecognised(dict, gomi, calls, cmds[i], sym, s);
        assert s == CommandUtterance(s[1].output, cmds[i], sym);
      }
    }
    forall y, g | y in calls && g in gomi && s == GarbageUtterance(y, g) {
      RecognisedGarbage(dict, gomi, calls, cmds, sym, y, g);
    }
    forall y, i: nat | y in calls && i < |cmds| && s == CommandUtterance(y, cmds[i], sym) {
      RecognisedCommand(dict, gomi, calls, cmds, sym, y, i);
    }
  }

  // ----- the language without labels -----

  datatype Spoken = Spoken(output: string, phones: string)

  function Texts(s: seq<Word>): (r: seq<Spoken>)
    ensures |r| == |s| && forall i :: 0 <= i < |r| ==> r[i] == Spoken(s[i].output, s[i].phones)
  {
    seq(|s|, i requires 0 <= i < |s| => Spoken(s[i].output, s[i].phones))
  }

  function GarbageText(y: string, g: string): seq<Spoken> {
    [Spoken("<s>", " sil"), Spoken(y, y), Spoken("gomi", g), Spoken("</s>", " sil")]
  }

  function CommandText(y: string, words: seq<string>): seq<Spoken> {
    [Spoken("<s>", " sil"), Spoken(y, y)] + seq(|words|, j requires 0 <= j < |words| => Spoken(words[j], words[j]))
    + [Spoken("</s>", " sil")]
  }

  lemma TextOfCommand(y: string, words: seq<string>, sym: map<string, int>)
    requires Labelled(words, sym)
    ensures Texts(CommandUtterance(y, words, sym)) == CommandText(y, words)
  {
    var a, b := Texts(CommandUtterance(y, words, sym)), CommandText(y, words);
    assert forall k :: 2 <= k < |words| + 2 ==> a[k] == Spoken(words[k - 2], words[k - 2]) == b[k];
  }

  /** The texts a speaker can be recognised to say: a call and then a garbage word or a command. */
  ghost predicate CanBeSaid(gomi: seq<string>, calls: seq<string>, cmds: seq<seq<string>>, t: seq<Spoken>) {
    || (exists y, g :: y in calls && g in gomi && t == GarbageText(y, g))
    || (exists y, i :: y in calls && 0 <= i < |cmds| && t == CommandText(y, cmds[i]))
  }

  ghost predicate RecognisesText(dfa: seq<Row>, dict: seq<Word>, t: seq<Spoken>) {
    exists s :: Recognised(dfa, dict, s) && Texts(s) == t
  }

  /** The two files together recognise exactly these texts. */
  ghost predicate Understands(dfa: seq<Row>, dict: seq<Word>, gomi: seq<string>, calls: seq<string>,
                              cmds: seq<seq<string>>) {
    forall t :: RecognisesText(dfa, dict, t) <==> CanBeSaid(gomi, calls, cmds, t)
  }

  /** Which texts can be recognised depends on the garbage list, the calls and the commands only:
      numbering the states and words is invisible. */
  lemma TextLanguage(dict: seq<Word>, gomi: seq<string>, calls: seq<string>, cmds: seq<seq<string>>,
                     sym: map<string, int>, t: seq<Spoken>)
    requires AllLabelled(cmds, sym) && IsDictionary(dict, gomi, calls, sym)
    ensures RecognisesText(Automaton(cmds, sym), dict, t) <==> CanBeSaid(gomi, calls, cmds, t)
  {
    var dfa := Automaton(cmds, sym);
    forall y, g ensures Texts(GarbageUtterance(y, g)) == GarbageText(y, g) {
    }
    forall y, i | 0 <= i < |cmds| ensures Texts(CommandUtterance(y, cmds[i], sym)) == CommandText(y, cmds[i]) {
      TextOfCommand(y, cmds[i], sym);
    }
    forall s | Recognised(dfa, dict, s) && Texts(s) == t
      ensures CanBeSaid(gomi, calls, cmds, t)
    {
      UtteranceLanguage(dict, gomi, calls, cmds, sym, s);
    }
    forall y, g | y in calls && g in gomi && t == GarbageText(y, g)
      ensures RecognisesText(dfa, dict, t)
    {
      RecognisedGarbage(dict, gomi, calls, cmds, sym, y, g);
    }
    forall y, i: nat | y in calls && i < |cmds| && t == CommandText(y, cmds[i])
      ensures RecognisesText(dfa, dict, t)
    {
      RecognisedCommand(dict, gomi, calls, cmds, sym, y, i);
    }
  }

  lemma CompiledUnderstands(dict: seq<Word>, gomi: seq<string>, calls: seq<string>, cmds: seq<seq<string>>,
                            sym: map<string, int>)
    requires AllLabelled(cmds, sym) && IsDictionary(dict, gomi, calls, sym)
    ensures Understands(Automaton(cmds, sym), dict, gomi, calls, cmds)
  {
    forall t ensures RecognisesText(Automaton(cmds, sym), dict, t) <==> CanBeSaid(gomi, calls, cmds, t) {
      TextLanguage(dict, gomi, calls, cmds, sym, t);
    }
  }
}
