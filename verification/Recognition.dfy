/** The speech recogniser of Recognition_JuliusPlusEnglish: compiling the registered commands,
    and turning a recognised utterance back into a command. */
module Recognition {
  import opened Text
  import opened Grammar
  import opened Dictionary

  type Callback = int

  /** A registered command: its reading as phones with " @ " between words, and the reading
      with the spaces taken out. */
  datatype RecongTask = RecongTask(callback: Callback, yomi: string, yomiNoSpace: string)

  datatype Response =
    | CallIsEndMark | CommandIsEndMark | NoFrames | CallIsGarbage | CommandIsGarbage | AudioRejected
    | NoCallback | Fired(callback: Callback)

  // ----- compiling -----

  function Commands(tasks: seq<RecongTask>): (r: seq<seq<string>>)
    ensures |r| == |tasks| && forall i :: 0 <= i < |r| ==> r[i] == Split(SEPARATOR, tasks[i].yomi)
  {
    seq(|tasks|, i requires 0 <= i < |tasks| => Split(SEPARATOR, tasks[i].yomi))
  }

  /** The readings listed in the garbage file: its non-blank lines, trimmed. */
  function GarbageReadings(lines: seq<string>): seq<string> {
    if lines == [] then []
    else
      var last := Chop(lines[|lines| - 1]);
      GarbageReadings(lines[..|lines| - 1]) + if last == "" then [] else [last]
  }

  /** The readings are the non-blank texts that lines consist of, blanks around them apart. */
  lemma {:induction false} GarbageReadingsAre(lines: seq<string>, g: string)
    ensures g in GarbageReadings(lines) <==> g != "" && exists line :: line in lines && Chop(line) == g
    decreases |lines|
  {
    hide Chop;
    if lines != [] {
      var init, last := lines[..|lines| - 1], lines[|lines| - 1];
      GarbageReadingsAre(init, g);
      assert lines == init + [last];
      assert last in lines;
    }
  }

  lemma GarbageStep(lines: seq<string>, i: nat)
    requires i < |lines|
    ensures var y := Chop(lines[i]);
            GarbageWords(GarbageReadings(lines[..i + 1])) ==
            GarbageWords(GarbageReadings(lines[..i])) + if y == "" then [] else [GarbageWord(y)]
  {
    assert lines[..i + 1][..i] == lines[..i];
    var before, y := GarbageReadings(lines[..i]), Chop(lines[i]);
    if y != "" {
      assert GarbageReadings(lines[..i + 1]) == before + [y];
      assert (before + [y])[..|before|] == before;
    } else {
      assert GarbageReadings(lines[..i + 1]) == before;
    }
  }

  lemma CallStep(calls: seq<string>, i: nat)
    requires i < |calls|
    ensures CallWords(calls[..i + 1]) == CallWords(calls[..i]) + [CallWord(calls[i])]
  {
    assert calls[..i + 1][..i] == calls[..i];
  }

  lemma {:induction false} GrowLabels(cmds: seq<seq<string>>, a: map<string, int>, b: map<string, int>)
    requires AllLabelled(cmds, a)
    requires Extends(a, b)
    ensures AllLabelled(cmds, b) && CommandRows(cmds, b) == CommandRows(cmds, a)
    decreases |cmds|
  {
    if cmds != [] {
      var n := |cmds| - 1;
      GrowLabels(cmds[..n], a, b);
      var first := FIRST_CHAIN_STATE + Total(cmds[..n]);
      assert Labelled(cmds[n], b) by {
        assert Labelled(cmds[n], a);
      }
      assert Chain(cmds[n], first, b) == Chain(cmds[n], first, a);
    }
  }

  lemma GrowWordTable(rows: seq<Word>, sym: map<string, int>, w: string, id: int)
    requires IsWordTable(rows, sym) && w !in sym && id == FIRST_WORD_LABEL + |rows|
    ensures IsWordTable(rows + [Word(id, w, w)], sym[w := id])
    ensures Extends(sym, sym[w := id])
  {
  }

  predicate Extends(a: map<string, int>, b: map<string, int>) {
    forall w :: w in a ==> w in b && b[w] == a[w]
  }

  lemma ChainStep(words: seq<string>, first: int, a: map<string, int>, b: map<string, int>, j: nat, row: Row)
    requires j < |words| && Labelled(words[..j], a) && Extends(a, b) && words[j] in b
    requires row == Row(first + j, b[words[j]], Before(first, j), 0, 0)
    ensures Labelled(words[..j + 1], b)
    ensures Chain(words[..j + 1], first, b) == Chain(words[..j], first, a) + [row]
  {
    assert words[..j + 1] == words[..j] + [words[j]];
    var long, short := Chain(words[..j + 1], first, b), Chain(words[..j], first, a);
    forall k | 0 <= k < j ensures long[k] == short[k] {
      assert words[..j][k] in words[..j];
    }
  }

  lemma CommandRowsStep(cmds: seq<seq<string>>, sym: map<string, int>, i: nat)
    requires i < |cmds| && AllLabelled(cmds[..i], sym) && Labelled(cmds[i], sym)
    ensures Total(cmds[..i + 1]) == Total(cmds[..i]) + |cmds[i]|
    ensures AllLabelled(cmds[..i + 1], sym)
    ensures var first := FIRST_CHAIN_STATE + Total(cmds[..i]);
            CommandRows(cmds[..i + 1], sym) ==
            CommandRows(cmds[..i], sym) + Chain(cmds[i], first, sym) + [Closing(cmds[i], first)]
  {
    assert cmds[..i + 1] == cmds[..i] + [cmds[i]];
    assert cmds[..i + 1][..i] == cmds[..i];
  }

  // ----- from a recognised utterance back to a command -----

  /** White space between phones in a dictionary line, as the decoder reads it. */
  const PHONE_BREAKS: set<char> := {' ', '\t', '\n'}

  function RunLength(s: string): (n: nat)
    ensures n <= |s| && forall i :: 0 <= i < n ==> s[i] !in PHONE_BREAKS
    ensures n < |s| ==> s[n] in PHONE_BREAKS
  {
    if s == "" || s[0] in PHONE_BREAKS then 0 else 1 + RunLength(s[1..])
  }

  /** The phones of a dictionary line. */
  function Phones(s: string): seq<string> {
    if s == "" then []
    else if s[0] in PHONE_BREAKS then Phones(s[1..])
    else
      var n := RunLength(s);
      [s[..n]] + Phones(s[n..])
  }

  lemma {:induction false} PhonesText(s: string)
    ensures Flat(Phones(s)) == Without(s, PHONE_BREAKS)
    decreases |s|
  {
    if s != "" {
      if s[0] in PHONE_BREAKS {
        PhonesText(s[1..]);
      } else {
        var n := RunLength(s);
        PhonesText(s[n..]);
        assert s == s[..n] + s[n..];
        WithoutConcat(s[..n], s[n..], PHONE_BREAKS);
        WithoutNothing(s[..n], PHONE_BREAKS);
        assert Phones(s)[1..] == Phones(s[n..]);
      }
    }
  }

  predicate IsMark(w: Word) {
    w.output != "" && w.output[0] == '<'
  }

  /** Does the output text begin with `p`? Beyond its end a C string holds NUL. */
  predicate Begins(w: Word, p: string) {
    |p| <= |w.output| && w.output[..|p|] == p
  }

  /** Number of words before the first mark at or after `i`. */
  function WordsBeforeMark(s: seq<Word>, i: nat): (n: nat)
    requires exists k :: i <= k < |s| && IsMark(s[k])
    ensures i + n < |s| && IsMark(s[i + n]) && forall k :: i <= k < i + n ==> !IsMark(s[k])
    decreases |s| - i
  {
    if IsMark(s[i]) then 0 else 1 + WordsBeforeMark(s, i + 1)
  }

  function Readings(s: seq<Word>): (r: seq<string>)
    ensures |r| == |s| && forall i :: 0 <= i < |r| ==> r[i] == Flat(Phones(s[i].phones))
  {
    seq(|s|, i requires 0 <= i < |s| => Flat(Phones(s[i].phones)))
  }

  /** The readings of the words from `i` up to the next mark, joined by "@". */
  function JoinedReading(s: seq<Word>, i: nat): string
    requires exists k :: i <= k < |s| && IsMark(s[k])
  {
    Join("@", Readings(s[i..i + WordsBeforeMark(s, i)]))
  }

  function Sum(c: seq<real>): real {
    if c == [] then 0.0 else Sum(c[..|c| - 1]) + c[|c| - 1]
  }

  function Mean(c: seq<real>): real {
    if c == [] then 0.0 else Sum(c) / |c| as real
  }

  /** The mean of one value is the value, and the mean of two lists is weighted by their lengths. */
  lemma {:induction false} MeanIsWeighted(x: real, a: seq<real>, b: seq<real>)
    ensures Mean([x]) == x && Mean([]) == 0.0
    ensures Mean(a + b) * |a + b| as real == Mean(a) * |a| as real + Mean(b) * |b| as real
  {
    SumConcat(a, b);
    MeanTimesLength(a);
    MeanTimesLength(b);
    MeanTimesLength(a + b);
    assert [x][..0] == [] && Sum([x]) == x;
  }

  lemma MeanTimesLength(c: seq<real>)
    ensures Mean(c) * |c| as real == Sum(c)
  {
  }

  lemma {:induction false} SumConcat(a: seq<real>, b: seq<real>)
    ensures Sum(a + b) == Sum(a) + Sum(b)
    decreases |b|
  {
    if b == [] {
      assert a + b == a;
    } else {
      assert (a + b)[..|a + b| - 1] == a + b[..|b| - 1];
      SumConcat(a, b[..|b| - 1]);
    }
  }

  /** Index of the first task with this spaceless reading, or the number of tasks. */
  function FirstTask(tasks: seq<RecongTask>, reading: string): (i: nat)
    ensures i <= |tasks|
    ensures i < |tasks| ==> tasks[i].yomiNoSpace == reading
    ensures forall k :: 0 <= k < i ==> tasks[k].yomiNoSpace != reading
  {
    if tasks == [] || tasks[0].yomiNoSpace == reading then 0 else 1 + FirstTask(tasks[1..], reading)
  }

  /** What the recogniser answers to an utterance. */
  function Answer(tasks: seq<RecongTask>, s: seq<Word>, framesFound: bool, audioAccepted: bool): Response
    requires |s| >= 3 && IsMark(s[|s| - 1])
  {
    var i := if Begins(s[0], "<s") then 1 else 0;
    if Begins(s[i], "</") then CallIsEndMark
    else if Begins(s[i + 1], "</") then CommandIsEndMark
    else if !framesFound then NoFrames
    else if Begins(s[i], "gomi") then CallIsGarbage
    else if Begins(s[i + 1], "gomi") then CommandIsGarbage
    else if !audioAccepted then AudioRejected
    else
      var k := FirstTask(tasks, JoinedReading(s, i + 1));
      if k < |tasks| then Fired(tasks[k].callback) else NoCallback
  }

  /** The parts written one after the other are the two files. */
  lemma Assembled(dfa: seq<Row>, dict: seq<Word>, gomi: seq<string>, calls: seq<string>, cmds: seq<seq<string>>,
                  sym: map<string, int>, garbageWords: seq<Word>, callWords: seq<Word>, rows: seq<Row>, words: seq<Word>)
    requires AllLabelled(cmds, sym) && IsWordTable(words, sym)
    requires garbageWords == GarbageWords(gomi) && callWords == CallWords(calls) && rows == CommandRows(cmds, sym)
    requires dfa == Header() + rows && dict == [END_WORD, START_WORD] + garbageWords + callWords + words
    ensures dfa == Automaton(cmds, sym) && IsDictionary(dict, gomi, calls, sym)
    ensures Understands(dfa, dict, gomi, calls, cmds)
  {
    hide Understands, CommandRows, GarbageWords, CallWords, AllLabelled, IsWordTable, Header;
    assert dict == BaseWords(gomi, calls) + words;
    CompiledUnderstands(dict, gomi, calls, cmds, sym);
  }

  class Recogniser {
    /** Readings of the phrases that call the appliance to attention. */
    var yobikakeListArray: seq<string>
    var allCommandRecongTask: seq<RecongTask>

    constructor (calls: seq<string>)
      ensures yobikakeListArray == calls && allCommandRecongTask == []
    {
      yobikakeListArray := calls;
      allCommandRecongTask := [];
    }

    /** The loops that write the automaton and dictionary files. */
    method MakeMicrophoneJuliusRule(tasks: seq<RecongTask>, garbageFile: string)
      returns (dfa: seq<Row>, dict: seq<Word>, dictCache: map<string, int>)
      ensures AllLabelled(Commands(tasks), dictCache)
      ensures dfa == Automaton(Commands(tasks), dictCache)
      ensures IsDictionary(dict, GarbageReadings(Split("\n", garbageFile)), yobikakeListArray, dictCache)
      ensures Understands(dfa, dict, GarbageReadings(Split("\n", garbageFile)), yobikakeListArray, Commands(tasks))
    {
      hide *;
      dfa, dict := WriteFixedPart();
      var garbage, calls := WriteGarbageAndCalls(garbageFile);
      var rows, words;
      rows, words, dictCache := WriteCommands(tasks);
      dfa := dfa + rows;
      dict := dict + garbage + calls + words;
      Assembled(dfa, dict, GarbageReadings(Split("\n", garbageFile)), yobikakeListArray, Commands(tasks), dictCache,
                garbage, calls, rows, words);
    }

    /** The marks, and the states around a call. */
    method WriteFixedPart() returns (dfa: seq<Row>, dict: seq<Word>)
      ensures dfa == Header() && dict == [END_WORD, START_WORD]
    {
      dfa := [Row(END_STATE, END_LABEL, COMMAND_STATE, 0, 1)];
      dict := [Word(END_LABEL, "</s>", " sil")];
      dfa := dfa + [Row(START_STATE, START_LABEL, FINAL_STATE, 1, 1)];
      dict := dict + [Word(START_LABEL, "<s>", " sil")];
      dfa := dfa + [Row(FINAL_STATE, -1, -1, 1, 0)];
      dfa := dfa + [Row(COMMAND_STATE, GARBAGE_LABEL, CALL_STATE, 0, 0)];
      dfa := dfa + [Row(COMMAND_STATE, COMMAND_LABEL, CALL_STATE, 0, 0)];
      dfa := dfa + [Row(CALL_STATE, GARBAGE_CALL_LABEL, START_STATE, 0, 0)];
      dfa := dfa + [Row(CALL_STATE, CALL_LABEL, START_STATE, 0, 0)];
    }

    /** The dictionary lines for the garbage file and for the calls. */
    method WriteGarbageAndCalls(garbageFile: string) returns (garbage: seq<Word>, calls: seq<Word>)
      ensures garbage == GarbageWords(GarbageReadings(Split("\n", garbageFile)))
      ensures calls == CallWords(yobikakeListArray)
    {
      var lines := SplitList("\n", garbageFile);
      garbage := [];
      for i := 0 to |lines|
        invariant garbage == GarbageWords(GarbageReadings(lines[..i]))
      {
        var yomi := Chop(lines[i]);
        GarbageStep(lines, i);
        if yomi != "" {
          garbage := garbage + [GarbageWord(yomi)];
        }
      }
      assert lines[..|lines|] == lines;
      calls := [];
      for i := 0 to |yobikakeListArray|
        invariant calls == CallWords(yobikakeListArray[..i])
      {
        CallStep(yobikakeListArray, i);
        calls := calls + [CallWord(yobikakeListArray[i])];
      }
      assert yobikakeListArray[..|yobikakeListArray|] == yobikakeListArray;
    }

    /** The command part: chain states, shared words, one closing edge per command. */
    method WriteCommands(tasks: seq<RecongTask>)
      returns (dfa: seq<Row>, dict: seq<Word>, dictCache: map<string, int>)
      ensures AllLabelled(Commands(tasks), dictCache)
      ensures dfa == CommandRows(Commands(tasks), dictCache)
      ensures IsWordTable(dict, dictCache)
    {
      dfa, dict, dictCache := [], [], map[];
      var nowRule := COMMAND_STATE + 1;
      var nowDict := COMMAND_LABEL;
      ghost var cmds := Commands(tasks);
      for i := 0 to |tasks|
        invariant AllLabelled(cmds[..i], dictCache) && IsWordTable(dict, dictCache)
        invariant dfa == CommandRows(cmds[..i], dictCache)
        invariant nowRule == FIRST_CHAIN_STATE + Total(cmds[..i]) && nowDict == COMMAND_LABEL + |dict|
      {
        ghost var oldCache, first := dictCache, nowRule;
        var acsp := SplitList(SEPARATOR, tasks[i].yomi);
        var chain, beforeRule;
        chain, dict, dictCache, nowDict, nowRule, beforeRule :=
          WriteChain(acsp, dict, dictCache, nowDict, nowRule);
        GrowLabels(cmds[..i], oldCache, dictCache);
        CommandRowsStep(cmds, dictCache, i);
        dfa := dfa + chain + [Row(END_STATE, END_LABEL, beforeRule, 0, 1)];
      }
      assert cmds[..|tasks|] == cmds;
    }

    /** The inner loop: one edge per word, the words already in the cache sharing their label. */
    method WriteChain(acsp: seq<string>, dict0: seq<Word>, cache0: map<string, int>, nowDict0: int, first: int)
      returns (dfa: seq<Row>, dict: seq<Word>, dictCache: map<string, int>, nowDict: int, nowRule: int, beforeRule: int)
      requires IsWordTable(dict0, cache0) && nowDict0 == COMMAND_LABEL + |dict0|
      ensures IsWordTable(dict, dictCache) && nowDict == COMMAND_LABEL + |dict|
      ensures Extends(cache0, dictCache) && Labelled(acsp, dictCache)
      ensures dfa == Chain(acsp, first, dictCache)
      ensures nowRule == first + |acsp| && beforeRule == Before(first, |acsp|)
    {
      dfa, dict, dictCache, nowDict, nowRule, beforeRule := [], dict0, cache0, nowDict0, first, CALL_STATE;
      for j := 0 to |acsp|
        invariant IsWordTable(dict, dictCache) && nowDict == COMMAND_LABEL + |dict|
        invariant Extends(cache0, dictCache) && Labelled(acsp[..j], dictCache)
        invariant dfa == Chain(acsp[..j], first, dictCache)
        invariant nowRule == first + j && beforeRule == Before(first, j)
      {
        ghost var oldCache := dictCache;
        var useDict;
        useDict, dict, dictCache, nowDict := UseWord(acsp[j], dict, dictCache, nowDict);
        var row := Row(nowRule, useDict, beforeRule, 0, 0);
        ChainStep(acsp, first, oldCache, dictCache, j, row);
        dfa := dfa + [row];
        beforeRule := nowRule;
        nowRule := nowRule + 1;
      }
      assert acsp[..|acsp|] == acsp;
    }

    /** The label of a word: the cached one, or the next free one with a new dictionary line. */
    method UseWord(word: string, dict0: seq<Word>, cache0: map<string, int>, nowDict0: int)
      returns (useDict: int, dict: seq<Word>, dictCache: map<string, int>, nowDict: int)
      requires IsWordTable(dict0, cache0) && nowDict0 == COMMAND_LABEL + |dict0|
      ensures IsWordTable(dict, dictCache) && nowDict == COMMAND_LABEL + |dict|
      ensures Extends(cache0, dictCache) && dictCache.Keys == cache0.Keys + {word} && dictCache[word] == useDict
    {
      dict, dictCache, nowDict := dict0, cache0, nowDict0;
      if word !in dictCache {
        nowDict := nowDict + 1;
        useDict := nowDict;
        GrowWordTable(dict, dictCache, word, useDict);
        dict := dict + [Word(useDict, word, word)];
        dictCache := dictCache[word := useDict];
      } else {
        useDict := dictCache[word];
      }
    }

    /** Registers the commands and compiles them. */
    method CommitRule(tasks: seq<RecongTask>, garbageFile: string)
      returns (dfa: seq<Row>, dict: seq<Word>, dictCache: map<string, int>)
      modifies this`allCommandRecongTask
      ensures allCommandRecongTask == tasks
      ensures AllLabelled(Commands(tasks), dictCache)
      ensures dfa == Automaton(Commands(tasks), dictCache)
      ensures IsDictionary(dict, GarbageReadings(Split("\n", garbageFile)), yobikakeListArray, dictCache)
      ensures Understands(dfa, dict, GarbageReadings(Split("\n", garbageFile)), yobikakeListArray, Commands(tasks))
    {
      allCommandRecongTask := tasks;
      dfa, dict, dictCache := MakeMicrophoneJuliusRule(tasks, garbageFile);
    }

    /** Reading and mean confidence of the words from `seqIndex` up to the next mark. */
    method ConvertJuliusYomiJoin(s: seq<Word>, seqIndex: nat, confidence: seq<real>)
      returns (reading: string, avgConfidence: real)
      requires |confidence| == |s| && exists k :: seqIndex <= k < |s| && IsMark(s[k])
      ensures reading == JoinedReading(s, seqIndex)
      ensures avgConfidence == Mean(confidence[seqIndex..seqIndex + WordsBeforeMark(s, seqIndex)])
    {
      hide AtJoin, Readings, Sum, WordsBeforeMark, Phones, Flat, Join;
      EmptyJoin(s[seqIndex..seqIndex], confidence[seqIndex..seqIndex]);
      var yomi := "";
      var sum, count := 0.0, 0;
      var i := seqIndex;
      ghost var n := WordsBeforeMark(s, seqIndex);
      while !IsMark(s[i])
        invariant seqIndex <= i <= seqIndex + n && count == i - seqIndex
        invariant yomi == AtJoin(Readings(s[seqIndex..i]))
        invariant sum == Sum(confidence[seqIndex..i])
        decreases seqIndex + n - i
      {
        assert i < seqIndex + n;
        AtJoinStep(s, seqIndex, i);
        SumStep(confidence, seqIndex, i);
        sum, count := sum + confidence[i], count + 1;
        var word := PhoneText(s[i]);
        yomi := yomi + "@" + word;
        i := i + 1;
      }
      assert i == seqIndex + n;
      avgConfidence := if count <= 0 then 0.0 else sum / count as real;
      DropFirstAt(Readings(s[seqIndex..i]));
      reading := if yomi == "" then "" else yomi[1..];
    }

    /** Concatenates the centre names of a word's phones. */
    method PhoneText(w: Word) returns (text: string)
      ensures text == Flat(Phones(w.phones))
    {
      var phones := Phones(w.phones);
      text := "";
      for j := 0 to |phones|
        invariant text == Flat(phones[..j])
      {
        FlatSnoc(phones[..j], phones[j]);
        assert phones[..j + 1] == phones[..j] + [phones[j]];
        text := text + phones[j];
      }
      assert phones[..|phones|] == phones;
    }

    /** The first registered task whose spaceless reading is `elecYomi`. */
    method GetCallback(elecYomi: string) returns (found: bool, callback: Callback)
      ensures found <==> exists t :: t in allCommandRecongTask && t.yomiNoSpace == elecYomi
      ensures found ==> callback == allCommandRecongTask[FirstTask(allCommandRecongTask, elecYomi)].callback
    {
      ghost var k := FirstTask(allCommandRecongTask, elecYomi);
      for i := 0 to |allCommandRecongTask|
        invariant i <= k
      {
        if allCommandRecongTask[i].yomiNoSpace == elecYomi {
          return true, allCommandRecongTask[i].callback;
        }
      }
      return false, 0;
    }

    /** The decision taken on the best sentence; `framesFound` says whether the frames of the call
        are known, and `audioAccepted` stands for the length, balance and dictation filters. */
    method OnOutputResult(s: seq<Word>, confidence: seq<real>, framesFound: bool, audioAccepted: bool) returns (r: Response)
      requires |s| >= 3 && IsMark(s[|s| - 1]) && |confidence| == |s|
      ensures r == Answer(allCommandRecongTask, s, framesFound, audioAccepted)
    {
      var seqIndex := 0;
      if Begins(s[0], "<s") {
        seqIndex := seqIndex + 1;
      }
      if Begins(s[seqIndex], "</") {
        return CallIsEndMark;
      }
      if Begins(s[seqIndex + 1], "</") {
        return CommandIsEndMark;
      }
      var elecYomi, avg := ConvertJuliusYomiJoin(s, seqIndex + 1, confidence);
      if !framesFound {
        return NoFrames;
      }
      if Begins(s[seqIndex], "gomi") {
        return CallIsGarbage;
      }
      if Begins(s[seqIndex + 1], "gomi") {
        return CommandIsGarbage;
      }
      if !audioAccepted {
        return AudioRejected;
      }
      var found, callback := GetCallback(elecYomi);
      r := if found then Fired(callback) else NoCallback;
    }
  }

  /** Each part preceded by "@": what the joining loop builds before it drops the first one. */
  function AtJoin(parts: seq<string>): string {
    if parts == [] then "" else AtJoin(parts[..|parts| - 1]) + "@" + parts[|parts| - 1]
  }

  lemma EmptyJoin(s: seq<Word>, c: seq<real>)
    requires s == [] && c == []
    ensures AtJoin(Readings(s)) == "" && Sum(c) == 0.0
  {
  }

  lemma AtJoinStep(s: seq<Word>, from: nat, i: nat)
    requires from <= i < |s|
    ensures AtJoin(Readings(s[from..i + 1])) == AtJoin(Readings(s[from..i])) + "@" + Flat(Phones(s[i].phones))
  {
    assert Readings(s[from..i + 1])[..i - from] == Readings(s[from..i]);
  }

  lemma SumStep(c: seq<real>, from: nat, i: nat)
    requires from <= i < |c|
    ensures Sum(c[from..i + 1]) == Sum(c[from..i]) + c[i]
  {
    assert c[from..i + 1][..i - from] == c[from..i];
  }

  lemma {:induction false} JoinIsTail(at: string, parts: seq<string>)
    requires at == "@"
    ensures AtJoin(parts) == if parts == [] then "" else at + Join(at, parts)
    decreases |parts|
  {
    hide Join;
    if parts != [] {
      var n := |parts| - 1;
      JoinIsTail(at, parts[..n]);
      assert parts == parts[..n] + [parts[n]];
      if n > 0 {
        JoinSnoc(at, parts[..n], parts[n]);
      } else {
        JoinOne(at, parts[0]);
      }
    }
  }

  lemma DropFirstAt(parts: seq<string>)
    ensures var joined := AtJoin(parts);
            Join("@", parts) == if joined == "" then "" else joined[1..]
  {
    JoinIsTail("@", parts);
  }

  lemma {:induction false} JoinSnoc(glue: string, parts: seq<string>, last: string)
    requires parts != []
    ensures Join(glue, parts + [last]) == Join(glue, parts) + glue + last
  {
    assert (parts + [last])[1..] == parts[1..] + [last];
    if |parts| > 1 {
      JoinSnoc(glue, parts[1..], last);
    } else {
      assert parts[1..] + [last] == [last];
    }
  }

  // ----- what each answer means -----

  /** Where the call stands: behind the start mark, if there is one. */
  function CallAt(s: seq<Word>): nat
    requires s != []
  {
    if Begins(s[0], "<s") then 1 else 0
  }

  /** Does the call or the first word begin with this text? */
  predicate CallOrWordBegins(s: seq<Word>, p: string)
    requires |s| >= 3
  {
    Begins(s[CallAt(s)], p) || Begins(s[CallAt(s) + 1], p)
  }

  /** Is this the callback of the first task with the reading? */
  ghost predicate IsCallbackOf(tasks: seq<RecongTask>, reading: string, callback: Callback) {
    exists k :: && 0 <= k < |tasks| && tasks[k].yomiNoSpace == reading && tasks[k].callback == callback
                && forall j :: 0 <= j < k ==> tasks[j].yomiNoSpace != reading
  }

  /** A callback fires if and only if the frames of the call were found, the audio was accepted,
      neither the call nor the first word begins like an end mark or like garbage, and it is the
      callback of the first task with the joined reading. */
  lemma FiresIff(tasks: seq<RecongTask>, s: seq<Word>, framesFound: bool, audioAccepted: bool, callback: Callback)
    requires |s| >= 3 && IsMark(s[|s| - 1])
    ensures Answer(tasks, s, framesFound, audioAccepted) == Fired(callback) <==>
              && framesFound && audioAccepted
              && !CallOrWordBegins(s, "</") && !CallOrWordBegins(s, "gomi")
              && IsCallbackOf(tasks, JoinedReading(s, CallAt(s) + 1), callback)
  {
    hide JoinedReading, Begins;
    FirstTaskDecides(tasks, JoinedReading(s, CallAt(s) + 1), callback);
  }

  lemma FirstTaskDecides(tasks: seq<RecongTask>, reading: string, callback: Callback)
    ensures var k := FirstTask(tasks, reading);
            IsCallbackOf(tasks, reading, callback) <==> k < |tasks| && tasks[k].callback == callback
  {
    var first := FirstTask(tasks, reading);
    if k :| && 0 <= k < |tasks| && tasks[k].yomiNoSpace == reading && tasks[k].callback == callback
            && forall j :: 0 <= j < k ==> tasks[j].yomiNoSpace != reading {
      assert first == k;
    }
  }

  /** Everything else is a rejection: an end mark is named before anything is looked at; without
      frames nothing else is; garbage is named whatever the audio is, the call first; the audio is
      blamed only when nothing else is wrong, and a callback is missing only when no task has the
      reading. */
  lemma RejectedIff(tasks: seq<RecongTask>, s: seq<Word>, framesFound: bool, audioAccepted: bool)
    requires |s| >= 3 && IsMark(s[|s| - 1])
    ensures var r := Answer(tasks, s, framesFound, audioAccepted);
            var marked, garbage := CallOrWordBegins(s, "</"), CallOrWordBegins(s, "gomi");
            && (r == CallIsEndMark || r == CommandIsEndMark <==> marked)
            && (r == CallIsEndMark <==> Begins(s[CallAt(s)], "</"))
            && (r == NoFrames <==> !framesFound && !marked)
            && (r == CallIsGarbage || r == CommandIsGarbage <==> framesFound && !marked && garbage)
            && (r == CallIsGarbage <==> framesFound && !marked && Begins(s[CallAt(s)], "gomi"))
            && (r == AudioRejected <==> framesFound && !marked && !garbage && !audioAccepted)
            && (r == NoCallback <==>
                  && framesFound && !marked && !garbage && audioAccepted
                  && forall t :: t in tasks ==> t.yomiNoSpace != JoinedReading(s, CallAt(s) + 1))
  {
    hide JoinedReading, Begins;
    var reading := JoinedReading(s, CallAt(s) + 1);
    var k := FirstTask(tasks, reading);
    assert k < |tasks| ==> tasks[k] in tasks;
  }

  // ----- end to end -----

  /** Readings as the phone converter makes them: the spaceless form drops the blanks, there is
      no tab or line break, and no word looks like a mark. */
  predicate WellRead(task: RecongTask) {
    && task.yomiNoSpace == Replace(task.yomi, " ", "")
    && '\t' !in task.yomi && '\n' !in task.yomi
    && forall w :: w in Split(SEPARATOR, task.yomi) ==> w == "" || w[0] != '<'
  }

  /** The response to a call with this reading and a first word that is no mark: a call that looks
      like an end mark or like the garbage output is rejected, and so is such a first word. */
  function Heard(y: string, first: Word, framesFound: bool, audioAccepted: bool, accepted: Response): Response {
    if Begins(CallWord(y), "</") then CallIsEndMark
    else if !framesFound then NoFrames
    else if Begins(CallWord(y), "gomi") then CallIsGarbage
    else if Begins(first, "gomi") then CommandIsGarbage
    else if !audioAccepted then AudioRejected
    else accepted
  }

  function FirstWord(task: RecongTask): string {
    Split(SEPARATOR, task.yomi)[0]
  }

  lemma WithoutAgain(s: string, few: set<char>, many: set<char>)
    requires few <= many && forall c :: c in s && c in many ==> c in few
    ensures Without(s, many) == Without(s, few)
  {
  }

  /** The joined phones of a command's words are its registered spaceless reading. */
  lemma ReadingOfCommand(task: RecongTask)
    requires WellRead(task)
    ensures Join("@", WithoutEach(Split(SEPARATOR, task.yomi), PHONE_BREAKS)) == task.yomiNoSpace
  {
    var words := Split(SEPARATOR, task.yomi);
    JoinSplit(SEPARATOR, task.yomi);
    WithoutJoin(SEPARATOR, words, PHONE_BREAKS);
    assert Without(SEPARATOR, PHONE_BREAKS) == "@";
    WithoutAgain(task.yomi, {' '}, PHONE_BREAKS);
    ReplaceCharByNothing(task.yomi, ' ');
  }

  lemma ReadingOfUtterance(y: string, words: seq<string>, sym: map<string, int>)
    requires Labelled(words, sym) && words != []
    requires forall w :: w in words ==> w == "" || w[0] != '<'
    ensures var s := CommandUtterance(y, words, sym);
            && IsMark(s[|s| - 1])
            && JoinedReading(s, 2) == Join("@", WithoutEach(words, PHONE_BREAKS))
  {
    var s, n := CommandUtterance(y, words, sym), |words|;
    assert IsMark(s[n + 2]);
    forall k | 2 <= k < n + 2 ensures s[k] == CommandWord(words[k - 2], sym[words[k - 2]]) && !IsMark(s[k]) {
      assert words[k - 2] in words;
    }
    assert WordsBeforeMark(s, 2) == n;
    var spoken, clean := Readings(s[2..n + 2]), WithoutEach(words, PHONE_BREAKS);
    forall j | 0 <= j < n ensures spoken[j] == clean[j] {
      PhonesText(words[j]);
    }
    assert spoken == clean;
  }

  /** The response to a call and the words of command `i`. */
  function CommandResponse(tasks: seq<RecongTask>, y: string, i: nat, framesFound: bool, audioAccepted: bool): Response
    requires i < |tasks|
  {
    var k := FirstTask(tasks, tasks[i].yomiNoSpace);
    Heard(y, CommandWord(FirstWord(tasks[i]), 0), framesFound, audioAccepted,
          if k < |tasks| then Fired(tasks[k].callback) else NoCallback)
  }

  /** Saying a call and the words of command `i` fires the first registered task that reads the
      same, unless the call or the first word looks like something to reject, or the frames or the
      audio are not good. */
  lemma CommandAnswer(tasks: seq<RecongTask>, sym: map<string, int>, y: string, i: nat,
                      framesFound: bool, audioAccepted: bool)
    requires i < |tasks| && WellRead(tasks[i])
    requires Labelled(Split(SEPARATOR, tasks[i].yomi), sym)
    ensures var k := FirstTask(tasks, tasks[i].yomiNoSpace);
            var s := CommandUtterance(y, Split(SEPARATOR, tasks[i].yomi), sym);
            && k <= i && tasks[k].yomiNoSpace == tasks[i].yomiNoSpace && IsMark(s[|s| - 1])
            && Answer(tasks, s, framesFound, audioAccepted) ==
               Heard(y, CommandWord(FirstWord(tasks[i]), 0), framesFound, audioAccepted, Fired(tasks[k].callback))
  {
    hide JoinedReading, Split, Join, WithoutEach, Without;
    var words := Split(SEPARATOR, tasks[i].yomi);
    var s := CommandUtterance(y, words, sym);
    ReadingOfUtterance(y, words, sym);
    ReadingOfCommand(tasks[i]);
    assert s[0] == START_WORD && s[1] == CallWord(y) && s[2] == CommandWord(words[0], sym[words[0]]);
    assert Begins(s[0], "<s");
    assert words[0] in words;
    assert !Begins(s[2], "</");
  }

  lemma GarbageAnswer(tasks: seq<RecongTask>, y: string, g: string, framesFound: bool, audioAccepted: bool)
    ensures Answer(tasks, GarbageUtterance(y, g), framesFound, audioAccepted) ==
            if Begins(CallWord(y), "</") then CallIsEndMark
            else if !framesFound then NoFrames
            else if Begins(CallWord(y), "gomi") then CallIsGarbage
            else CommandIsGarbage
  {
    var s := GarbageUtterance(y, g);
    assert Begins(s[0], "<s") && Begins(s[2], "gomi");
    assert s[2].output[..2][0] == 'g';
    assert !Begins(s[2], "</");
  }

  /** `s` says a call and the words of a command, and the answer is the one for them. */
  ghost predicate SaysCommand(tasks: seq<RecongTask>, calls: seq<string>, s: seq<Word>,
                              framesFound: bool, audioAccepted: bool) {
    && |s| >= 3 && IsMark(s[|s| - 1])
    && exists i, y :: && 0 <= i < |tasks| && y in calls
                      && Texts(s) == CommandText(y, Commands(tasks)[i])
                      && Answer(tasks, s, framesFound, audioAccepted) ==
                         CommandResponse(tasks, y, i, framesFound, audioAccepted)
  }

  /** `s` says a call and a garbage word, and the answer is a rejection. */
  ghost predicate SaysGarbage(tasks: seq<RecongTask>, gomi: seq<string>, calls: seq<string>, s: seq<Word>,
                              framesFound: bool, audioAccepted: bool) {
    && |s| >= 3 && IsMark(s[|s| - 1])
    && exists y, g :: && y in calls && g in gomi && s == GarbageUtterance(y, g)
                      && Answer(tasks, s, framesFound, audioAccepted) ==
                         Heard(y, GarbageWord(g), framesFound, audioAccepted, CommandIsGarbage)
  }

  lemma AcceptedOrRejected(y: string, first: Word, framesFound: bool, audioAccepted: bool, callback: Callback)
    ensures Heard(y, first, framesFound, audioAccepted, Fired(callback)) != NoCallback
  {
  }

  lemma SaidCommandAnswers(tasks: seq<RecongTask>, calls: seq<string>, sym: map<string, int>, y: string, i: nat,
                           framesFound: bool, audioAccepted: bool)
    requires AllLabelled(Commands(tasks), sym) && i < |tasks| && y in calls && WellRead(tasks[i])
    ensures Commands(tasks)[i] in Commands(tasks)
    ensures var s := CommandUtterance(y, Commands(tasks)[i], sym);
            && SaysCommand(tasks, calls, s, framesFound, audioAccepted)
            && Answer(tasks, s, framesFound, audioAccepted) != NoCallback
  {
    hide Answer, Heard, Split, CommandUtterance, WellRead;
    var cmds := Commands(tasks);
    assert cmds[i] in cmds;
    CommandAnswer(tasks, sym, y, i, framesFound, audioAccepted);
    var k := FirstTask(tasks, tasks[i].yomiNoSpace);
    AcceptedOrRejected(y, CommandWord(FirstWord(tasks[i]), 0), framesFound, audioAccepted, tasks[k].callback);
    var s := CommandUtterance(y, cmds[i], sym);
    TextOfCommand(y, cmds[i], sym);
  }

  lemma SaidGarbageAnswers(tasks: seq<RecongTask>, gomi: seq<string>, calls: seq<string>, y: string, g: string,
                           framesFound: bool, audioAccepted: bool)
    requires y in calls && g in gomi
    ensures var s := GarbageUtterance(y, g);
            && SaysGarbage(tasks, gomi, calls, s, framesFound, audioAccepted)
            && Answer(tasks, s, framesFound, audioAccepted) != NoCallback
  {
    hide Answer;
    GarbageAnswer(tasks, y, g, framesFound, audioAccepted);
    assert Begins(GarbageWord(g), "gomi");
  }

  /** Every utterance the compiled grammar accepts says a call and either a garbage word or a
      command; a command fires the first registered task with the reading that was said, unless the
      call or its first word looks like a mark or garbage, or the frames or the audio are not good.
      It is never left without a callback. */
  lemma EndToEnd(tasks: seq<RecongTask>, gomi: seq<string>, calls: seq<string>, sym: map<string, int>,
                 dict: seq<Word>, s: seq<Word>, framesFound: bool, audioAccepted: bool)
    requires AllLabelled(Commands(tasks), sym) && IsDictionary(dict, gomi, calls, sym)
    requires forall t :: t in tasks ==> WellRead(t)
    requires Recognised(Automaton(Commands(tasks), sym), dict, s)
    ensures || SaysCommand(tasks, calls, s, framesFound, audioAccepted)
            || SaysGarbage(tasks, gomi, calls, s, framesFound, audioAccepted)
    ensures Answer(tasks, s, framesFound, audioAccepted) != NoCallback
  {
    hide Answer, Recognised, Automaton, IsDictionary, WellRead, GarbageUtterance, CommandUtterance, SaysCommand, SaysGarbage;
    var cmds := Commands(tasks);
    UtteranceLanguage(dict, gomi, calls, cmds, sym, s);
    if y, g :| y in calls && g in gomi && s == GarbageUtterance(y, g) {
      SaidGarbageAnswers(tasks, gomi, calls, y, g, framesFound, audioAccepted);
    } else {
      var y, i :| y in calls && 0 <= i < |cmds| && s == CommandUtterance(y, cmds[i], sym);
      assert tasks[i] in tasks;
      SaidCommandAnswers(tasks, calls, sym, y, i, framesFound, audioAccepted);
    }
  }
}
