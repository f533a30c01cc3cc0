/** What a save keeps: the entries come back, comments and order survive, every key is written once. */
module ConfigTheorems {
  import opened Text
  import opened ConfigFile
  import opened Wrappers

  // ----- entries that a line can hold -----

  /** What Set accepts and one line of the file can hold: no line break, no NUL, no "=" in a key. */
  predicate Settable(data: map<string, string>) {
    forall k :: k in data ==> IsText(k) && '=' !in k && IsText(data[k]) && |k| + |data[k]| + 3 <= LINE_LIMIT
  }

  predicate IsText(s: string) {
    '\0' !in s && '\n' !in s && '\r' !in s
  }

  predicate AllTrimmed(data: map<string, string>) {
    forall k :: k in data ==> Trimmed(k) && Trimmed(data[k])
  }

  /** A line that begins with this key is a comment. */
  predicate CommentLike(k: string) {
    k != "" && IsComment(k)
  }

  predicate Writable(data: map<string, string>) {
    Settable(data) && AllTrimmed(data)
  }

  predicate Storable(data: map<string, string>) {
    Writable(data) && forall k :: k in data ==> !CommentLike(k)
  }

  lemma {:induction false} EqualsAt(k: string, rest: string)
    requires '=' !in k && rest != "" && rest[0] == '='
    ensures Equals(k + rest) == |k|
  {
    if k != "" {
      assert k[0] in k;
      EqualsAt(k[1..], rest);
      assert (k + rest)[1..] == k[1..] + rest;
    }
  }

  lemma EntryLineText(k: string, v: string)
    requires IsText(k) && IsText(v)
    ensures EntryLine(k, v) == k + ("=" + v + "\r\n")
  {
    CStrWithoutNul(k);
    CStrWithoutNul(v);
  }

  lemma ParseSplit(k: string, v: string, s: string)
    requires s == k + "=" + v && '=' !in k
    requires k == "" || !IsComment(s)
    ensures Parse(s) == Entry(Chop(k), Chop(v))
  {
    hide Chop;
    assert s == k + ("=" + v);
    EqualsAt(k, "=" + v);
    assert s[|k|] == '=';
    assert s[..|k|] == k && s[|k| + 1..] == v;
  }

  lemma NotCommentLonger(k: string, s: string)
    requires k != "" && !IsComment(k) && k <= s && (|k| >= 2 || (|s| >= 2 && s[1] == '='))
    ensures !IsComment(s)
  {
    assert s[0] == k[0] && (|k| >= 2 ==> s[1] == k[1]);
  }

  lemma ParseEntryLine(k: string, v: string)
    requires IsText(k) && '=' !in k && IsText(v)
    ensures Parse(EntryLine(k, v)) == if CommentLike(k) then Comment else Entry(Chop(k), Chop(v + "\r\n"))
  {
    hide Chop;
    EntryLineText(k, v);
    var s := EntryLine(k, v);
    var tail := v + "\r\n";
    assert s == k + "=" + tail;
    if CommentLike(k) {
      assert s[0] == k[0] && (|k| >= 2 ==> s[1] == k[1]) && |s| > 2;
    } else {
      if k != "" {
        NotCommentLonger(k, s);
      }
      ParseSplit(k, tail, s);
    }
  }

  lemma EntryLineSolid(data: map<string, string>, k: string, v: string)
    requires Settable(data) && k in data && data[k] == v
    ensures Solid(EntryLine(k, v))
  {
    EntryLineText(k, v);
    var s := k + ("=" + v + "\r\n");
    assert |s| == |k| + |v| + 3;
    forall i | 0 <= i < |s| - 1 ensures s[i] != '\n' {
      assert i < |k| ==> s[i] in k;
      assert |k| < i < |k| + 1 + |v| ==> s[i] == v[i - |k| - 1] && s[i] in v;
    }
  }

  lemma WritableEntry(data: map<string, string>, k: string, v: string)
    requires Writable(data) && k in data && data[k] == v
    ensures Parse(EntryLine(k, v)) == if CommentLike(k) then Comment else Entry(k, v)
  {
    ParseEntryLine(k, v);
    ChopPadded(k, "");
    assert k + "" == k;
    ChopPadded(v, "\r\n");
  }

  lemma SettableParts(data: map<string, string>, k: string)
    requires Settable(data) && k in data
    ensures IsText(k) && '=' !in k && IsText(data[k]) && CStr(k) == k
  {
    CStrWithoutNul(k);
  }

  // ----- which line keeps an entry -----

  /** Does a line keep its place for the key? The empty key can stay in a line but cannot be written into one. */
  predicate Carries(data: map<string, string>, s: string, key: string) {
    && Parse(s).Entry? && Parse(s).key == key
    && (key != "" || (key in data && Parse(s).value == data[key]))
  }

  /** Index of the first line that carries this key, or the number of lines. */
  function FirstIndex(data: map<string, string>, lines: seq<string>, key: string): (i: nat)
    ensures i <= |lines|
    ensures i < |lines| ==> Carries(data, lines[i], key)
  {
    if lines == [] then 0
    else
      var n := |lines| - 1;
      var i := FirstIndex(data, lines[..n], key);
      if i < n || Carries(data, lines[n], key) then i else n + 1
  }

  lemma FirstIndexSnoc(data: map<string, string>, lines: seq<string>, s: string, key: string)
    ensures FirstIndex(data, lines + [s], key) ==
            var i := FirstIndex(data, lines, key);
            if i < |lines| || Carries(data, s, key) then i else i + 1
  {
    hide Carries;
    assert (lines + [s])[..|lines|] == lines;
  }

  /** A key that looks like a comment survives only in a line that already has its value. */
  predicate Survives(data: map<string, string>, lines: seq<string>, key: string)
    requires key in data
  {
    CommentLike(key) ==>
      var i := FirstIndex(data, lines, key);
      i < |lines| && Parse(lines[i]).value == data[key]
  }

  /** Is `key` kept in some line, and not lost there? */
  predicate Kept(data: map<string, string>, lines: seq<string>, key: string) {
    key in data && FirstIndex(data, lines, key) < |lines| && Survives(data, lines, key)
  }

  lemma KeptSnoc(data: map<string, string>, lines: seq<string>, s: string, key: string)
    ensures Kept(data, lines + [s], key) <==>
              || Kept(data, lines, key)
              || (key in data && FirstIndex(data, lines, key) == |lines| && Carries(data, s, key)
                  && (CommentLike(key) ==> Parse(s).value == data[key]))
  {
    hide Parse, FirstIndex, CommentLike;
    FirstIndexSnoc(data, lines, s, key);
  }

  /** What is still to be written: the keys that no line has carried. */
  ghost predicate LeftIs(data: map<string, string>, lines: seq<string>, left: map<string, string>) {
    && (forall k :: k in left <==> k in data && FirstIndex(data, lines, k) == |lines|)
    && (forall k :: k in left ==> left[k] == data[k])
  }

  lemma LeftStep(data: map<string, string>, lines: seq<string>, st: Saving, s: string)
    requires Settable(data) && LeftIs(data, lines, st.left)
    ensures LeftIs(data, lines + [s], SaveLine(st, s).left)
  {
    hide Settable, Parse, FirstIndex, EntryLine, CStr;
    forall k {
      FirstIndexSnoc(data, lines, s, k);
    }
    if Parse(s).Entry? && Parse(s).key in st.left {
      SettableParts(data, Parse(s).key);
    }
  }

  lemma {:induction false} LeftAfterLines(data: map<string, string>, lines: seq<string>)
    requires Settable(data)
    ensures LeftIs(data, lines, SaveLines(data, lines).left)
    decreases |lines|
  {
    hide Settable, SaveLine, LeftIs;
    if lines == [] {
      NothingRead(data);
    } else {
      LeftAfterLines(data, lines[..|lines| - 1]);
      LeftStep(data, lines[..|lines| - 1], SaveLines(data, lines[..|lines| - 1]), lines[|lines| - 1]);
      assert lines == lines[..|lines| - 1] + [lines[|lines| - 1]];
    }
  }

  lemma NothingRead(data: map<string, string>)
    ensures LeftIs(data, [], data) && LoadsKept(data, [], []) && SaveLines(data, []) == Saving([], data, 0)
  {
  }

  // ----- what the new lines hold -----

  /** The lines written so far hold the kept entries. */
  ghost predicate LoadsKept(data: map<string, string>, lines: seq<string>, out: seq<string>) {
    && (forall k :: k in Loaded(out) <==> Kept(data, lines, k))
    && (forall k :: k in Loaded(out) ==> Loaded(out)[k] == data[k])
  }

  lemma LoadOther(out: seq<string>, s: string)
    requires !Parse(s).Entry?
    ensures Loaded(out + [s]) == Loaded(out)
  {
    LoadedSnoc(out, s);
  }

  lemma LoadEntry(out: seq<string>, s: string, k: string, v: string)
    requires Parse(s) == Entry(k, v)
    ensures Loaded(out + [s]) == Loaded(out)[k := v]
  {
    LoadedSnoc(out, s);
  }

  lemma ParseBlank()
    ensures Parse("\r\n") == Blank
  {
  }

  lemma LoadsStep(data: map<string, string>, lines: seq<string>, st: Saving, s: string)
    requires Writable(data) && LeftIs(data, lines, st.left) && LoadsKept(data, lines, st.out)
    ensures LoadsKept(data, lines + [s], SaveLine(st, s).out)
  {
    hide Settable, AllTrimmed, Parse, FirstIndex, EntryLine, CStr, Loaded, CommentLike, Kept;
    forall k {
      KeptSnoc(data, lines, s, k);
    }
    match Parse(s)
    case Nothing =>
    case Garbage =>
    case Blank =>
      ParseBlank();
      LoadOther(st.out, "\r\n");
    case Comment =>
      LoadOther(st.out, s);
    case Entry(k, v) =>
      if k in st.left {
        SettableParts(data, k);
        LoadEntry(st.out, s, k, v);
        var line := EntryLine(k, st.left[k]);
        WritableEntry(data, k, st.left[k]);
        if CommentLike(k) {
          LoadOther(st.out, line);
        } else {
          LoadEntry(st.out, line, k, st.left[k]);
        }
      }
  }

  lemma {:induction false} LoadsAfterLines(data: map<string, string>, lines: seq<string>)
    requires Writable(data)
    ensures LoadsKept(data, lines, SaveLines(data, lines).out)
    decreases |lines|
  {
    hide Settable, AllTrimmed, SaveLine, LeftIs, LoadsKept;
    if lines == [] {
      NothingRead(data);
    } else {
      var init := lines[..|lines| - 1];
      LoadsAfterLines(data, init);
      LeftAfterLines(data, init);
      LoadsStep(data, init, SaveLines(data, init), lines[|lines| - 1]);
      assert lines == init + [lines[|lines| - 1]];
    }
  }

  /** The appended entries that are not read as comments. */
  function Restricted(left: map<string, string>, order: seq<string>): map<string, string>
    requires forall k :: k in order ==> k in left
  {
    map k | k in order && !CommentLike(k) :: left[k]
  }

  lemma RestrictedSnoc(left: map<string, string>, order: seq<string>)
    requires order != [] && forall k :: k in order ==> k in left
    ensures var n := |order| - 1;
            Restricted(left, order) ==
            if CommentLike(order[n]) then Restricted(left, order[..n])
            else Restricted(left, order[..n])[order[n] := left[order[n]]]
  {
    hide CommentLike;
    assert order == order[..|order| - 1] + [order[|order| - 1]];
  }

  lemma {:induction false} AddedLinesLoad(data: map<string, string>, out: seq<string>, left: map<string, string>,
                                          order: seq<string>)
    requires Writable(data) && forall k :: k in order ==> k in left
    requires forall k :: k in left ==> k in data && data[k] == left[k]
    ensures Loaded(out + EntryLines(left, order)) == Loaded(out) + Restricted(left, order)
    decreases |order|
  {
    hide Settable, AllTrimmed, Loaded, Parse, EntryLine, Restricted, CommentLike;
    if order == [] {
      assert out + EntryLines(left, order) == out;
      EmptyRestriction(left);
    } else {
      var init, k := order[..|order| - 1], order[|order| - 1];
      AddedLinesLoad(data, out, left, init);
      RestrictedSnoc(left, order);
      WritableEntry(data, k, left[k]);
      assert out + EntryLines(left, order) == out + EntryLines(left, init) + [EntryLine(k, left[k])];
      if CommentLike(k) {
        LoadOther(out + EntryLines(left, init), EntryLine(k, left[k]));
      } else {
        LoadEntry(out + EntryLines(left, init), EntryLine(k, left[k]), k, left[k]);
      }
    }
  }

  lemma EmptyRestriction(left: map<string, string>)
    ensures Restricted(left, []) == map[]
  {
  }

  /** The new lines hold exactly the entries that survive, whatever the old lines were. */
  lemma NewLinesLoad(data: map<string, string>, lines: seq<string>, order: seq<string>)
    requires Writable(data) && Lists(order, SaveLines(data, lines).left)
    ensures Loaded(NewLines(data, lines, order)) == map k | k in data && Survives(data, lines, k) :: data[k]
  {
    hide Settable, AllTrimmed, Loaded, SaveLines, EntryLines, FirstIndex, Parse;
    var st := SaveLines(data, lines);
    LeftAfterLines(data, lines);
    LoadsAfterLines(data, lines);
    AddedLinesLoad(data, st.out, st.left, order);
    var loaded := Loaded(NewLines(data, lines, order));
    forall k ensures k in loaded <==> k in data && Survives(data, lines, k) {
      assert k in Restricted(st.left, order) <==> k in st.left && !CommentLike(k);
    }
  }

  // ----- reading the written file back line by line -----

  /** A line the loader will see again exactly as it was written. */
  predicate Solid(s: string) {
    Complete(s, LINE_LIMIT) && '\0' !in s
  }

  lemma {:induction false} LinesOfFlat(out: seq<string>, tail: string)
    requires forall s :: s in out ==> Solid(s)
    ensures Lines(Flat(out) + tail) == out + Lines(tail)
    decreases |out|
  {
    hide Lines, Complete;
    if out == [] {
      assert Flat(out) + tail == tail;
    } else {
      var rest := Flat(out[1..]) + tail;
      LinesOfFlat(out[1..], tail);
      assert Flat(out) + tail == out[0] + rest;
      LinesCons(out[0], rest);
      assert out == [out[0]] + out[1..];
    }
  }

  lemma LinesCons(s: string, rest: string)
    requires Solid(s)
    ensures Lines(s + rest) == [s] + Lines(rest)
  {
    FgetsLengthOfComplete(s, rest, LINE_LIMIT);
    LinesStep(s + rest);
    assert (s + rest)[..|s|] == s && (s + rest)[|s|..] == rest;
    CStrWithoutNul(s);
  }

  predicate AllSolid(lines: seq<string>) {
    forall i :: 0 <= i < |lines| && lines[i] != "" ==> Solid(lines[i])
  }

  lemma {:induction false} SavedLinesSolid(data: map<string, string>, lines: seq<string>)
    requires Settable(data) && AllSolid(lines)
    ensures forall s :: s in SaveLines(data, lines).out ==> Solid(s)
    decreases |lines|
  {
    hide Settable, Parse, EntryLine, Complete, CStr, LeftIs;
    if lines != [] {
      var init, s := lines[..|lines| - 1], lines[|lines| - 1];
      SavedLinesSolid(data, init);
      var st := SaveLines(data, init);
      LeftAfterLines(data, init);
      BlankLineSolid();
      EmptyIsNothing(s);
      if Parse(s).Entry? && Parse(s).key in st.left {
        LeftEntry(data, init, st.left, Parse(s).key);
        EntryLineSolid(data, Parse(s).key, st.left[Parse(s).key]);
      }
    }
  }

  lemma LeftEntry(data: map<string, string>, lines: seq<string>, left: map<string, string>, k: string)
    requires LeftIs(data, lines, left) && k in left
    ensures k in data && left[k] == data[k]
  {
  }

  lemma BlankLineSolid()
    ensures Solid("\r\n")
  {
  }

  lemma EmptyIsNothing(s: string)
    ensures s == "" ==> Parse(s) == Nothing
  {
  }

  lemma {:induction false} AddedLinesSolid(data: map<string, string>, left: map<string, string>, order: seq<string>)
    requires Settable(data) && forall k :: k in order ==> k in left && k in data && data[k] == left[k]
    ensures forall s :: s in EntryLines(left, order) ==> Solid(s)
    decreases |order|
  {
    hide Settable, Solid;
    if order != [] {
      AddedLinesSolid(data, left, order[..|order| - 1]);
      EntryLineSolid(data, order[|order| - 1], left[order[|order| - 1]]);
    }
  }

  /** The old file has no NUL and ends with a newline, if it is not empty. */
  predicate CleanFile(file: string) {
    '\0' !in file && (file == "" || file[|file| - 1] == '\n')
  }

  lemma {:induction false} LinesArePieces(file: string)
    requires '\0' !in file
    ensures Lines(file) == Pieces(file, LINE_LIMIT)
    decreases |file|
  {
    if file != "" {
      var n := FgetsLength(file, LINE_LIMIT);
      LinesArePieces(file[n..]);
      CStrWithoutNul(file[..n]);
    }
  }

  lemma CleanFileSolid(file: string)
    requires CleanFile(file)
    ensures AllSolid(Lines(file))
  {
    hide Pieces, Lines, Complete;
    LinesArePieces(file);
    PiecesComplete(file, LINE_LIMIT);
    PiecesWithoutNul(file);
    var lines := Lines(file);
    forall i | 0 <= i < |lines| ensures Solid(lines[i]) {
      assert lines[i] in lines;
      if i == |lines| - 1 {
        NoLines();
      }
    }
  }

  lemma {:induction false} PiecesWithoutNul(file: string)
    requires '\0' !in file
    ensures forall p :: p in Pieces(file, LINE_LIMIT) ==> '\0' !in p
    decreases |file|
  {
    if file != "" {
      var n := FgetsLength(file, LINE_LIMIT);
      PiecesWithoutNul(file[n..]);
    }
  }

  /** The lines of the file that a save wrote are the lines it wrote. */
  lemma LinesOfSaved(data: map<string, string>, before: string, after: string) returns (order: seq<string>)
    requires Settable(data) && CleanFile(before) && Saves(data, before, after)
    ensures Lists(order, SaveLines(data, Lines(before)).left)
    ensures Lines(after) == NewLines(data, Lines(before), order)
  {
    hide Settable, CleanFile, Lines, SaveLines, EntryLines, Flat, Solid, AllSolid, LeftIs;
    var lines := Lines(before);
    order :| Lists(order, SaveLines(data, lines).left) && after == Flat(NewLines(data, lines, order));
    var st := SaveLines(data, lines);
    CleanFileSolid(before);
    SavedLinesSolid(data, lines);
    LeftAfterLines(data, lines);
    forall k | k in st.left ensures k in data && st.left[k] == data[k] {
      LeftEntry(data, lines, st.left, k);
    }
    AddedLinesSolid(data, st.left, order);
    var all := NewLines(data, lines, order);
    LinesOfFlat(all, "");
    assert Flat(all) + "" == Flat(all);
    NoLines();
    assert all + [] == all;
  }

  lemma NoLines()
    ensures Lines("") == []
  {
  }

  lemma HasFirst(s: seq<string>)
    ensures s == [] || exists k :: k in s
  {
    if s != [] {
      assert s[0] in s;
    }
  }

  // ----- loading what was saved -----

  /** Loading the file that a save wrote gives back exactly the trimmed entries that survive. */
  lemma LoadedAfterSave(data: map<string, string>, before: string, after: string)
    requires Writable(data) && CleanFile(before) && Saves(data, before, after)
    ensures Loaded(Lines(after)) == map k | k in data && Survives(data, Lines(before), k) :: data[k]
  {
    hide Settable, AllTrimmed, CleanFile, Lines, Loaded, SaveLines, EntryLines, Survives;
    var order := LinesOfSaved(data, before, after);
    NewLinesLoad(data, Lines(before), order);
  }

  /** For every map that Set accepts and a line can hold, loading gives back what was saved if and
      only if all keys and values are trimmed and, for each key that looks like a comment, the first
      old line that carries it has exactly its value. */
  lemma RoundTripIff(data: map<string, string>, before: string, after: string)
    requires Settable(data) && CleanFile(before) && Saves(data, before, after)
    ensures Loaded(Lines(after)) == data <==>
            AllTrimmed(data) && forall k :: k in data ==> Survives(data, Lines(before), k)
  {
    hide Settable, CleanFile, Lines, Loaded, Survives, Saves, Trimmed;
    if AllTrimmed(data) {
      LoadedAfterSave(data, before, after);
      assert Loaded(Lines(after)) == data ==> forall k :: k in data ==> k in Loaded(Lines(after));
    } else if Loaded(Lines(after)) == data {
      LoadedIsTrimmed(Lines(after));
    }
  }

  /** Entries whose keys do not look like comments come back, whatever duplicate, stale or garbage
      lines the old file had. */
  lemma RoundTrip(data: map<string, string>, before: string, after: string)
    requires Storable(data) && CleanFile(before) && Saves(data, before, after)
    ensures Loaded(Lines(after)) == data
  {
    hide Settable, AllTrimmed, CleanFile, Lines, Loaded, Saves, CommentLike;
    RoundTripIff(data, before, after);
  }

  /** Only trimmed keys and values are ever read from a file, so nothing else can come back. */
  lemma {:induction false} LoadedIsTrimmed(lines: seq<string>)
    ensures forall k :: k in Loaded(lines) ==> Trimmed(k) && Trimmed(Loaded(lines)[k])
    decreases |lines|
  {
    hide Trimmed, Parse;
    if lines != [] {
      LoadedIsTrimmed(lines[..|lines| - 1]);
      EntryIsTrimmed(lines[|lines| - 1]);
    }
  }

  lemma EntryIsTrimmed(s: string)
    ensures Parse(s).Entry? ==> Trimmed(Parse(s).key) && Trimmed(Parse(s).value)
  {
    hide Trimmed, Chop;
    if Parse(s).Entry? {
      ChopIsTrimmed(s[..Equals(s)]);
      ChopIsTrimmed(s[Equals(s) + 1..]);
    }
  }

  /** The same entry is lost over an empty file and survives over a file with an indented line for it. */
  lemma CommentLikeKeyExamples(after: string)
    ensures Saves(map["#a" := "b"], "", after) ==> Loaded(Lines(after)) == map[]
    ensures Saves(map["#a" := "b"], " #a=b\n", after) ==> Loaded(Lines(after)) == map["#a" := "b"]
  {
    hide Saves, Loaded, Lines, Survives, Writable, CommentLike, CleanFile;
    var data := map["#a" := "b"];
    OneCommentLikeKey(data);
    NoLines();
    if Saves(data, "", after) {
      LoadedAfterSave(data, "", after);
    }
    if Saves(data, " #a=b\n", after) {
      LoadedAfterSave(data, " #a=b\n", after);
      IndentedLine(data);
    }
  }

  lemma OneCommentLikeKey(data: map<string, string>)
    requires data == map["#a" := "b"]
    ensures Writable(data) && !Survives(data, [], "#a")
    ensures CleanFile("") && CleanFile(" #a=b\n")
  {
    assert CommentLike("#a") && FirstIndex(data, [], "#a") == 0;
  }

  lemma IndentedLine(data: map<string, string>)
    requires data == map["#a" := "b"]
    ensures Survives(data, Lines(" #a=b\n"), "#a")
  {
    hide Lines, Parse, Solid, Flat, FirstIndex;
    var s := " #a=b\n";
    ReadIndented(s);
    LinesCons(s, "");
    NoLines();
    assert s + "" == s && [s] + [] == [s];
    FirstIndexSnoc(data, [], s, "#a");
    assert [] + [s] == [s];
    assert FirstIndex(data, [], "#a") == 0;
  }

  lemma ReadIndented(s: string)
    requires s == " #a=b\n"
    ensures Solid(s) && Parse(s) == Entry("#a", "b")
  {
    hide Chop;
    var k, v := "#a", "b";
    var key, value := " " + k, v + "\n";
    assert s == key + "=" + value;
    ParseSplit(key, value, s);
    ChopIndented(k, v);
  }

  lemma ChopIndented(k: string, v: string)
    requires Trimmed(k) && Trimmed(v)
    ensures Chop(" " + k) == k && Chop(v + "\n") == v
  {
    hide DropTrailingBlanks;
    ChopPadded(k, "");
    assert k + "" == k;
    assert (" " + k)[1..] == k;
    ChopPadded(v, "\n");
  }
}
