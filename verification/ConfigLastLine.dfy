/** Saving over a file whose last line has no newline: exactly when the entries still come back, and
    when comments and keys stay. */
module ConfigLastLine {
  import opened Text
  import opened ConfigFile
  import opened Wrappers
  import opened ConfigTheorems
  import opened ConfigLayout

  /** Lines that are delivered complete, and after them one without its newline. */
  ghost predicate Unterminated(before: string, init: seq<string>, last: string) {
    && before == Flat(init) + last
    && (forall s :: s in init ==> Solid(s))
    && 0 < |last| < LINE_LIMIT && '\0' !in last && '\n' !in last
  }

  lemma LastLineAlone(last: string)
    requires 0 < |last| < LINE_LIMIT && '\0' !in last && '\n' !in last
    ensures Lines(last) == [last]
  {
    var n := FgetsLength(last, LINE_LIMIT);
    assert last[n - 1] in last;
    assert n == |last|;
    assert last[..n] == last && last[n..] == "";
    CStrWithoutNul(last);
    NoLines();
    LinesStep(last);
  }

  lemma UnterminatedLines(before: string, init: seq<string>, last: string)
    requires Unterminated(before, init, last)
    ensures Lines(before) == init + [last]
  {
    hide Lines, Solid, Flat;
    LinesOfFlat(init, last);
    LastLineAlone(last);
  }

  /** Does the saver copy the last line as it stands? */
  predicate KeptVerbatim(left: map<string, string>, last: string) {
    var p := Parse(last);
    p.Comment? || (p.Entry? && p.key in left && left[p.key] == p.value)
  }

  /** Entries still to be written after the last line. */
  function LeftAfter(left: map<string, string>, last: string): map<string, string> {
    if Parse(last).Entry? then left - {Parse(last).key} else left
  }

  lemma SaveLast(data: map<string, string>, init: seq<string>, last: string)
    requires '\n' !in last && last != ""
    ensures var st, end := SaveLines(data, init), SaveLines(data, init + [last]);
            && (KeptVerbatim(st.left, last) ==>
                  end.out == st.out + [last] && end.left == LeftAfter(st.left, last))
            && (!KeptVerbatim(st.left, last) ==>
                  end.out == st.out
                  || (Parse(last).Entry? && Parse(last).key in st.left
                      && end.out == st.out + [EntryLine(Parse(last).key, st.left[Parse(last).key])]))
  {
    hide EntryLine, CStr;
    SaveLinesSnoc(data, init, last);
    NotBlank(last);
  }

  lemma NotBlank(s: string)
    requires '\n' !in s && s != ""
    ensures Parse(s) != Blank && Parse(s) != Nothing
  {
    assert "\n"[0] == '\n' && "\r\n"[1] == '\n';
  }

  // ----- the lines of the new file -----

  /** When nothing follows the copied line, or it is not copied, they are the lines written. */
  lemma HarmlessLines(data: map<string, string>, init: seq<string>, last: string, order: seq<string>, before: string)
    requires Settable(data) && Unterminated(before, init, last)
    requires Lists(order, SaveLines(data, init + [last]).left)
    requires !KeptVerbatim(SaveLines(data, init).left, last) || SaveLines(data, init + [last]).left == map[]
    ensures Lines(Flat(NewLines(data, init + [last], order))) == NewLines(data, init + [last], order)
  {
    hide Settable, AllTrimmed, Lines, SaveLines, EntryLines, Flat, Solid, Parse, EntryLine, LeftAfter, CommentLike, LeftIs;
    var st, end := SaveLines(data, init), SaveLines(data, init + [last]);
    SavedLinesSolid(data, init);
    LeftAfterLines(data, init);
    LeftAreSaved(data, init + [last]);
    SaveLast(data, init, last);
    AddedLinesSolid(data, end.left, order);
    var all := NewLines(data, init + [last], order);
    NoLines();
    if KeptVerbatim(st.left, last) {
      NoneListed(order, end.left);
      assert all == st.out + [last];
      FlatSnoc(st.out, last);
      LinesOfFlat(st.out, last);
      LastLineAlone(last);
    } else {
      if end.out != st.out {
        LeftEntry(data, init, st.left, Parse(last).key);
        EntryLineSolid(data, Parse(last).key, st.left[Parse(last).key]);
      }
      LinesOfFlat(all, "");
      assert Flat(all) + "" == Flat(all) && all + [] == all;
    }
  }

  lemma NoneListed(order: seq<string>, left: map<string, string>)
    requires Lists(order, left) && left == map[]
    ensures order == [] && EntryLines(left, order) == []
  {
    HasFirst(order);
  }

  lemma LeftAreSaved(data: map<string, string>, lines: seq<string>)
    requires Settable(data)
    ensures forall k :: k in SaveLines(data, lines).left ==> k in data && data[k] == SaveLines(data, lines).left[k]
  {
    hide Settable, SaveLines;
    LeftAfterLines(data, lines);
  }

  lemma {:induction false} EntryLineFirst(left: map<string, string>, order: seq<string>)
    requires order != [] && forall k :: k in order ==> k in left
    ensures EntryLines(left, order) == [EntryLine(order[0], left[order[0]])] + EntryLines(left, order[1..])
    decreases |order|
  {
    hide EntryLine, CStr;
    var n := |order| - 1;
    if n > 0 {
      EntryLineFirst(left, order[..n]);
      var rest := order[1..];
      assert rest[..n - 1] == order[..n][1..] && rest[n - 1] == order[n];
    } else {
      assert order[..0] == [] && order[1..] == [];
    }
  }

  lemma GluedSolid(last: string, line: string)
    requires 0 < |last| && '\0' !in last && '\n' !in last && Solid(line) && |last| + |line| <= LINE_LIMIT
    ensures Solid(last + line)
  {
    var s := last + line;
    forall i | 0 <= i < |s| - 1 ensures s[i] != '\n' {
      assert i < |last| ==> s[i] == last[i] && last[i] in last;
      assert i >= |last| ==> s[i] == line[i - |last|];
    }
    assert s[|s| - 1] == line[|line| - 1];
  }

  /** The characters that are not blank; trimming keeps them all. */
  lemma {:induction false} ChopKeepsInk(s: string)
    ensures Without(Chop(s), BLANKS) == Without(s, BLANKS)
  {
    SkipKeepsInk(s);
    DropKeepsInk(SkipBlanks(s));
  }

  lemma {:induction false} SkipKeepsInk(s: string)
    ensures Without(SkipBlanks(s), BLANKS) == Without(s, BLANKS)
  {
    if s != "" && s[0] in BLANKS {
      SkipKeepsInk(s[1..]);
    }
  }

  lemma {:induction false} DropKeepsInk(s: string)
    ensures Without(DropTrailingBlanks(s), BLANKS) == Without(s, BLANKS)
    decreases |s|
  {
    hide Without;
    if s != "" && s[|s| - 1] in BLANKS {
      var n := |s| - 1;
      DropKeepsInk(s[..n]);
      WithoutLastBlank(s);
    }
  }

  lemma WithoutLastBlank(s: string)
    requires s != "" && s[|s| - 1] in BLANKS
    ensures Without(s, BLANKS) == Without(s[..|s| - 1], BLANKS)
  {
    var head, tail := s[..|s| - 1], s[|s| - 1..];
    assert s == head + tail;
    WithoutConcat(head, tail, BLANKS);
    assert tail[1..] == "";
  }

  lemma ChopOfLonger(a: string, b: string, c: char)
    requires c in b && c !in BLANKS
    ensures Chop(a + b) != Chop(a)
  {
    ChopKeepsInk(a);
    ChopKeepsInk(a + b);
    WithoutConcat(a, b, BLANKS);
    assert c in Without(b, BLANKS);
    assert |Without(a + b, BLANKS)| > |Without(a, BLANKS)|;
  }

  lemma EntryLineHasEquals(k: string, v: string)
    requires IsText(k) && IsText(v)
    ensures '=' in EntryLine(k, v) && |EntryLine(k, v)| > 2
  {
    EntryLineText(k, v);
    assert EntryLine(k, v)[|k|] == '=';
  }

  /** A comment swallows what is glued to it. */
  lemma CommentGlued(last: string, line: string)
    requires Parse(last).Comment? && |line| > 2
    ensures Parse(last + line).Comment?
  {
    hide Chop, Equals;
    var s := last + line;
    assert s[0] == last[0] && (|last| >= 2 ==> s[1] == last[1]);
  }

  lemma CutAt(s: string, i: nat)
    requires i < |s| && s[i] == '='
    ensures s == s[..i] + "=" + s[i + 1..]
  {
    assert s == s[..i] + [s[i]] + s[i + 1..];
  }

  lemma EntryParts(s: string)
    requires Parse(s).Entry?
    ensures var eq := Equals(s);
            && eq < |s| && s == s[..eq] + "=" + s[eq + 1..] && !IsComment(s)
            && Parse(s) == Entry(Chop(s[..eq]), Chop(s[eq + 1..]))
  {
    hide Chop;
    if Equals(s) < |s| {
      CutAt(s, Equals(s));
    }
  }

  /** An entry gets what is glued to it into its value. */
  lemma EntryGlued(last: string, line: string)
    requires Parse(last).Entry? && '=' in line && |line| > 2
    ensures var p := Parse(last + line);
            p.Entry? && p.key == Parse(last).key && p.value != Parse(last).value
  {
    hide Parse, Chop;
    EntryParts(last);
    var eq, s := Equals(last), last + line;
    assert s == last[..eq] + "=" + (last[eq + 1..] + line);
    assert s[0] == last[0] && (|last| >= 2 ==> s[1] == last[1]);
    assert |last| == 1 ==> last[0] == '=';
    ParseSplit(last[..eq], last[eq + 1..] + line, s);
    ChopOfLonger(last[eq + 1..], line, '=');
  }

  /** Otherwise the first appended entry is glued to the copied line. */
  lemma GluedLines(data: map<string, string>, init: seq<string>, last: string, order: seq<string>, before: string)
    requires Settable(data) && Unterminated(before, init, last)
    requires Lists(order, SaveLines(data, init + [last]).left)
    requires KeptVerbatim(SaveLines(data, init).left, last) && SaveLines(data, init + [last]).left != map[]
    requires forall k :: k in data ==> |last| + |EntryLine(k, data[k])| <= LINE_LIMIT
    ensures order != [] && order[0] in data
    ensures var st, left := SaveLines(data, init), SaveLines(data, init + [last]).left;
            && (forall k :: k in order ==> k in left)
            && Lines(Flat(NewLines(data, init + [last], order))) ==
               st.out + [last + EntryLine(order[0], data[order[0]])] + EntryLines(left, order[1..])
  {
    hide Settable, AllTrimmed, Lines, SaveLines, EntryLines, Flat, Solid, Parse, EntryLine, CommentLike;
    var st, end := SaveLines(data, init), SaveLines(data, init + [last]);
    var left := end.left;
    SavedLinesSolid(data, init);
    LeftAreSaved(data, init + [last]);
    SaveLast(data, init, last);
    SomeListed(order, left);
    var k, rest := order[0], order[1..];
    var line := EntryLine(k, left[k]);
    EntryLineSolid(data, k, left[k]);
    GluedSolid(last, line);
    EntryLineFirst(left, order);
    AddedLinesSolid(data, left, rest);
    var written := st.out + [last + line] + EntryLines(left, rest);
    GlueFlat(st.out, last, line, EntryLines(left, rest));
    assert NewLines(data, init + [last], order) == st.out + [last, line] + EntryLines(left, rest);
    LinesOfFlat(written, "");
    NoLines();
    assert Flat(written) + "" == Flat(written) && written + [] == written;
  }

  lemma SomeListed(order: seq<string>, left: map<string, string>)
    requires Lists(order, left) && left != map[]
    ensures order != [] && order[0] in left && order[0] !in order[1..]
  {
    var k :| k in left;
    assert k in order;
    assert order[0] in order;
  }

  lemma GlueFlat(out: seq<string>, last: string, line: string, more: seq<string>)
    ensures Flat(out + [last, line] + more) == Flat(out + [last + line] + more)
  {
    FlatConcat(out + [last, line], more);
    FlatConcat(out + [last + line], more);
    FlatSnoc(out, last);
    FlatSnoc(out + [last], line);
    FlatSnoc(out, last + line);
    assert out + [last, line] == out + [last] + [line];
    assert Flat(out) + last + line == Flat(out) + (last + line);
  }

  /** An entry still to be written after the last line was kept in no line before. */
  lemma LeftIsNotKept(data: map<string, string>, init: seq<string>, last: string, k: string)
    requires Settable(data) && k in SaveLines(data, init + [last]).left
    ensures k in data && SaveLines(data, init + [last]).left[k] == data[k] && !Kept(data, init, k)
  {
    hide Settable, SaveLines, Carries, Survives;
    LeftAfterLines(data, init + [last]);
    FirstIndexSnoc(data, init, last, k);
  }

  /** The glued line hides the entry that was appended. */
  lemma GluedHides(data: map<string, string>, init: seq<string>, last: string, k: string, rest: seq<string>)
    requires Writable(data) && last != "" && '\n' !in last && KeptVerbatim(SaveLines(data, init).left, last)
    requires var left := SaveLines(data, init + [last]).left;
             k in left && k !in rest && forall q :: q in rest ==> q in left
    ensures k in data
    ensures var left := SaveLines(data, init + [last]).left;
            k !in Loaded(SaveLines(data, init).out + [last + EntryLine(k, data[k])] + EntryLines(left, rest))
  {
    hide Settable, AllTrimmed, EntryLines, Parse, EntryLine, CommentLike, SaveLines, Loaded, FirstIndex, Kept;
    var st, left := SaveLines(data, init), SaveLines(data, init + [last]).left;
    var line := EntryLine(k, left[k]);
    var glued := last + line;
    LeftIsNotKept(data, init, last, k);
    LeftAreSaved(data, init + [last]);
    SaveLast(data, init, last);
    LoadsAfterLines(data, init);
    SettableParts(data, k);
    EntryLineHasEquals(k, left[k]);
    if Parse(last).Comment? {
      CommentGlued(last, line);
      LoadOther(st.out, glued);
    } else {
      EntryGlued(last, line);
      LoadEntry(st.out, glued, Parse(glued).key, Parse(glued).value);
    }
    AddedLinesLoad(data, st.out + [glued], left, rest);
  }

  lemma {:induction false} LoadedHasKeys(lines: seq<string>)
    ensures forall k :: k in Loaded(lines) <==> k in KeysOf(lines)
  {
    if lines != [] {
      LoadedHasKeys(lines[..|lines| - 1]);
    }
  }

  /** An unterminated last line that is copied, with entries to be appended behind it. */
  predicate Glues(left: map<string, string>, last: string) {
    KeptVerbatim(left, last) && LeftAfter(left, last) != map[]
  }

  lemma GlueKind(data: map<string, string>, init: seq<string>, last: string)
    requires '\n' !in last && last != ""
    ensures Glues(SaveLines(data, init).left, last) <==>
            KeptVerbatim(SaveLines(data, init).left, last) && SaveLines(data, init + [last]).left != map[]
  {
    hide SaveLines, Parse, LeftAfter;
    SaveLast(data, init, last);
  }

  /** Saving over a file that lacks its last newline gives the entries back if and only if they come
      back over a file that has it, and the last line is not copied or no entry has to be appended
      after it. */
  lemma UnterminatedRoundTripIff(data: map<string, string>, before: string, init: seq<string>, last: string,
                                 after: string)
    requires Settable(data) && Unterminated(before, init, last) && Saves(data, before, after)
    requires forall k :: k in data ==> |last| + |EntryLine(k, data[k])| <= LINE_LIMIT
    ensures Loaded(Lines(after)) == data <==>
            && AllTrimmed(data) && (forall k :: k in data ==> Survives(data, Lines(before), k))
            && !Glues(SaveLines(data, init).left, last)
  {
    if AllTrimmed(data) {
      UnterminatedTrimmed(data, before, init, last, after);
    } else {
      hide *;
      if Loaded(Lines(after)) == data {
        LoadedIsTrimmed(Lines(after));
        LoadedTrims(data);
      }
    }
  }

  lemma LoadedTrims(data: map<string, string>)
    ensures (forall k :: k in data ==> Trimmed(k) && Trimmed(data[k])) ==> AllTrimmed(data)
  {
  }

  lemma UnterminatedTrimmed(data: map<string, string>, before: string, init: seq<string>, last: string, after: string)
    requires Writable(data) && Unterminated(before, init, last) && Saves(data, before, after)
    requires forall k :: k in data ==> |last| + |EntryLine(k, data[k])| <= LINE_LIMIT
    ensures Loaded(Lines(after)) == data <==>
            && (forall k :: k in data ==> Survives(data, Lines(before), k))
            && !Glues(SaveLines(data, init).left, last)
  {
    hide Settable, AllTrimmed, Lines, Loaded, SaveLines, Flat, EntryLine, Parse, Glues, KeptVerbatim, NewLines, Survives;
    UnterminatedLines(before, init, last);
    var lines := init + [last];
    var order :| Lists(order, SaveLines(data, lines).left) && after == Flat(NewLines(data, lines, order));
    GlueKind(data, init, last);
    if !Glues(SaveLines(data, init).left, last) {
      HarmlessLines(data, init, last, order, before);
      NewLinesLoad(data, lines, order);
      assert Loaded(Lines(after)) == data ==> forall k :: k in data ==> k in Loaded(Lines(after));
    } else {
      GluedLines(data, init, last, order, before);
      SomeListed(order, SaveLines(data, lines).left);
      GluedHides(data, init, last, order[0], order[1..]);
      assert order[0] !in Loaded(Lines(after));
    }
  }

  /** A last comment without its newline swallows the first entry that is written after it. */
  lemma CommentSwallowsEntry(after: string)
    requires Saves(map["k" := "v"], "# c", after)
    ensures Lines(after) == ["# ck=v\r\n"] && Loaded(Lines(after)) == map[]
  {
    hide Lines, Loaded, Flat, NewLines, SaveLines, Storable, Unterminated, KeptVerbatim, EntryLine, Parse;
    var data, last := map["k" := "v"], "# c";
    ShortComment(data, last);
    UnterminatedLines(last, [], last);
    assert [] + [last] == [last];
    var order :| Lists(order, SaveLines(data, [last]).left) && after == Flat(NewLines(data, [last], order));
    OnlyKey(order, data);
    GluedLines(data, [], last, order, last);
    var glued := "# ck=v\r\n";
    assert last + EntryLine("k", "v") == glued && EntryLines(data, order[1..]) == [];
    assert Lines(after) == [] + [glued] + [] == [glued];
    LoadOther([], glued);
    assert [] + [glued] == [glued];
    assert Loaded([]) == map[] by {
      LoadedHasKeys([]);
      NoKeys();
    }
  }

  lemma NoKeys()
    ensures KeysOf([]) == []
  {
  }

  lemma OnlyKey(order: seq<string>, left: map<string, string>)
    requires Lists(order, left) && left.Keys == {"k"}
    ensures order == ["k"]
  {
    assert "k" in order;
    FirstTwo(order);
  }

  lemma FirstTwo(order: seq<string>)
    ensures |order| > 1 ==> order[0] in order && order[1] in order && (Once(order) ==> order[0] != order[1])
  {
  }

  lemma ShortComment(data: map<string, string>, last: string)
    requires data == map["k" := "v"] && last == "# c"
    ensures Storable(data) && Unterminated(last, [], last) && Parse("# ck=v\r\n").Comment?
    ensures EntryLine("k", "v") == "k=v\r\n" && |last| + 5 <= LINE_LIMIT
    ensures SaveLines(data, []).out == [] && KeptVerbatim(SaveLines(data, []).left, last)
    ensures SaveLines(data, [last]).left == data && data.Keys == {"k"} && data != map[]
  {
    hide SaveLines;
    NothingRead(data);
    SaveLast(data, [], last);
    assert [] + [last] == [last];
    EntryLineText("k", "v");
    assert !IsComment("k");
  }

  /** Its keys stay in place, each once, under the same condition; its comments stay unless such a
      last line is itself a comment. */
  lemma UnterminatedLayoutIff(data: map<string, string>, before: string, init: seq<string>, last: string,
                              after: string)
    requires Storable(data) && Unterminated(before, init, last) && Saves(data, before, after)
    requires forall k :: k in data ==> |last| + |EntryLine(k, data[k])| <= LINE_LIMIT
    ensures KeysLaidOut(data, Lines(before), KeysOf(Lines(after))) <==> !Glues(SaveLines(data, init).left, last)
    ensures (forall k :: k in data ==> k in KeysOf(Lines(after))) <==> !Glues(SaveLines(data, init).left, last)
    ensures CommentsOf(Lines(after)) == CommentsOf(Lines(before)) <==>
            !(Glues(SaveLines(data, init).left, last) && Parse(last).Comment?)
  {
    hide Settable, AllTrimmed, Lines, SaveLines, Flat, EntryLine, Parse, Glues, KeptVerbatim, NewLines, CommentLike,
      KeysLaidOut, KeysOf, CommentsOf, FirstIndex;
    UnterminatedLines(before, init, last);
    var lines := init + [last];
    var order :| Lists(order, SaveLines(data, lines).left) && after == Flat(NewLines(data, lines, order));
    GlueKind(data, init, last);
    if !Glues(SaveLines(data, init).left, last) {
      HarmlessLines(data, init, last, order, before);
      KeysOfNew(data, lines, order);
      LaidOutOnce(data, lines, KeysOf(Lines(after)));
      CommentsOfNew(data, lines, order);
    } else {
      GluedLines(data, init, last, order, before);
      SomeListed(order, SaveLines(data, lines).left);
      GluedHides(data, init, last, order[0], order[1..]);
      LoadedHasKeys(Lines(after));
      if KeysLaidOut(data, lines, KeysOf(Lines(after))) {
        LaidOutOnce(data, lines, KeysOf(Lines(after)));
      }
      GluedComments(data, init, last, order[0], order[1..]);
    }
  }

  lemma GluedComments(data: map<string, string>, init: seq<string>, last: string, k: string, rest: seq<string>)
    requires Storable(data) && last != "" && '\n' !in last && KeptVerbatim(SaveLines(data, init).left, last)
    requires k in data
    requires var left := SaveLines(data, init + [last]).left;
             k in left && forall q :: q in rest ==> q in left
    ensures var left := SaveLines(data, init + [last]).left;
            var glued := SaveLines(data, init).out + [last + EntryLine(k, data[k])] + EntryLines(left, rest);
            CommentsOf(glued) == CommentsOf(init + [last]) <==> !Parse(last).Comment?
  {
    hide Settable, AllTrimmed, EntryLines, Parse, EntryLine, CommentLike, SaveLines, CommentsOf, FirstIndex;
    var st, left := SaveLines(data, init), SaveLines(data, init + [last]).left;
    var line := EntryLine(k, data[k]);
    LeftAreSaved(data, init + [last]);
    SavedComments(data, init);
    SettableParts(data, k);
    EntryLineHasEquals(k, data[k]);
    if Parse(last).Comment? {
      CommentGlued(last, line);
    } else {
      EntryGlued(last, line);
    }
    CommentsSnoc(st.out, last + line);
    CommentsSnoc(init, last);
    AddedComments(data, st.out + [last + line], left, rest);
    DifferentEnds(CommentsOf(init), last, last + line);
  }

  lemma DifferentEnds(s: seq<string>, a: string, b: string)
    requires a != b
    ensures s + [a] != s + [b]
  {
    assert (s + [a])[|s|] == a && (s + [b])[|s|] == b;
  }
}
