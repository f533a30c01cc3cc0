/** What a save keeps of the old file's layout: the comment lines and keys of the new file against
    those of the old one. */
module ConfigLayout {
  import opened Text
  import opened ConfigFile
  import opened ConfigTheorems
  import opened Wrappers

  function CommentsOf(lines: seq<string>): seq<string> {
    if lines == [] then []
    else
      var s := lines[|lines| - 1];
      CommentsOf(lines[..|lines| - 1]) + if Parse(s).Comment? then [s] else []
  }

  function KeysOf(lines: seq<string>): seq<string> {
    if lines == [] then []
    else
      var p := Parse(lines[|lines| - 1]);
      KeysOf(lines[..|lines| - 1]) + if p.Entry? then [p.key] else []
  }

  lemma CommentsSnoc(lines: seq<string>, s: string)
    ensures CommentsOf(lines + [s]) == if Parse(s).Comment? then CommentsOf(lines) + [s] else CommentsOf(lines)
  {
    assert (lines + [s])[..|lines|] == lines;
  }

  lemma KeysSnoc(lines: seq<string>, s: string)
    ensures KeysOf(lines + [s]) == if Parse(s).Entry? then KeysOf(lines) + [Parse(s).key] else KeysOf(lines)
  {
    assert (lines + [s])[..|lines|] == lines;
  }

  lemma LineOfEntry(data: map<string, string>, k: string)
    requires Settable(data) && k in data
    ensures if CommentLike(k) then Parse(EntryLine(k, data[k])).Comment? else Parse(EntryLine(k, data[k])).Entry?
  {
    ParseEntryLine(k, data[k]);
  }

  // ----- comments -----

  /** Is some key that a line carries lost? */
  ghost predicate SomeLost(data: map<string, string>, lines: seq<string>) {
    exists k :: k in data && FirstIndex(data, lines, k) < |lines| && !Survives(data, lines, k)
  }

  /** The comments so far are the old ones, and more only when an entry has become a comment. */
  ghost predicate CommentsSo(data: map<string, string>, lines: seq<string>, out: seq<string>) {
    if SomeLost(data, lines) then |CommentsOf(out)| > |CommentsOf(lines)| else CommentsOf(out) == CommentsOf(lines)
  }

  lemma SurvivesSnoc(data: map<string, string>, lines: seq<string>, s: string, k: string)
    requires k in data
    ensures FirstIndex(data, lines, k) < |lines| ==>
              && FirstIndex(data, lines + [s], k) < |lines + [s]|
              && (Survives(data, lines + [s], k) <==> Survives(data, lines, k))
    ensures FirstIndex(data, lines, k) == |lines| ==>
              && (FirstIndex(data, lines + [s], k) < |lines + [s]| <==> Carries(data, s, k))
              && (Carries(data, s, k) ==>
                    (Survives(data, lines + [s], k) <==> (CommentLike(k) ==> Parse(s).value == data[k])))
  {
    hide Parse, FirstIndex, CommentLike, Carries;
    FirstIndexSnoc(data, lines, s, k);
  }

  /** Nothing is newly lost unless the line carries a key that looks like a comment, with another value. */
  lemma LostSnoc(data: map<string, string>, lines: seq<string>, s: string)
    ensures SomeLost(data, lines + [s]) <==>
              || SomeLost(data, lines)
              || (Parse(s).Entry? && LosesKey(data, lines, s, Parse(s).key))
  {
    hide Parse, FirstIndex, CommentLike, Survives;
    forall k | k in data {
      SurvivesSnoc(data, lines, s, k);
    }
    if SomeLost(data, lines) {
      var k :| k in data && FirstIndex(data, lines, k) < |lines| && !Survives(data, lines, k);
      assert !Survives(data, lines + [s], k);
    }
    if SomeLost(data, lines + [s]) {
      var k :| k in data && FirstIndex(data, lines + [s], k) < |lines + [s]| && !Survives(data, lines + [s], k);
    }
  }

  predicate LosesKey(data: map<string, string>, lines: seq<string>, s: string, k: string) {
    && k in data && FirstIndex(data, lines, k) == |lines| && Carries(data, s, k)
    && CommentLike(k) && Parse(s).Entry? && Parse(s).value != data[k]
  }

  lemma CommentsStep(data: map<string, string>, lines: seq<string>, st: Saving, s: string)
    requires Settable(data) && LeftIs(data, lines, st.left) && CommentsSo(data, lines, st.out)
    ensures CommentsSo(data, lines + [s], SaveLine(st, s).out)
  {
    hide Settable, Parse, EntryLine, CStr, CommentsOf, FirstIndex, CommentLike, SomeLost;
    LostSnoc(data, lines, s);
    CommentsSnoc(lines, s);
    ParseBlank();
    CommentsSnoc(st.out, "\r\n");
    CommentsSnoc(st.out, s);
    if Parse(s).Entry? && Parse(s).key in st.left {
      var k := Parse(s).key;
      SettableParts(data, k);
      LineOfEntry(data, k);
      CommentsSnoc(st.out, EntryLine(k, data[k]));
      EmptyIsPlain();
    }
  }

  lemma EmptyIsPlain()
    ensures !CommentLike("")
  {
  }

  lemma {:induction false} SavedComments(data: map<string, string>, lines: seq<string>)
    requires Settable(data)
    ensures CommentsSo(data, lines, SaveLines(data, lines).out)
    decreases |lines|
  {
    hide Settable, SaveLine, CommentsSo, LeftIs;
    if lines == [] {
      NoComments(data);
    } else {
      var init := lines[..|lines| - 1];
      SavedComments(data, init);
      LeftAfterLines(data, init);
      CommentsStep(data, init, SaveLines(data, init), lines[|lines| - 1]);
      assert lines == init + [lines[|lines| - 1]];
    }
  }

  lemma NoComments(data: map<string, string>)
    ensures CommentsSo(data, [], SaveLines(data, []).out)
  {
  }

  lemma {:induction false} AddedComments(data: map<string, string>, out: seq<string>, left: map<string, string>,
                                         order: seq<string>)
    requires Settable(data) && forall k :: k in order ==> k in left && k in data && data[k] == left[k]
    ensures var all := CommentsOf(out + EntryLines(left, order));
            if exists k :: k in order && CommentLike(k) then |all| > |CommentsOf(out)| else all == CommentsOf(out)
    decreases |order|
  {
    hide Settable, CommentsOf, Parse, EntryLine, CommentLike;
    if order == [] {
      assert out + EntryLines(left, order) == out;
    } else {
      var init, k := order[..|order| - 1], order[|order| - 1];
      AddedComments(data, out, left, init);
      LineOfEntry(data, k);
      assert order == init + [k];
      assert out + EntryLines(left, order) == out + EntryLines(left, init) + [EntryLine(k, left[k])];
      CommentsSnoc(out + EntryLines(left, init), EntryLine(k, left[k]));
    }
  }

  lemma CommentsOfNew(data: map<string, string>, lines: seq<string>, order: seq<string>)
    requires Settable(data) && Lists(order, SaveLines(data, lines).left)
    ensures CommentsOf(NewLines(data, lines, order)) == CommentsOf(lines) <==>
            forall k :: k in data ==> Survives(data, lines, k)
  {
    hide Settable, CommentsOf, SaveLines, FirstIndex, CommentLike, Parse, EntryLines;
    var st := SaveLines(data, lines);
    LeftAfterLines(data, lines);
    SavedComments(data, lines);
    AddedComments(data, st.out, st.left, order);
    forall k | k in data && FirstIndex(data, lines, k) == |lines|
      ensures Survives(data, lines, k) <==> !CommentLike(k)
    {
    }
  }

  /** The comment lines of the new file are those of the old file, verbatim and in order, if and only
      if every key that looks like a comment has its value in the first old line that carries it. */
  lemma CommentsKeptIff(data: map<string, string>, before: string, after: string)
    requires Settable(data) && CleanFile(before) && Saves(data, before, after)
    ensures CommentsOf(Lines(after)) == CommentsOf(Lines(before)) <==>
            forall k :: k in data ==> Survives(data, Lines(before), k)
  {
    hide Settable, CleanFile, Lines, CommentsOf, SaveLines, Survives, Saves, NewLines;
    var order := LinesOfSaved(data, before, after);
    CommentsOfNew(data, Lines(before), order);
  }

  /** So they are when no key looks like a comment. */
  lemma CommentsKept(data: map<string, string>, before: string, after: string)
    requires Storable(data) && CleanFile(before) && Saves(data, before, after)
    ensures CommentsOf(Lines(after)) == CommentsOf(Lines(before))
  {
    hide Settable, AllTrimmed, CleanFile, Lines, CommentsOf, Saves, CommentLike;
    CommentsKeptIff(data, before, after);
  }

  // ----- keys -----

  /** Each key is carried, each first by a later line than the one before. */
  ghost predicate InOldOrder(data: map<string, string>, lines: seq<string>, keys: seq<string>) {
    && (forall i :: 0 <= i < |keys| ==> FirstIndex(data, lines, keys[i]) < |lines|)
    && (forall i, j :: 0 <= i < j < |keys| ==> FirstIndex(data, lines, keys[i]) < FirstIndex(data, lines, keys[j]))
  }

  /** The keys that the old lines keep, in the order of the first lines that carry them. */
  ghost predicate OldKeys(data: map<string, string>, lines: seq<string>, keys: seq<string>) {
    && InOldOrder(data, lines, keys)
    && forall k :: k in keys <==> Kept(data, lines, k)
  }

  /** Keys that no old line carries, each once. */
  ghost predicate NewKeys(data: map<string, string>, lines: seq<string>, keys: seq<string>) {
    && Once(keys)
    && forall k :: k in keys <==> k in data && FirstIndex(data, lines, k) == |lines| && !CommentLike(k)
  }

  ghost predicate KeysLaidOut(data: map<string, string>, lines: seq<string>, keys: seq<string>) {
    exists kept, added :: keys == kept + added && OldKeys(data, lines, kept) && NewKeys(data, lines, added)
  }

  lemma OldKeysStay(data: map<string, string>, lines: seq<string>, s: string, keys: seq<string>)
    requires OldKeys(data, lines, keys) && forall k :: !Kept(data, lines, k) ==> !Kept(data, lines + [s], k)
    ensures OldKeys(data, lines + [s], keys)
  {
    hide FirstIndex, Carries, Kept;
    forall k ensures FirstIndex(data, lines, k) < |lines| ==>
      FirstIndex(data, lines + [s], k) == FirstIndex(data, lines, k)
    {
      FirstIndexSnoc(data, lines, s, k);
    }
    forall k ensures Kept(data, lines, k) <==> Kept(data, lines + [s], k) {
      KeptSnoc(data, lines, s, k);
    }
  }

  lemma OldKeysGrow(data: map<string, string>, lines: seq<string>, s: string, keys: seq<string>, k: string)
    requires OldKeys(data, lines, keys) && !Kept(data, lines, k) && Kept(data, lines + [s], k)
    requires FirstIndex(data, lines, k) == |lines|
    requires forall q :: q != k && !Kept(data, lines, q) ==> !Kept(data, lines + [s], q)
    ensures OldKeys(data, lines + [s], keys + [k])
  {
    hide FirstIndex, Carries, Survives;
    forall q ensures FirstIndex(data, lines, q) < |lines| ==>
      FirstIndex(data, lines + [s], q) == FirstIndex(data, lines, q)
    {
      FirstIndexSnoc(data, lines, s, q);
    }
    forall q ensures Kept(data, lines, q) || q == k <==> Kept(data, lines + [s], q) {
      KeptSnoc(data, lines, s, q);
    }
    FirstIndexSnoc(data, lines, s, k);
    var more := keys + [k];
    assert more[|keys|] == k && forall i :: 0 <= i < |keys| ==> more[i] == keys[i];
    forall q ensures q in more <==> q in keys || q == k {
    }
  }

  /** A line adds its key when it is copied, and when it is rewritten as an entry. */
  lemma NextKeys(data: map<string, string>, lines: seq<string>, st: Saving, s: string)
    requires Writable(data) && LeftIs(data, lines, st.left)
    ensures var p := Parse(s);
            KeysOf(SaveLine(st, s).out) ==
            if p.Entry? && p.key in st.left && (p.value == data[p.key] || (p.key != "" && !CommentLike(p.key)))
            then KeysOf(st.out) + [p.key] else KeysOf(st.out)
  {
    hide Settable, AllTrimmed, Parse, EntryLine, CStr, KeysOf, FirstIndex, CommentLike;
    ParseBlank();
    KeysSnoc(st.out, "\r\n");
    KeysSnoc(st.out, s);
    if Parse(s).Entry? && Parse(s).key in st.left {
      var k := Parse(s).key;
      SettableParts(data, k);
      WritableEntry(data, k, data[k]);
      KeysSnoc(st.out, EntryLine(k, data[k]));
    }
  }

  lemma KeysStep(data: map<string, string>, lines: seq<string>, st: Saving, s: string)
    requires Writable(data) && LeftIs(data, lines, st.left) && OldKeys(data, lines, KeysOf(st.out))
    ensures OldKeys(data, lines + [s], KeysOf(SaveLine(st, s).out))
  {
    hide Settable, AllTrimmed, Parse, SaveLine, KeysOf, FirstIndex, CommentLike, Survives, OldKeys;
    forall k {
      KeptSnoc(data, lines, s, k);
    }
    NextKeys(data, lines, st, s);
    if Parse(s).Entry? && Parse(s).key in st.left {
      var k := Parse(s).key;
      if Kept(data, lines + [s], k) {
        OldKeysGrow(data, lines, s, KeysOf(st.out), k);
      } else {
        OldKeysStay(data, lines, s, KeysOf(st.out));
      }
    } else {
      OldKeysStay(data, lines, s, KeysOf(st.out));
    }
  }

  lemma {:induction false} SavedKeys(data: map<string, string>, lines: seq<string>)
    requires Writable(data)
    ensures OldKeys(data, lines, KeysOf(SaveLines(data, lines).out))
    decreases |lines|
  {
    hide Settable, AllTrimmed, SaveLine, OldKeys, LeftIs, KeysOf;
    if lines == [] {
      NoKeys(data);
    } else {
      var init := lines[..|lines| - 1];
      SavedKeys(data, init);
      LeftAfterLines(data, init);
      KeysStep(data, init, SaveLines(data, init), lines[|lines| - 1]);
      assert lines == init + [lines[|lines| - 1]];
    }
  }

  lemma NoKeys(data: map<string, string>)
    ensures OldKeys(data, [], KeysOf(SaveLines(data, []).out))
  {
  }

  /** The keys that do not look like comments. */
  function Plain(keys: seq<string>): (r: seq<string>)
    ensures forall k :: k in r <==> k in keys && !CommentLike(k)
  {
    if keys == [] then []
    else
      var n := |keys| - 1;
      assert keys == keys[..n] + [keys[n]];
      Plain(keys[..n]) + if CommentLike(keys[n]) then [] else [keys[n]]
  }

  lemma {:induction false} PlainOnce(keys: seq<string>)
    requires Once(keys)
    ensures Once(Plain(keys))
  {
    hide CommentLike;
    if keys != [] {
      PlainOnce(keys[..|keys| - 1]);
      assert keys[|keys| - 1] !in keys[..|keys| - 1];
    }
  }

  lemma PlainLast(keys: seq<string>)
    ensures keys == [] ==> Plain(keys) == []
    ensures keys != [] ==>
              var n := |keys| - 1;
              Plain(keys) == if CommentLike(keys[n]) then Plain(keys[..n]) else Plain(keys[..n]) + [keys[n]]
  {
  }

  lemma NothingAdded(left: map<string, string>)
    ensures EntryLines(left, []) == []
  {
  }

  lemma {:induction false} AddedKeys(data: map<string, string>, out: seq<string>, left: map<string, string>,
                                     order: seq<string>)
    requires Writable(data) && forall k :: k in order ==> k in left && k in data && data[k] == left[k]
    ensures KeysOf(out + EntryLines(left, order)) == KeysOf(out) + Plain(order)
    decreases |order|
  {
    hide Settable, AllTrimmed, KeysOf, Parse, EntryLine, CommentLike, EntryLines, Plain;
    PlainLast(order);
    if order == [] {
      NothingAdded(left);
      assert out + [] == out && KeysOf(out) + [] == KeysOf(out);
    } else {
      var init, k := order[..|order| - 1], order[|order| - 1];
      AddedKeys(data, out, left, init);
      WritableEntry(data, k, left[k]);
      assert order == init + [k];
      EntryLinesSnoc(left, init, k);
      assert out + EntryLines(left, order) == out + EntryLines(left, init) + [EntryLine(k, left[k])];
      KeysSnoc(out + EntryLines(left, init), EntryLine(k, left[k]));
    }
  }

  lemma KeysOfNew(data: map<string, string>, lines: seq<string>, order: seq<string>)
    requires Writable(data) && Lists(order, SaveLines(data, lines).left)
    ensures KeysLaidOut(data, lines, KeysOf(NewLines(data, lines, order)))
  {
    hide Settable, AllTrimmed, KeysOf, SaveLines, FirstIndex, CommentLike, EntryLines, OldKeys;
    var st := SaveLines(data, lines);
    LeftAfterLines(data, lines);
    SavedKeys(data, lines);
    AddedKeys(data, st.out, st.left, order);
    PlainOnce(order);
    assert NewKeys(data, lines, Plain(order));
  }

  /** The keys of the new file: those that the old lines keep, in the order of the first lines that
      carry them, and then those that no old line carries. */
  lemma OrderKept(data: map<string, string>, before: string, after: string)
    requires Writable(data) && CleanFile(before) && Saves(data, before, after)
    ensures KeysLaidOut(data, Lines(before), KeysOf(Lines(after)))
  {
    hide Settable, AllTrimmed, CleanFile, Lines, KeysOf, SaveLines, KeysLaidOut, Saves, NewLines;
    var order := LinesOfSaved(data, before, after);
    KeysOfNew(data, Lines(before), order);
  }

  lemma LaidOutOnce(data: map<string, string>, lines: seq<string>, keys: seq<string>)
    requires KeysLaidOut(data, lines, keys)
    ensures Once(keys)
    ensures forall k :: k in keys <==> k in data && Survives(data, lines, k)
  {
    hide FirstIndex, Parse;
    var kept, added :| keys == kept + added && OldKeys(data, lines, kept) && NewKeys(data, lines, added);
    forall i, j | 0 <= i < j < |keys| ensures keys[i] != keys[j] {
      if i < |kept| <= j {
        assert kept[i] in kept && added[j - |kept|] in added;
      }
    }
  }

  /** Every key that survives is in the new file exactly once, and no other key is. */
  lemma KeysOnce(data: map<string, string>, before: string, after: string)
    requires Writable(data) && CleanFile(before) && Saves(data, before, after)
    ensures Once(KeysOf(Lines(after)))
    ensures forall k :: k in KeysOf(Lines(after)) <==> k in data && Survives(data, Lines(before), k)
  {
    hide Settable, AllTrimmed, CleanFile, Lines, KeysOf, Saves, Survives, KeysLaidOut;
    OrderKept(data, before, after);
    LaidOutOnce(data, Lines(before), KeysOf(Lines(after)));
  }
}
