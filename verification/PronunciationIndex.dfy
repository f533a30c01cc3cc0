/** The offset table points where it should, and an indexed lookup agrees with a scan of the whole
    dictionary except for one group. */
module PronunciationIndex {
  import opened Text
  import opened Pronunciation

  // ----- offsets -----

  lemma {:induction false} OffsetMonotone(lines: seq<string>, i: nat, j: nat)
    requires i <= j <= |lines|
    ensures Offset(lines, i) <= Offset(lines, j)
    decreases j - i
  {
    if i < j {
      OffsetMonotone(lines, i, j - 1);
    }
  }

  lemma {:induction false} OffsetStrict(lines: seq<string>, i: nat, j: nat)
    requires i < j <= |lines| && forall k :: 0 <= k < |lines| ==> |lines[k]| > 0
    ensures Offset(lines, i) < Offset(lines, j)
  {
    OffsetMonotone(lines, i + 1, j);
  }

  /** Reading from the offset of line `i` delivers the lines from `i` on. */
  lemma {:induction false} LinesFromOffset(file: string, i: nat)
    requires i <= |FileLines(file)|
    ensures Offset(FileLines(file), i) <= |file|
    ensures FileLines(file[Offset(FileLines(file), i)..]) == FileLines(file)[i..]
  {
    hide Pieces;
    var lines := FileLines(file);
    if i == 0 {
      assert file[0..] == file;
    } else {
      LinesFromOffset(file, i - 1);
      var rest := file[Offset(lines, i - 1)..];
      PiecesUnfold(rest, LINE_LIMIT);
      assert FileLines(rest)[0] == lines[i - 1];
      var n := FgetsLength(rest, LINE_LIMIT);
      assert rest[n..] == file[Offset(lines, i)..];
      assert FileLines(rest)[1..] == lines[i..];
    }
  }

  lemma {:induction false} WholeFile(file: string)
    ensures Offset(FileLines(file), |FileLines(file)|) == |file|
    ensures forall k :: 0 <= k < |FileLines(file)| ==> |FileLines(file)[k]| > 0
  {
    hide Pieces;
    var lines := FileLines(file);
    LinesFromOffset(file, |lines|);
    var rest := file[Offset(lines, |lines|)..];
    PiecesUnfold(rest, LINE_LIMIT);
    assert FileLines(rest) == [];
    PiecesComplete(file, LINE_LIMIT);
  }

  // ----- the first pass -----

  /** After the lines before `i`: each group that has occurred holds the offset of its first line. */
  ghost predicate PassedUpTo(lines: seq<string>, i: nat, table: seq<nat>, last: int)
    requires i <= |lines| && |table| == GROUPS + 1
  {
    && (forall g :: 0 <= g < GROUPS ==> table[g] == FirstOffset(lines, g, i))
    && table[GROUPS] == 0
    && (last == NO_GROUP ==> forall k :: 0 <= k < i ==> Group(lines[k]) < 0)
    && (last != NO_GROUP ==> exists k :: 0 <= k < i && Group(lines[k]) == last)
    && (forall k :: 0 <= k < i && Group(lines[k]) >= 0 && last != NO_GROUP ==> Group(lines[k]) <= last)
  }

  function FirstOffset(lines: seq<string>, g: int, i: nat): nat
    requires i <= |lines|
  {
    var j := FirstOf(lines, g, 0);
    if j < i then Offset(lines, j) else 0
  }

  lemma PassStep(lines: seq<string>, i: nat, table: seq<nat>, last: int)
    requires i < |lines| && |table| == GROUPS + 1 && Ascending(lines) && PassedUpTo(lines, i, table, last)
    ensures var g := Group(lines[i]);
            && (g < 0 || g == last ==> PassedUpTo(lines, i + 1, table, last))
            && (g >= 0 && g != last ==> PassedUpTo(lines, i + 1, table[g := Offset(lines, i)], g))
  {
    hide Group, Offset, FirstOf;
    var g := Group(lines[i]);
    forall h | 0 <= h < GROUPS && h != g ensures FirstOffset(lines, h, i + 1) == FirstOffset(lines, h, i) {
    }
    if g >= 0 {
      if g == last {
        assert FirstOf(lines, g, 0) < i;
      } else {
        assert forall k :: 0 <= k < i ==> Group(lines[k]) != g;
        assert FirstOf(lines, g, 0) == i;
      }
    }
  }

  lemma {:induction false} BuildIsFirstOffsets(lines: seq<string>, i: nat, table: seq<nat>, last: int)
    requires i <= |lines| && |table| == GROUPS + 1 && Ascending(lines) && PassedUpTo(lines, i, table, last)
    ensures var r := Build(table, last, lines[i..], Offset(lines, i));
            && (forall g :: 0 <= g < GROUPS ==> r[g] == FirstOffset(lines, g, |lines|))
            && r[GROUPS] == 0
    decreases |lines| - i
  {
    hide Ascending, FirstOffset, Group;
    if i < |lines| {
      PassStep(lines, i, table, last);
      var g := Group(lines[i]);
      assert lines[i..][0] == lines[i] && lines[i..][1..] == lines[i + 1..];
      if g < 0 || g == last {
        BuildIsFirstOffsets(lines, i + 1, table, last);
      } else {
        BuildIsFirstOffsets(lines, i + 1, table[g := Offset(lines, i)], g);
      }
    }
  }

  lemma RawTableIs(file: string)
    requires Ascending(FileLines(file))
    ensures forall g :: 0 <= g < GROUPS ==> RawTable(file)[g] == FirstOffset(FileLines(file), g, |FileLines(file)|)
    ensures RawTable(file)[GROUPS] == |file|
  {
    hide Build, Ascending;
    var lines := FileLines(file);
    var zeros: seq<nat> := seq(GROUPS + 1, _ => 0);
    BuildIsFirstOffsets(lines, 0, zeros, NO_GROUP);
    assert lines[0..] == lines;
  }

  // ----- the table after back-filling -----

  /** Group of the very first line: the only line whose offset is 0. */
  function LostGroup(lines: seq<string>): int {
    if lines == [] then -1 else Group(lines[0])
  }

  lemma NextGroup(lines: seq<string>, g: nat)
    requires g < GROUPS && Ascending(lines)
    ensures var j := FirstOf(lines, g, 0);
            FirstAtLeast(lines, g, 0) == if j < |lines| then j else FirstAtLeast(lines, g + 1, 0)
  {
    hide Group;
    var j, a, b := FirstOf(lines, g, 0), FirstAtLeast(lines, g, 0), FirstAtLeast(lines, g + 1, 0);
    if j < |lines| {
      assert forall k :: 0 <= k < j ==> Group(lines[k]) < g;
      assert a == j;
    } else {
      assert forall k :: 0 <= k < |lines| ==> Group(lines[k]) != g;
      assert a == b;
    }
  }

  /** Each entry is the offset of the first line of its own group or, if the group is empty, of the
      first line of a later group, or the file size. An entry up to the group of a line at offset 0
      points past that group, because the offset 0 also means "no line yet". */
  lemma {:induction false} TableEntry(file: string, g: nat)
    requires g <= GROUPS && Ascending(FileLines(file))
    ensures var lines := FileLines(file);
            var from := if g <= LostGroup(lines) then LostGroup(lines) + 1 else g;
            TableAt(file, g) == Offset(lines, FirstAtLeast(lines, from, 0)) <= |file|
    decreases GROUPS - g
  {
    hide Build, Pieces, Group, Offset, Ascending;
    var lines := FileLines(file);
    RawTableIs(file);
    WholeFile(file);
    if g == GROUPS {
      assert FirstAtLeast(lines, GROUPS, 0) == |lines|;
    } else {
      var j := FirstOf(lines, g, 0);
      TableEntry(file, g + 1);
      NextGroup(lines, g);
      OffsetZero(lines, j);
      if lines != [] && j > 0 {
        OffsetMonotone(lines, j, |lines|);
      }
      if g <= LostGroup(lines) {
        BelowLost(lines, g);
      }
    }
  }

  lemma OffsetZero(lines: seq<string>, j: nat)
    requires j <= |lines| && forall k :: 0 <= k < |lines| ==> |lines[k]| > 0
    ensures Offset(lines, j) == 0 <==> j == 0
  {
    if j > 0 {
      OffsetStrict(lines, 0, j);
    }
  }

  lemma FirstIsLeast(lines: seq<string>)
    requires Ascending(lines) && LostGroup(lines) >= 0
    ensures forall k :: 0 <= k < |lines| && Group(lines[k]) >= 0 ==> LostGroup(lines) <= Group(lines[k])
  {
  }

  /** Groups below that of the first line are empty; the first line's own is found at line 0. */
  lemma BelowLost(lines: seq<string>, g: nat)
    requires Ascending(lines) && g <= LostGroup(lines)
    ensures FirstOf(lines, g, 0) == if g == LostGroup(lines) then 0 else |lines|
  {
    hide Group;
    FirstIsLeast(lines);
  }

  /** The table never goes down and ends at the file size. */
  lemma TableMonotone(file: string, g: nat)
    requires g < GROUPS && Ascending(FileLines(file))
    ensures TableAt(file, g) <= TableAt(file, g + 1) && TableAt(file, GROUPS) == |file|
  {
    hide Group, Pieces, Fill, RawTable, Offset;
    var lines := FileLines(file);
    TableEntry(file, g);
    TableEntry(file, g + 1);
    TableEntry(file, GROUPS);
    WholeFile(file);
    var from := if g <= LostGroup(lines) then LostGroup(lines) + 1 else g;
    var next := if g + 1 <= LostGroup(lines) then LostGroup(lines) + 1 else g + 1;
    assert FirstAtLeast(lines, from, 0) <= FirstAtLeast(lines, next, 0);
    OffsetMonotone(lines, FirstAtLeast(lines, from, 0), FirstAtLeast(lines, next, 0));
    assert FirstAtLeast(lines, GROUPS, 0) == |lines|;
  }

  // ----- lookups -----

  lemma UpperSearch(word: string)
    requires Searchable(word)
    ensures var a := CStr(SearchText(word));
            |a| >= 2 && |ToUpper(word)| >= 2 && a[..2] == ToUpper(word)[..2]
  {
    var s := SearchText(word);
    assert s[0] == ToUpper(word)[0] && s[1] == ToUpper(word)[1];
    var a := CStr(s);
    assert |a| < |s| ==> s[|a|] == '\0';
  }

  lemma GroupOfPrefix(a: string, b: string)
    requires |a| >= 2 && |b| >= 2 && a[..2] == b[..2]
    ensures Group(a) == Group(b)
  {
    assert a[0] == a[..2][0] && a[1] == a[..2][1] && b[0] == b[..2][0] && b[1] == b[..2][1];
  }

  /** A matching line belongs to the word's group. */
  lemma HitIsInGroup(word: string, line: string)
    requires Searchable(word) && Hit(SearchText(word), line)
    ensures Group(line) == Group(ToUpper(word))
  {
    hide Group, ToUpper, CStr;
    UpperSearch(word);
    var a, b := CStr(SearchText(word)), CStr(line);
    assert a <= b;
    assert b[..2] == line[..2] && a[..2] == b[..2];
    GroupOfPrefix(line, ToUpper(word));
  }

  lemma {:induction false} ScanMissesTo(search: string, lines: seq<string>, i: nat, j: nat)
    requires i <= j <= |lines| && forall k :: i <= k < j ==> !Hit(search, lines[k])
    ensures Scan(search, lines[i..]) == Scan(search, lines[j..])
    decreases j - i
  {
    if i < j {
      assert lines[i..][0] == lines[i] && lines[i..][1..] == lines[i + 1..];
      ScanMissesTo(search, lines, i + 1, j);
    }
  }

  lemma {:induction false} ScanMisses(search: string, lines: seq<string>, i: nat)
    requires i <= |lines| && forall k :: i <= k < |lines| ==> !Hit(search, lines[k])
    ensures Scan(search, lines[i..]) == ""
  {
    ScanMissesTo(search, lines, i, |lines|);
  }

  /** Stopping at an offset loses nothing when no line after it matches. */
  lemma {:induction false} BoundedIsScan(search: string, lines: seq<string>, i: nat, end: nat)
    requires i <= |lines| && end <= |lines| && forall k :: 0 <= k < |lines| ==> |lines[k]| > 0
    requires forall k :: end <= k < |lines| ==> !Hit(search, lines[k])
    ensures BoundedScan(search, lines[i..], Offset(lines, i), Offset(lines, end)) ==
            if i <= end then Scan(search, lines[i..]) else ""
    decreases |lines| - i
  {
    hide Hit, Reading;
    if i > end {
      OffsetStrict(lines, end, i);
    } else if i < |lines| {
      OffsetMonotone(lines, i, end);
      assert lines[i..][0] == lines[i] && lines[i..][1..] == lines[i + 1..];
      BoundedIsScan(search, lines, i + 1, end);
      if i == end {
        ScanMisses(search, lines, i + 1);
      }
    }
  }

  /** From the first line of a later group on, nothing matches the word. */
  lemma NoHitsFrom(word: string, lines: seq<string>, next: int)
    requires Searchable(word) && Ascending(lines) && next > Group(ToUpper(word))
    ensures forall k :: FirstAtLeast(lines, next, 0) <= k < |lines| ==> !Hit(SearchText(word), lines[k])
  {
    hide Group, ToUpper, Hit, SearchText;
    var end := FirstAtLeast(lines, next, 0);
    forall k | end <= k < |lines| ensures !Hit(SearchText(word), lines[k]) {
      assert Group(lines[end]) >= next;
      assert Group(lines[k]) >= 0 ==> Group(lines[end]) <= Group(lines[k]);
      if Hit(SearchText(word), lines[k]) {
        HitIsInGroup(word, lines[k]);
      }
    }
  }

  /** Before the first line of the word's group, nothing matches it. */
  lemma NoHitsBefore(word: string, lines: seq<string>)
    requires Searchable(word)
    ensures forall k :: 0 <= k < FirstAtLeast(lines, Group(ToUpper(word)), 0) ==> !Hit(SearchText(word), lines[k])
  {
    hide Group, ToUpper, Hit, SearchText;
    forall k | 0 <= k < FirstAtLeast(lines, Group(ToUpper(word)), 0) ensures !Hit(SearchText(word), lines[k]) {
      if Hit(SearchText(word), lines[k]) {
        HitIsInGroup(word, lines[k]);
      }
    }
  }

  lemma LookupFromTable(file: string, word: string)
    requires Searchable(word) && Ascending(FileLines(file))
    ensures var lines, g := FileLines(file), Group(ToUpper(word));
            var lost := LostGroup(lines);
            Lookup(file, word) ==
            if g <= lost then "" else Scan(SearchText(word), lines[FirstAtLeast(lines, g, 0)..])
  {
    hide Group, ToUpper, Pieces, Fill, RawTable, Offset, Hit, Reading, Scan, BoundedScan, SearchText, Ascending,
         FirstAtLeast, FileLines, TableAt;
    var lines, g := FileLines(file), Group(ToUpper(word));
    var lost := LostGroup(lines);
    TableEntry(file, g);
    TableEntry(file, g + 1);
    var from := if g <= lost then lost + 1 else g;
    var next := if g + 1 <= lost then lost + 1 else g + 1;
    var i, end := FirstAtLeast(lines, from, 0), FirstAtLeast(lines, next, 0);
    LinesFromOffset(file, i);
    WholeFile(file);
    NoHitsFrom(word, lines, next);
    BoundedIsScan(SearchText(word), lines, i, end);
    if g <= lost {
      assert i == end;
      ScanMisses(SearchText(word), lines, i);
    } else {
      assert i <= end;
    }
  }

  /** The words of the first line's group are never found when that line is at offset 0, which is
      when it is an indexed line; every other lookup equals a scan of the whole file. */
  lemma LookupIsScan(file: string, word: string)
    requires Searchable(word) && Ascending(FileLines(file))
    ensures Lookup(file, word) ==
            if Group(ToUpper(word)) == LostGroup(FileLines(file)) then ""
            else Scan(SearchText(word), FileLines(file))
  {
    hide Group, ToUpper, Pieces, Hit, Reading, Scan, Lookup, SearchText;
    var lines, g := FileLines(file), Group(ToUpper(word));
    LookupFromTable(file, word);
    assert lines[0..] == lines;
    if g < LostGroup(lines) {
      NoHitsFrom(word, lines, LostGroup(lines));
      ScanMisses(SearchText(word), lines, 0);
    } else if g > LostGroup(lines) {
      NoHitsBefore(word, lines);
      ScanMissesTo(SearchText(word), lines, 0, FirstAtLeast(lines, g, 0));
    }
  }

  /** Indexed lookup agrees with the scan for a word if and only if the word is not in the first
      line's group or the scan finds no reading for it either. */
  lemma LookupAgreesIff(file: string, word: string)
    requires Searchable(word) && Ascending(FileLines(file))
    ensures Lookup(file, word) == Scan(SearchText(word), FileLines(file)) <==>
            || LostGroup(FileLines(file)) != Group(ToUpper(word))
            || Scan(SearchText(word), FileLines(file)) == ""
  {
    hide Scan, Lookup, Group, ToUpper, SearchText, FileLines;
    LookupIsScan(file, word);
  }

  // ----- files whose lookups all agree -----

  predicate NoSmallLetter(s: string) {
    forall c :: c in s ==> !('a' <= c <= 'z')
  }

  /** Is line `i` the first one that begins with its own first `p` characters and a space, with no
      small letter in them, and is there a reading on it? */
  predicate Headword(lines: seq<string>, i: nat, p: nat) {
    && i < |lines| && Reading(lines[i]) != ""
    && var c := CStr(lines[i]);
       && p < |c| && c[p] == ' ' && NoSmallLetter(c[..p])
       && forall k :: 0 <= k < i ==> !(c[..p + 1] <= CStr(lines[k]))
  }

  lemma {:induction false} UpperIsPlain(s: string)
    ensures NoSmallLetter(ToUpper(s)) && ('\0' !in s ==> '\0' !in ToUpper(s))
  {
    if s != "" {
      UpperIsPlain(s[1..]);
    }
  }

  lemma {:induction false} UpperKeeps(s: string)
    requires NoSmallLetter(s)
    ensures ToUpper(s) == s
  {
    if s != "" {
      assert s[0] in s && forall c :: c in s[1..] ==> c in s;
      UpperKeeps(s[1..]);
      assert s == [s[0]] + s[1..];
    }
  }

  lemma {:induction false} HasSpace(s: string, p: nat)
    requires p < |s| && s[p] == ' '
    ensures FirstSpace(s) <= p
  {
    if s[0] != ' ' {
      HasSpace(s[1..], p - 1);
    }
  }

  /** A word without NUL is found on the lines that begin with it and a space. */
  lemma HitIsPrefix(word: string, line: string)
    requires '\0' !in word
    ensures Hit(SearchText(word), line) <==> SearchText(word) <= CStr(line)
  {
    UpperIsPlain(word);
    CStrWithoutNul(SearchText(word));
    if SearchText(word) <= CStr(line) {
      HasSpace(CStr(line), |word|);
    }
  }

  /** A reading that the scan finds stands on the first line it hits. */
  lemma {:induction false} ScanFinds(search: string, lines: seq<string>) returns (i: nat)
    requires Scan(search, lines) != ""
    ensures i < |lines| && Hit(search, lines[i]) && Scan(search, lines) == Reading(lines[i])
    ensures forall k :: 0 <= k < i ==> !Hit(search, lines[k])
  {
    hide Hit, Reading;
    if Hit(search, lines[0]) {
      i := 0;
    } else {
      i := ScanFinds(search, lines[1..]);
      i := i + 1;
    }
  }

  lemma FoundIsHeadword(lines: seq<string>, word: string) returns (i: nat)
    requires Searchable(word) && '\0' !in word && Scan(SearchText(word), lines) != ""
    ensures i < |lines| && Headword(lines, i, |word|) && Group(lines[i]) == Group(ToUpper(word))
  {
    hide Reading, Group, Hit, Scan;
    i := ScanFinds(SearchText(word), lines);
    forall k | 0 <= k <= i ensures Hit(SearchText(word), lines[k]) <==> SearchText(word) <= CStr(lines[k]) {
      HitIsPrefix(word, lines[k]);
    }
    UpperIsPlain(word);
    HitIsInGroup(word, lines[i]);
    assert CStr(lines[i])[..|word|] == ToUpper(word);
    assert CStr(lines[i])[..|word| + 1] == SearchText(word);
  }

  lemma HeadwordIsFound(lines: seq<string>, i: nat, p: nat) returns (word: string)
    requires Headword(lines, i, p) && Group(lines[i]) >= 0
    ensures Searchable(word) && '\0' !in word && Group(ToUpper(word)) == Group(lines[i])
    ensures Scan(SearchText(word), lines) == Reading(lines[i])
  {
    hide Reading, Scan, Hit;
    var c := CStr(lines[i]);
    word := c[..p];
    UpperKeeps(word);
    assert SearchText(word) == c[..p + 1];
    forall k | 0 <= k <= i ensures Hit(SearchText(word), lines[k]) <==> SearchText(word) <= CStr(lines[k]) {
      HitIsPrefix(word, lines[k]);
    }
    assert p >= 2 && c[..2] == lines[i][..2];
    GroupOfPrefix(lines[i], word);
    assert lines[0..] == lines;
    ScanMissesTo(SearchText(word), lines, 0, i);
    ScanHit(SearchText(word), lines, i);
  }

  lemma ScanHit(search: string, lines: seq<string>, i: nat)
    requires i < |lines| && Hit(search, lines[i])
    ensures Scan(search, lines[i..]) == Reading(lines[i])
  {
  }

  /** Every lookup of a word without NUL agrees with the scan if and only if the first line of the
      file is not an indexed line or no line of its group is the first of its headword with a
      reading. */
  lemma FileAgreesIff(file: string)
    requires Ascending(FileLines(file))
    ensures (forall word :: Searchable(word) && '\0' !in word ==>
               Lookup(file, word) == Scan(SearchText(word), FileLines(file)))
            <==>
            || LostGroup(FileLines(file)) < 0
            || forall i: nat, p: nat :: i < |FileLines(file)| && Headword(FileLines(file), i, p) ==>
                 Group(FileLines(file)[i]) != LostGroup(FileLines(file))
  {
    hide Scan, Lookup, Group, ToUpper, SearchText, FileLines, Headword, Reading;
    var lines := FileLines(file);
    forall word | Searchable(word) && '\0' !in word && Lookup(file, word) != Scan(SearchText(word), lines)
      ensures LostGroup(lines) >= 0
      ensures exists i: nat, p: nat :: i < |lines| && Headword(lines, i, p) && Group(lines[i]) == LostGroup(lines)
    {
      LookupIsScan(file, word);
      var i := FoundIsHeadword(lines, word);
    }
    forall i: nat, p: nat | && LostGroup(lines) >= 0 && i < |lines| && Headword(lines, i, p)
                            && Group(lines[i]) == LostGroup(lines)
      ensures exists word :: Searchable(word) && '\0' !in word && Lookup(file, word) != Scan(SearchText(word), lines)
    {
      var word := HeadwordIsFound(lines, i, p);
      LookupIsScan(file, word);
      HasReading(lines, i, p);
    }
  }

  lemma HasReading(lines: seq<string>, i: nat, p: nat)
    requires Headword(lines, i, p)
    ensures Reading(lines[i]) != ""
  {
  }

  /** A file of one indexed line: its word is found by the scan and not by the lookup. */
  lemma FirstWordIsLost()
    ensures Lookup("AB  X\n", "ab") == "" && Scan(SearchText("ab"), FileLines("AB  X\n")) == "X"
  {
    hide Lookup, Scan, FileLines;
    var file, word := "AB  X\n", "ab";
    assert file[|file| - 1] == '\n' && forall i :: 0 <= i < |file| - 1 ==> file[i] != '\n';
    OnePiece(file);
    assert ToUpper(word[1..]) == "B" && ToUpper(word) == "AB";
    LookupIsScan(file, word);
    HitIsPrefix(word, file);
    CStrWithoutNul(file);
    ScanHit(SearchText(word), [file], 0);
    assert [file][0..] == [file];
    TrimmedX();
  }

  lemma TrimmedX()
    ensures Reading("AB  X\n") == "X"
  {
    var s := "AB  X\n";
    CStrWithoutNul(s);
    assert FirstSpace(s) == 2;
    ChopPadded("X", "\n");
  }

  // ----- from the text of the file -----

  /** The line of a word: the word in capitals, a space, more blanks, the pronunciation, a newline. */
  function WordLine(word: string, pad: string, text: string): string {
    ToUpper(word) + " " + pad + text + "\n"
  }

  /** A word of one piece, blanks other than newlines, and a trimmed pronunciation on one line. */
  predicate IsWordLine(word: string, pad: string, text: string) {
    && Searchable(word) && ' ' !in word && '\0' !in word && '\n' !in word
    && (forall c :: c in pad ==> c in BLANKS && c != '\n')
    && Trimmed(text) && '\0' !in text && '\n' !in text
    && |word| + 1 + |pad| + |text| + 1 <= LINE_LIMIT
  }

  /** `head` and `tail` are the lines around it; no line of `head` is a line of the word. */
  ghost predicate FirstLineOf(head: string, word: string) {
    && (head == "" || head[|head| - 1] == '\n')
    && forall line :: line in FileLines(head) ==> !(ToUpper(word) + " " <= CStr(line))
  }

  lemma {:induction false} UpperKeepsOut(s: string, c: char)
    requires c !in s && !('A' <= c <= 'Z')
    ensures c !in ToUpper(s)
  {
    if s != "" {
      UpperKeepsOut(s[1..], c);
    }
  }

  lemma {:induction false} FirstSpaceAt(s: string, rest: string)
    requires ' ' !in s
    ensures FirstSpace(s + " " + rest) == |s|
  {
    if s != "" {
      FirstSpaceAt(s[1..], rest);
      assert s[0] in s && (s + " " + rest)[1..] == s[1..] + " " + rest;
    }
  }

  lemma WordLineText(word: string, pad: string, text: string)
    requires IsWordLine(word, pad, text)
    ensures var line := WordLine(word, pad, text);
            && line != "" && '\0' !in line && line[|line| - 1] == '\n' && |line| <= LINE_LIMIT
            && forall i :: 0 <= i < |line| - 1 ==> line[i] != '\n'
  {
    hide Searchable, Trimmed;
    UpperKeepsOut(word, '\0');
    UpperKeepsOut(word, '\n');
    var line := WordLine(word, pad, text);
    var body := ToUpper(word) + " " + pad + text;
    assert line == body + "\n" && '\n' !in body;
    assert forall i :: 0 <= i < |body| ==> body[i] in body && line[i] == body[i];
  }

  lemma WordLineReads(word: string, pad: string, text: string)
    requires IsWordLine(word, pad, text)
    ensures Hit(SearchText(word), WordLine(word, pad, text)) && Reading(WordLine(word, pad, text)) == text
  {
    hide Searchable, Trimmed, Chop;
    WordLineText(word, pad, text);
    UpperKeepsOut(word, ' ');
    var line, rest := WordLine(word, pad, text), pad + text + "\n";
    CStrWithoutNul(line);
    HitIsPrefix(word, line);
    assert line == ToUpper(word) + " " + rest;
    FirstSpaceAt(ToUpper(word), rest);
    assert line[|ToUpper(word)| + 1..] == rest;
    ChopPaddedBoth(pad, text, "\n");
  }

  lemma OnePiece(line: string)
    requires line != "" && line[|line| - 1] == '\n' && |line| <= LINE_LIMIT
    requires forall i :: 0 <= i < |line| - 1 ==> line[i] != '\n'
    ensures FileLines(line) == [line]
  {
    hide Pieces;
    PiecesUnfold(line, LINE_LIMIT);
    PiecesUnfold("", LINE_LIMIT);
    var n := FgetsLength(line, LINE_LIMIT);
    assert n == |line| && line[..n] == line && line[n..] == "";
  }

  /** The lookup delivers the whole pronunciation that stands on the first line of a word outside
      the lost group, spaces in it included. */
  lemma LookupGivesText(head: string, word: string, pad: string, text: string, tail: string)
    requires IsWordLine(word, pad, text) && FirstLineOf(head, word)
    requires var lines := FileLines(head + WordLine(word, pad, text) + tail);
             Ascending(lines) && LostGroup(lines) != Group(ToUpper(word))
    ensures Lookup(head + WordLine(word, pad, text) + tail, word) == text
  {
    hide Pieces, Group, ToUpper, Hit, Reading, Scan, Lookup, SearchText, Trimmed, WordLine;
    var line := WordLine(word, pad, text);
    var file := head + line + tail;
    WordLineText(word, pad, text);
    WordLineReads(word, pad, text);
    OnePiece(line);
    PiecesConcat(head, line + tail, LINE_LIMIT);
    PiecesConcat(line, tail, LINE_LIMIT);
    assert file == head + (line + tail);
    var lines, i := FileLines(file), |FileLines(head)|;
    assert lines[i] == line && forall k :: 0 <= k < i ==> lines[k] == FileLines(head)[k];
    LookupIsScan(file, word);
    NoHitsInHead(head, word);
    ScanMissesTo(SearchText(word), lines, 0, i);
    ScanHit(SearchText(word), lines, i);
    assert lines[0..] == lines;
  }

  lemma NoHitsInHead(head: string, word: string)
    requires FirstLineOf(head, word) && '\0' !in word
    ensures forall k :: 0 <= k < |FileLines(head)| ==> !Hit(SearchText(word), FileLines(head)[k])
  {
    hide Pieces, Hit;
    forall k | 0 <= k < |FileLines(head)| ensures !Hit(SearchText(word), FileLines(head)[k]) {
      HitIsPrefix(word, FileLines(head)[k]);
      assert FileLines(head)[k] in FileLines(head);
    }
  }
}
