/** What becomes of each line of the old file in a save, blank lines included, and when a save changes
    nothing. */
module ConfigFate {
  import opened Text
  import opened ConfigFile
  import opened Wrappers
  import opened ConfigTheorems

  // ----- one line -----

  predicate IsBlank(s: string) {
    s == "\n" || s == "\r\n"
  }

  /** Are the `k` lines before line `i` there, and all blank? */
  predicate BlanksBefore(lines: seq<string>, i: nat, k: nat)
    requires i <= |lines|
  {
    k <= i && forall j :: i - k <= j < i ==> IsBlank(lines[j])
  }

  /** What the save writes for line `i` of the old file: a blank line if it is not the fifth in a row,
      a comment as it stands, an entry of the map where the old file first carries its key. */
  function Fate(data: map<string, string>, lines: seq<string>, i: nat): (r: seq<string>)
    requires i < |lines|
    ensures |r| <= 1
  {
    var s := lines[i];
    match Parse(s)
    case Blank => if BlanksBefore(lines, i, 4) then [] else ["\r\n"]
    case Comment => [s]
    case Entry(k, v) =>
      if k !in data || !Carries(data, s, k) || CarriedBefore(data, lines, i, k) then []
      else if v == data[k] then [s]
      else [EntryLine(k, data[k])]
    case _ => []
  }

  predicate CarriedBefore(data: map<string, string>, lines: seq<string>, i: nat, key: string)
    requires i <= |lines|
  {
    exists j :: 0 <= j < i && Carries(data, lines[j], key)
  }

  /** What it writes for the lines from `from` up to `end`. */
  function Fates(data: map<string, string>, lines: seq<string>, from: nat, end: nat): (r: seq<string>)
    requires from <= end <= |lines|
    ensures |r| <= end - from
    decreases end
  {
    if from == end then [] else Fates(data, lines, from, end - 1) + Fate(data, lines, end - 1)
  }

  lemma {:induction false} FatesConcat(data: map<string, string>, lines: seq<string>, from: nat, mid: nat, end: nat)
    requires from <= mid <= end <= |lines|
    ensures Fates(data, lines, from, end) == Fates(data, lines, from, mid) + Fates(data, lines, mid, end)
    decreases end
  {
    hide Fate;
    if end > mid {
      FatesConcat(data, lines, from, mid, end - 1);
    }
  }

  // ----- all lines -----

  lemma {:induction false} CarriedIff(data: map<string, string>, lines: seq<string>, i: nat, key: string)
    requires i <= |lines|
    ensures FirstIndex(data, lines[..i], key) < i <==> CarriedBefore(data, lines, i, key)
    decreases i
  {
    hide Carries;
    if i > 0 {
      CarriedIff(data, lines, i - 1, key);
      FirstIndexSnoc(data, lines[..i - 1], lines[i - 1], key);
      assert lines[..i] == lines[..i - 1] + [lines[i - 1]];
    }
  }

  /** The state of the saver after line `i`, in terms of the lines alone. */
  ghost predicate StateAt(data: map<string, string>, lines: seq<string>, i: nat, st: Saving)
    requires i <= |lines|
  {
    && st.out == Fates(data, lines, 0, i)
    && CountsBlanks(lines, i, st.blanks)
  }

  /** Is this the number of blank lines directly before line `i`? */
  ghost predicate CountsBlanks(lines: seq<string>, i: nat, blanks: nat)
    requires i <= |lines|
  {
    forall k: nat :: blanks >= k <==> BlanksBefore(lines, i, k)
  }

  lemma BlanksStep(lines: seq<string>, i: nat, blanks: nat)
    requires i < |lines| && CountsBlanks(lines, i, blanks)
    ensures CountsBlanks(lines, i + 1, if IsBlank(lines[i]) then blanks + 1 else 0)
  {
    hide IsBlank;
    var j := i + 1;
    forall k: nat ensures (if IsBlank(lines[i]) then blanks + 1 else 0) >= k <==> BlanksBefore(lines, j, k) {
      if k > 0 {
        assert BlanksBefore(lines, j, k) <==> IsBlank(lines[i]) && BlanksBefore(lines, i, k - 1);
      }
    }
  }

  lemma ParseBlankIff(s: string)
    ensures Parse(s).Blank? <==> IsBlank(s)
    ensures s != "" ==> Parse(s) != Nothing
  {
  }

  lemma StateStep(data: map<string, string>, lines: seq<string>, i: nat, st: Saving)
    requires Settable(data) && i < |lines| && lines[i] != ""
    requires StateAt(data, lines, i, st) && LeftIs(data, lines[..i], st.left)
    ensures StateAt(data, lines, i + 1, SaveLine(st, lines[i]))
  {
    hide Settable, Parse, IsBlank, BlanksBefore, CarriedBefore, EntryLine, CStr, FirstIndex;
    var s := lines[i];
    ParseBlankIff(s);
    BlanksStep(lines, i, st.blanks);
    if Parse(s).Entry? {
      var k := Parse(s).key;
      CarriedIff(data, lines, i, k);
      if k in data {
        SettableParts(data, k);
      }
    }
  }

  lemma {:induction false} SavedFates(data: map<string, string>, lines: seq<string>, i: nat)
    requires Settable(data) && i <= |lines| && forall s :: s in lines ==> s != ""
    ensures StateAt(data, lines, i, SaveLines(data, lines[..i]))
    decreases i
  {
    hide Settable, SaveLine, Fate;
    if i > 0 {
      SavedFates(data, lines, i - 1);
      LeftAfterLines(data, lines[..i - 1]);
      assert lines[i - 1] in lines;
      StateStep(data, lines, i - 1, SaveLines(data, lines[..i - 1]));
      assert lines[..i][..i - 1] == lines[..i - 1];
    }
  }

  lemma NoEmptyLines(file: string)
    requires CleanFile(file)
    ensures forall s :: s in Lines(file) ==> s != ""
  {
    LinesArePieces(file);
    PiecesComplete(file, LINE_LIMIT);
  }

  lemma {:induction false} AddedCount(left: map<string, string>, order: seq<string>)
    requires forall k :: k in order ==> k in left
    ensures |EntryLines(left, order)| == |order|
    decreases |order|
  {
    hide EntryLine;
    if order != [] {
      AddedCount(left, order[..|order| - 1]);
    }
  }

  /** The lines of the new file are what becomes of the lines of the old one, in their order, and then
      the entries of the keys that no old line carries, each in some place. */
  lemma SavedLineByLine(data: map<string, string>, before: string, after: string) returns (order: seq<string>)
    requires Settable(data) && CleanFile(before) && Saves(data, before, after)
    ensures Once(order)
    ensures forall k :: k in order <==> k in data && !CarriedBefore(data, Lines(before), |Lines(before)|, k)
    ensures Lines(after) == Fates(data, Lines(before), 0, |Lines(before)|) + EntryLines(data, order)
  {
    hide Settable, CleanFile, Lines, Saves, SaveLines, Fates, CarriedBefore, FirstIndex;
    order := LinesOfSaved(data, before, after);
    var lines := Lines(before);
    NoEmptyLines(before);
    SavedFates(data, lines, |lines|);
    LeftAfterLines(data, lines);
    assert lines[..|lines|] == lines;
    forall k {
      CarriedIff(data, lines, |lines|, k);
    }
    SameEntryLines(SaveLines(data, lines).left, data, order);
  }

  lemma {:induction false} SameEntryLines(left: map<string, string>, data: map<string, string>, order: seq<string>)
    requires forall k :: k in order ==> k in left && k in data && left[k] == data[k]
    ensures EntryLines(left, order) == EntryLines(data, order)
    decreases |order|
  {
    hide EntryLine;
    if order != [] {
      SameEntryLines(left, data, order[..|order| - 1]);
      assert order[|order| - 1] in order;
    }
  }

  // ----- runs of blank lines -----

  /** A whole run of `b` blank lines from line `i` on, up to the end or to another line. */
  predicate IsRun(lines: seq<string>, i: nat, b: nat) {
    && i + b <= |lines| && (i > 0 ==> !IsBlank(lines[i - 1])) && (i + b < |lines| ==> !IsBlank(lines[i + b]))
    && forall j :: i <= j < i + b ==> IsBlank(lines[j])
  }

  function BlankLines(n: nat): (r: seq<string>)
    ensures |r| == n && forall i :: 0 <= i < n ==> r[i] == "\r\n"
  {
    seq(n, _ => "\r\n")
  }

  function UpToFour(n: nat): nat {
    if n < 4 then n else 4
  }

  lemma BlankFate(data: map<string, string>, lines: seq<string>, i: nat, b: nat, n: nat)
    requires IsRun(lines, i, b) && n < b
    ensures Fate(data, lines, i + n) == if n >= 4 then [] else ["\r\n"]
  {
    hide Parse, IsBlank;
    ParseBlankIff(lines[i + n]);
    if n >= 4 {
      assert BlanksBefore(lines, i + n, 4);
    } else if i > 0 {
      assert !IsBlank(lines[i - 1]);
    }
  }

  lemma {:induction false} RunFates(data: map<string, string>, lines: seq<string>, i: nat, b: nat, n: nat)
    requires IsRun(lines, i, b) && n <= b
    ensures Fates(data, lines, i, i + n) == BlankLines(UpToFour(n))
    decreases n
  {
    hide Fate, IsRun;
    if n > 0 {
      RunFates(data, lines, i, b, n - 1);
      RunInside(lines, i, b);
      BlankFate(data, lines, i, b, n - 1);
    }
  }

  lemma RunInside(lines: seq<string>, i: nat, b: nat)
    requires IsRun(lines, i, b)
    ensures i + b <= |lines|
  {
  }

  /** Every run of blank lines of the old file comes out as at most four of them, at its place: behind
      what is written for the lines before it and in front of what is written for those after it. */
  lemma BlankRunKept(data: map<string, string>, before: string, after: string, i: nat, b: nat)
    returns (order: seq<string>)
    requires Settable(data) && CleanFile(before) && Saves(data, before, after) && IsRun(Lines(before), i, b)
    ensures var lines := Lines(before);
            && i + b <= |lines| && (forall k :: k in order ==> k in data)
            && Lines(after) == Fates(data, lines, 0, i) + BlankLines(UpToFour(b))
                               + Fates(data, lines, i + b, |lines|) + EntryLines(data, order)
  {
    hide Settable, CleanFile, Lines, Saves, Fates, IsRun, CarriedBefore;
    var lines := Lines(before);
    RunInside(lines, i, b);
    order := SavedLineByLine(data, before, after);
    RunFates(data, lines, i, b, b);
    FatesConcat(data, lines, 0, i, |lines|);
    FatesConcat(data, lines, i, i + b, |lines|);
  }

  // ----- saving what was loaded -----

  /** The lines with every blank one as the saver writes it. */
  function Normalised(lines: seq<string>): (r: seq<string>)
    ensures |r| == |lines|
    ensures forall i :: 0 <= i < |lines| ==> r[i] == if IsBlank(lines[i]) then "\r\n" else lines[i]
  {
    seq(|lines|, i requires 0 <= i < |lines| => if IsBlank(lines[i]) then "\r\n" else lines[i])
  }

  predicate SameKey(a: string, b: string) {
    Parse(a).Entry? && Parse(b).Entry? && Parse(a).key == Parse(b).key
  }

  /** No garbage, no key twice, no five blank lines in a row. */
  ghost predicate Tidy(lines: seq<string>) {
    && (forall i :: 0 <= i < |lines| ==> !Parse(lines[i]).Garbage?)
    && (forall i, j :: 0 <= i < j < |lines| ==> !SameKey(lines[i], lines[j]))
    && (forall i: nat :: i <= |lines| ==> !BlanksBefore(lines, i, 5))
  }

  /** The last line of a key has the value that was loaded. */
  lemma {:induction false} LoadedFrom(lines: seq<string>, key: string) returns (i: nat)
    requires key in Loaded(lines)
    ensures i < |lines| && Parse(lines[i]) == Entry(key, Loaded(lines)[key])
    ensures forall j :: i < j < |lines| && Parse(lines[j]).Entry? ==> Parse(lines[j]).key != key
  {
    hide Parse;
    var n := |lines| - 1;
    if Parse(lines[n]).Entry? && Parse(lines[n]).key == key {
      i := n;
    } else {
      i := LoadedFrom(lines[..n], key);
      assert forall j :: i < j < n ==> lines[..n][j] == lines[j];
    }
  }

  lemma {:induction false} LoadedHas(lines: seq<string>, i: nat)
    requires i < |lines| && Parse(lines[i]).Entry?
    ensures Parse(lines[i]).key in Loaded(lines)
    decreases |lines|
  {
    hide Parse;
    if i < |lines| - 1 {
      LoadedHas(lines[..|lines| - 1], i);
    }
  }

  /** Some line carries each key that was loaded. */
  lemma LoadedIsCarried(lines: seq<string>, key: string)
    requires key in Loaded(lines)
    ensures CarriedBefore(Loaded(lines), lines, |lines|, key)
  {
    hide Parse, Loaded;
    var i := LoadedFrom(lines, key);
    assert Carries(Loaded(lines), lines[i], key);
  }

  lemma TidyFate(lines: seq<string>, i: nat)
    requires Tidy(lines) && i < |lines| && lines[i] != ""
    ensures Fate(Loaded(lines), lines, i) == [Normalised(lines)[i]]
  {
    hide Parse, Loaded, IsBlank;
    var s, data := lines[i], Loaded(lines);
    ParseBlankIff(s);
    assert BlanksBefore(lines, i, 4) && IsBlank(s) ==> BlanksBefore(lines, i + 1, 5);
    if Parse(s).Entry? {
      var k := Parse(s).key;
      LoadedHas(lines, i);
      var j := LoadedFrom(lines, k);
      assert SameKey(lines[i], lines[j]) && SameKey(lines[j], lines[i]);
      assert i == j && data[k] == Parse(s).value;
      forall m | 0 <= m < i ensures !Carries(data, lines[m], k) {
        assert !SameKey(lines[m], lines[i]);
      }
    }
  }

  lemma {:induction false} TidyFates(lines: seq<string>, end: nat)
    requires Tidy(lines) && end <= |lines| && forall s :: s in lines ==> s != ""
    ensures Fates(Loaded(lines), lines, 0, end) == Normalised(lines)[..end]
  {
    hide Fate, Tidy, Loaded;
    if end > 0 {
      TidyFates(lines, end - 1);
      assert lines[end - 1] in lines;
      TidyFate(lines, end - 1);
    }
  }

  /** When nothing is dropped, every line has been written. */
  lemma {:induction false} AllWritten(data: map<string, string>, lines: seq<string>, end: nat, i: nat)
    requires end <= |lines| && |Fates(data, lines, 0, end)| == end && i < end
    ensures |Fate(data, lines, i)| == 1
  {
    hide Fate;
    if i < end - 1 {
      AllWritten(data, lines, end - 1, i);
    }
  }

  lemma FullIsTidy(data: map<string, string>, lines: seq<string>)
    requires forall i :: 0 <= i < |lines| ==> |Fate(data, lines, i)| == 1
    ensures Tidy(lines)
  {
    hide Parse, Carries, IsBlank;
    forall i | 0 <= i < |lines| ensures !Parse(lines[i]).Garbage? {
      assert |Fate(data, lines, i)| == 1;
    }
    forall i, j | 0 <= i < j < |lines| ensures !SameKey(lines[i], lines[j]) {
      if SameKey(lines[i], lines[j]) {
        KeptOnce(data, lines, i, j);
      }
    }
    forall i: nat | i <= |lines| ensures !BlanksBefore(lines, i, 5) {
      if BlanksBefore(lines, i, 5) {
        FifthDropped(data, lines, i);
      }
    }
  }

  lemma KeptOnce(data: map<string, string>, lines: seq<string>, i: nat, j: nat)
    requires i < j < |lines| && SameKey(lines[i], lines[j])
    ensures |Fate(data, lines, i)| != 1 || |Fate(data, lines, j)| != 1
  {
    hide Parse, Carries;
    assert Carries(data, lines[i], Parse(lines[i]).key) ==> CarriedBefore(data, lines, j, Parse(lines[i]).key);
  }

  lemma FifthDropped(data: map<string, string>, lines: seq<string>, i: nat)
    requires i <= |lines| && BlanksBefore(lines, i, 5)
    ensures Fate(data, lines, i - 1) == []
  {
    hide Parse, IsBlank;
    ParseBlankIff(lines[i - 1]);
    assert BlanksBefore(lines, i - 1, 4);
  }

  /** Saving what was loaded from a file gives its lines back, blank ones written as "\r\n", if and only
      if it has no garbage, no key twice and no five blank lines in a row. */
  lemma ResaveIff(before: string, after: string)
    requires CleanFile(before) && Settable(Loaded(Lines(before))) && Saves(Loaded(Lines(before)), before, after)
    ensures Lines(after) == Normalised(Lines(before)) <==> Tidy(Lines(before))
  {
    hide Settable, CleanFile, Lines, Saves, Loaded, Fates, Fate, Tidy, CarriedBefore, EntryLines;
    var lines, data := Lines(before), Loaded(Lines(before));
    var order := SavedLineByLine(data, before, after);
    forall k | k in data ensures CarriedBefore(data, lines, |lines|, k) {
      LoadedIsCarried(lines, k);
    }
    NothingOrdered(order);
    NoEmptyLines(before);
    assert Lines(after) == Fates(data, lines, 0, |lines|);
    if Tidy(lines) {
      TidyFates(lines, |lines|);
    } else if Lines(after) == Normalised(lines) {
      forall i | 0 <= i < |lines| ensures |Fate(data, lines, i)| == 1 {
        AllWritten(data, lines, |lines|, i);
      }
      FullIsTidy(data, lines);
    }
  }

  lemma NothingOrdered(order: seq<string>)
    requires forall k :: k !in order
    ensures order == [] && forall data :: EntryLines(data, order) == []
  {
    HasFirst(order);
  }
}
