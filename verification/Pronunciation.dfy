/** The English pronunciation dictionary: an offset table indexed by the first two letters of a
    line, built in one pass and back-filled from the end, and lookups that read only the part of
    the file the table points at. */
module Pronunciation {
  import opened Text

  /** What one fgets call with the buffer of this component can deliver. */
  const LINE_LIMIT: nat := 510
  const GROUPS: nat := 676

  predicate IsLetter(c: char) {
    'A' <= c <= 'Z'
  }

  /** The index of a text's first two letters, or -1. */
  function Group(s: string): (g: int)
    ensures -1 <= g < GROUPS
  {
    if |s| >= 2 && IsLetter(s[0]) && IsLetter(s[1])
    then (s[0] as int - 'A' as int) * 26 + (s[1] as int - 'A' as int)
    else -1
  }

  // ----- the file as lines at offsets -----

  function FileLines(file: string): seq<string> {
    Pieces(file, LINE_LIMIT)
  }

  /** The byte offset of line `i`. */
  function Offset(lines: seq<string>, i: nat): nat
    requires i <= |lines|
  {
    if i == 0 then 0 else Offset(lines, i - 1) + |lines[i - 1]|
  }

  /** The first line at or after `i` whose group is `g`, or the number of lines. */
  function FirstOf(lines: seq<string>, g: int, i: nat): (j: nat)
    requires i <= |lines|
    ensures i <= j <= |lines|
    ensures j < |lines| ==> Group(lines[j]) == g
    ensures forall k :: i <= k < j ==> Group(lines[k]) != g
    decreases |lines| - i
  {
    if i == |lines| || Group(lines[i]) == g then i else FirstOf(lines, g, i + 1)
  }

  /** The first line at or after `i` whose group is `g` or a later one. */
  function FirstAtLeast(lines: seq<string>, g: int, i: nat): (j: nat)
    requires i <= |lines|
    ensures i <= j <= |lines|
    ensures j < |lines| ==> Group(lines[j]) >= g
    ensures forall k :: i <= k < j ==> Group(lines[k]) < g
    decreases |lines| - i
  {
    if i == |lines| || Group(lines[i]) >= g then i else FirstAtLeast(lines, g, i + 1)
  }

  /** The indexed lines come group by group, in ascending order. */
  predicate Ascending(lines: seq<string>) {
    forall i, j :: 0 <= i < j < |lines| && Group(lines[i]) >= 0 && Group(lines[j]) >= 0
                   ==> Group(lines[i]) <= Group(lines[j])
  }

  // ----- the table -----

  /** The first pass over the lines that start at offset `pos`. */
  function Build(table: seq<nat>, last: int, lines: seq<string>, pos: nat): (r: seq<nat>)
    requires |table| == GROUPS + 1
    ensures |r| == GROUPS + 1
    decreases |lines|
  {
    if lines == [] then table
    else
      var g := Group(lines[0]);
      var next := pos + |lines[0]|;
      if g < 0 || g == last then Build(table, last, lines[1..], next)
      else Build(table[g := pos], g, lines[1..], next)
  }

  /** The back-fill: an entry that is still 0 takes the value of the next one. */
  function Fill(table: seq<nat>, size: nat, g: nat): nat
    requires |table| == GROUPS + 1 && g <= GROUPS
    decreases GROUPS - g
  {
    if table[g] != 0 then table[g]
    else if g == GROUPS then size
    else Fill(table, size, g + 1)
  }

  const NO_GROUP := 9999999

  function RawTable(file: string): (r: seq<nat>)
    ensures |r| == GROUPS + 1
  {
    Build(seq(GROUPS + 1, _ => 0), NO_GROUP, FileLines(file), 0)[GROUPS := |file|]
  }

  function TableAt(file: string, g: nat): nat
    requires g <= GROUPS
  {
    Fill(RawTable(file), |file|, g)
  }

  // ----- lookup -----

  function ToUpper(s: string): (r: string)
    ensures |r| == |s|
  {
    if s == "" then ""
    else [if 'a' <= s[0] <= 'z' then (s[0] as int - 32) as char else s[0]] + ToUpper(s[1..])
  }

  /** strncmp over the length of the search text finds no difference. */
  predicate Matches(search: string, line: string) {
    var a, b := CStr(search), CStr(line);
    if |a| == |search| then a <= b else a == b
  }

  function FirstSpace(s: string): (n: nat)
    ensures n <= |s| && (n < |s| ==> s[n] == ' ')
  {
    if s == "" || s[0] == ' ' then 0 else 1 + FirstSpace(s[1..])
  }

  predicate Hit(search: string, line: string) {
    Matches(search, line) && FirstSpace(CStr(line)) < |CStr(line)|
  }

  /** The pronunciation on a matching line: what follows its first space, trimmed. */
  function Reading(line: string): string {
    var c := CStr(line);
    if FirstSpace(c) < |c| then Chop(c[FirstSpace(c) + 1..]) else ""
  }

  /** The reading on the first matching line, or nothing: a scan of all the given lines. */
  function Scan(search: string, lines: seq<string>): string {
    if lines == [] then "" else if Hit(search, lines[0]) then Reading(lines[0]) else Scan(search, lines[1..])
  }

  /** The lookup loop: lines from `pos` on while they do not start beyond `endPoint`. */
  function BoundedScan(search: string, lines: seq<string>, pos: nat, endPoint: nat): string
    decreases |lines|
  {
    if lines == [] || pos > endPoint then ""
    else if Hit(search, lines[0]) then Reading(lines[0])
    else BoundedScan(search, lines[1..], pos + |lines[0]|, endPoint)
  }

  predicate Searchable(word: string) {
    Group(ToUpper(word)) >= 0
  }

  function SearchText(word: string): string {
    ToUpper(word) + " "
  }

  class CMUDict {
    var file: string
    const index: array<nat>

    constructor ()
      ensures index.Length == GROUPS + 1 && file == "" && fresh(index)
    {
      file := "";
      index := new nat[GROUPS + 1];
    }

    /** Builds the offset table for a dictionary file. */
    method Create(file: string)
      requires index.Length == GROUPS + 1
      modifies this, index
      ensures this.file == file
      ensures forall g :: 0 <= g <= GROUPS ==> index[g] == TableAt(file, g)
    {
      this.file := file;
      for i := 0 to index.Length
        invariant this.file == file
        invariant forall k :: 0 <= k < i ==> index[k] == 0
      {
        index[i] := 0;
      }
      assert index[..] == seq(GROUPS + 1, _ => 0);
      FirstPass(file);
      ghost var table: seq<nat> := index[..];
      index[GROUPS] := |file|;
      assert index[..] == table[GROUPS := |file|] == RawTable(file);
      BackFill(|file|);
    }

    /** Records the offset of each line that starts a new run of its group. */
    method FirstPass(file: string)
      requires index.Length == GROUPS + 1
      modifies index
      ensures index[..] == Build(old(index[..]), NO_GROUP, FileLines(file), 0)
    {
      hide Pieces, Group, FgetsLength;
      var lastIndex := NO_GROUP;
      var pos: nat := 0;
      assert file[0..] == file;
      while pos < |file|
        invariant pos <= |file|
        invariant Build(index[..], lastIndex, FileLines(file[pos..]), pos) ==
                  Build(old(index[..]), NO_GROUP, FileLines(file), 0)
      {
        var lasttell := pos;
        var n := FgetsLength(file[pos..], LINE_LIMIT);
        var readbuffer := file[pos..pos + n];
        PiecesUnfold(file[pos..], LINE_LIMIT);
        assert file[pos..][..n] == readbuffer && file[pos..][n..] == file[pos + n..];
        assert FileLines(file[pos..])[1..] == FileLines(file[pos + n..]);
        pos := pos + n;
        var g := Group(readbuffer);
        if g < 0 || lastIndex == g {
          continue;
        }
        lastIndex := g;
        index[g] := lasttell;
      }
      PiecesUnfold("", LINE_LIMIT);
      assert file[pos..] == "";
    }

    /** Fills the entries that are still 0 from the end. */
    method BackFill(size: nat)
      requires index.Length == GROUPS + 1
      modifies index
      ensures forall g :: 0 <= g <= GROUPS ==> index[g] == Fill(old(index[..]), size, g)
    {
      ghost var table: seq<nat> := index[..];
      var lasttell := size;
      for i := GROUPS + 1 downto 0
        invariant forall k :: i <= k <= GROUPS ==> index[k] == Fill(table, size, k)
        invariant forall k :: 0 <= k < i ==> index[k] == table[k]
        invariant lasttell == if i > GROUPS then size else Fill(table, size, i)
      {
        if index[i] == 0 {
          index[i] := lasttell;
        } else {
          lasttell := index[i];
        }
      }
    }

    /** The pronunciation of a word: seek to its group and read while inside it. */
    method GetYomi(word: string) returns (yomi: string)
      requires index.Length == GROUPS + 1
      requires forall g :: 0 <= g <= GROUPS ==> index[g] == TableAt(file, g)
      ensures yomi == if Searchable(word) then Lookup(file, word) else ""
    {
      hide Pieces, Fill, RawTable, CStr, FirstSpace, Matches, Chop, FgetsLength, ToUpper;
      if |word| <= 1 {
        return "";
      }
      var str := ToUpper(word);
      var g := Group(str);
      if g < 0 {
        return "";
      }
      var pos := index[g];
      var endPoint := index[g + 1];
      var searchWord := str + " ";
      if pos > |file| {
        return "";
      }
      ghost var start := pos;
      while pos < |file|
        invariant pos <= |file|
        invariant BoundedScan(searchWord, FileLines(file[pos..]), pos, endPoint) ==
                  BoundedScan(searchWord, FileLines(file[start..]), start, endPoint)
      {
        if pos > endPoint {
          return "";
        }
        var n := FgetsLength(file[pos..], LINE_LIMIT);
        var readbuffer := file[pos..pos + n];
        PiecesUnfold(file[pos..], LINE_LIMIT);
        assert file[pos..][..n] == readbuffer && file[pos..][n..] == file[pos + n..];
        assert FileLines(file[pos..])[1..] == FileLines(file[pos + n..]);
        if Hit(searchWord, readbuffer) {
          return Reading(readbuffer);
        }
        pos := pos + n;
      }
      PiecesUnfold("", LINE_LIMIT);
      assert file[pos..] == "";
      return "";
    }
  }

  /** What the lookup answers for a searchable word. */
  function Lookup(file: string, word: string): string
    requires Searchable(word)
  {
    var g := Group(ToUpper(word));
    var start := TableAt(file, g);
    if start > |file| then ""
    else BoundedScan(SearchText(word), FileLines(file[start..]), start, TableAt(file, g + 1))
  }
}
