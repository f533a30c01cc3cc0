/** String services shared by the components: the subset of XLStringUtil and of the
    C library that the modelled code calls. A string is a sequence of characters; a
    multi-byte character counts as one character. */
module Text {

  // ----- split, join, replace -----

  /** Does `glue` occur in `s` at position `i`? */
  predicate OccursAt(glue: string, s: string, i: nat) {
    i + |glue| <= |s| && s[i..i + |glue|] == glue
  }

  /** Position of the leftmost occurrence at or after `from`, or -1. */
  function Find(glue: string, s: string, from: nat): (p: int)
    requires from <= |s|
    ensures -1 <= p <= |s|
    ensures p >= 0 ==> from <= p && OccursAt(glue, s, p)
    decreases |s| - from
  {
    if OccursAt(glue, s, from) then from
    else if from == |s| then -1
    else Find(glue, s, from + 1)
  }

  /** Find reports the first occurrence, and none only when there is none. */
  lemma {:induction false} FindIsLeftmost(glue: string, s: string, from: nat)
    requires from <= |s|
    ensures var p := Find(glue, s, from);
            forall i: nat :: from <= i < (if p < 0 then |s| + 1 else p) ==> !OccursAt(glue, s, i)
    decreases |s| - from
  {
    if !OccursAt(glue, s, from) && from < |s| {
      FindIsLeftmost(glue, s, from + 1);
    }
  }

  /** The pieces of `s` from position `from` on, cut at the occurrences of `glue`. */
  function SplitFrom(glue: string, s: string, from: nat): (r: seq<string>)
    requires glue != "" && from <= |s|
    ensures r != []
    decreases |s| - from
  {
    var p := Find(glue, s, from);
    if p < 0 then [s[from..]] else [s[from..p]] + SplitFrom(glue, s, p + |glue|)
  }

  /** XLStringUtil::split; there is always at least one piece. */
  function Split(glue: string, s: string): (r: seq<string>)
    requires glue != ""
    ensures r != []
  {
    SplitFrom(glue, s, 0)
  }

  function Join(glue: string, parts: seq<string>): string {
    if parts == [] then ""
    else if |parts| == 1 then parts[0]
    else parts[0] + glue + Join(glue, parts[1..])
  }

  lemma JoinCons(glue: string, head: string, tail: seq<string>)
    requires tail != []
    ensures Join(glue, [head] + tail) == head + glue + Join(glue, tail)
  {
    assert ([head] + tail)[1..] == tail;
  }

  lemma JoinOne(glue: string, part: string)
    ensures Join(glue, [part]) == part
  {
  }

  lemma {:induction false} JoinSplitFrom(glue: string, s: string, from: nat)
    requires glue != "" && from <= |s|
    ensures Join(glue, SplitFrom(glue, s, from)) == s[from..]
    decreases |s| - from
  {
    hide Join;
    var p := Find(glue, s, from);
    FindFits(glue, s, from);
    if p < 0 {
      JoinOne(glue, s[from..]);
    } else {
      var next := p + |glue|;
      JoinSplitFrom(glue, s, next);
      JoinCons(glue, s[from..p], SplitFrom(glue, s, next));
      assert s[from..] == s[from..p] + glue + s[next..];
    }
  }

  /** Joining the pieces with the separator gives the text back. */
  lemma JoinSplit(glue: string, s: string)
    requires glue != ""
    ensures Join(glue, Split(glue, s)) == s
  {
    JoinSplitFrom(glue, s, 0);
  }

  /** Does `glue` occur in `s`? */
  ghost predicate Contains(s: string, glue: string) {
    exists i: nat :: OccursAt(glue, s, i)
  }

  /** The first occurrence is what Find reports. */
  lemma FindIs(glue: string, s: string, from: nat, p: nat)
    requires from <= p <= |s| && OccursAt(glue, s, p) && forall i: nat :: from <= i < p ==> !OccursAt(glue, s, i)
    ensures Find(glue, s, from) == p
  {
    hide OccursAt;
    FindIsLeftmost(glue, s, from);
  }

  lemma OccursInPart(glue: string, s: string, from: nat, end: nat, i: nat)
    requires glue != "" && from <= end <= |s|
    ensures OccursAt(glue, s[from..end], i) <==> from + i + |glue| <= end && OccursAt(glue, s, from + i)
  {
    if from + i + |glue| <= end {
      SliceOfSlice(s, from, end, i, i + |glue|);
    }
  }

  lemma SliceOfSlice(s: string, a: nat, b: nat, c: nat, d: nat)
    requires a <= b <= |s| && c <= d <= b - a
    ensures s[a..b][c..d] == s[a + c..a + d]
  {
    var part, slice := s[a..b], s[a + c..a + d];
    forall k | 0 <= k < d - c ensures part[c..d][k] == slice[k] {
      assert part[c + k] == s[a + (c + k)];
    }
    assert part[c..d] == slice;
  }

  lemma PartIsFree(glue: string, s: string, from: nat, end: nat)
    requires glue != "" && from <= end <= |s| && forall i: nat :: from <= i < end ==> !OccursAt(glue, s, i)
    ensures !Contains(s[from..end], glue)
  {
    hide OccursAt;
    if i: nat :| OccursAt(glue, s[from..end], i) {
      OccursInPart(glue, s, from, end, i);
    }
  }

  /** No piece contains the separator. */
  lemma {:induction false} PiecesAreFree(glue: string, s: string, from: nat)
    requires glue != "" && from <= |s|
    ensures forall part :: part in SplitFrom(glue, s, from) ==> !Contains(part, glue)
    decreases |s| - from
  {
    hide OccursAt, Contains;
    var p := Find(glue, s, from);
    FindIsLeftmost(glue, s, from);
    PartIsFree(glue, s, from, if p < 0 then |s| else p);
    assert s[from..|s|] == s[from..];
    FindFits(glue, s, from);
    if p >= 0 {
      PiecesAreFree(glue, s, p + |glue|);
    }
  }

  /** A character that is not in the text is in no piece of it. */
  lemma {:induction false} PiecesHaveNoMore(glue: string, s: string, from: nat, c: char)
    requires glue != "" && from <= |s| && c !in s
    ensures forall part :: part in SplitFrom(glue, s, from) ==> c !in part
    decreases |s| - from
  {
    hide OccursAt;
    var p := Find(glue, s, from);
    FindFits(glue, s, from);
    if p >= 0 {
      PiecesHaveNoMore(glue, s, p + |glue|, c);
    }
  }

  /** A separator of one or two characters of which no two occurrences overlap. */
  predicate IsSeparator(glue: string) {
    |glue| == 1 || (|glue| == 2 && glue[0] != glue[1])
  }

  lemma NoOverlap(glue: string, s: string, i: nat, j: nat)
    requires IsSeparator(glue) && i < j && OccursAt(glue, s, j)
    ensures OccursAt(glue, s, i) ==> i + |glue| <= j
  {
    assert s[j] == s[j..j + |glue|][0];
    assert OccursAt(glue, s, i) ==> s[i + |glue| - 1] == s[i..i + |glue|][|glue| - 1];
  }

  /** Behind a piece that does not contain it, the separator is the first one there is. */
  lemma FirstSeparator(glue: string, s: string, from: nat, part: string)
    requires IsSeparator(glue) && !Contains(part, glue) && from + |part| <= |s|
    requires s[from..from + |part|] == part && OccursAt(glue, s, from + |part|)
    ensures Find(glue, s, from) == from + |part|
  {
    hide OccursAt;
    var end := from + |part|;
    forall i: nat | from <= i < end ensures !OccursAt(glue, s, i) {
      OccursInPart(glue, s, from, end, i - from);
      NoOverlap(glue, s, i, end);
    }
    FindIs(glue, s, from, end);
  }

  lemma NoSeparator(glue: string, s: string, from: nat)
    requires glue != "" && from <= |s| && !Contains(s[from..], glue)
    ensures SplitFrom(glue, s, from) == [s[from..]]
  {
    hide OccursAt;
    var p := Find(glue, s, from);
    assert s[from..|s|] == s[from..];
    FindFits(glue, s, from);
    if p >= 0 {
      OccursInPart(glue, s, from, |s|, p - from);
    }
  }

  /** Splitting gives back the parts that were joined, if none of them contains the separator. */
  lemma {:induction false} SplitJoinFrom(glue: string, head: string, parts: seq<string>)
    requires IsSeparator(glue) && parts != [] && forall part :: part in parts ==> !Contains(part, glue)
    ensures SplitFrom(glue, head + Join(glue, parts), |head|) == parts
    decreases |parts|
  {
    hide OccursAt, Contains, SplitFrom;
    var part, rest := parts[0], parts[1..];
    assert part in parts && parts == [part] + rest;
    if rest == [] {
      assert (head + part)[|head|..] == part;
      NoSeparator(glue, head + part, |head|);
    } else {
      assert forall p :: p in rest ==> p in parts;
      SplitJoinFrom(glue, head + part + glue, rest);
      SplitBehind(glue, head, part, Join(glue, rest));
      assert head + Join(glue, parts) == head + part + glue + Join(glue, rest);
    }
  }

  lemma SplitBehind(glue: string, head: string, part: string, rest: string)
    requires IsSeparator(glue) && !Contains(part, glue)
    ensures var s := head + part + glue + rest;
            SplitFrom(glue, s, |head|) == [part] + SplitFrom(glue, s, |head + part + glue|)
  {
    hide Contains, SplitFrom, OccursAt, IsSeparator;
    SeparatorNotEmpty(glue);
    var s := head + part + glue + rest;
    PartsInPlace(head, part, glue, rest);
    FirstSeparator(glue, s, |head|, part);
    SplitFromStep(glue, s, |head|);
  }

  lemma SeparatorNotEmpty(glue: string)
    requires IsSeparator(glue)
    ensures glue != ""
  {
  }

  lemma PartsInPlace(head: string, part: string, glue: string, rest: string)
    ensures var s := head + part + glue + rest;
            s[|head|..|head| + |part|] == part && OccursAt(glue, s, |head| + |part|)
  {
    var s := head + part + glue + rest;
    assert s[|head| + |part|..|head| + |part| + |glue|] == glue;
  }

  /** Splitting undoes joining if and only if no part contains the separator. */
  lemma SplitJoinIff(glue: string, parts: seq<string>)
    requires IsSeparator(glue) && parts != []
    ensures Split(glue, Join(glue, parts)) == parts <==> forall part :: part in parts ==> !Contains(part, glue)
  {
    PiecesAreFree(glue, Join(glue, parts), 0);
    if forall part :: part in parts ==> !Contains(part, glue) {
      SplitJoinFrom(glue, "", parts);
      assert "" + Join(glue, parts) == Join(glue, parts);
    }
  }

  lemma SplitFromStep(glue: string, s: string, from: nat)
    requires glue != "" && from <= |s|
    ensures var p := Find(glue, s, from);
            SplitFrom(glue, s, from) == if p < 0 then [s[from..]] else [s[from..p]] + SplitFrom(glue, s, p + |glue|)
  {
  }

  /** XLStringUtil::split: cut at each occurrence found from the end of the last one. */
  method SplitList(glue: string, s: string) returns (r: seq<string>)
    requires glue != ""
    ensures r == Split(glue, s)
  {
    hide SplitFrom, Find, OccursAt;
    r := [];
    var oldpos: nat := 0;
    var pos := Find(glue, s, 0);
    FindFits(glue, s, 0);
    while pos >= 0
      invariant 0 <= oldpos <= |s| && (pos >= 0 ==> pos + |glue| <= |s|)
      invariant pos == Find(glue, s, oldpos) && (pos >= 0 ==> oldpos <= pos)
      invariant r + SplitFrom(glue, s, oldpos) == Split(glue, s)
      decreases |s| - oldpos
    {
      var k := s[oldpos..pos];
      ghost var rest := SplitFrom(glue, s, pos + |glue|);
      SplitFromStep(glue, s, oldpos);
      OnePieceMore(r, k, rest);
      r := r + [k];
      oldpos := pos + |glue|;
      pos := Find(glue, s, oldpos);
      FindFits(glue, s, oldpos);
    }
    SplitFromStep(glue, s, oldpos);
    r := r + [s[oldpos..]];
  }

  lemma OnePieceMore(r: seq<string>, k: string, rest: seq<string>)
    ensures r + ([k] + rest) == r + [k] + rest
  {
  }

  lemma FindFits(glue: string, s: string, from: nat)
    requires from <= |s|
    ensures Find(glue, s, from) >= 0 ==> Find(glue, s, from) + |glue| <= |s|
  {
  }

  /** XLStringUtil::replace: every occurrence, left to right, without rescanning. */
  function Replace(s: string, old_: string, new_: string): string
    requires old_ != ""
  {
    Join(new_, Split(old_, s))
  }

  /** The characters of `s` that are not in `unwanted`, in order. */
  function Without(s: string, unwanted: set<char>): (r: string)
    ensures forall c :: c in r <==> c in s && c !in unwanted
  {
    if s == "" then ""
    else if s[0] in unwanted then Without(s[1..], unwanted)
    else [s[0]] + Without(s[1..], unwanted)
  }

  lemma {:induction false} WithoutConcat(a: string, b: string, unwanted: set<char>)
    ensures Without(a + b, unwanted) == Without(a, unwanted) + Without(b, unwanted)
  {
    if a == "" {
      assert a + b == b;
    } else {
      assert (a + b)[1..] == a[1..] + b;
      WithoutConcat(a[1..], b, unwanted);
    }
  }

  lemma {:induction false} WithoutNothing(s: string, unwanted: set<char>)
    requires forall c :: c in s ==> c !in unwanted
    ensures Without(s, unwanted) == s
  {
    if s != "" {
      WithoutNothing(s[1..], unwanted);
    }
  }

  function WithoutEach(parts: seq<string>, unwanted: set<char>): (r: seq<string>)
    ensures |r| == |parts|
    ensures forall i :: 0 <= i < |r| ==> r[i] == Without(parts[i], unwanted)
  {
    seq(|parts|, i requires 0 <= i < |parts| => Without(parts[i], unwanted))
  }

  /** Removing characters goes through a join, separators included. */
  lemma {:induction false} WithoutJoin(glue: string, parts: seq<string>, unwanted: set<char>)
    ensures Without(Join(glue, parts), unwanted) ==
            Join(Without(glue, unwanted), WithoutEach(parts, unwanted))
  {
    var clean := WithoutEach(parts, unwanted);
    if |parts| >= 2 {
      var rest := Join(glue, parts[1..]);
      WithoutJoin(glue, parts[1..], unwanted);
      assert clean[1..] == WithoutEach(parts[1..], unwanted);
      WithoutConcat(parts[0] + glue, rest, unwanted);
      WithoutConcat(parts[0], glue, unwanted);
    }
  }

  lemma ContainsChar(s: string, c: char)
    ensures Contains(s, [c]) <==> c in s
  {
    if c in s {
      var i :| 0 <= i < |s| && s[i] == c;
      assert OccursAt([c], s, i);
    }
    if i: nat :| OccursAt([c], s, i) {
      assert s[i..i + 1][0] == c;
    }
  }

  lemma PiecesAvoidChar(s: string, c: char)
    ensures forall part :: part in Split([c], s) ==> c !in part
  {
    PiecesAreFree([c], s, 0);
    forall part | part in Split([c], s) ensures c !in part {
      ContainsChar(part, c);
    }
  }

  /** Replacing a character by nothing removes exactly that character. */
  lemma ReplaceCharByNothing(s: string, c: char)
    ensures Replace(s, [c], "") == Without(s, {c})
  {
    var parts := Split([c], s);
    JoinSplit([c], s);
    WithoutJoin([c], parts, {c});
    assert Without([c], {c}) == "";
    PiecesAvoidChar(s, c);
    forall i | 0 <= i < |parts| ensures Without(parts[i], {c}) == parts[i] {
      assert parts[i] in parts;
      WithoutNothing(parts[i], {c});
    }
    assert WithoutEach(parts, {c}) == parts;
  }

  // ----- white space -----

  /** The default table of XLStringUtil::chop. */
  const BLANKS: set<char> := {' ', '\t', '\r', '\n'}

  function SkipBlanks(s: string): (r: string)
    ensures |r| <= |s| && r == s[|s| - |r|..]
    ensures r != "" ==> r[0] !in BLANKS
    ensures forall i :: 0 <= i < |s| - |r| ==> s[i] in BLANKS
  {
    if s != "" && s[0] in BLANKS then SkipBlanks(s[1..]) else s
  }

  function DropTrailingBlanks(s: string): (r: string)
    ensures |r| <= |s| && r == s[..|r|]
    ensures r != "" ==> r[|r| - 1] !in BLANKS
    ensures forall i :: |r| <= i < |s| ==> s[i] in BLANKS
  {
    if s != "" && s[|s| - 1] in BLANKS then DropTrailingBlanks(s[..|s| - 1]) else s
  }

  /** XLStringUtil::chop with its default table. */
  function Chop(s: string): string {
    DropTrailingBlanks(SkipBlanks(s))
  }

  predicate Trimmed(s: string) {
    s != "" ==> s[0] !in BLANKS && s[|s| - 1] !in BLANKS
  }

  lemma ChopIsTrimmed(s: string)
    ensures Trimmed(Chop(s))
  {
    var a := SkipBlanks(s);
    var b := DropTrailingBlanks(a);
    if b != "" {
      assert b[0] == a[0];
    }
  }

  /** Blanks after a trimmed text are exactly what Chop removes. */
  lemma ChopPadded(s: string, tail: string)
    requires Trimmed(s) && forall c :: c in tail ==> c in BLANKS
    ensures Chop(s + tail) == s
  {
    var all := s + tail;
    var a := SkipBlanks(all);
    if s == "" {
      assert all == tail;
      assert forall i :: 0 <= i < |tail| ==> tail[i] in tail;
      assert a == "";
    } else {
      assert a == all;
      var d := DropTrailingBlanks(all);
      assert forall i :: |s| <= i < |all| ==> all[i] == tail[i - |s|] && tail[i - |s|] in tail;
      assert all[|s| - 1] == s[|s| - 1];
      assert d == s;
    }
  }

  lemma {:induction false} SkipPadding(pad: string, s: string)
    requires forall c :: c in pad ==> c in BLANKS
    ensures SkipBlanks(pad + s) == SkipBlanks(s)
  {
    if pad == "" {
      assert pad + s == s;
    } else {
      assert pad[0] in pad && (pad + s)[1..] == pad[1..] + s;
      SkipPadding(pad[1..], s);
    }
  }

  /** So they are in front of it. */
  lemma ChopPaddedBoth(pad: string, s: string, tail: string)
    requires Trimmed(s) && (forall c :: c in pad ==> c in BLANKS) && (forall c :: c in tail ==> c in BLANKS)
    ensures Chop(pad + s + tail) == s
  {
    hide Trimmed, SkipBlanks, DropTrailingBlanks;
    assert pad + s + tail == pad + (s + tail);
    SkipPadding(pad, s + tail);
    ChopPadded(s, tail);
  }

  // ----- C strings and fgets -----

  /** What a C string function sees of a buffer: the characters before the first NUL. */
  function CStr(s: string): (r: string)
    ensures |r| <= |s| && r == s[..|r|]
    ensures '\0' !in r
    ensures |r| < |s| ==> s[|r|] == '\0'
  {
    if s == "" || s[0] == '\0' then "" else [s[0]] + CStr(s[1..])
  }

  lemma {:induction false} CStrWithoutNul(s: string)
    requires '\0' !in s
    ensures CStr(s) == s
  {
    if s != "" {
      CStrWithoutNul(s[1..]);
    }
  }

  /** How many characters one fgets call takes from the unread text `s` when its buffer
      holds `limit` characters. */
  function FgetsLength(s: string, limit: nat): (n: nat)
    requires s != "" && limit > 0
    ensures 1 <= n <= |s| && n <= limit
    ensures forall i :: 0 <= i < n - 1 ==> s[i] != '\n'
    ensures s[n - 1] == '\n' || n == limit || n == |s|
  {
    if s[0] == '\n' || limit == 1 || |s| == 1 then 1 else 1 + FgetsLength(s[1..], limit - 1)
  }

  /** The buffers that successive fgets calls deliver for a whole file. */
  function Pieces(file: string, limit: nat): seq<string>
    requires limit > 0
  {
    if file == "" then []
    else
      var n := FgetsLength(file, limit);
      [file[..n]] + Pieces(file[n..], limit)
  }

  function Flat(parts: seq<string>): string {
    if parts == [] then "" else parts[0] + Flat(parts[1..])
  }

  /** A piece that fgets delivers the same way whatever follows it in the file. */
  predicate Complete(p: string, limit: nat) {
    && 1 <= |p| <= limit
    && (forall i :: 0 <= i < |p| - 1 ==> p[i] != '\n')
    && (p[|p| - 1] == '\n' || |p| == limit)
  }

  lemma {:induction false} FlatConcat(a: seq<string>, b: seq<string>)
    ensures Flat(a + b) == Flat(a) + Flat(b)
  {
    if a == [] {
      assert a + b == b;
    } else {
      assert (a + b)[1..] == a[1..] + b;
      FlatConcat(a[1..], b);
    }
  }

  lemma FlatSnoc(a: seq<string>, p: string)
    ensures Flat(a + [p]) == Flat(a) + p
  {
    FlatConcat(a, [p]);
    assert [p][1..] == [];
  }

  lemma {:induction false} FgetsLengthOfComplete(p: string, rest: string, limit: nat)
    requires limit > 0 && Complete(p, limit)
    ensures FgetsLength(p + rest, limit) == |p|
  {
    var n := FgetsLength(p + rest, limit);
    assert forall k :: 0 <= k < |p| ==> (p + rest)[k] == p[k];
    assert n == |p|;
  }

  lemma PiecesUnfold(file: string, limit: nat)
    requires limit > 0
    ensures file == "" ==> Pieces(file, limit) == []
    ensures file != "" ==>
              var n := FgetsLength(file, limit);
              Pieces(file, limit) == [file[..n]] + Pieces(file[n..], limit)
  {
  }

  /** Every piece but the last of a file is complete, and the last one too if the file ends with
      a newline. */
  lemma {:induction false} PiecesComplete(file: string, limit: nat)
    requires limit > 0
    ensures var ps := Pieces(file, limit);
            forall i :: 0 <= i < |ps| ==> 1 <= |ps[i]| <= limit && (i < |ps| - 1 ==> Complete(ps[i], limit))
    ensures var ps := Pieces(file, limit);
            ps != [] && file[|file| - 1] == '\n' ==> Complete(ps[|ps| - 1], limit)
    decreases |file|
  {
    hide Pieces;
    PiecesUnfold(file, limit);
    if file != "" {
      var n := FgetsLength(file, limit);
      PiecesUnfold(file[n..], limit);
      var head, rest := file[..n], file[n..];
      PiecesComplete(rest, limit);
      var ps, tail := Pieces(file, limit), Pieces(rest, limit);
      assert rest != "" ==> rest[|rest| - 1] == file[|file| - 1] && Complete(head, limit);
      assert forall i :: 1 <= i < |ps| ==> ps[i] == tail[i - 1];
    }
  }

  /** A text that ends with a newline, and what follows it, are delivered one after the other. */
  lemma {:induction false} PiecesConcat(head: string, rest: string, limit: nat)
    requires limit > 0 && (head == "" || head[|head| - 1] == '\n')
    ensures Pieces(head + rest, limit) == Pieces(head, limit) + Pieces(rest, limit)
    decreases |head|
  {
    hide Pieces;
    PiecesUnfold(head, limit);
    PiecesUnfold(head + rest, limit);
    if head == "" {
      assert head + rest == rest;
    } else {
      var n := FgetsLength(head, limit);
      var piece, more := head[..n], head[n..];
      PiecesComplete(head, limit);
      assert piece == Pieces(head, limit)[0];
      assert head + rest == piece + (more + rest);
      CompleteFirst(head, limit);
      FgetsLengthOfComplete(piece, more + rest, limit);
      PiecesConcat(more, rest, limit);
    }
  }

  lemma CompleteFirst(head: string, limit: nat)
    requires limit > 0 && head != "" && head[|head| - 1] == '\n'
    ensures Complete(head[..FgetsLength(head, limit)], limit)
  {
  }
}
