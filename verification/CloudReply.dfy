/** The reply of the server, one line for each file it has, and when a pass reads it as it was meant. */
module CloudReply {
  import opened Text
  import opened Numbers
  import opened CloudSync
  import opened Wrappers

  datatype File = File(kind: string, name: string)

  /** The server: the time of each file it has. */
  type Server = map<File, int>

  function TimeText(time: int): string {
    Num2Str(if time < 0 then 0 else time)
  }

  lemma TimeIsRead(time: int)
    requires 0 <= time < 0x1_0000_0000
    ensures Atou(TimeText(time)) == time
  {
    AtoiOfNum2Str(time);
  }

  // ----- the text of the reply -----

  /** What the line of a file says. */
  function Record(s: Server, f: File): (columns: seq<string>)
    requires f in s
  {
    [f.name, TimeText(s[f]), f.kind]
  }

  function Records(s: Server, order: seq<File>): (r: seq<seq<string>>)
    requires forall f :: f in order ==> f in s
    ensures |r| == |order| && forall i :: 0 <= i < |r| ==> r[i] == Record(s, order[i])
  {
    seq(|order|, i requires 0 <= i < |order| => Record(s, order[i]))
  }

  function Lined(records: seq<seq<string>>): (r: seq<string>)
    ensures |r| == |records| && forall i :: 0 <= i < |r| ==> r[i] == Join(COLUMN, records[i])
  {
    seq(|records|, i requires 0 <= i < |records| => Join(COLUMN, records[i]))
  }

  function ReplyText(s: Server, order: seq<File>): string
    requires forall f :: f in order ==> f in s
  {
    Join(TAB, ["OK"] + Lined(Records(s, order)))
  }

  /** Is this a reply of the server `s`, its files in some order and their times of 32 bits? */
  ghost predicate Replies(reply: string, s: Server) {
    && (forall f :: f in s ==> 0 <= s[f] < 0x1_0000_0000)
    && exists order :: Lists(order, s) && reply == ReplyText(s, order)
  }

  /** No tab and no column mark in the name or the kind. */
  ghost predicate Readable(f: File) {
    && '\t' !in f.name && !Contains(f.name, COLUMN)
    && '\t' !in f.kind && !Contains(f.kind, COLUMN)
  }

  ghost predicate AllReadable(s: Server) {
    forall f :: f in s ==> Readable(f)
  }

  // ----- reading it -----

  /** The status is read whatever the names are. */
  lemma StatusIsRead(s: Server, order: seq<File>)
    requires forall f :: f in order ==> f in s
    ensures Split(TAB, ReplyText(s, order))[0] == "OK"
  {
    hide SplitFrom, Lined, Records;
    var lines := Lined(Records(s, order));
    ContainsChar("OK", '\t');
    if lines == [] {
      assert ["OK"] + lines == ["OK"];
      SplitJoinIff(TAB, ["OK"]);
    } else {
      JoinCons(TAB, "OK", lines);
      SplitBehind(TAB, "", "OK", Join(TAB, lines));
      assert "" + "OK" + TAB + Join(TAB, lines) == "OK" + TAB + Join(TAB, lines);
    }
  }

  lemma ColumnMarkIsLess(s: string)
    ensures Contains(s, COLUMN) ==> '<' in s
  {
    if i: nat :| OccursAt(COLUMN, s, i) {
      assert s[i] == s[i..i + 2][0];
    }
  }

  /** The line of a readable file has its three columns and no tab. */
  lemma LineIsRead(s: Server, f: File)
    requires f in s
    ensures Split(COLUMN, Join(COLUMN, Record(s, f))) == Record(s, f) && '\t' !in Join(COLUMN, Record(s, f)) <==> Readable(f)
  {
    hide Split, TimeText, Contains;
    var time := TimeText(s[f]);
    TimeIsDigits(s[f]);
    ColumnMarkIsLess(time);
    SplitJoinIff(COLUMN, Record(s, f));
    LineText(f.name, time, f.kind);
  }

  lemma TimeIsDigits(time: int)
    ensures '\t' !in TimeText(time) && '<' !in TimeText(time)
  {
  }

  lemma LineText(name: string, time: string, kind: string)
    ensures '\t' in Join(COLUMN, [name, time, kind]) <==> '\t' in name || '\t' in time || '\t' in kind
    ensures forall part :: part in [name, time, kind] <==> part == name || part == time || part == kind
  {
    JoinCons(COLUMN, name, [time, kind]);
    JoinCons(COLUMN, time, [kind]);
    assert [name] + [time, kind] == [name, time, kind] && [time] + [kind] == [time, kind];
  }

  /** The columns read from the reply are those of the files if and only if no name and no kind
      contains a tab or a column mark. */
  lemma ReplyIsReadIff(s: Server, order: seq<File>)
    requires Lists(order, s)
    ensures Columns(ReplyText(s, order)) == Records(s, order) <==> AllReadable(s)
  {
    hide Split, Join, Record, Readable, Lined, Records, ColumnsOf, Contains;
    var reply, records := ReplyText(s, order), Records(s, order);
    var lines := Lined(records);
    forall i | 0 <= i < |order|
      ensures Split(COLUMN, lines[i]) == records[i] && '\t' !in lines[i] <==> Readable(order[i])
    {
      assert order[i] in order;
      LineIsRead(s, order[i]);
    }
    if AllReadable(s) {
      forall i | 0 <= i < |order| ensures Readable(order[i]) {
        assert order[i] in order;
      }
      LinesAreRead(lines);
      assert ColumnsOf(lines) == records;
    } else if Columns(reply) == records {
      var f :| f in s && !Readable(f);
      assert f in order;
      var i :| 0 <= i < |order| && order[i] == f;
      ColumnsAreFree(reply, i);
      RecordIsReadable(s, f);
    }
  }

  lemma LinesAreRead(lines: seq<string>)
    requires forall i :: 0 <= i < |lines| ==> '\t' !in lines[i]
    ensures Split(TAB, Join(TAB, ["OK"] + lines))[1..] == lines
  {
    hide Split, Contains;
    var all := ["OK"] + lines;
    forall part | part in all ensures !Contains(part, TAB) {
      ContainsChar(part, '\t');
    }
    SplitJoinIff(TAB, all);
  }

  /** What is read has no tab and no column mark in any column. */
  lemma ColumnsAreFree(reply: string, i: nat)
    requires i < |Columns(reply)|
    ensures forall part :: part in Columns(reply)[i] ==> '\t' !in part && !Contains(part, COLUMN)
  {
    hide Contains, SplitFrom;
    var line := Split(TAB, reply)[i + 1];
    PiecesAvoidChar(reply, '\t');
    assert line in Split(TAB, reply);
    PiecesAreFree(COLUMN, line, 0);
    PiecesHaveNoMore(COLUMN, line, 0, '\t');
  }

  lemma RecordIsReadable(s: Server, f: File)
    requires f in s
    ensures (forall part :: part in Record(s, f) ==> '\t' !in part && !Contains(part, COLUMN)) ==> Readable(f)
  {
    hide Contains, TimeText;
    assert f.name in Record(s, f) && f.kind in Record(s, f);
  }

  /** Do the lines list the server's files, each with its time? */
  ghost predicate ListsServer(lines: seq<seq<string>>, s: Server) {
    && (forall i :: 0 <= i < |lines| ==>
          |lines[i]| == 3 && File(lines[i][2], lines[i][0]) in s &&
          lines[i][1] == TimeText(s[File(lines[i][2], lines[i][0])]))
    && (forall f :: f in s ==> 0 <= s[f] < 0x1_0000_0000 && [f.name, TimeText(s[f]), f.kind] in lines)
  }

  lemma ReplyListsServer(reply: string, s: Server)
    requires Replies(reply, s) && AllReadable(s)
    ensures ListsServer(Columns(reply), s)
  {
    hide Columns, ReplyText, AllReadable, TimeText;
    var order :| Lists(order, s) && reply == ReplyText(s, order);
    ReplyIsReadIff(s, order);
    var lines := Records(s, order);
    forall i | 0 <= i < |lines| ensures order[i] in s && lines[i] == Record(s, order[i]) {
      assert order[i] in order;
    }
    forall f | f in s ensures Record(s, f) in lines {
      assert f in order;
      var i :| 0 <= i < |order| && order[i] == f;
      assert lines[i] == Record(s, f);
    }
  }
}
