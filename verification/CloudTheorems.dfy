/** What a pass of the synchroniser makes of the server's files. */
module CloudTheorems {
  import opened Text
  import opened CloudSync
  import opened CloudReply
  import opened Wrappers

  /** The server after carrying out the requests; `stamps` are the times it gives to uploads. */
  function Applied(s: Server, sent: seq<Request>, stamps: seq<int>): Server
    requires |stamps| == |sent|
  {
    if sent == [] then s
    else
      var n := |sent| - 1;
      var before := Applied(s, sent[..n], stamps[..n]);
      match sent[n]
      case Upload(k, name) => before[File(k, name) := stamps[n]]
      case Delete(k, name) => before - {File(k, name)}
  }

  predicate About(r: Request, f: File) {
    r.kind == f.kind && r.name == f.name
  }

  /** A file after the requests: the last request about it decides. */
  lemma {:induction false} AppliedAt(s: Server, sent: seq<Request>, stamps: seq<int>, f: File)
    requires |stamps| == |sent|
    ensures var after := Applied(s, sent, stamps);
            && ((forall i :: 0 <= i < |sent| ==> !About(sent[i], f)) ==>
                  (f in after <==> f in s) && (f in s ==> after[f] == s[f]))
            && (forall i :: 0 <= i < |sent| && About(sent[i], f) && (forall j :: i < j < |sent| ==> !About(sent[j], f)) ==>
                  (f in after <==> sent[i].Upload?) && (sent[i].Upload? ==> after[f] == stamps[i]))
  {
    if sent != [] {
      var n := |sent| - 1;
      AppliedAt(s, sent[..n], stamps[..n], f);
      assert forall i :: 0 <= i < n ==> sent[..n][i] == sent[i] && stamps[..n][i] == stamps[i];
    }
  }

  lemma LastAbout(sent: seq<Request>, f: File, n: nat) returns (i: nat)
    requires n < |sent| && About(sent[n], f)
    ensures n <= i < |sent| && About(sent[i], f)
    ensures forall j :: i < j < |sent| ==> !About(sent[j], f)
  {
    i := |sent| - 1;
    while !About(sent[i], f)
      invariant n <= i < |sent|
      invariant forall j :: i < j < |sent| ==> !About(sent[j], f)
      decreases i
    {
      i := i - 1;
    }
  }

  // ----- the table of the server's reply -----

  /** The table has the server's safe-named files and their times. */
  lemma TableOfServer(lines: seq<seq<string>>, s: Server, t: Table, kind: string, name: string)
    requires ListsServer(lines, s) && TableOf(lines, t) && '/' !in name
    ensures KeyOf(kind, name) in t <==> File(kind, name) in s && CheckSafePath(name)
    ensures KeyOf(kind, name) in t ==> t[KeyOf(kind, name)] == Row(kind, name, s[File(kind, name)], false, false)
  {
    hide KeyOf, TimeText, Atou, CheckSafePath;
    var key, f := KeyOf(kind, name), File(kind, name);
    if f in s && CheckSafePath(name) {
      var i :| 0 <= i < |lines| && lines[i] == [name, TimeText(s[f]), kind];
      assert IsGood(lines[i]);
    }
    if key in t {
      var i :| LastGood(lines, key, i) && t[key] == RowOf(lines[i]);
      GoodHasColumns(lines[i]);
      KeysDiffer(kind, name, lines[i][2], lines[i][0]);
      TimeIsRead(s[f]);
    }
  }

  // ----- safety: at any point, whatever was sent and carried out -----

  /** However far a pass gets, and whatever part of its requests the server carries out, no file
      that is there locally is deleted, and files of other kinds are not touched. */
  lemma LocalFilesAreSafe(t: Table, dirs: Directories, sent: seq<Request>, some: seq<Request>,
                          s: Server, stamps: seq<int>, f: File)
    requires OnlyWanted(t, dirs, sent) && (forall r :: r in some ==> r in sent) && |stamps| == |some|
    requires f in s && (!IsKind(f.kind) || HasName(dirs.Of(f.kind), f.name))
    ensures f in Applied(s, some, stamps)
  {
    hide Allowed, HasName;
    AppliedAt(s, some, stamps, f);
    forall i | 0 <= i < |some| && About(some[i], f) ensures some[i].Upload? {
      assert some[i] in sent;
      DeletesAreNotLocal(t, dirs, some[i]);
    }
    if n :| 0 <= n < |some| && About(some[n], f) {
      var i := LastAbout(some, f, n);
    }
  }

  lemma DeletesAreNotLocal(t: Table, dirs: Directories, r: Request)
    requires Wanted(t, dirs, r)
    ensures IsKind(r.kind) && (HasName(dirs.Of(r.kind), r.name) ==> r.Upload?)
  {
  }

  // ----- what a whole pass achieves -----

  /** The server's clock puts no upload before the time of the local file. */
  ghost predicate StampsAreLate(dirs: Directories, sent: seq<Request>, stamps: seq<int>) {
    && |stamps| == |sent|
    && forall i, g :: 0 <= i < |sent| && g in dirs.Of(sent[i].kind) && g.name == sent[i].name ==> g.time <= stamps[i]
  }

  /** A pass that was not stopped, on the reply of the server `s`. */
  ghost predicate Passed(s: Server, dirs: Directories, sent: seq<Request>, stamps: seq<int>) {
    exists reply, t ::
      && Replies(reply, s) && TableOf(Columns(reply), t)
      && OnlyWanted(t, dirs, sent) && AllWanted(t, dirs, sent)
      && StampsAreLate(dirs, sent, stamps)
  }

  /** What is asked about one file: it is uploaded when its local copy has content and the server
      shows no copy as new, and deleted when the server shows a copy and there is none here. */
  lemma WantedAbout(lines: seq<seq<string>>, s: Server, t: Table, dirs: Directories, f: File)
    requires ListsServer(lines, s) && TableOf(lines, t) && dirs.Valid() && IsKind(f.kind)
    ensures forall g :: g in dirs.Of(f.kind) && g.name == f.name ==>
              (Wanted(t, dirs, Upload(f.kind, f.name)) <==>
                 !g.empty && (f !in s || !CheckSafePath(f.name) || g.time > s[f]))
    ensures !HasName(dirs.Of(f.kind), f.name) ==> !Wanted(t, dirs, Upload(f.kind, f.name))
    ensures Wanted(t, dirs, Delete(f.kind, f.name)) <==>
              f in s && CheckSafePath(f.name) && !HasName(dirs.Of(f.kind), f.name)
  {
    hide KeyOf, CheckSafePath, ListsServer, TableOf;
    var local := dirs.Of(f.kind);
    SafeHasNoSlash(f.name);
    if '/' !in f.name {
      TableOfServer(lines, s, t, f.kind, f.name);
    }
    forall g | g in local && g.name == f.name
      ensures Wanted(t, dirs, Upload(f.kind, f.name)) <==>
                !g.empty && (f !in s || !CheckSafePath(f.name) || g.time > s[f])
    {
      OneOfName(local, g);
    }
  }

  lemma SafeHasNoSlash(name: string)
    ensures CheckSafePath(name) ==> '/' !in name
  {
    assert UNSAFE[4] == '/';
  }

  lemma OneOfName(local: seq<LocalFile>, g: LocalFile)
    requires IsDirectory(local) && g in local
    ensures forall h :: h in local && h.name == g.name ==> h == g
  {
  }

  /** After a whole pass on a reply that is read as it was meant: a local file with content is there
      and is not older than here; an empty one, which cannot be sent, is as it was; and of the files
      that are not local just those remain whose unsafe name the pass ignores. */
  lemma FullPass(s: Server, dirs: Directories, sent: seq<Request>, stamps: seq<int>, f: File)
    requires dirs.Valid() && AllReadable(s) && Passed(s, dirs, sent, stamps) && IsKind(f.kind)
    ensures var after := Applied(s, sent, stamps);
            && (forall g :: g in dirs.Of(f.kind) && g.name == f.name ==>
                  if g.empty then (f in after <==> f in s) && (f in s ==> after[f] == s[f])
                  else f in after && after[f] >= g.time)
            && (!HasName(dirs.Of(f.kind), f.name) ==> (f in after <==> f in s && !CheckSafePath(f.name)))
  {
    hide CheckSafePath, ListsServer, TableOf, HasName, Wanted, Applied, Replies, Columns, AllReadable;
    var reply, t :|
      && Replies(reply, s) && TableOf(Columns(reply), t)
      && OnlyWanted(t, dirs, sent) && AllWanted(t, dirs, sent)
      && StampsAreLate(dirs, sent, stamps);
    ReplyListsServer(reply, s);
    WantedAbout(Columns(reply), s, t, dirs, f);
    AppliedAt(s, sent, stamps, f);
    AboutFile(dirs, t, sent, f);
    var up, del := Upload(f.kind, f.name), Delete(f.kind, f.name);
    if n :| 0 <= n < |sent| && About(sent[n], f) {
      var i := LastAbout(sent, f, n);
      assert sent[i] in sent && (sent[i] == up || sent[i] == del);
      assert Wanted(t, dirs, sent[i]);
    } else {
      assert !Wanted(t, dirs, up) && !Wanted(t, dirs, del);
    }
    forall g | g in dirs.Of(f.kind) && g.name == f.name ensures HasName(dirs.Of(f.kind), f.name) {
      NameOf(dirs.Of(f.kind), g);
    }
  }

  lemma NameOf(local: seq<LocalFile>, g: LocalFile)
    requires g in local
    ensures HasName(local, g.name)
  {
  }

  lemma AboutFile(dirs: Directories, t: Table, sent: seq<Request>, f: File)
    requires OnlyWanted(t, dirs, sent) && AllWanted(t, dirs, sent)
    ensures forall i :: 0 <= i < |sent| && About(sent[i], f) ==>
              Wanted(t, dirs, sent[i]) && (sent[i] == Upload(f.kind, f.name) || sent[i] == Delete(f.kind, f.name))
    ensures forall r :: Wanted(t, dirs, r) && About(r, f) ==> exists i :: 0 <= i < |sent| && sent[i] == r && About(sent[i], f)
  {
    hide Wanted;
    forall i | 0 <= i < |sent| && About(sent[i], f)
      ensures Wanted(t, dirs, sent[i]) && (sent[i] == Upload(f.kind, f.name) || sent[i] == Delete(f.kind, f.name))
    {
      assert sent[i] in sent;
    }
    forall r | Wanted(t, dirs, r) && About(r, f) ensures exists i :: 0 <= i < |sent| && sent[i] == r && About(sent[i], f) {
      assert r in sent;
      var i :| 0 <= i < |sent| && sent[i] == r;
    }
  }

  // ----- a second pass -----

  lemma {:induction false} AppliedFrom(s: Server, sent: seq<Request>, stamps: seq<int>, f: File)
    requires |stamps| == |sent|
    ensures f in Applied(s, sent, stamps) ==> f in s || Upload(f.kind, f.name) in sent
  {
    if sent != [] {
      var n := |sent| - 1;
      AppliedFrom(s, sent[..n], stamps[..n], f);
      assert sent[n] in sent;
    }
  }

  lemma SafeIsReadable(f: File)
    requires CheckSafePath(f.name) && IsKind(f.kind)
    ensures Readable(f)
  {
    assert UNSAFE[6] == '\t' && UNSAFE[12] == '<';
    ColumnMarkIsLess(f.name);
    ColumnMarkIsLess(f.kind);
  }

  /** All local files with content have safe names. */
  ghost predicate AllSafe(dirs: Directories) {
    forall kind, g :: IsKind(kind) && g in dirs.Of(kind) && !g.empty ==> CheckSafePath(g.name)
  }

  lemma StaysReadable(s: Server, t: Table, dirs: Directories, sent: seq<Request>, stamps: seq<int>)
    requires AllReadable(s) && AllSafe(dirs) && OnlyWanted(t, dirs, sent) && |stamps| == |sent|
    ensures AllReadable(Applied(s, sent, stamps))
  {
    hide CheckSafePath, Applied, Readable, IsKind, KeyOf;
    forall f | f in Applied(s, sent, stamps) ensures Readable(f) {
      AppliedFrom(s, sent, stamps, f);
      if f !in s {
        assert Wanted(t, dirs, Upload(f.kind, f.name));
        SafeIsReadable(f);
      }
    }
  }

  /** A local file with content and an unsafe name is sent whatever the reply says. */
  lemma UnsafeIsSent(lines: seq<seq<string>>, t: Table, dirs: Directories, kind: string, g: LocalFile)
    requires dirs.Valid() && TableOf(lines, t) && IsKind(kind) && g in dirs.Of(kind)
    requires !g.empty && !CheckSafePath(g.name)
    ensures Wanted(t, dirs, Upload(kind, g.name))
  {
    hide CheckSafePath, KeyOf, IsKind;
    var key := KeyOf(kind, g.name);
    if key in t {
      var i :| LastGood(lines, key, i) && t[key] == RowOf(lines[i]);
      GoodHasColumns(lines[i]);
      KeysDiffer(kind, g.name, lines[i][2], lines[i][0]);
    }
  }

  /** A second pass right after the first sends nothing, unless a local file with content has a name
      that the server's reply is not trusted with: such a file is sent again every time. */
  lemma SecondPassIff(s: Server, dirs: Directories, sent: seq<Request>, stamps: seq<int>,
                      again: seq<Request>, stamps2: seq<int>)
    requires dirs.Valid() && AllReadable(s) && Passed(s, dirs, sent, stamps)
    requires Passed(Applied(s, sent, stamps), dirs, again, stamps2)
    ensures again == [] <==>
              forall kind, g :: IsKind(kind) && g in dirs.Of(kind) && !g.empty ==> CheckSafePath(g.name)
  {
    hide CheckSafePath, ListsServer, TableOf, HasName, Wanted, Applied, IsKind, Replies, Columns, AllReadable;
    var after := Applied(s, sent, stamps);
    var reply, t :|
      && Replies(reply, after) && TableOf(Columns(reply), t)
      && OnlyWanted(t, dirs, again) && AllWanted(t, dirs, again)
      && StampsAreLate(dirs, again, stamps2);
    if !AllSafe(dirs) {
      var kind, g :| IsKind(kind) && g in dirs.Of(kind) && !g.empty && !CheckSafePath(g.name);
      UnsafeIsSent(Columns(reply), t, dirs, kind, g);
      assert Upload(kind, g.name) in again;
    } else if again != [] {
      var t1 :| OnlyWanted(t1, dirs, sent);
      StaysReadable(s, t1, dirs, sent, stamps);
      ReplyListsServer(reply, after);
      NothingIsWanted(Columns(reply), s, t, dirs, sent, stamps, again[0]);
    }
  }

  /** What a second pass sends is an upload of a local file with content and an unsafe name. */
  lemma NothingIsWanted(lines: seq<seq<string>>, s: Server, t: Table, dirs: Directories,
                        sent: seq<Request>, stamps: seq<int>, r: Request)
    requires dirs.Valid() && |stamps| == |sent| && AllReadable(s) && Passed(s, dirs, sent, stamps)
    requires ListsServer(lines, Applied(s, sent, stamps)) && TableOf(lines, t)
    ensures AllSafe(dirs) ==> !Wanted(t, dirs, r)
  {
    hide CheckSafePath, ListsServer, TableOf, Applied, Due, Passed, AllReadable;
    var f := File(r.kind, r.name);
    if Wanted(t, dirs, r) {
      FullPass(s, dirs, sent, stamps, f);
      WantedAbout(lines, Applied(s, sent, stamps), t, dirs, f);
      if r.Upload? {
        var g :| g in dirs.Of(f.kind) && g.name == f.name;
        assert Wanted(t, dirs, Upload(f.kind, f.name));
      }
    }
  }

  // ----- a name with column marks -----

  /** A file of the server whose name says the line of another one. */
  function Forger(time: int): File {
    File(REMOCON, Join(COLUMN, ["x", TimeText(time), REMOCON]))
  }

  /** The one local file. */
  function OnlyX(time: int): Directories {
    Directories([LocalFile("x", time, false)], [], [])
  }

  lemma ForgedColumns(time: int, other: int)
    ensures var s := map[Forger(time) := other];
            Columns(ReplyText(s, [Forger(time)])) == [["x", TimeText(time), REMOCON, TimeText(other), REMOCON]]
  {
    hide TimeText, Split, Contains, Join;
    var f, s := Forger(time), map[Forger(time) := other];
    var parts := ["x", TimeText(time), REMOCON, TimeText(other), REMOCON];
    var line := Join(COLUMN, Record(s, f));
    JoinJoined(COLUMN, ["x", TimeText(time), REMOCON], [TimeText(other), REMOCON]);
    assert ["x", TimeText(time), REMOCON] + [TimeText(other), REMOCON] == parts;
    assert [f.name] + [TimeText(other), REMOCON] == Record(s, f);
    forall part | part in parts ensures !Contains(part, COLUMN) && '\t' !in part {
      TimeIsDigits(time);
      TimeIsDigits(other);
      ColumnMarkIsLess(part);
    }
    SplitJoinIff(COLUMN, parts);
    NoTabInJoin(parts);
    assert Lined(Records(s, [f])) == [line];
    LinesAreRead([line]);
  }

  lemma {:induction false} NoTabInJoin(parts: seq<string>)
    requires forall part :: part in parts ==> '\t' !in part
    ensures '\t' !in Join(COLUMN, parts)
  {
    if |parts| > 1 {
      assert parts[0] in parts && forall part :: part in parts[1..] ==> part in parts;
      NoTabInJoin(parts[1..]);
    } else if parts != [] {
      assert parts[0] in parts;
    }
  }

  lemma {:induction false} JoinJoined(glue: string, a: seq<string>, b: seq<string>)
    requires a != [] && b != []
    ensures Join(glue, [Join(glue, a)] + b) == Join(glue, a + b)
  {
    hide Join;
    var head, tail := a[0], a[1..];
    assert a == [head] + tail && a + b == [head] + (tail + b);
    if tail == [] {
      JoinOne(glue, head);
      assert a == [head] && tail + b == b;
    } else {
      JoinJoined(glue, tail, b);
      JoinCons(glue, Join(glue, tail), b);
      JoinCons(glue, head, tail);
      JoinCons(glue, head, tail + b);
      JoinCons(glue, Join(glue, a), b);
    }
  }

  lemma ForgedTable(lines: seq<seq<string>>, time: int, t: Table)
    requires |lines| == 1 && |lines[0]| > 2 && lines[0][..3] == ["x", TimeText(time), REMOCON]
    requires 0 <= time < 0x1_0000_0000
    requires t == map[KeyOf(REMOCON, "x") := Row(REMOCON, "x", time, false, false)]
    ensures TableOf(lines, t) && OnlyX(time).Valid()
    ensures forall r :: !Wanted(t, OnlyX(time), r)
  {
    hide KeyOf, TimeText;
    var x := LocalFile("x", time, false);
    assert lines[0][0] == "x" && lines[0][1] == lines[0][..3][1] && lines[0][2] == lines[0][..3][2];
    assert CheckSafePath("x") && '/' !in "x" && x in OnlyX(time).remocon;
    TimeIsRead(time);
    assert LastGood(lines, KeyOf(REMOCON, "x"), 0);
    forall r | Wanted(t, OnlyX(time), r) && r.Delete? ensures false {
      KeysDiffer(r.kind, r.name, REMOCON, "x");
    }
  }

  /** Without that condition on the names a pass can fail: a listed file whose name contains column
      marks is read as another one, which is then not uploaded though the server lacks it. */
  lemma ForgedLineExample(time: int, other: int)
    requires 0 <= time < 0x1_0000_0000 && 0 <= other < 0x1_0000_0000
    ensures var s := map[Forger(time) := other];
            && OnlyX(time).Valid() && Passed(s, OnlyX(time), [], [])
            && File(REMOCON, "x") !in Applied(s, [], [])
  {
    hide TimeText, KeyOf, Columns, TableOf, Wanted;
    var f, s := Forger(time), map[Forger(time) := other];
    var reply := ReplyText(s, [f]);
    var t := map[KeyOf(REMOCON, "x") := Row(REMOCON, "x", time, false, false)];
    ForgedColumns(time, other);
    ForgedTable(Columns(reply), time, t);
    assert Lists([f], s) && Replies(reply, s) && TableOf(Columns(reply), t);
    assert OnlyWanted(t, OnlyX(time), []) && AllWanted(t, OnlyX(time), []) && StampsAreLate(OnlyX(time), [], []);
    assert |f.name| > 1;
  }
}
