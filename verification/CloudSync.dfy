/** Keeping the server's copy of three directories equal to the local ones: the table of what the
    server has, and the pass over a directory that sends uploads and deletions. */
module CloudSync {
  import opened Text
  import opened Numbers

  // ----- files and the table -----

  /** Characters a safe file name does not have. */
  const UNSAFE: string := "\n\r\"'/\\\t:*?|><"

  predicate CheckSafePath(name: string) {
    forall c :: c in UNSAFE ==> c !in name
  }

  function KeyOf(kind: string, name: string): string {
    kind + "/" + name
  }

  lemma LastSlash(kind: string, name: string, i: nat)
    requires '/' !in name && i < |KeyOf(kind, name)|
    ensures i == |kind| ==> KeyOf(kind, name)[i] == '/'
    ensures i > |kind| ==> KeyOf(kind, name)[i] != '/'
  {
    if i > |kind| {
      assert KeyOf(kind, name)[i] == name[i - |kind| - 1];
    }
  }

  /** Keys tell files apart, because names have no slash. */
  lemma KeysDiffer(k1: string, n1: string, k2: string, n2: string)
    requires '/' !in n1 && '/' !in n2 && KeyOf(k1, n1) == KeyOf(k2, n2)
    ensures k1 == k2 && n1 == n2
  {
    var s := KeyOf(k1, n1);
    LastSlash(k1, n1, |k1|);
    LastSlash(k1, n1, |k2|);
    LastSlash(k2, n2, |k1|);
    LastSlash(k2, n2, |k2|);
    assert |k1| == |k2|;
    assert k1 == s[..|k1|] && k2 == s[..|k2|];
    assert n1 == s[|k1| + 1..] && n2 == s[|k2| + 1..];
  }

  datatype Row = Row(kind: string, name: string, time: int, isUpload: bool, isLocalExist: bool)

  type Table = map<string, Row>

  /** Every row stands under its own key. */
  ghost predicate Keyed(t: Table) {
    forall key :: key in t ==> '/' !in t[key].name && key == KeyOf(t[key].kind, t[key].name)
  }

  datatype LocalFile = LocalFile(name: string, time: int, empty: bool)

  ghost predicate HasName(local: seq<LocalFile>, name: string) {
    exists f :: f in local && f.name == name
  }

  /** A directory has each name once, and names have no slash. */
  ghost predicate IsDirectory(local: seq<LocalFile>) {
    && (forall f :: f in local ==> '/' !in f.name)
    && (forall i, j :: 0 <= i < j < |local| ==> local[i].name != local[j].name)
  }

  datatype Request = Upload(kind: string, name: string) | Delete(kind: string, name: string)

  // ----- one local file -----

  function Noted(kind: string, t: Table, f: LocalFile): Table {
    var key := KeyOf(kind, f.name);
    if key !in t then t[key := Row(kind, f.name, f.time, true, true)]
    else if t[key].isUpload then t[key := t[key].(isLocalExist := true)]
    else t[key := t[key].(isUpload := f.time > t[key].time, isLocalExist := true)]
  }

  /** Is the file sent? An empty file never is. */
  predicate Due(kind: string, t: Table, f: LocalFile) {
    var key := KeyOf(kind, f.name);
    !f.empty && (key !in t || t[key].isUpload || f.time > t[key].time)
  }

  function SentFor(kind: string, t: Table, f: LocalFile): seq<Request> {
    if Due(kind, t, f) then [Upload(kind, f.name)] else []
  }

  // ----- what a pass may send, and what a whole pass sends -----

  /** Relative to the table `t` at the start: only due local files are uploaded, and only files of
      this kind that are not local are deleted. */
  ghost predicate Allowed(kind: string, t: Table, local: seq<LocalFile>, r: Request) {
    match r
    case Upload(k, n) => k == kind && exists f :: f in local && f.name == n && Due(kind, t, f)
    case Delete(k, n) => k == kind && '/' !in n && KeyOf(k, n) in t && !t[KeyOf(k, n)].isLocalExist && !HasName(local, n)
  }

  ghost predicate OnlyAllowed(kind: string, t: Table, local: seq<LocalFile>, sent: seq<Request>) {
    forall r :: r in sent ==> Allowed(kind, t, local, r)
  }

  ghost predicate AllAllowed(kind: string, t: Table, local: seq<LocalFile>, sent: seq<Request>) {
    forall r :: Allowed(kind, t, local, r) ==> r in sent
  }

  /** Rows of other kinds stay, and no row of another kind appears. */
  ghost predicate OtherKindsStay(kind: string, t: Table, u: Table) {
    && (forall key :: key in t && t[key].kind != kind ==> key in u && u[key] == t[key])
    && (forall key :: key in u && u[key].kind != kind ==> key in t && t[key] == u[key])
  }

  // ----- the pass over the local files -----

  ghost predicate Marks(kind: string, seen: seq<LocalFile>, key: string) {
    exists f :: f in seen && key == KeyOf(kind, f.name)
  }

  predicate RowFor(row: Row, kind: string, key: string) {
    row.kind == kind && '/' !in row.name && key == KeyOf(kind, row.name)
  }

  /** The table after these local files: their rows are marked, all other rows are as in `t`. */
  ghost predicate Scanned(kind: string, t: Table, seen: seq<LocalFile>, u: Table) {
    && (forall key :: key in u <==> key in t || Marks(kind, seen, key))
    && (forall key :: key in u && !Marks(kind, seen, key) ==> u[key] == t[key])
    && (forall key :: key in u && Marks(kind, seen, key) ==> u[key].isLocalExist && RowFor(u[key], kind, key))
  }

  lemma ScanStart(kind: string, t: Table)
    ensures Scanned(kind, t, [], t) && ExactlyUploads(kind, t, [], [])
  {
  }

  lemma NotedScanned(kind: string, t: Table, seen: seq<LocalFile>, u: Table, f: LocalFile)
    requires Keyed(t) && Scanned(kind, t, seen, u) && '/' !in f.name
    ensures Scanned(kind, t, seen + [f], Noted(kind, u, f))
  {
    hide KeyOf, Noted, Marks;
    var key := KeyOf(kind, f.name);
    var v := Noted(kind, u, f);
    forall k ensures Marks(kind, seen + [f], k) <==> Marks(kind, seen, k) || k == key {
      MarksSnoc(kind, seen, f, k);
    }
    if key in u && !Marks(kind, seen, key) {
      KeysDiffer(kind, f.name, t[key].kind, t[key].name);
    }
    NotedRow(kind, u, f);
    assert forall k :: k in v <==> k in u || k == key;
  }

  lemma MarksSnoc(kind: string, seen: seq<LocalFile>, f: LocalFile, k: string)
    ensures Marks(kind, seen + [f], k) <==> Marks(kind, seen, k) || k == KeyOf(kind, f.name)
  {
    hide KeyOf;
    if Marks(kind, seen, k) {
      var g :| g in seen && k == KeyOf(kind, g.name);
      assert g in seen + [f];
    }
    assert f in seen + [f];
  }

  lemma NotedRow(kind: string, u: Table, f: LocalFile)
    requires '/' !in f.name
    requires KeyOf(kind, f.name) in u ==> RowFor(u[KeyOf(kind, f.name)], kind, KeyOf(kind, f.name))
    ensures var key := KeyOf(kind, f.name);
            var v := Noted(kind, u, f);
            && v.Keys == u.Keys + {key}
            && v[key].isLocalExist && RowFor(v[key], kind, key)
            && forall k :: k in u && k != key ==> v[k] == u[k]
  {
    hide KeyOf;
  }

  predicate IsUpload(kind: string, t: Table, seen: seq<LocalFile>, r: Request) {
    exists f :: f in seen && Due(kind, t, f) && r == Upload(kind, f.name)
  }

  ghost predicate ExactlyUploads(kind: string, t: Table, seen: seq<LocalFile>, sent: seq<Request>) {
    forall r :: r in sent <==> IsUpload(kind, t, seen, r)
  }

  lemma DueUnchanged(kind: string, t: Table, seen: seq<LocalFile>, u: Table, f: LocalFile)
    requires Scanned(kind, t, seen, u) && '/' !in f.name && forall g :: g in seen ==> '/' !in g.name && g.name != f.name
    ensures Due(kind, u, f) == Due(kind, t, f)
  {
    hide KeyOf;
    if Marks(kind, seen, KeyOf(kind, f.name)) {
      var g :| g in seen && KeyOf(kind, f.name) == KeyOf(kind, g.name);
      KeysDiffer(kind, f.name, kind, g.name);
    }
  }

  lemma UploadsSnoc(kind: string, t: Table, seen: seq<LocalFile>, sent: seq<Request>, f: LocalFile, more: seq<Request>)
    requires ExactlyUploads(kind, t, seen, sent)
    requires more == if Due(kind, t, f) then [Upload(kind, f.name)] else []
    ensures ExactlyUploads(kind, t, seen + [f], sent + more)
  {
    hide Due;
    forall r ensures r in sent + more <==> IsUpload(kind, t, seen + [f], r) {
      if IsUpload(kind, t, seen, r) {
        var g :| g in seen && Due(kind, t, g) && r == Upload(kind, g.name);
        assert g in seen + [f];
      }
      assert f in seen + [f];
    }
  }

  // ----- the deletions -----

  predicate IsDelete(kind: string, u: Table, key: string, r: Request) {
    key in u && u[key].kind == kind && !u[key].isLocalExist && r == Delete(kind, u[key].name)
  }

  lemma MarksIffName(kind: string, local: seq<LocalFile>, name: string)
    requires '/' !in name && IsDirectory(local)
    ensures Marks(kind, local, KeyOf(kind, name)) <==> HasName(local, name)
  {
    hide KeyOf;
    if Marks(kind, local, KeyOf(kind, name)) {
      var f :| f in local && KeyOf(kind, name) == KeyOf(kind, f.name);
      KeysDiffer(kind, name, kind, f.name);
    }
  }

  /** A row to delete is one of `t` whose file is not local. */
  lemma DeletesAreAllowed(kind: string, t: Table, local: seq<LocalFile>, u: Table)
    requires Keyed(t) && Scanned(kind, t, local, u) && IsDirectory(local)
    ensures forall key, r :: IsDelete(kind, u, key, r) ==> Allowed(kind, t, local, r)
  {
    hide KeyOf, Due, Marks, HasName;
    forall key, r | IsDelete(kind, u, key, r) ensures Allowed(kind, t, local, r) {
      assert !Marks(kind, local, key) && u[key] == t[key] && key == KeyOf(kind, r.name);
      MarksIffName(kind, local, r.name);
    }
  }

  lemma AllowedDeletesAreRows(kind: string, t: Table, local: seq<LocalFile>, u: Table, r: Request)
    requires Keyed(t) && Scanned(kind, t, local, u) && IsDirectory(local)
    requires r.Delete? && Allowed(kind, t, local, r)
    ensures IsDelete(kind, u, KeyOf(kind, r.name), r)
  {
    hide KeyOf, Due, Marks, HasName;
    var key := KeyOf(kind, r.name);
    MarksIffName(kind, local, r.name);
    KeysDiffer(kind, r.name, t[key].kind, t[key].name);
  }

  ghost predicate OnlyDeletes(kind: string, u: Table, sent: seq<Request>) {
    forall r :: r in sent ==> exists key :: IsDelete(kind, u, key, r)
  }

  ghost predicate AllDeletes(kind: string, u: Table, keys: set<string>, sent: seq<Request>) {
    forall key, r :: IsDelete(kind, u, key, r) && key !in keys ==> r in sent
  }

  lemma DeletesSnoc(kind: string, u: Table, keys: set<string>, sent: seq<Request>, key: string, more: seq<Request>)
    requires OnlyDeletes(kind, u, sent) && AllDeletes(kind, u, keys, sent) && key in u
    requires more == if u[key].kind == kind && !u[key].isLocalExist then [Delete(kind, u[key].name)] else []
    ensures OnlyDeletes(kind, u, sent + more) && AllDeletes(kind, u, keys - {key}, sent + more)
  {
    forall r | r in sent + more ensures exists key :: IsDelete(kind, u, key, r) {
      if r in more {
        assert IsDelete(kind, u, key, r);
      }
    }
  }

  /** A whole pass sends what is allowed, and all of it. */
  lemma WholePass(kind: string, t: Table, local: seq<LocalFile>, u: Table, uploads: seq<Request>, deletes: seq<Request>)
    requires Keyed(t) && IsDirectory(local) && Scanned(kind, t, local, u)
    requires ExactlyUploads(kind, t, local, uploads)
    requires OnlyDeletes(kind, u, deletes)
    ensures OnlyAllowed(kind, t, local, uploads + deletes)
    ensures AllDeletes(kind, u, {}, deletes) ==> AllAllowed(kind, t, local, uploads + deletes)
  {
    hide KeyOf, Due, Scanned, Keyed;
    DeletesAreAllowed(kind, t, local, u);
    forall r | r in uploads + deletes ensures Allowed(kind, t, local, r) {
      if r in uploads {
        assert IsUpload(kind, t, local, r);
      }
    }
    if AllDeletes(kind, u, {}, deletes) {
      forall r | Allowed(kind, t, local, r) ensures r in uploads + deletes {
        if r.Delete? {
          AllowedDeletesAreRows(kind, t, local, u, r);
        } else {
          assert IsUpload(kind, t, local, r);
        }
      }
    }
  }

  lemma ScanStep(kind: string, t: Table, local: seq<LocalFile>, n: nat, u: Table, uploads: seq<Request>)
    requires Keyed(t) && IsDirectory(local) && n < |local| && Scanned(kind, t, local[..n], u)
    requires ExactlyUploads(kind, t, local[..n], uploads)
    ensures Scanned(kind, t, local[..n + 1], Noted(kind, u, local[n]))
    ensures ExactlyUploads(kind, t, local[..n + 1], uploads + SentFor(kind, u, local[n]))
  {
    hide Scanned, Keyed, KeyOf, Due, Noted, ExactlyUploads;
    var f := local[n];
    assert local[..n + 1] == local[..n] + [f];
    DueUnchanged(kind, t, local[..n], u, f);
    NotedScanned(kind, t, local[..n], u, f);
    UploadsSnoc(kind, t, local[..n], uploads, f, SentFor(kind, u, f));
  }

  lemma DeletesStart(kind: string, u: Table)
    ensures OnlyDeletes(kind, u, []) && AllDeletes(kind, u, u.Keys, [])
  {
  }

  // ----- the table from the server's reply -----

  const TAB := "\t"
  const COLUMN := "<>"

  /** The columns of each line; an empty line has one, which is empty. */
  function ColumnsOf(lines: seq<string>): (r: seq<seq<string>>)
    ensures |r| == |lines| && forall i :: 0 <= i < |r| ==> r[i] == Split(COLUMN, lines[i])
  {
    seq(|lines|, i requires 0 <= i < |lines| => Split(COLUMN, lines[i]))
  }

  /** The columns of the lines behind the status of a reply. */
  function Columns(reply: string): seq<seq<string>> {
    ColumnsOf(Split(TAB, reply)[1..])
  }

  lemma ColumnsSnoc(lines: seq<string>, n: nat)
    requires n < |lines|
    ensures ColumnsOf(lines[..n + 1]) == ColumnsOf(lines[..n]) + [Split(COLUMN, lines[n])]
    ensures lines[n] == "" ==> |Split(COLUMN, lines[n])| == 1
  {
    hide Split;
    EmptyLine();
  }

  lemma EmptyLine()
    ensures |Split(COLUMN, "")| == 1
  {
  }

  /** atou: the value as an unsigned int of 32 bits. */
  function Atou(s: string): nat {
    Atoi(s) % 0x1_0000_0000
  }

  /** A line is good when it has three columns and a safe name. */
  predicate IsGood(line: seq<string>) {
    |line| > 2 && CheckSafePath(line[0])
  }

  function RowOf(line: seq<string>): Row
    requires |line| > 2
  {
    Row(line[2], line[0], Atou(line[1]), false, false)
  }

  /** Is `t` the table of the lines: for each key the last good line with that key? */
  ghost predicate TableOf(lines: seq<seq<string>>, t: Table) {
    && (forall i :: 0 <= i < |lines| && IsGood(lines[i]) ==> KeyOf(lines[i][2], lines[i][0]) in t)
    && (forall key :: key in t ==> exists i :: LastGood(lines, key, i) && t[key] == RowOf(lines[i]))
  }

  ghost predicate LastGood(lines: seq<seq<string>>, key: string, i: int) {
    && 0 <= i < |lines| && IsGood(lines[i]) && key == KeyOf(lines[i][2], lines[i][0])
    && forall j :: i < j < |lines| && IsGood(lines[j]) ==> key != KeyOf(lines[j][2], lines[j][0])
  }

  lemma EmptyTable()
    ensures TableOf([], map[])
  {
  }

  lemma TableSnoc(lines: seq<seq<string>>, t: Table, line: seq<string>)
    requires TableOf(lines, t)
    ensures TableOf(lines + [line], if IsGood(line) then t[KeyOf(line[2], line[0]) := RowOf(line)] else t)
  {
    hide CheckSafePath, KeyOf;
    var more := lines + [line];
    GoodHasColumns(line);
    assert more[|lines|] == line;
    forall key | key in t && !(IsGood(line) && key == KeyOf(line[2], line[0]))
      ensures exists i :: LastGood(more, key, i) && t[key] == RowOf(more[i])
    {
      var i :| LastGood(lines, key, i) && t[key] == RowOf(lines[i]);
      assert more[i] == lines[i];
      assert LastGood(more, key, i);
    }
    if IsGood(line) {
      assert LastGood(more, KeyOf(line[2], line[0]), |lines|);
    }
  }

  lemma GoodHasColumns(line: seq<string>)
    ensures IsGood(line) ==> |line| > 2 && '/' !in line[0]
  {
    assert UNSAFE[4] == '/';
  }

  lemma TableIsKeyed(lines: seq<seq<string>>, t: Table)
    requires TableOf(lines, t)
    ensures Keyed(t)
    ensures forall key :: key in t ==> !t[key].isUpload && !t[key].isLocalExist
  {
    forall key | key in t
      ensures '/' !in t[key].name && key == KeyOf(t[key].kind, t[key].name)
      ensures !t[key].isUpload && !t[key].isLocalExist
    {
      hide KeyOf;
      var i :| LastGood(lines, key, i) && t[key] == RowOf(lines[i]);
      GoodHasColumns(lines[i]);
    }
  }

  // ----- the synchroniser -----

  const REMOCON := "remocon"
  const ELECICON := "elecicon"
  const ACTIONICON := "actionicon"

  class Synchroniser {
    var timetable: Table
    /** The requests sent to the server so far. */
    var sent: seq<Request>
    /** How many more looks at the stop flag find it clear; it is set by another thread and stays set. */
    var polls: nat

    constructor (polls: nat)
      ensures timetable == map[] && sent == [] && this.polls == polls
    {
      timetable, sent, this.polls := map[], [], polls;
    }

    method StopFlag() returns (set_: bool)
      modifies this`polls
      ensures set_ <==> old(polls) == 0
      ensures polls == if set_ then 0 else old(polls) - 1
    {
      if polls == 0 {
        return true;
      }
      polls := polls - 1;
      return false;
    }

    /** The callback for one local file. */
    method SyncLocalFile(kind: string, f: LocalFile)
      modifies this`timetable, this`sent
      ensures timetable == Noted(kind, old(timetable), f)
      ensures sent == old(sent) + SentFor(kind, old(timetable), f)
    {
      hide KeyOf;
      var key := KeyOf(kind, f.name);
      if key !in timetable {
        timetable := timetable[key := Row(kind, f.name, f.time, true, true)];
      } else if timetable[key].isUpload {
        timetable := timetable[key := timetable[key].(isLocalExist := true)];
      } else if f.time > timetable[key].time {
        timetable := timetable[key := timetable[key].(isUpload := true, isLocalExist := true)];
      } else {
        timetable := timetable[key := timetable[key].(isUpload := false, isLocalExist := true)];
        return;
      }
      V2SyncFile(kind, f);
    }

    method V2SyncFile(kind: string, f: LocalFile)
      modifies this`sent
      ensures sent == old(sent) + if f.empty then [] else [Upload(kind, f.name)]
    {
      if f.empty {
        return;
      }
      sent := sent + [Upload(kind, f.name)];
    }

    /** The pass over the local files; it ends early when the flag is set. */
    method ScanLocal(kind: string, local: seq<LocalFile>) returns (ghost done: nat, ghost uploads: seq<Request>)
      requires Keyed(timetable) && IsDirectory(local)
      modifies this
      ensures done <= |local| && (done < |local| ==> polls == 0) && polls <= old(polls)
      ensures Scanned(kind, old(timetable), local[..done], timetable)
      ensures sent == old(sent) + uploads && ExactlyUploads(kind, old(timetable), local[..done], uploads)
    {
      hide Scanned, Keyed, KeyOf, Due, Noted, ExactlyUploads, SentFor, IsDirectory;
      ghost var t, before := timetable, sent;
      uploads, done := [], 0;
      ScanStart(kind, t);
      assert local[..0] == [];
      var n := 0;
      while n < |local|
        invariant done == n <= |local| && polls <= old(polls)
        invariant Scanned(kind, t, local[..n], timetable)
        invariant sent == before + uploads
        invariant ExactlyUploads(kind, t, local[..n], uploads)
      {
        var stop := StopFlag();
        if stop {
          return;
        }
        ScanStep(kind, t, local, n, timetable, uploads);
        ghost var more := SentFor(kind, timetable, local[n]);
        SyncLocalFile(kind, local[n]);
        uploads := uploads + more;
        n := n + 1;
        done := n;
      }
    }

    /** The pass over the table: what the server alone has is deleted there. */
    method DeleteServerOnly(kind: string) returns (ghost deletes: seq<Request>)
      modifies this`sent, this`polls
      ensures sent == old(sent) + deletes && polls <= old(polls)
      ensures old(polls) == 0 ==> deletes == []
      ensures OnlyDeletes(kind, timetable, deletes)
      ensures polls > 0 ==> AllDeletes(kind, timetable, {}, deletes)
    {
      hide OnlyDeletes, AllDeletes;
      ghost var before := sent;
      deletes := [];
      var keys := timetable.Keys;
      DeletesStart(kind, timetable);
      while keys != {}
        invariant keys <= timetable.Keys
        invariant sent == before + deletes && polls <= old(polls)
        invariant old(polls) == 0 ==> deletes == []
        invariant OnlyDeletes(kind, timetable, deletes)
        invariant AllDeletes(kind, timetable, keys, deletes)
        decreases keys
      {
        var stop := StopFlag();
        if stop {
          return;
        }
        var key :| key in keys;
        var row := timetable[key];
        ghost var more := if row.kind == kind && !row.isLocalExist then [Delete(kind, row.name)] else [];
        DeletesSnoc(kind, timetable, keys, deletes, key, more);
        keys := keys - {key};
        deletes := deletes + more;
        if row.kind != kind {
          continue;
        }
        if row.isLocalExist {
          continue;
        }
        sent := sent + [Delete(row.kind, row.name)];
      }
    }

    /** V2SyncDirecotry: the pass over one directory. */
    method SyncDirectory(kind: string, local: seq<LocalFile>) returns (ghost requests: seq<Request>)
      requires Keyed(timetable) && IsDirectory(local)
      modifies this
      ensures Keyed(timetable) && OtherKindsStay(kind, old(timetable), timetable)
      ensures sent == old(sent) + requests && polls <= old(polls)
      ensures !IsKind(kind) ==> requests == []
      ensures OnlyAllowed(kind, old(timetable), local, requests)
      ensures IsKind(kind) && polls > 0 ==>
                AllAllowed(kind, old(timetable), local, requests)
    {
      hide Keyed, Scanned, OnlyAllowed, AllAllowed, ExactlyUploads, OnlyDeletes, AllDeletes, IsDirectory, OtherKindsStay;
      ghost var t := timetable;
      if !IsKind(kind) {
        NothingSent(kind, t, local);
        return [];
      }
      ghost var done, uploads := ScanLocal(kind, local);
      ghost var u := timetable;
      ScannedKeyed(kind, t, local, done, u);
      ghost var deletes := DeleteServerOnly(kind);
      requests := uploads + deletes;
      if done == |local| {
        assert local[..done] == local;
        WholePass(kind, t, local, u, uploads, deletes);
      } else {
        UploadsAllowed(kind, t, local, done, uploads);
        assert requests == uploads;
      }
    }

    /** The table of the server's lines. */
    method BuildTable(lines: seq<string>)
      modifies this`timetable
      ensures TableOf(ColumnsOf(lines), timetable)
    {
      hide TableOf, CheckSafePath, KeyOf, Split, ColumnsOf;
      timetable := map[];
      EmptyTable();
      assert ColumnsOf(lines[..0]) == [];
      for n := 0 to |lines|
        invariant TableOf(ColumnsOf(lines[..n]), timetable)
      {
        ColumnsSnoc(lines, n);
        TableSnoc(ColumnsOf(lines[..n]), timetable, Split(COLUMN, lines[n]));
        if lines[n] == "" {
          continue;
        }
        var vec := SplitList(COLUMN, lines[n]);
        if |vec| <= 2 {
          continue;
        }
        if !CheckSafePath(vec[0]) {
          continue;
        }
        timetable := timetable[KeyOf(vec[2], vec[0]) := RowOf(vec)];
      }
      assert lines[..|lines|] == lines;
    }

    /** SyncAll, from the text of the server's reply and the three directories; false stands for the
        exception. */
    method SyncAll(reply: string, dirs: Directories) returns (ok: bool, ghost t: Table)
      requires dirs.Valid() && sent == []
      modifies this
      ensures ok <==> old(polls) == 0 || Split(TAB, reply)[0] == "OK"
      ensures !ok || old(polls) == 0 ==> sent == []
      ensures ok && old(polls) > 0 ==> TableOf(Columns(reply), t) && OnlyWanted(t, dirs, sent)
      ensures ok && polls > 0 ==> AllWanted(t, dirs, sent)
    {
      hide TableOf, Keyed, OtherKindsStay, IsDirectory, OnlyAllowed, AllAllowed, OnlyWanted, AllWanted, Split, ColumnsOf;
      t := map[];
      var stop := StopFlag();
      if stop {
        return true, t;
      }
      var vec := SplitList(TAB, reply);
      if vec[0] != "OK" {
        return false, t;
      }
      BuildTable(vec[1..]);
      t := timetable;
      TableIsKeyed(Columns(reply), t);
      ghost var s1 := SyncDirectory(REMOCON, dirs.remocon);
      ghost var t1 := timetable;
      ghost var s2 := SyncDirectory(ELECICON, dirs.elecicon);
      ghost var t2 := timetable;
      ghost var s3 := SyncDirectory(ACTIONICON, dirs.actionicon);
      ok := true;
      InTurn(t, t1, t2, dirs, s1, s2, s3);
      if polls > 0 {
        AllInTurn(t, t1, t2, dirs, s1, s2, s3);
      }
      assert sent == s1 + s2 + s3;
    }
  }

  predicate IsKind(kind: string) {
    kind in [REMOCON, ELECICON, ACTIONICON]
  }

  datatype Directories = Directories(remocon: seq<LocalFile>, elecicon: seq<LocalFile>, actionicon: seq<LocalFile>) {
    ghost predicate Valid() {
      IsDirectory(remocon) && IsDirectory(elecicon) && IsDirectory(actionicon)
    }

    function Of(kind: string): seq<LocalFile> {
      if kind == REMOCON then remocon else if kind == ELECICON then elecicon else actionicon
    }
  }

  /** Relative to the server's table: an upload of a due file, or a deletion of a file that is not local. */
  ghost predicate Wanted(t: Table, dirs: Directories, r: Request) {
    IsKind(r.kind) && Allowed(r.kind, t, dirs.Of(r.kind), r)
  }

  ghost predicate OnlyWanted(t: Table, dirs: Directories, sent: seq<Request>) {
    forall r :: r in sent ==> Wanted(t, dirs, r)
  }

  ghost predicate AllWanted(t: Table, dirs: Directories, sent: seq<Request>) {
    forall r :: Wanted(t, dirs, r) ==> r in sent
  }

  /** The pass over one directory does not change what is allowed for another. */
  lemma AllowedSame(kind: string, other: string, t: Table, u: Table, local: seq<LocalFile>, r: Request)
    requires Keyed(t) && Keyed(u) && OtherKindsStay(other, t, u) && kind != other && IsDirectory(local)
    ensures Allowed(kind, t, local, r) <==> Allowed(kind, u, local, r)
  {
    hide KeyOf, HasName;
    SameRow(kind, other, t, u, r.name);
    forall f | f in local && f.name == r.name ensures Due(kind, t, f) == Due(kind, u, f) {
    }
  }

  lemma SameRow(kind: string, other: string, t: Table, u: Table, name: string)
    requires Keyed(t) && Keyed(u) && OtherKindsStay(other, t, u) && kind != other
    ensures '/' !in name ==>
              && (KeyOf(kind, name) in t <==> KeyOf(kind, name) in u)
              && (KeyOf(kind, name) in t ==> t[KeyOf(kind, name)] == u[KeyOf(kind, name)])
  {
    hide KeyOf;
    var key := KeyOf(kind, name);
    if '/' !in name {
      if key in t {
        KeysDiffer(kind, name, t[key].kind, t[key].name);
      }
      if key in u {
        KeysDiffer(kind, name, u[key].kind, u[key].name);
      }
    }
  }

  lemma InTurn(t: Table, t1: Table, t2: Table, dirs: Directories, s1: seq<Request>, s2: seq<Request>, s3: seq<Request>)
    requires dirs.Valid() && Keyed(t) && Keyed(t1) && Keyed(t2)
    requires OtherKindsStay(REMOCON, t, t1) && OtherKindsStay(ELECICON, t1, t2)
    requires OnlyAllowed(REMOCON, t, dirs.remocon, s1)
    requires OnlyAllowed(ELECICON, t1, dirs.elecicon, s2)
    requires OnlyAllowed(ACTIONICON, t2, dirs.actionicon, s3)
    ensures OnlyWanted(t, dirs, s1 + s2 + s3)
  {
    hide Keyed, OtherKindsStay, Allowed, IsDirectory;
    forall r | r in s1 + s2 + s3 ensures Wanted(t, dirs, r) {
      AllowedHasKind(REMOCON, t, dirs.remocon, r);
      AllowedHasKind(ELECICON, t1, dirs.elecicon, r);
      AllowedHasKind(ACTIONICON, t2, dirs.actionicon, r);
      AllowedSame(ELECICON, REMOCON, t, t1, dirs.elecicon, r);
      AllowedSame(ACTIONICON, REMOCON, t, t1, dirs.actionicon, r);
      AllowedSame(ACTIONICON, ELECICON, t1, t2, dirs.actionicon, r);
    }
  }

  lemma AllInTurn(t: Table, t1: Table, t2: Table, dirs: Directories, s1: seq<Request>, s2: seq<Request>, s3: seq<Request>)
    requires dirs.Valid() && Keyed(t) && Keyed(t1) && Keyed(t2)
    requires OtherKindsStay(REMOCON, t, t1) && OtherKindsStay(ELECICON, t1, t2)
    requires AllAllowed(REMOCON, t, dirs.remocon, s1)
    requires AllAllowed(ELECICON, t1, dirs.elecicon, s2)
    requires AllAllowed(ACTIONICON, t2, dirs.actionicon, s3)
    ensures AllWanted(t, dirs, s1 + s2 + s3)
  {
    hide Keyed, OtherKindsStay, Allowed, IsDirectory;
    forall r | Wanted(t, dirs, r) ensures r in s1 + s2 + s3 {
      AllowedSame(ELECICON, REMOCON, t, t1, dirs.elecicon, r);
      AllowedSame(ACTIONICON, REMOCON, t, t1, dirs.actionicon, r);
      AllowedSame(ACTIONICON, ELECICON, t1, t2, dirs.actionicon, r);
    }
  }

  lemma AllowedHasKind(kind: string, t: Table, local: seq<LocalFile>, r: Request)
    ensures Allowed(kind, t, local, r) ==> r.kind == kind
  {
  }

  lemma NothingSent(kind: string, t: Table, local: seq<LocalFile>)
    ensures OtherKindsStay(kind, t, t) && OnlyAllowed(kind, t, local, [])
  {
  }

  lemma ScannedKeyed(kind: string, t: Table, local: seq<LocalFile>, done: nat, u: Table)
    requires Keyed(t) && IsDirectory(local) && done <= |local| && Scanned(kind, t, local[..done], u)
    ensures Keyed(u) && OtherKindsStay(kind, t, u)
  {
    hide KeyOf;
    forall key | key in t && Marks(kind, local[..done], key) ensures t[key].kind == kind {
      var f :| f in local[..done] && key == KeyOf(kind, f.name);
      KeysDiffer(kind, f.name, t[key].kind, t[key].name);
    }
  }

  lemma UploadsAllowed(kind: string, t: Table, local: seq<LocalFile>, done: nat, uploads: seq<Request>)
    requires done <= |local| && ExactlyUploads(kind, t, local[..done], uploads)
    ensures OnlyAllowed(kind, t, local, uploads)
  {
    hide Due;
    forall r | r in uploads ensures Allowed(kind, t, local, r) {
      assert IsUpload(kind, t, local[..done], r);
    }
  }
}
