/** The configuration store and its text file: loading, and the save that rewrites the old file
    line by line so that comments and order survive. */
module ConfigFile {
  import opened Text
  import opened Wrappers

  /** What one fgets call of the loader and of the saver can deliver. */
  const LINE_LIMIT: nat := 65533

  // ----- lines -----

  datatype Line = Nothing | Blank | Comment | Garbage | Entry(key: string, value: string)

  /** The text of each fgets buffer, as a C string. */
  function Lines(file: string): seq<string> {
    if file == "" then []
    else
      var n := FgetsLength(file, LINE_LIMIT);
      [CStr(file[..n])] + Lines(file[n..])
  }

  predicate IsComment(s: string) {
    || s == ""
    || s[0] == '#' || s[0] == ';' || s[0] == '\''
    || (|s| >= 2 && s[0] == '/' && s[1] == '/')
    || (|s| >= 2 && s[0] == '-' && s[1] == '-')
  }

  /** What a comment begins with. */
  const COMMENT_MARKS: seq<string> := ["#", ";", "'", "//", "--"]

  lemma CommentsBeginWithMarks(s: string)
    ensures IsComment(s) <==> s == "" || exists i :: 0 <= i < |COMMENT_MARKS| && COMMENT_MARKS[i] <= s
  {
    assert COMMENT_MARKS[0] == "#" && COMMENT_MARKS[1] == ";" && COMMENT_MARKS[2] == "'";
    assert COMMENT_MARKS[3] == "//" && COMMENT_MARKS[4] == "--";
  }

  /** Position of the first '=' in `s`, or the length of `s`. */
  function Equals(s: string): (n: nat)
    ensures n <= |s| && '=' !in s[..n] && (n < |s| ==> s[n] == '=')
  {
    if s == "" || s[0] == '=' then 0 else 1 + Equals(s[1..])
  }

  function Parse(s: string): Line {
    if s == "" then Nothing
    else if s == "\n" || s == "\r\n" then Blank
    else if IsComment(s) then Comment
    else
      var eq := Equals(s);
      if eq == |s| then Garbage else Entry(Chop(s[..eq]), Chop(s[eq + 1..]))
  }

  /** The line that stores an entry. */
  function EntryLine(key: string, value: string): string {
    CStr(key) + "=" + CStr(value) + "\r\n"
  }

  // ----- loading -----

  function LoadLine(data: map<string, string>, s: string): map<string, string> {
    match Parse(s)
    case Entry(k, v) => data[k := v]
    case _ => data
  }

  function Loaded(lines: seq<string>): map<string, string> {
    if lines == [] then map[] else LoadLine(Loaded(lines[..|lines| - 1]), lines[|lines| - 1])
  }

  // ----- saving -----

  /** Lines written so far, entries not written yet, and the run of blank lines just seen. */
  datatype Saving = Saving(out: seq<string>, left: map<string, string>, blanks: nat)

  /** What the saver does with one line of the old file. */
  function SaveLine(st: Saving, s: string): Saving {
    match Parse(s)
    case Nothing => st
    case Blank => Saving(if st.blanks + 1 < 5 then st.out + ["\r\n"] else st.out, st.left, st.blanks + 1)
    case Comment => Saving(st.out + [s], st.left, 0)
    case Garbage => st.(blanks := 0)
    case Entry(k, v) =>
      if k !in st.left then st.(blanks := 0)
      else if v == st.left[k] then Saving(st.out + [s], st.left - {k}, 0)
      else if CStr(k) == "" then st.(blanks := 0)
      else Saving(st.out + [EntryLine(k, st.left[k])], st.left - {k}, 0)
  }

  function SaveLines(data: map<string, string>, lines: seq<string>): Saving {
    if lines == [] then Saving([], data, 0)
    else SaveLine(SaveLines(data, lines[..|lines| - 1]), lines[|lines| - 1])
  }

  function EntryLines(data: map<string, string>, order: seq<string>): seq<string>
    requires forall k :: k in order ==> k in data
  {
    if order == [] then []
    else EntryLines(data, order[..|order| - 1]) + [EntryLine(order[|order| - 1], data[order[|order| - 1]])]
  }

  /** The lines of the new file when the entries without an old line come in this order. */
  ghost function NewLines(data: map<string, string>, lines: seq<string>, order: seq<string>): seq<string>
    requires Lists(order, SaveLines(data, lines).left)
  {
    var st := SaveLines(data, lines);
    st.out + EntryLines(st.left, order)
  }

  /** Is `after` what saving `data` over `before` may write? */
  ghost predicate Saves(data: map<string, string>, before: string, after: string) {
    exists order ::
      && Lists(order, SaveLines(data, Lines(before)).left)
      && after == Flat(NewLines(data, Lines(before), order))
  }

  lemma LinesStep(file: string)
    requires file != ""
    ensures var n := FgetsLength(file, LINE_LIMIT);
            Lines(file) == [CStr(file[..n])] + Lines(file[n..])
  {
  }

  lemma Starts(data: map<string, string>)
    ensures Lines("") == [] && Loaded([]) == map[] && SaveLines(data, []) == Saving([], data, 0)
  {
  }

  lemma LoadedSnoc(lines: seq<string>, s: string)
    ensures Loaded(lines + [s]) == LoadLine(Loaded(lines), s)
  {
    assert (lines + [s])[..|lines|] == lines;
  }

  lemma SaveLinesSnoc(data: map<string, string>, lines: seq<string>, s: string)
    ensures SaveLines(data, lines + [s]) == SaveLine(SaveLines(data, lines), s)
  {
    assert (lines + [s])[..|lines|] == lines;
  }

  lemma EntryLinesSnoc(data: map<string, string>, order: seq<string>, k: string)
    requires k in data && forall k :: k in order ==> k in data
    ensures EntryLines(data, order + [k]) == EntryLines(data, order) + [EntryLine(k, data[k])]
  {
    assert (order + [k])[..|order|] == order;
  }

  // ----- the store -----

  /** XLStringUtil::IsNotReturnCode; the scan stops at a NUL. */
  predicate IsNotReturnCode(s: string) {
    '\n' !in CStr(s) && '\r' !in CStr(s)
  }

  predicate IsNotReturnAndEqualCode(s: string) {
    IsNotReturnCode(s) && '=' !in CStr(s)
  }

  class Config {
    var configData: map<string, string>

    constructor ()
      ensures configData == map[]
    {
      configData := map[];
    }

    /** Sets an entry; a key or value that could not be stored on one line is ignored. */
    method Set(key: string, value: string)
      modifies this
      ensures configData ==
              if IsNotReturnAndEqualCode(key) && IsNotReturnCode(value) then old(configData)[key := value]
              else old(configData)
    {
      if !IsNotReturnAndEqualCode(key) {
        return;
      }
      if !IsNotReturnCode(value) {
        return;
      }
      configData := configData[key := value];
    }

    /** Replaces the entries by those of the file; without a file there are none. */
    method LoadConfig(file: Option<string>) returns (ok: bool)
      modifies this
      ensures ok == file.Some?
      ensures configData == if file.Some? then Loaded(Lines(file.value)) else map[]
    {
      hide Lines, Loaded, CStr, FgetsLength, LoadLine;
      Starts(map[]);
      configData := map[];
      if file.None? {
        return false;
      }
      var rest := file.value;
      ghost var read: seq<string> := [];
      while rest != ""
        invariant read + Lines(rest) == Lines(file.value)
        invariant configData == Loaded(read)
        decreases |rest|
      {
        LinesStep(rest);
        var n := FgetsLength(rest, LINE_LIMIT);
        var buf := CStr(rest[..n]);
        rest := rest[n..];
        LoadedSnoc(read, buf);
        read := read + [buf];
        LoadOneLine(buf);
      }
      assert read + [] == read;
      return true;
    }

    /** The loop body of the loader. */
    method LoadOneLine(buf: string)
      modifies this
      ensures configData == LoadLine(old(configData), buf)
    {
      hide Chop, Equals;
      if buf == "" || IsComment(buf) {
        return;
      }
      var eq := Equals(buf);
      if eq == |buf| {
        return;
      }
      configData := configData[Chop(buf[..eq]) := Chop(buf[eq + 1..])];
    }

    /** Writes the entries over the old file and returns the new file. */
    method SaveConfig(before: Option<string>) returns (after: string)
      ensures Saves(configData, if before.Some? then before.value else "", after)
    {
      var localSetting := configData;
      var out: seq<string> := [];
      ghost var lines := Lines(if before.Some? then before.value else "");
      if before.Some? {
        out, localSetting := RewriteOldFile(before.value);
      }
      assert out == SaveLines(configData, lines).out && localSetting == SaveLines(configData, lines).left;
      ghost var order: seq<string> := [];
      var added: seq<string> := [];
      var keys := localSetting.Keys;
      while keys != {}
        invariant keys <= localSetting.Keys
        invariant forall k :: k in order <==> k in localSetting.Keys - keys
        invariant forall i, j :: 0 <= i < j < |order| ==> order[i] != order[j]
        invariant added == EntryLines(localSetting, order)
        decreases keys
      {
        var k :| k in keys;
        EntryLinesSnoc(localSetting, order, k);
        added := added + [EntryLine(k, localSetting[k])];
        assert k !in order;
        order := order + [k];
        keys := keys - {k};
      }
      after := Flat(out + added);
      assert Lists(order, localSetting);
      assert after == Flat(NewLines(configData, lines, order));
    }

    /** The pass over the old file. */
    method RewriteOldFile(file: string) returns (out: seq<string>, left: map<string, string>)
      ensures out == SaveLines(configData, Lines(file)).out
      ensures left == SaveLines(configData, Lines(file)).left
    {
      hide Lines, SaveLines, SaveLine, CStr, FgetsLength;
      Starts(configData);
      out, left := [], configData;
      var kakaline: nat := 0;
      var rest := file;
      ghost var read: seq<string> := [];
      while rest != ""
        invariant read + Lines(rest) == Lines(file)
        invariant Saving(out, left, kakaline) == SaveLines(configData, read)
        decreases |rest|
      {
        LinesStep(rest);
        var n := FgetsLength(rest, LINE_LIMIT);
        var buf := CStr(rest[..n]);
        rest := rest[n..];
        SaveLinesSnoc(configData, read, buf);
        read := read + [buf];
        out, left, kakaline := RewriteLine(out, left, kakaline, buf);
      }
      assert read + [] == read;
    }

    /** The loop body of that pass. */
    method RewriteLine(out0: seq<string>, left0: map<string, string>, kakaline0: nat, buf: string)
      returns (out: seq<string>, left: map<string, string>, kakaline: nat)
      ensures Saving(out, left, kakaline) == SaveLine(Saving(out0, left0, kakaline0), buf)
    {
      hide Chop, Equals, CStr, EntryLine;
      out, left, kakaline := out0, left0, kakaline0;
      if buf == "" {
        return;
      }
      if buf == "\n" || buf == "\r\n" {
        kakaline := kakaline + 1;
        if kakaline < 5 {
          out := out + ["\r\n"];
        }
        return;
      }
      kakaline := 0;
      if IsComment(buf) {
        out := out + [buf];
        return;
      }
      var eq := Equals(buf);
      if eq == |buf| {
        return;
      }
      var key, value := Chop(buf[..eq]), Chop(buf[eq + 1..]);
      if key !in left {
        return;
      }
      if value == left[key] {
        out := out + [buf];
        left := left - {key};
        return;
      }
      if CStr(key) == "" {
        return;
      }
      out := out + [EntryLine(key, left[key])];
      left := left - {key};
    }
  }
}
