/**
 * The reader of a project's suppressions.cfg (AnalyzerCppcheck.readSuppressions).
 *
 * The file is a sequence of lines. A line containing '[' is a group header and
 * sets the current group to the line without its bracket characters; lines read
 * while the current group is exactly "cppcheck" are suppression records of the
 * form id[:path[:line]]. A missing file is `None` and gives no suppressions.
 */
module SuppressionFile {
  import opened Text

  /** The only group whose lines are read as suppressions. */
  const TargetGroup: string := "cppcheck"

  /** A header line: any line that contains '['. */
  predicate IsHeader(line: string) {
    '[' in line
  }

  /** The group a header line opens: the line with every '[' and ']' removed. */
  function GroupName(line: string): (name: string)
    ensures '[' !in name && ']' !in name
    ensures forall x :: x != '[' && x != ']' ==> (x in name <==> x in line)
  {
    RemoveChar(RemoveChar(line, '['), ']')
  }

  /** Field 1 of a record is made a wildcard path unless it already starts with '*'. */
  function Wildcard(field: string): (r: string)
    ensures StartsWith(r, "*")
    ensures |field| <= |r| <= |field| + 1 && r[|r| - |field|..] == field
    ensures StartsWith(field, "*") ==> r == field
  {
    if StartsWith(field, "*") then field else "*" + field
  }

  /**
   * The record text a line of the target group gives before the backslash
   * rewrite: its ':'-separated fields with field 1 made a wildcard, and only
   * fields 0, 1 and 2 put back together.
   */
  function Reassemble(line: string): string {
    var components := Split(line, ':');
    if |components| == 1 then components[0]
    else if |components| == 2 then components[0] + ":" + Wildcard(components[1])
    else components[0] + ":" + Wildcard(components[1]) + ":" + components[2]
  }

  /** What one line of the target group adds to the result: nothing for an empty record. */
  function RecordOf(line: string): (r: Option<string>)
    ensures r == None <==> line == ""
    ensures r.Some? ==> r.value != ""
  {
    var suppression := Reassemble(line);
    if suppression == "" then None else Some(CollapseBackslashes(suppression))
  }

  // ---------------------------------------------------------------------------
  // The scan over the lines, as specification functions
  // ---------------------------------------------------------------------------

  /** The current group when line i is read: the name of the last header before it, or "". */
  function GroupAt(lines: seq<string>, i: nat): string
    requires i <= |lines|
  {
    if i == 0 then ""
    else if IsHeader(lines[i - 1]) then GroupName(lines[i - 1])
    else GroupAt(lines, i - 1)
  }

  /** What line i adds to the result: its record, if it is a record line of the target group. */
  function LineRecord(lines: seq<string>, i: nat): Option<string>
    requires i < |lines|
  {
    if !IsHeader(lines[i]) && GroupAt(lines, i) == TargetGroup then RecordOf(lines[i]) else None
  }

  /** Line i is a record line of the target group and yields `r`. */
  predicate Yields(lines: seq<string>, i: nat, r: string)
    requires i < |lines|
  {
    LineRecord(lines, i) == Some(r)
  }

  /** What each of the first n lines adds. */
  function LineRecords(lines: seq<string>, n: nat): seq<Option<string>>
    requires n <= |lines|
  {
    seq(n, i requires 0 <= i < n => LineRecord(lines, i))
  }

  /** The records present in a sequence of optional records. */
  function Present(records: seq<Option<string>>): set<string> {
    if records == [] then {}
    else
      var earlier := Present(records[..|records| - 1]);
      match records[|records| - 1]
      case Some(r) => earlier + {r}
      case None => earlier
  }

  /** The suppressions a configuration file declares; none when there is no file. */
  function Suppressions(file: Option<seq<string>>): set<string> {
    match file
    case None => {}
    case Some(lines) => Present(LineRecords(lines, |lines|))
  }

  // ---------------------------------------------------------------------------
  // The reader itself
  // ---------------------------------------------------------------------------

  /** Reads the lines of a suppressions.cfg one at a time, tracking the current group. */
  method ReadSuppressions(file: Option<seq<string>>) returns (suppressions: set<string>)
    ensures suppressions == Suppressions(file)
  {
    suppressions := {};
    if file.Some? {
      var lines := file.value;
      var currentGroup := "";
      var i := 0;
      while i < |lines|
        invariant 0 <= i <= |lines|
        invariant currentGroup == GroupAt(lines, i)
        invariant suppressions == Present(LineRecords(lines, i))
      {
        var line := lines[i];
        ghost var k := i;
        PresentStep(lines, k);
        i := i + 1;
        if Contains(line, "[") {
          assert IsHeader(line) by { ContainsChar(line, '['); }
          assert LineRecord(lines, k) == None;
          currentGroup := GroupName(line);
          continue;
        }
        assert !IsHeader(line) by { ContainsChar(line, '['); }
        assert currentGroup == GroupAt(lines, i);
        if currentGroup == "cppcheck" {
          var components := Split(line, ':');
          ghost var fields := components;
          if |components| >= 2 && !StartsWith(components[1], "*") {
            components := components[1 := "*" + components[1]];
          }
          assert |components| == |fields| && components[0] == fields[0];
          assert |fields| >= 2 ==> components[1] == Wildcard(fields[1]);
          assert |fields| >= 3 ==> components[2] == fields[2];
          var suppression := components[0];
          if |components| > 1 {
            suppression := suppression + ":" + components[1];
          }
          if |components| > 2 {
            suppression := suppression + ":" + components[2];
          }
          assert suppression == Reassemble(line) by {
            if |fields| == 1 {
            } else if |fields| == 2 {
            } else {
            }
          }
          assert LineRecord(lines, k) == RecordOf(line);
          if suppression != "" {
            suppressions := suppressions + {CollapseBackslashes(suppression)};
          }
        } else {
          assert LineRecord(lines, k) == None;
        }
      }
      assert LineRecords(lines, i) == LineRecords(lines, |lines|);
    }
  }

  // ---------------------------------------------------------------------------
  // Properties
  // ---------------------------------------------------------------------------

  /** A record is present exactly when some entry of the sequence holds it. */
  lemma {:induction false} PresentMembers(records: seq<Option<string>>, r: string)
    ensures r in Present(records) <==> exists i :: 0 <= i < |records| && records[i] == Some(r)
  {
    if records != [] {
      var init := records[..|records| - 1];
      PresentMembers(init, r);
      if i :| 0 <= i < |records| - 1 && records[i] == Some(r) {
        assert init[i] == Some(r);
      }
      if i :| 0 <= i < |init| && init[i] == Some(r) {
        assert records[i] == Some(r);
      }
    }
  }

  /** Reading one more line adds its record, if any. */
  lemma PresentStep(lines: seq<string>, k: nat)
    requires k < |lines|
    ensures Present(LineRecords(lines, k + 1))
      == match LineRecord(lines, k)
         case Some(r) => Present(LineRecords(lines, k)) + {r}
         case None => Present(LineRecords(lines, k))
  {
    assert LineRecords(lines, k + 1)[..k] == LineRecords(lines, k);
  }

  /** The result of a file, characterised line by line. */
  lemma SuppressionsMembers(lines: seq<string>, r: string)
    ensures r in Suppressions(Some(lines)) <==> exists i :: 0 <= i < |lines| && Yields(lines, i, r)
  {
    var rs := LineRecords(lines, |lines|);
    PresentMembers(rs, r);
    if i :| 0 <= i < |lines| && Yields(lines, i, r) {
      assert rs[i] == Some(r);
    }
    if i :| 0 <= i < |rs| && rs[i] == Some(r) {
      assert Yields(lines, i, r);
    }
  }

  /** The current group is the name of the last header read: the headers after it are the only ones that change it. */
  lemma {:induction false} GroupIsLastHeader(lines: seq<string>, i: nat, j: nat)
    requires j < i <= |lines|
    requires IsHeader(lines[j])
    requires forall k :: j < k < i ==> !IsHeader(lines[k])
    ensures GroupAt(lines, i) == GroupName(lines[j])
  {
    if i > j + 1 {
      GroupIsLastHeader(lines, i - 1, j);
    }
  }

  /** Lines read before any header are in the group "" and yield nothing. */
  lemma {:induction false} NoRecordBeforeFirstHeader(lines: seq<string>, i: nat, r: string)
    requires i < |lines|
    requires forall j :: 0 <= j < i ==> !IsHeader(lines[j])
    ensures GroupAt(lines, i) == ""
    ensures !Yields(lines, i, r)
  {
    if i > 0 {
      NoRecordBeforeFirstHeader(lines, i - 1, r);
    }
  }

  /** When no header names the group "cppcheck", the current group is never "cppcheck". */
  lemma {:induction false} NeverInTarget(lines: seq<string>, i: nat)
    requires i <= |lines|
    requires forall j :: 0 <= j < |lines| && IsHeader(lines[j]) ==> GroupName(lines[j]) != TargetGroup
    ensures GroupAt(lines, i) != TargetGroup
  {
    if i > 0 {
      NeverInTarget(lines, i - 1);
    }
  }

  /** A file without a "cppcheck" header declares no suppressions. */
  lemma NoTargetHeaderNoSuppressions(lines: seq<string>)
    requires forall j :: 0 <= j < |lines| && IsHeader(lines[j]) ==> GroupName(lines[j]) != TargetGroup
    ensures Suppressions(Some(lines)) == {}
  {
    forall r | r in Suppressions(Some(lines))
      ensures false
    {
      SuppressionsMembers(lines, r);
      var i :| 0 <= i < |lines| && Yields(lines, i, r);
      NeverInTarget(lines, i);
    }
  }

  /**
   * The fields of a reassembled record: field 0 unchanged, field 1 (when
   * present) a wildcard, field 2 (when present) unchanged, and nothing further.
   */
  lemma ReassembleFields(line: string)
    ensures var c := Split(line, ':');
      Split(Reassemble(line), ':') ==
        [c[0]] + (if |c| >= 2 then [Wildcard(c[1])] else []) + (if |c| >= 3 then [c[2]] else [])
  {
    var c := Split(line, ':');
    if |c| == 1 {
      assert c == [c[0]];
      ReassembleOne(line, c[0]);
      assert [c[0]] + [] + [] == [c[0]];
    } else if |c| == 2 {
      assert c == [c[0], c[1]];
      ReassembleTwo(line, c[0], c[1]);
      assert [c[0]] + [Wildcard(c[1])] + [] == [c[0], Wildcard(c[1])];
    } else {
      ReassembleThree(line, c[0], c[1], c[2]);
      assert [c[0]] + [Wildcard(c[1])] + [c[2]] == [c[0], Wildcard(c[1]), c[2]];
    }
  }

  /** ReassembleFields for a line without ':'. */
  lemma ReassembleOne(line: string, a: string)
    requires Split(line, ':') == [a]
    ensures Split(Reassemble(line), ':') == [a]
  {
    assert ':' !in Split(line, ':')[0];
    SplitFields(a, "", "");
  }

  /** ReassembleFields for a line with one ':'. */
  lemma ReassembleTwo(line: string, a: string, b: string)
    requires Split(line, ':') == [a, b]
    ensures Split(Reassemble(line), ':') == [a, Wildcard(b)]
  {
    assert ':' !in Split(line, ':')[0] && ':' !in Split(line, ':')[1];
    WildcardNoColon(b);
    SplitFields(a, Wildcard(b), "");
  }

  /** ReassembleFields for a line with two or more ':'. */
  lemma ReassembleThree(line: string, a: string, b: string, c: string)
    requires |Split(line, ':')| >= 3
    requires Split(line, ':')[0] == a && Split(line, ':')[1] == b && Split(line, ':')[2] == c
    ensures Split(Reassemble(line), ':') == [a, Wildcard(b), c]
  {
    assert ':' !in a && ':' !in b && ':' !in c;
    WildcardNoColon(b);
    SplitFields(a, Wildcard(b), c);
  }

  /** The wildcard rule adds no ':'. */
  lemma WildcardNoColon(field: string)
    requires ':' !in field
    ensures ':' !in Wildcard(field)
  {
    if !StartsWith(field, "*") {
      assert Wildcard(field) == "*" + field;
    }
  }

  /** Splitting one, two or three ':'-free fields joined by ':' gives them back. */
  lemma SplitFields(a: string, b: string, c: string)
    requires ':' !in a && ':' !in b && ':' !in c
    ensures Split(a, ':') == [a]
    ensures Split(a + ":" + b, ':') == [a, b]
    ensures Split(a + ":" + b + ":" + c, ':') == [a, b, c]
  {
    JoinSmall(a, b, c, ':');
    SplitJoin([a], ':');
    SplitJoin([a, b], ':');
    SplitJoin([a, b, c], ':');
  }

  /**
   * `Reassemble(line)`, the record text before the backslash rewrite, has at
   * most three fields, and its field 1 always starts with '*': it is the line's
   * field 1 when that already did, and '*' followed by it otherwise.
   */
  lemma RecordFieldOne(line: string)
    ensures |Split(Reassemble(line), ':')| == if Count(line, ':') >= 2 then 3 else Count(line, ':') + 1
    ensures Count(line, ':') >= 1 ==>
      var f1 := Split(line, ':')[1];
      var g1 := Split(Reassemble(line), ':')[1];
      StartsWith(g1, "*") && (g1 == if StartsWith(f1, "*") then f1 else "*" + f1)
  {
    ReassembleShape(line);
    assert |Split(line, ':')| == Count(line, ':') + 1;
  }

  /** How many fields the reassembled text has, and what its field 1 is. */
  lemma ReassembleShape(line: string)
    ensures var c, g := Split(line, ':'), Split(Reassemble(line), ':');
      |g| == (if |c| >= 3 then 3 else |c|) && (|c| >= 2 ==> g[1] == Wildcard(c[1]))
  {
    var c := Split(line, ':');
    if |c| == 1 {
      assert c == [c[0]];
      ReassembleOne(line, c[0]);
    } else if |c| == 2 {
      assert c == [c[0], c[1]];
      ReassembleTwo(line, c[0], c[1]);
    } else {
      ReassembleThree(line, c[0], c[1], c[2]);
    }
  }

  /** A line without ':' gives its own text as field 0 and nothing else. */
  lemma NoColonLine(line: string)
    requires ':' !in line
    ensures Reassemble(line) == line
  {
    JoinSplit(line, ':');
  }

  /** The wildcard rule commutes with escaping, since '*' is not a backslash. */
  lemma WildcardEscape(path: string)
    ensures Wildcard(EscapeBackslashes(path)) == EscapeBackslashes(Wildcard(path))
  {
    var epath := EscapeBackslashes(path);
    EscapeAppend("*", path);
    assert EscapeBackslashes("*") == "*";
    if path != [] && path[0] != '\\' {
      assert epath[0] == path[0];
    }
  }

  /** Escaping a two-field record escapes each field. */
  lemma EscapeFields(a: string, b: string)
    ensures EscapeBackslashes(a + ":" + b) == EscapeBackslashes(a) + ":" + EscapeBackslashes(b)
  {
    EscapeAppend(a + ":", b);
    EscapeAppend(a, ":");
    assert EscapeBackslashes(":") == ":";
  }

  /**
   * A record line written with every backslash doubled gives the record with
   * single backslashes and a wildcard path: the rewrite undoes the escaping.
   */
  lemma EscapedRecord(id: string, path: string)
    requires ':' !in id && ':' !in path
    ensures RecordOf(EscapeBackslashes(id + ":" + path)) == Some(id + ":" + Wildcard(path))
  {
    var eid, epath := EscapeBackslashes(id), EscapeBackslashes(path);
    var line := eid + ":" + epath;
    EscapeFields(id, path);
    EscapeKeepsOthers(id, ':');
    EscapeKeepsOthers(path, ':');
    SplitJoin([eid, epath], ':');
    assert Join([eid, epath], ':') == line;
    assert Reassemble(line) == eid + ":" + Wildcard(epath);
    WildcardEscape(path);
    EscapeFields(id, Wildcard(path));
    CollapseEscape(id + ":" + Wildcard(path));
  }

  /** A header "[name]" opens the group `name` when the name holds no brackets. */
  lemma BracketedGroupName(name: string)
    requires '[' !in name && ']' !in name
    ensures GroupName("[" + name + "]") == name
  {
    RemoveCharAppend("[" + name, "]", '[');
    RemoveCharAppend("[", name, '[');
    RemoveCharAppend(name, "]", ']');
  }

  /** The wildcard rule commutes with the backslash rewrite, since '*' is not a backslash. */
  lemma WildcardCollapse(field: string)
    ensures CollapseBackslashes(Wildcard(field)) == Wildcard(CollapseBackslashes(field))
  {
    var c := CollapseBackslashes(field);
    if StartsWith(field, "*") {
      assert field == [field[0]] + field[1..];
      assert c[0] == '*';
    } else {
      var w := "*" + field;
      assert w[1..] == field;
      assert CollapseBackslashes(w) == "*" + c;
    }
  }

  /**
   * The fields of a stored record are the fields of the reassembled text, each
   * with its backslash pairs rewritten: the rewrite neither adds nor removes a
   * ':' (see ReassembleFields for the reassembled fields).
   */
  lemma StoredFields(line: string, r: string)
    requires RecordOf(line) == Some(r)
    ensures Split(r, ':') == CollapseEach(Split(Reassemble(line), ':'))
  {
    CollapseSplit(Reassemble(line), ':');
  }

  /**
   * A line `id:path` with no two adjacent backslashes gives its id and its
   * path made a wildcard, single backslashes included.
   */
  lemma ScopedRecord(id: string, path: string)
    requires ':' !in id && ':' !in path
    requires NoBackslashPair(id) && NoBackslashPair(path)
    ensures RecordOf(id + ":" + path) == Some(id + ":" + Wildcard(path))
  {
    var line := id + ":" + path;
    var w := Wildcard(path);
    assert Split(line, ':') == [id, path] by { SplitFields(id, path, ""); }
    assert Reassemble(line) == id + ":" + w;
    assert CollapseBackslashes(id + ":" + w) == id + ":" + w by {
      CollapseAround(id, ':', w);
      CollapseNoPairs(id);
      WildcardCollapse(path);
      CollapseNoPairs(path);
    }
  }

  /**
   * A line `id:path:n` with no two adjacent backslashes gives its id, its
   * path made a wildcard and its line number.
   */
  lemma LineScopedRecord(id: string, path: string, n: string)
    requires ':' !in id && ':' !in path && ':' !in n
    requires NoBackslashPair(id) && NoBackslashPair(path) && NoBackslashPair(n)
    ensures RecordOf(id + ":" + path + ":" + n) == Some(id + ":" + Wildcard(path) + ":" + n)
  {
    var line := id + ":" + path + ":" + n;
    var w := Wildcard(path);
    assert Split(line, ':') == [id, path, n] by { SplitFields(id, path, n); }
    assert Reassemble(line) == id + ":" + w + ":" + n;
    assert CollapseBackslashes(id + ":" + w + ":" + n) == id + ":" + w + ":" + n by {
      CollapseAround(id + ":" + w, ':', n);
      CollapseAround(id, ':', w);
      CollapseNoPairs(id);
      WildcardCollapse(path);
      CollapseNoPairs(path);
      CollapseNoPairs(n);
    }
  }

  /** Whatever follows a third ':' is dropped: the record depends on the first three fields only. */
  lemma ExtraFieldsDropped(id: string, path: string, n: string, rest: string)
    requires ':' !in id && ':' !in path && ':' !in n
    ensures RecordOf(id + ":" + path + ":" + n + ":" + rest) == RecordOf(id + ":" + path + ":" + n)
  {
    var long := id + ":" + path + ":" + n + ":" + rest;
    assert long == id + ":" + (path + ":" + (n + ":" + rest)) by {
      Regroup(id + ":" + path + ":" + n, ":", rest);
      Regroup(id + ":" + path, ":", n + ":" + rest);
      Regroup(id + ":" + path, ":" + n, ":" + rest);
      Regroup(id, ":", path);
      Regroup(id + ":", path, ":" + (n + ":" + rest));
      Regroup(id, ":", path + (":" + (n + ":" + rest)));
      Regroup(path, ":", n + ":" + rest);
      Regroup(n, ":", rest);
    }
    var c := Split(long, ':');
    assert c == [id] + ([path] + ([n] + Split(rest, ':'))) by {
      SplitCons(n, ':', rest);
      SplitCons(path, ':', n + ":" + rest);
      SplitCons(id, ':', path + ":" + (n + ":" + rest));
    }
    assert |c| >= 3 && c[0] == id && c[1] == path && c[2] == n;
    assert Split(id + ":" + path + ":" + n, ':') == [id, path, n] by { SplitFields(id, path, n); }
    assert Reassemble(long) == Reassemble(id + ":" + path + ":" + n);
  }

  /** After a first line that opens "cppcheck" and no other header, the group stays "cppcheck". */
  lemma {:induction false} SingleGroupAt(lines: seq<string>, n: nat)
    requires 1 <= n <= |lines|
    requires IsHeader(lines[0]) && GroupName(lines[0]) == TargetGroup
    requires forall j :: 1 <= j < |lines| ==> !IsHeader(lines[j])
    ensures GroupAt(lines, n) == TargetGroup
  {
    if n > 1 {
      SingleGroupAt(lines, n - 1);
    }
  }

  /**
   * A file that opens the "cppcheck" group on its first line and has no other
   * header declares exactly the records of its remaining lines.
   */
  lemma SingleGroupFile(lines: seq<string>, r: string)
    requires |lines| >= 1
    requires IsHeader(lines[0]) && GroupName(lines[0]) == TargetGroup
    requires forall j :: 1 <= j < |lines| ==> !IsHeader(lines[j])
    ensures r in Suppressions(Some(lines)) <==> exists j :: 1 <= j < |lines| && RecordOf(lines[j]) == Some(r)
  {
    SuppressionsMembers(lines, r);
    forall j | 1 <= j < |lines|
      ensures Yields(lines, j, r) <==> RecordOf(lines[j]) == Some(r)
    {
      SingleGroupAt(lines, j);
    }
    assert !Yields(lines, 0, r);
  }
}
