/**
 * The workflow-id hardcoding script: it reads `Name=ID` lines from the ids
 * file, maps a fixed table of workflow names to `={{ $env.VAR }}`
 * expressions, and replaces those expressions by the literal ids in every
 * `.json` workflow file of two directories, rewriting a file only when its
 * text changed.
 *
 * Files are strings and a directory is its listing of (name, content)
 * pairs in `os.listdir` order; a missing ids file is `None`.
 */
module WorkflowIds {
  import opened Wrappers
  import PyStr

  /** One `Name=ID` entry of the ids file. */
  datatype Entry = Entry(name: string, id: string)

  /** What patching one file produced: its (possibly new) text, whether it
      was written back, and the number the script reports for it. */
  datatype PatchOutcome = PatchOutcome(content: string, written: bool, changes: int)

  /** A workflow file: its name in the directory listing and its text. */
  datatype WorkflowFile = WorkflowFile(name: string, content: string)

  /** The fixed table of workflow names and the environment variables holding their ids, in order. */
  const WorkflowToEnvVar: seq<(string, string)> := [
    ("Log_Cost_Event", "LOG_COST_EVENT_WORKFLOW_ID"),
    ("Acquire_Lock", "ACQUIRE_LOCK_WORKFLOW_ID"),
    ("Release_Lock", "RELEASE_LOCK_WORKFLOW_ID"),
    ("Validate_Schema", "VALIDATE_SCHEMA_WORKFLOW_ID"),
    ("Check_Circuit_Breaker", "CHECK_CIRCUIT_BREAKER_WORKFLOW_ID"),
    ("Get_Brand_Context", "GET_BRAND_CONTEXT_WORKFLOW_ID"),
    ("Refresh_Platform_Token", "REFRESH_PLATFORM_TOKEN_WORKFLOW_ID"),
    ("Send_Alert", "SEND_ALERT_WORKFLOW_ID")
  ]

  const EnvPrefix := "$env."
  const ExprClose := " }}"

  // ---------------------------------------------------------------------
  // Loading the ids file

  /** Python's universal-newline translation, read character by character:
      `\r\n` and a lone `\r` each become `\n`. */
  function UniversalNewlines(s: string): (t: string)
    ensures '\r' !in t
    decreases |s|
  {
    if |s| == 0 then ""
    else if s[0] == '\r' then
      if |s| >= 2 && s[1] == '\n' then "\n" + UniversalNewlines(s[2..]) else "\n" + UniversalNewlines(s[1..])
    else [s[0]] + UniversalNewlines(s[1..])
  }

  /** Replacing a lone `\r` by `\n` looks at one character at a time. */
  lemma CrStep(c: char, rest: string)
    ensures PyStr.ReplaceAll([c] + rest, "\r", "\n")
              == (if c == '\r' then "\n" else [c]) + PyStr.ReplaceAll(rest, "\r", "\n")
  {
    var s := [c] + rest;
    assert s[..1] == [c];
    assert s[1..] == rest;
  }

  /** Replacing `\r\n` and then `\r` by `\n` is the universal-newline translation. */
  lemma {:induction false} NewlineReplacesTranslate(s: string)
    ensures PyStr.ReplaceAll(PyStr.ReplaceAll(s, "\r\n", "\n"), "\r", "\n") == UniversalNewlines(s)
    decreases |s|
  {
    if |s| == 0 {
    } else if |s| >= 2 && s[..2] == "\r\n" {
      assert s[0] == '\r' && s[1] == '\n';
      NewlineReplacesTranslate(s[2..]);
      CrStep('\n', PyStr.ReplaceAll(s[2..], "\r\n", "\n"));
    } else if |s| < 2 {
      assert s == [s[0]] + [];
      CrStep(s[0], []);
    } else {
      assert s[..2] == [s[0], s[1]];
      NewlineReplacesTranslate(s[1..]);
      CrStep(s[0], PyStr.ReplaceAll(s[1..], "\r\n", "\n"));
    }
  }

  /** The lines Python's text-mode file iteration yields, without their
      terminators: `\r\n` and a lone `\r` count as line ends.  No line holds
      a line end, and joining the lines with `\n` gives the translated text. */
  function FileLines(content: string): (lines: seq<string>)
    ensures forall k :: 0 <= k < |lines| ==> '\n' !in lines[k] && '\r' !in lines[k]
    ensures PyStr.Join(lines, "\n") == UniversalNewlines(content)
  {
    var t := PyStr.ReplaceAll(PyStr.ReplaceAll(content, "\r\n", "\n"), "\r", "\n");
    NewlineReplacesTranslate(content);
    PyStr.SplitJoinRoundTrip(t, "\n");
    PyStr.SplitPiecesLack(t, "\n", '\r');
    var lines := PyStr.SplitOn(t, "\n");
    assert forall k :: 0 <= k < |lines| ==> '\n' !in lines[k] by {
      forall k | 0 <= k < |lines|
        ensures '\n' !in lines[k]
      {
        PyStr.FindChar(lines[k], '\n');
      }
    }
    lines
  }

  /** The entry one line contributes: none for a blank line, a `#` comment or
      a line without `=`; otherwise the stripped text before the first `=` and
      the stripped text after it. */
  function ParseLine(raw: string): (r: Option<Entry>)
    ensures r.Some? ==> PyStr.Strip(r.value.name) == r.value.name && PyStr.Strip(r.value.id) == r.value.id
    ensures r.Some? ==> '=' !in r.value.name
  {
    var line := PyStr.Strip(raw);
    if |line| == 0 || PyStr.StartsWith(line, "#") then None
    else
      match PyStr.FindFirst(line, "=")
      case None => None
      case Some(k) =>
        PyStr.FindChar(line, '=');
        PyStr.StripIdempotent(line[..k]);
        PyStr.StripIdempotent(line[k + 1..]);
        PyStr.StripKeepsOut(line[..k], '=');
        Some(Entry(PyStr.Strip(line[..k]), PyStr.Strip(line[k + 1..])))
  }

  /** A line contributes nothing exactly when, once stripped, it is empty, a
      comment, or has no `=`. */
  lemma ParseLineNone(raw: string)
    ensures ParseLine(raw).None? <==>
              var line := PyStr.Strip(raw);
              |line| == 0 || line[0] == '#' || '=' !in line
  {
    var line := PyStr.Strip(raw);
    if |line| > 0 {
      assert line[..1] == [line[0]];
      assert PyStr.StartsWith(line, "#") <==> line[0] == '#';
      PyStr.FindChar(line, '=');
    }
  }

  /** `e` is what cutting `line` at position `k`, its first `=`, gives once
      both halves are stripped. */
  predicate CutAtFirstEquals(line: string, k: int, e: Entry)
  {
    0 <= k < |line| && line[k] == '=' && '=' !in line[..k]
    && e == Entry(PyStr.Strip(line[..k]), PyStr.Strip(line[k + 1..]))
  }

  /** A line that contributes is cut at its first `=` and both halves are
      stripped, so the id may itself contain `=`. */
  lemma ParseLineSome(raw: string)
    ensures ParseLine(raw).Some? ==> exists k :: CutAtFirstEquals(PyStr.Strip(raw), k, ParseLine(raw).value)
  {
    if ParseLine(raw).Some? {
      var line := PyStr.Strip(raw);
      PyStr.FindChar(line, '=');
      var k := PyStr.FindFirst(line, "=").value;
      assert CutAtFirstEquals(line, k, ParseLine(raw).value);
    }
  }

  /** Both halves of the line format: what a line contributes and when. */
  lemma ParseLineSpec(raw: string)
    ensures ParseLine(raw).None? <==>
              var line := PyStr.Strip(raw);
              |line| == 0 || line[0] == '#' || '=' !in line
    ensures ParseLine(raw).Some? ==>
              exists k :: CutAtFirstEquals(PyStr.Strip(raw), k, ParseLine(raw).value)
  {
    ParseLineNone(raw);
    if ParseLine(raw).Some? {
      ParseLineSome(raw);
    }
  }

  /** The entries of the lines, one optional entry per line. */
  function ParseLines(lines: seq<string>): (es: seq<Option<Entry>>)
    ensures |es| == |lines|
    ensures forall i :: 0 <= i < |lines| ==> es[i] == ParseLine(lines[i])
  {
    seq(|lines|, i requires 0 <= i < |lines| => ParseLine(lines[i]))
  }

  /** The entry defines `name`. */
  predicate Defines(e: Option<Entry>, name: string)
  {
    e.Some? && e.value.name == name
  }

  /** The dictionary the loop builds from the entries in order: each entry
      overwrites any earlier value of its name. */
  function Collect(es: seq<Option<Entry>>): map<string, string>
  {
    if |es| == 0 then map[]
    else
      var prev := Collect(es[..|es| - 1]);
      match es[|es| - 1]
      case None => prev
      case Some(e) => prev[e.name := e.id]
  }

  /** The ids dictionary of the ids file's lines. */
  function LoadIds(lines: seq<string>): map<string, string>
  {
    Collect(ParseLines(lines))
  }

  /** The index of the last entry defining `name`, if any. */
  function LastDefinition(es: seq<Option<Entry>>, name: string): (r: Option<nat>)
    ensures r.Some? ==> r.value < |es| && Defines(es[r.value], name)
    ensures r.Some? ==> forall j :: r.value < j < |es| ==> !Defines(es[j], name)
    ensures r.None? ==> forall j :: 0 <= j < |es| ==> !Defines(es[j], name)
  {
    if |es| == 0 then None
    else if Defines(es[|es| - 1], name) then Some(|es| - 1)
    else LastDefinition(es[..|es| - 1], name)
  }

  /** A name is in the dictionary exactly when some line defines it, and its
      value is the id of the last line that does: later lines win. */
  lemma {:induction false} CollectLastWins(es: seq<Option<Entry>>, name: string)
    ensures name in Collect(es) <==> LastDefinition(es, name).Some?
    ensures name in Collect(es) ==> Collect(es)[name] == es[LastDefinition(es, name).value].value.id
  {
    if |es| > 0 {
      CollectLastWins(es[..|es| - 1], name);
    }
  }

  /** The same, stated on the lines of the ids file. */
  lemma LoadIdsLastWins(lines: seq<string>, name: string)
    ensures name in LoadIds(lines) <==>
              exists i :: 0 <= i < |lines| && Defines(ParseLine(lines[i]), name)
    ensures name in LoadIds(lines) ==>
              exists i :: 0 <= i < |lines| && ParseLine(lines[i]) == Some(Entry(name, LoadIds(lines)[name]))
                       && forall j :: i < j < |lines| ==> !Defines(ParseLine(lines[j]), name)
  {
    var es := ParseLines(lines);
    CollectLastWins(es, name);
    if LastDefinition(es, name).Some? {
      var i := LastDefinition(es, name).value;
      assert ParseLine(lines[i]) == Some(Entry(name, LoadIds(lines)[name]));
    }
  }

  /** `load_workflow_ids`: no dictionary when the ids file is missing. */
  function LoadWorkflowIds(idsFile: Option<string>): (r: Option<map<string, string>>)
    ensures r.None? <==> idsFile.None?
  {
    match idsFile
    case None => None
    case Some(content) => Some(LoadIds(FileLines(content)))
  }

  /** An id parsed from a line holds no character the line lacks. */
  lemma ParseLineIdLacks(raw: string, c: char)
    requires c !in raw
    ensures ParseLine(raw).Some? ==> c !in ParseLine(raw).value.id
  {
    if ParseLine(raw).Some? {
      ParseLineSome(raw);
      var line := PyStr.Strip(raw);
      PyStr.StripKeepsOut(raw, c);
      var k :| CutAtFirstEquals(line, k, ParseLine(raw).value);
      PyStr.SuffixKeepsOut(line, k + 1, c);
      PyStr.StripKeepsOut(line[k + 1..], c);
    }
  }

  /** The dictionary's values are ids of its entries, so they lack whatever
      every id lacks. */
  lemma {:induction false} CollectIdsLack(es: seq<Option<Entry>>, c: char)
    requires forall k :: 0 <= k < |es| && es[k].Some? ==> c !in es[k].value.id
    ensures forall n :: n in Collect(es) ==> c !in Collect(es)[n]
  {
    if |es| > 0 {
      var init := es[..|es| - 1];
      assert forall k :: 0 <= k < |init| ==> init[k] == es[k];
      CollectIdsLack(init, c);
    }
  }

  /** No id loaded from the ids file holds a carriage return: text-mode
      reading has turned every line end into `\n`, and the lines hold none. */
  lemma LoadedIdsLackCr(content: string)
    ensures forall n :: n in LoadIds(FileLines(content)) ==> '\r' !in LoadIds(FileLines(content))[n]
  {
    var lines := FileLines(content);
    var es := ParseLines(lines);
    forall k | 0 <= k < |es| && es[k].Some?
      ensures '\r' !in es[k].value.id
    {
      ParseLineIdLacks(lines[k], '\r');
    }
    CollectIdsLack(es, '\r');
  }

  // ---------------------------------------------------------------------
  // The replacement map

  /** `={{ $env.VAR }}`, the expression the workflows use for a variable. */
  function EnvExpression(envVar: string): string
  {
    "={{ " + EnvPrefix + envVar + ExprClose
  }

  /** The replacement pairs for the part `table` of the name table, in table
      order: one per name present in `ids`. */
  function ReplacementsFor(table: seq<(string, string)>, ids: map<string, string>): (reps: seq<(string, string)>)
    ensures |reps| <= |table|
    ensures forall t :: 0 <= t < |table| && table[t].0 in ids ==>
              (EnvExpression(table[t].1), ids[table[t].0]) in reps
    ensures (forall t :: 0 <= t < |table| ==> table[t].0 !in ids) ==> reps == []
    ensures forall k :: 0 <= k < |reps| ==> |reps[k].0| > 0
  {
    if |table| == 0 then []
    else
      var last := table[|table| - 1];
      var prev := ReplacementsFor(table[..|table| - 1], ids);
      assert forall t :: 0 <= t < |table| - 1 ==> table[..|table| - 1][t] == table[t];
      if last.0 in ids then prev + [(EnvExpression(last.1), ids[last.0])] else prev
  }

  /** Every replacement pair comes from a table entry whose name has an id:
      its key is that entry's expression and its value the id. */
  lemma {:induction false} ReplacementsSound(table: seq<(string, string)>, ids: map<string, string>)
    ensures forall k :: 0 <= k < |ReplacementsFor(table, ids)| ==>
              exists t :: 0 <= t < |table| && table[t].0 in ids
                       && ReplacementsFor(table, ids)[k] == (EnvExpression(table[t].1), ids[table[t].0])
  {
    if |table| > 0 {
      var init := table[..|table| - 1];
      ReplacementsSound(init, ids);
      var reps := ReplacementsFor(table, ids);
      var prev := ReplacementsFor(init, ids);
      forall k | 0 <= k < |reps|
        ensures exists t :: 0 <= t < |table| && table[t].0 in ids
                         && reps[k] == (EnvExpression(table[t].1), ids[table[t].0])
      {
        if k < |prev| {
          assert reps[k] == prev[k];
          var t :| 0 <= t < |init| && init[t].0 in ids
                   && prev[k] == (EnvExpression(init[t].1), ids[init[t].0]);
          assert init[t] == table[t];
        } else {
          assert reps[k] == (EnvExpression(table[|table| - 1].1), ids[table[|table| - 1].0]);
        }
      }
    } else {
      assert ReplacementsFor(table, ids) == [];
    }
  }

  /** The expression determines its variable. */
  lemma EnvExpressionInjective(a: string, b: string)
    requires EnvExpression(a) == EnvExpression(b)
    ensures a == b
  {
    var n := |"={{ " + EnvPrefix|;
    assert a == EnvExpression(a)[n..|EnvExpression(a)| - |ExprClose|];
    assert b == EnvExpression(b)[n..|EnvExpression(b)| - |ExprClose|];
  }

  /** The table's eight variables are distinct; their first three letters
      already tell them apart. */
  lemma TableVarsDistinct()
    ensures forall t, u :: 0 <= t < u < |WorkflowToEnvVar| ==> WorkflowToEnvVar[t].1 != WorkflowToEnvVar[u].1
  {
    var vs := ["LOG", "ACQ", "REL", "VAL", "CHE", "GET", "REF", "SEN"];
    assert forall t :: 0 <= t < |WorkflowToEnvVar| ==> WorkflowToEnvVar[t].1[..3] == vs[t];
    forall t, u | 0 <= t < u < |WorkflowToEnvVar|
      ensures WorkflowToEnvVar[t].1 != WorkflowToEnvVar[u].1
    {
      assert vs[t] != vs[u];
    }
  }

  /** A variable that no entry of `table` holds gives a key that no pair of
      `table` has. */
  lemma ReplacementKeyFresh(table: seq<(string, string)>, ids: map<string, string>, v: string)
    requires forall t :: 0 <= t < |table| ==> table[t].1 != v
    ensures forall k :: 0 <= k < |ReplacementsFor(table, ids)| ==> ReplacementsFor(table, ids)[k].0 != EnvExpression(v)
  {
    ReplacementsSound(table, ids);
    var reps := ReplacementsFor(table, ids);
    forall k | 0 <= k < |reps|
      ensures reps[k].0 != EnvExpression(v)
    {
      var t :| 0 <= t < |table| && table[t].0 in ids
               && reps[k] == (EnvExpression(table[t].1), ids[table[t].0]);
      if reps[k].0 == EnvExpression(v) {
        EnvExpressionInjective(table[t].1, v);
      }
    }
  }

  /** A table with distinct variables yields distinct keys, so the list of
      pairs is the dictionary's `items()` in insertion order. */
  lemma {:induction false} ReplacementKeysDistinct(table: seq<(string, string)>, ids: map<string, string>)
    requires forall t, u :: 0 <= t < u < |table| ==> table[t].1 != table[u].1
    ensures forall k, l :: 0 <= k < l < |ReplacementsFor(table, ids)| ==>
              ReplacementsFor(table, ids)[k].0 != ReplacementsFor(table, ids)[l].0
  {
    if |table| > 0 {
      var init := table[..|table| - 1];
      var last := table[|table| - 1];
      assert forall t :: 0 <= t < |init| ==> init[t] == table[t];
      ReplacementKeysDistinct(init, ids);
      var prev := ReplacementsFor(init, ids);
      var reps := ReplacementsFor(table, ids);
      if last.0 in ids {
        ReplacementKeyFresh(init, ids, last.1);
        assert reps == prev + [(EnvExpression(last.1), ids[last.0])];
        forall k, l | 0 <= k < l < |reps|
          ensures reps[k].0 != reps[l].0
        {
          assert reps[k] == prev[k];
          if l < |prev| {
            assert reps[l] == prev[l];
          }
        }
      } else {
        assert reps == prev;
      }
    }
  }

  /** `create_replacement_map`: a dictionary keyed by expression, here its
      items in insertion order. */
  function CreateReplacementMap(ids: map<string, string>): (reps: seq<(string, string)>)
    ensures |reps| <= 8
    ensures forall k :: 0 <= k < |reps| ==> |reps[k].0| > 0
    ensures forall k, l :: 0 <= k < l < |reps| ==> reps[k].0 != reps[l].0
  {
    assert |WorkflowToEnvVar| == 8;
    TableVarsDistinct();
    ReplacementKeysDistinct(WorkflowToEnvVar, ids);
    ReplacementsFor(WorkflowToEnvVar, ids)
  }

  /** The replacement map has an entry for a table name exactly when the ids
      file defined that name, keyed by the name's expression. */
  lemma ReplacementMapEntries(ids: map<string, string>)
    ensures forall t :: 0 <= t < |WorkflowToEnvVar| && WorkflowToEnvVar[t].0 in ids ==>
              (EnvExpression(WorkflowToEnvVar[t].1), ids[WorkflowToEnvVar[t].0]) in CreateReplacementMap(ids)
    ensures forall k :: 0 <= k < |CreateReplacementMap(ids)| ==>
              exists t :: 0 <= t < |WorkflowToEnvVar| && WorkflowToEnvVar[t].0 in ids
                       && CreateReplacementMap(ids)[k] == (EnvExpression(WorkflowToEnvVar[t].1), ids[WorkflowToEnvVar[t].0])
  {
    var table := WorkflowToEnvVar;
    ReplacementsSound(table, ids);
    assert CreateReplacementMap(ids) == ReplacementsFor(table, ids);
  }

  /** With no ids there is nothing to replace. */
  lemma NoIdsNoReplacements(ids: map<string, string>)
    requires forall t :: 0 <= t < |WorkflowToEnvVar| ==> WorkflowToEnvVar[t].0 !in ids
    ensures CreateReplacementMap(ids) == []
  {
    var table := WorkflowToEnvVar;
    assert forall t :: 0 <= t < |table| ==> table[t].0 !in ids;
    assert ReplacementsFor(table, ids) == [];
  }

  /** The pairs' ids are values of the dictionary, so they lack whatever
      every value lacks. */
  lemma ReplacementIdsLack(ids: map<string, string>, c: char)
    requires forall n :: n in ids ==> c !in ids[n]
    ensures forall k :: 0 <= k < |CreateReplacementMap(ids)| ==> c !in CreateReplacementMap(ids)[k].1
  {
    ReplacementMapEntries(ids);
  }

  // ---------------------------------------------------------------------
  // Recovering the variable name (the summary printout)

  /** `expr.split('$env.')[1].split(' }}')[0]`; `None` where `[1]` would raise IndexError. */
  function ExtractVarName(expr: string): (r: Option<string>)
    ensures r.Some? <==> PyStr.Contains(expr, EnvPrefix)
    ensures r.Some? ==> !PyStr.Contains(r.value, ExprClose)
  {
    var parts := PyStr.SplitOn(expr, EnvPrefix);
    PyStr.SplitLengthIff(expr, EnvPrefix);
    if |parts| < 2 then None else Some(PyStr.SplitOn(parts[1], ExprClose)[0])
  }

  /** Splitting an expression at `$env.` cuts off `={{ ` and leaves the
      variable with its closing ` }}` as the second piece. */
  lemma SplitAtPrefix(v: string)
    requires !PyStr.Contains(v, EnvPrefix)
    ensures var parts := PyStr.SplitOn(EnvExpression(v), EnvPrefix);
            |parts| >= 2 && parts[1] == v + ExprClose
  {
    var expr := EnvExpression(v);
    var head := "={{ ";
    var tail := v + ExprClose;
    assert expr == head + EnvPrefix + tail;
    PyStr.LacksFirstChar(head, EnvPrefix);
    forall j | 0 <= j < |head|
      ensures !PyStr.IsOccurrence(expr, EnvPrefix, j)
    {
      assert expr[j] == head[j];
    }
    PyStr.SplitAfterFree(head, EnvPrefix, tail);
    // `$env.` does not occur in `v + " }}"`: its last character is `.`
    CloseHasNoPrefix(v);
    assert PyStr.SplitOn(tail, EnvPrefix) == [tail];
  }

  /** Splitting `v + " }}"` at ` }}` gives `v` first. */
  lemma SplitAtClose(v: string)
    requires !PyStr.Contains(v, ExprClose)
    ensures PyStr.SplitOn(v + ExprClose, ExprClose)[0] == v
  {
    var tail := v + ExprClose;
    forall j | 0 <= j < |v|
      ensures !PyStr.IsOccurrence(tail, ExprClose, j)
    {
      if j + 3 <= |v| {
        assert tail[j..j + 3] == v[j..j + 3];
        assert !PyStr.IsOccurrence(v, ExprClose, j);
      } else {
        assert tail[|v|] == ' ';
        assert ExprClose[|v| - j] == '}';
        if j + 3 <= |tail| {
          assert tail[j..j + 3][|v| - j] == tail[|v|];
        }
      }
    }
    assert tail == v + ExprClose + "";
    PyStr.SplitAfterFree(v, ExprClose, "");
  }

  /** Extraction recovers the variable an expression was built from, provided
      the variable name contains neither `$env.` nor ` }}`. */
  lemma ExtractVarNameRoundTrip(v: string)
    requires !PyStr.Contains(v, EnvPrefix) && !PyStr.Contains(v, ExprClose)
    ensures ExtractVarName(EnvExpression(v)) == Some(v)
  {
    SplitAtPrefix(v);
    SplitAtClose(v);
  }

  /** `v + " }}"` contains no `$env.` when `v` does not. */
  lemma CloseHasNoPrefix(v: string)
    requires !PyStr.Contains(v, EnvPrefix)
    ensures !PyStr.Contains(v + ExprClose, EnvPrefix)
  {
    var t := v + ExprClose;
    forall j | 0 <= j && j + 5 <= |t|
      ensures !PyStr.IsOccurrence(t, EnvPrefix, j)
    {
      if j + 5 <= |v| {
        assert t[j..j + 5] == v[j..j + 5];
        assert !PyStr.IsOccurrence(v, EnvPrefix, j);
      } else {
        assert t[j..j + 5][4] == t[j + 4];
        assert t[j + 4] in ExprClose;
      }
    }
  }

  /** A variable name without `$` or spaces: neither `$env.` nor ` }}` can occur in it. */
  predicate PlainVarName(v: string)
  {
    forall k :: 0 <= k < |v| ==> v[k] != '$' && v[k] != ' '
  }

  /** A plain variable name is recovered from its expression. */
  lemma PlainVarNameRecovered(v: string)
    requires PlainVarName(v)
    ensures ExtractVarName(EnvExpression(v)) == Some(v)
  {
    assert '$' !in v && ' ' !in v;
    PyStr.LacksFirstChar(v, EnvPrefix);
    PyStr.LacksFirstChar(v, ExprClose);
    ExtractVarNameRoundTrip(v);
  }

  /** The first four variable names of the table are plain. */
  lemma FirstVarNamesPlain()
    ensures forall t :: 0 <= t < 4 ==> PlainVarName(WorkflowToEnvVar[t].1)
  {
    forall t | 0 <= t < 4
      ensures PlainVarName(WorkflowToEnvVar[t].1)
    {
      if t == 0 { assert PlainVarName("LOG_COST_EVENT_WORKFLOW_ID"); }
      else if t == 1 { assert PlainVarName("ACQUIRE_LOCK_WORKFLOW_ID"); }
      else if t == 2 { assert PlainVarName("RELEASE_LOCK_WORKFLOW_ID"); }
      else { assert PlainVarName("VALIDATE_SCHEMA_WORKFLOW_ID"); }
    }
  }

  /** The last four variable names of the table are plain. */
  lemma LastVarNamesPlain()
    ensures forall t :: 4 <= t < 8 ==> PlainVarName(WorkflowToEnvVar[t].1)
  {
    forall t | 4 <= t < 8
      ensures PlainVarName(WorkflowToEnvVar[t].1)
    {
      if t == 4 { assert PlainVarName("CHECK_CIRCUIT_BREAKER_WORKFLOW_ID"); }
      else if t == 5 { assert PlainVarName("GET_BRAND_CONTEXT_WORKFLOW_ID"); }
      else if t == 6 { assert PlainVarName("REFRESH_PLATFORM_TOKEN_WORKFLOW_ID"); }
      else { assert PlainVarName("SEND_ALERT_WORKFLOW_ID"); }
    }
  }

  /** The table's variable names are plain. */
  lemma TableVarNamesPlain()
    ensures forall t :: 0 <= t < |WorkflowToEnvVar| ==> PlainVarName(WorkflowToEnvVar[t].1)
  {
    FirstVarNamesPlain();
    LastVarNamesPlain();
  }

  /** Every variable of the table is recovered from its own expression. */
  lemma TableVarNamesRecovered()
    ensures forall t :: 0 <= t < |WorkflowToEnvVar| ==>
              ExtractVarName(EnvExpression(WorkflowToEnvVar[t].1)) == Some(WorkflowToEnvVar[t].1)
  {
    TableVarNamesPlain();
    forall t | 0 <= t < |WorkflowToEnvVar|
      ensures ExtractVarName(EnvExpression(WorkflowToEnvVar[t].1)) == Some(WorkflowToEnvVar[t].1)
    {
      PlainVarNameRecovered(WorkflowToEnvVar[t].1);
    }
  }

  // ---------------------------------------------------------------------
  // Patching one file

  /** The replace loop of `patch_workflow_file`: each expression that occurs
      in the current text is replaced everywhere, and the reported count grows
      by how many more times the id occurs now than in the original text.
      The `if expression in content` guard never changes the text produced:
      it is that of replacing every pair in order. */
  function ReplaceLoop(original: string, content: string, reps: seq<(string, string)>, changes: int): (r: (string, int))
    requires forall k :: 0 <= k < |reps| ==> |reps[k].0| > 0
    ensures r.0 == ApplyAll(content, reps)
    decreases |reps|
  {
    if |reps| == 0 then (content, changes)
    else
      var (expr, id) := reps[0];
      if PyStr.Contains(content, expr) then
        var next := PyStr.ReplaceAll(content, expr, id);
        ReplaceLoop(original, next, reps[1..], changes + PyStr.Count(next, id) - PyStr.Count(original, id))
      else
        PyStr.ReplaceAbsent(content, expr, id);
        ReplaceLoop(original, content, reps[1..], changes)
  }

  /** Replacing every pair in order, unconditionally. */
  function ApplyAll(content: string, reps: seq<(string, string)>): string
    requires forall k :: 0 <= k < |reps| ==> |reps[k].0| > 0
    decreases |reps|
  {
    if |reps| == 0 then content else ApplyAll(PyStr.ReplaceAll(content, reps[0].0, reps[0].1), reps[1..])
  }

  /** When no expression occurs, the loop changes neither text nor count. */
  lemma {:induction false} ReplaceLoopAbsent(original: string, content: string, reps: seq<(string, string)>, changes: int)
    requires forall k :: 0 <= k < |reps| ==> |reps[k].0| > 0
    requires forall k :: 0 <= k < |reps| ==> !PyStr.Contains(content, reps[k].0)
    ensures ReplaceLoop(original, content, reps, changes) == (content, changes)
    decreases |reps|
  {
    if |reps| > 0 {
      ReplaceLoopAbsent(original, content, reps[1..], changes);
    }
  }

  /** Replacing in order brings in no character that neither the text nor any id holds. */
  lemma {:induction false} ApplyAllKeepsOut(content: string, reps: seq<(string, string)>, c: char)
    requires forall k :: 0 <= k < |reps| ==> |reps[k].0| > 0
    requires c !in content
    requires forall k :: 0 <= k < |reps| ==> c !in reps[k].1
    ensures c !in ApplyAll(content, reps)
    decreases |reps|
  {
    if |reps| > 0 {
      PyStr.ReplaceKeepsOut(content, reps[0].0, reps[0].1, c);
      ApplyAllKeepsOut(PyStr.ReplaceAll(content, reps[0].0, reps[0].1), reps[1..], c);
    }
  }

  /** `patch_workflow_file`: the file is written back only when its text
      changed, and then the loop's count is returned; otherwise 0. */
  function PatchWorkflowFile(content: string, reps: seq<(string, string)>): (r: PatchOutcome)
    requires forall k :: 0 <= k < |reps| ==> |reps[k].0| > 0
    ensures r.content == ApplyAll(content, reps)
    ensures r.written <==> r.content != content
    ensures !r.written ==> r.changes == 0
  {
    var (text, changes) := ReplaceLoop(content, content, reps, 0);
    if text != content then PatchOutcome(text, true, changes) else PatchOutcome(content, false, 0)
  }

  /** A file in which no expression occurs is left alone and reports 0. */
  lemma PatchUntouched(content: string, reps: seq<(string, string)>)
    requires forall k :: 0 <= k < |reps| ==> |reps[k].0| > 0
    requires forall k :: 0 <= k < |reps| ==> !PyStr.Contains(content, reps[k].0)
    ensures PatchWorkflowFile(content, reps) == PatchOutcome(content, false, 0)
  {
    ReplaceLoopAbsent(content, content, reps, 0);
  }

  /** Replacing `={{ $env.A }}` leaves ` ={{ $env.B }}` alone. */
  lemma OvercountTailKept()
    ensures PyStr.ReplaceAll(" " + EnvExpression("B"), EnvExpression("A"), "x") == " " + EnvExpression("B")
  {
    var ea := EnvExpression("A");
    var eb := EnvExpression("B");
    var tail := " " + eb;
    assert ea == "={{ $env.A }}" && eb == "={{ $env.B }}";
    assert tail[..|ea|][0] == ' ' != ea[0];
    assert tail[1..] == eb && eb[..|ea|][9] == 'B' != ea[9];
    assert PyStr.ReplaceAll(eb[1..], ea, "x") == eb[1..];
    assert PyStr.ReplaceAll(eb, ea, "x") == [eb[0]] + eb[1..];
  }

  /** The first step of the example below: `={{ $env.A }}` is found at the front and replaced. */
  lemma OvercountFirstReplace()
    ensures var ea := EnvExpression("A");
            var content := ea + " " + EnvExpression("B");
            PyStr.Contains(content, ea) && PyStr.ReplaceAll(content, ea, "x") == "x " + EnvExpression("B")
  {
    var ea := EnvExpression("A");
    var eb := EnvExpression("B");
    var tail := " " + eb;
    var content := ea + " " + eb;
    assert content == ea + tail;
    OvercountTailKept();
    assert content[..|ea|] == ea && content[|ea|..] == tail;
    assert PyStr.ReplaceAll(content, ea, "x") == "x" + PyStr.ReplaceAll(tail, ea, "x");
    assert "x" + tail == "x " + eb;
    assert PyStr.IsOccurrence(content, ea, 0);
    PyStr.ContainsAt(content, ea, 0);
  }

  /** The second step: `={{ $env.B }}` is found after `x ` and replaced. */
  lemma OvercountSecondReplace()
    ensures var eb := EnvExpression("B");
            PyStr.Contains("x " + eb, eb) && PyStr.ReplaceAll("x " + eb, eb, "x") == "x x"
  {
    var eb := EnvExpression("B");
    var c1 := "x " + eb;
    assert eb == "={{ $env.B }}";
    assert c1[..|eb|][0] == 'x' != eb[0];
    assert c1[1..][..|eb|][0] == ' ' != eb[0];
    assert c1[1..][1..] == eb;
    assert PyStr.ReplaceAll(eb, eb, "x") == "x" + PyStr.ReplaceAll([], eb, "x") == "x";
    assert PyStr.ReplaceAll(c1[1..], eb, "x") == " x";
    assert c1[2..2 + |eb|] == eb;
    PyStr.ContainsAt(c1, eb, 2);
  }

  /** No expression contains the character `x` unless its variable does. */
  lemma NoXInExpression(v: string)
    requires 'x' !in v
    ensures 'x' !in EnvExpression(v)
  {
    assert EnvExpression(v) == "={{ " + "$env." + v + " }}";
    assert 'x' !in "={{ " && 'x' !in "$env." && 'x' !in " }}";
  }

  /** The example's text holds no `x` before patching. */
  lemma OvercountCountBefore()
    ensures PyStr.Count(EnvExpression("A") + " " + EnvExpression("B"), "x") == 0
  {
    NoXInExpression("A");
    NoXInExpression("B");
    var content := EnvExpression("A") + " " + EnvExpression("B");
    PyStr.LacksFirstChar(content, "x");
    PyStr.CountAbsent(content, "x");
  }

  /** After the first step the text holds one `x`. */
  lemma OvercountCountBetween()
    ensures PyStr.Count("x " + EnvExpression("B"), "x") == 1
  {
    var tail := " " + EnvExpression("B");
    NoXInExpression("B");
    PyStr.LacksFirstChar(tail, "x");
    PyStr.CountAbsent(tail, "x");
    var c1 := "x " + EnvExpression("B");
    assert c1[..1] == "x" && c1[1..] == tail;
  }

  /** After both steps the text holds two `x`. */
  lemma OvercountCountAfter()
    ensures PyStr.Count("x x", "x") == 2
  {
    var one := "x";
    var spaced := " x";
    var both := "x x";
    assert one[..1] == one && one[1..] == [];
    assert PyStr.Count(one, "x") == 1;
    assert spaced[..1][0] == ' ' && spaced[1..] == one;
    assert PyStr.Count(spaced, "x") == 1;
    assert both[..1] == one && both[1..] == spaced;
  }

  /** The loop's second step, replacing `={{ $env.B }}` after `x `. */
  lemma OvercountSecondStep()
    ensures var content := EnvExpression("A") + " " + EnvExpression("B");
            ReplaceLoop(content, "x " + EnvExpression("B"), [(EnvExpression("B"), "x")], 1) == ("x x", 3)
  {
    var content := EnvExpression("A") + " " + EnvExpression("B");
    OvercountSecondReplace();
    OvercountCountBefore();
    OvercountCountAfter();
    assert ReplaceLoop(content, "x x", [], 3) == ("x x", 3);
  }

  /** The loop on the example: two replacements, and a count of 3. */
  lemma OvercountLoop()
    ensures var content := EnvExpression("A") + " " + EnvExpression("B");
            ReplaceLoop(content, content, [(EnvExpression("A"), "x"), (EnvExpression("B"), "x")], 0) == ("x x", 3)
  {
    var eb := EnvExpression("B");
    var content := EnvExpression("A") + " " + eb;
    var reps := [(EnvExpression("A"), "x"), (eb, "x")];
    OvercountFirstReplace();
    OvercountCountBefore();
    OvercountCountBetween();
    OvercountSecondStep();
    assert reps[0] == (EnvExpression("A"), "x") && reps[1..] == [(eb, "x")];
    assert ReplaceLoop(content, content, reps, 0) == ReplaceLoop(content, "x " + eb, [(eb, "x")], 0 + 1 - 0);
  }

  /** The count is a difference of id occurrences, not of replacements: when
      two workflows share one id, a file holding one expression of each
      reports three changes for two replacements. */
  lemma SharedIdOvercount()
    ensures var content := EnvExpression("A") + " " + EnvExpression("B");
            PatchWorkflowFile(content, [(EnvExpression("A"), "x"), (EnvExpression("B"), "x")]).changes == 3
  {
    OvercountLoop();
    var content := EnvExpression("A") + " " + EnvExpression("B");
    assert content[1] == '{' != 'x';
  }

  // ---------------------------------------------------------------------
  // Patching a directory and the whole run

  /** What the script does to one directory entry. A `.json` file is read in
      text mode, so the expressions are replaced in its universal-newline
      translation; the file is written back, with `\n` line ends, only when
      that text changed. Any other file, and a file with nothing to replace,
      stays as it was. */
  predicate TextModePatch(before: WorkflowFile, after: WorkflowFile, reps: seq<(string, string)>)
    requires forall k :: 0 <= k < |reps| ==> |reps[k].0| > 0
  {
    var text := UniversalNewlines(before.content);
    var patched := ApplyAll(text, reps);
    && after.name == before.name
    && ((!PyStr.EndsWith(before.name, ".json") || patched == text) ==> after == before)
    && ((PyStr.EndsWith(before.name, ".json") && patched != text) ==> after.content == patched)
  }

  /** The treatment of one directory entry: a `.json` file is patched, any
      other file is left alone and counts no changes; so does a file that is
      not written back. */
  function PatchEntry(f: WorkflowFile, reps: seq<(string, string)>): (r: (WorkflowFile, int))
    requires forall k :: 0 <= k < |reps| ==> |reps[k].0| > 0
    ensures TextModePatch(f, r.0, reps)
    ensures var text := UniversalNewlines(f.content);
            (!PyStr.EndsWith(f.name, ".json") || ApplyAll(text, reps) == text) ==> r.1 == 0
  {
    if PyStr.EndsWith(f.name, ".json") then
      var o := PatchWorkflowFile(UniversalNewlines(f.content), reps);
      if o.written then (WorkflowFile(f.name, o.content), o.changes) else (f, 0)
    else (f, 0)
  }

  /** The totals of one directory pass, in listing order: the number of
      files reporting a positive count and the sum of those counts. Only
      positive counts are added, so the sum is at least the number of files. */
  function DirectoryTotals(files: seq<WorkflowFile>, reps: seq<(string, string)>): (t: (nat, int))
    requires forall k :: 0 <= k < |reps| ==> |reps[k].0| > 0
    ensures t.0 <= |files|
    ensures t.0 <= t.1
  {
    if |files| == 0 then (0, 0)
    else
      var rest := DirectoryTotals(files[1..], reps);
      var changes := PatchEntry(files[0], reps).1;
      if changes > 0 then (rest.0 + 1, rest.1 + changes) else rest
  }

  /** One directory pass: every entry is treated on its own, in listing
      order; the result is the new listing and the pass's totals. */
  function PatchDirectory(files: seq<WorkflowFile>, reps: seq<(string, string)>): (r: (seq<WorkflowFile>, nat, int))
    requires forall k :: 0 <= k < |reps| ==> |reps[k].0| > 0
    ensures |r.0| == |files|
    ensures forall i :: 0 <= i < |files| ==> r.0[i] == PatchEntry(files[i], reps).0
    ensures r.1 <= |files| && r.1 <= r.2
  {
    var totals := DirectoryTotals(files, reps);
    (seq(|files|, i requires 0 <= i < |files| => PatchEntry(files[i], reps).0), totals.0, totals.1)
  }

  /** The script's `main` on file contents: stop when the ids file is missing
      or yields no ids; otherwise patch the main and the sub workflow directories. */
  function HardcodeWorkflowIds(idsFile: Option<string>, mainDir: seq<WorkflowFile>, subDir: seq<WorkflowFile>)
    : (r: (seq<WorkflowFile>, seq<WorkflowFile>))
    ensures |r.0| == |mainDir| && |r.1| == |subDir|
    ensures forall i :: 0 <= i < |mainDir| ==> r.0[i].name == mainDir[i].name
    ensures forall i :: 0 <= i < |subDir| ==> r.1[i].name == subDir[i].name
    ensures forall i :: 0 <= i < |mainDir| && !PyStr.EndsWith(mainDir[i].name, ".json") ==> r.0[i] == mainDir[i]
    ensures forall i :: 0 <= i < |subDir| && !PyStr.EndsWith(subDir[i].name, ".json") ==> r.1[i] == subDir[i]
    ensures (idsFile.None? || LoadIds(FileLines(idsFile.value)) == map[]) ==> r == (mainDir, subDir)
    ensures idsFile.Some? && LoadIds(FileLines(idsFile.value)) != map[] ==>
              var reps := CreateReplacementMap(LoadIds(FileLines(idsFile.value)));
              && (forall i :: 0 <= i < |mainDir| ==> TextModePatch(mainDir[i], r.0[i], reps))
              && (forall i :: 0 <= i < |subDir| ==> TextModePatch(subDir[i], r.1[i], reps))
  {
    match LoadWorkflowIds(idsFile)
    case None => (mainDir, subDir)
    case Some(ids) =>
      if ids == map[] then (mainDir, subDir)
      else
        var reps := CreateReplacementMap(ids);
        (PatchDirectory(mainDir, reps).0, PatchDirectory(subDir, reps).0)
  }

  /** A text without carriage returns that ends in `\r\n` is read with the
      `\r\n` turned into `\n`. */
  lemma {:induction false} CrlfReadAsLineFeed(s: string)
    requires '\r' !in s
    ensures UniversalNewlines(s + "\r\n") == s + "\n"
    decreases |s|
  {
    if |s| == 0 {
      assert s + "\r\n" == "\r\n";
      assert "\r\n"[2..] == [];
    } else {
      assert (s + "\r\n")[1..] == s[1..] + "\r\n";
      assert '\r' !in s[1..] by {
        PyStr.SuffixKeepsOut(s, 1, '\r');
      }
      CrlfReadAsLineFeed(s[1..]);
      assert s + "\n" == [s[0]] + (s[1..] + "\n");
    }
  }

  /** A workflow file with a `\r\n` line end is rewritten with `\n`: the
      script patches the text it read in text mode, not the bytes on disk. */
  lemma CrlfFileRewritten()
    ensures var e := EnvExpression("V");
            PatchEntry(WorkflowFile("a.json", e + "\r\n"), [(e, "abc")]).0.content == "abc\n"
  {
    var e := EnvExpression("V");
    var reps := [(e, "abc")];
    assert e == "={{ $env.V }}";
    CrlfReadAsLineFeed(e);
    var text := e + "\n";
    assert text[..|e|] == e && text[|e|..] == "\n";
    assert PyStr.ReplaceAll("\n", e, "abc") == "\n";
    assert PyStr.ReplaceAll(text, e, "abc") == "abc\n";
    assert ApplyAll(text, reps) == ApplyAll("abc\n", []) == "abc\n";
    assert "abc\n"[0] != text[0];
    assert "a.json"[6 - 5..] == ".json";
  }

  /** A directory pass rewrites files with `\n` line ends only, as long as no
      id holds a carriage return. */
  lemma DirectoryLineFeeds(files: seq<WorkflowFile>, reps: seq<(string, string)>)
    requires forall k :: 0 <= k < |reps| ==> |reps[k].0| > 0
    requires forall k :: 0 <= k < |reps| ==> '\r' !in reps[k].1
    ensures forall i :: 0 <= i < |files| && PatchDirectory(files, reps).0[i] != files[i] ==>
              '\r' !in PatchDirectory(files, reps).0[i].content
  {
    var after := PatchDirectory(files, reps).0;
    forall i | 0 <= i < |files| && after[i] != files[i]
      ensures '\r' !in after[i].content
    {
      assert TextModePatch(files[i], after[i], reps);
      ApplyAllKeepsOut(UniversalNewlines(files[i].content), reps, '\r');
    }
  }

  /** Every workflow file the run rewrites ends up with `\n` line ends: a
      `\r\n` or `\r` in a patched file does not survive. */
  lemma PatchedFilesUseLineFeeds(idsFile: Option<string>, mainDir: seq<WorkflowFile>, subDir: seq<WorkflowFile>)
    ensures var r := HardcodeWorkflowIds(idsFile, mainDir, subDir);
            && (forall i :: 0 <= i < |mainDir| && r.0[i] != mainDir[i] ==> '\r' !in r.0[i].content)
            && (forall i :: 0 <= i < |subDir| && r.1[i] != subDir[i] ==> '\r' !in r.1[i].content)
  {
    if idsFile.Some? && LoadIds(FileLines(idsFile.value)) != map[] {
      var ids := LoadIds(FileLines(idsFile.value));
      LoadedIdsLackCr(idsFile.value);
      ReplacementIdsLack(ids, '\r');
      var reps := CreateReplacementMap(ids);
      DirectoryLineFeeds(mainDir, reps);
      DirectoryLineFeeds(subDir, reps);
    }
  }
}
