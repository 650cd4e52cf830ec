/** The `scan` command: one report row per file, as `analyze_project`
    builds it, and the exit status `run_cli` derives from the rows. */
module Scan {
  import opened Text
  import opened Metrics

  /** What scanning one file yields: the parser's error message, or the
      measurement of a file that parsed. */
  datatype FileResult =
    | SyntaxError(message: string)
    | Parsed(measurement: Measurement)

  /** The two report columns the exit decision reads. */
  datatype Row = Row(grade: string, warnings: string)

  /** How the command ends: `Crash` when there is no report to iterate
      over (no Python files found), otherwise `Exit(status)`. */
  datatype Outcome = Crash | Exit(status: int)

  function GradeName(g: Grade): string {
    match g
    case Excellent => "Excellent"
    case Good => "Good"
    case Moderate => "Moderate"
    case Poor => "Poor"
    case Error => "Error"
  }

  /** The row for one file (lines 485-499 and 508-523): a syntax error gives
      grade `Error` with the message as warnings, otherwise the grade and
      the warnings joined with `"; "`. */
  function RowOf(f: FileResult): Row {
    match f
    case SyntaxError(message) => Row("Error", message)
    case Parsed(m) =>
      var r := Analyze(m);
      Row(GradeName(r.grade), Join(r.warnings, "; "))
  }

  /** A row that blocks the commit (lines 554-559). */
  predicate Critical(row: Row) {
    row.grade == "Error" || Contains(row.warnings, "CRITICAL")
  }

  predicate AnyCritical(files: seq<FileResult>) {
    exists k :: 0 <= k < |files| && Critical(RowOf(files[k]))
  }

  /** `scan` (lines 476-565, without printing and file handling): status 1
      exactly when some row is critical, 0 otherwise; no files is a crash. */
  method ScanFiles(files: seq<FileResult>) returns (outcome: Outcome)
    ensures files == [] ==> outcome == Crash
    ensures files != [] ==> outcome == Exit(if AnyCritical(files) then 1 else 0)
  {
    if files == [] {
      return Crash;
    }
    var rows: seq<Row> := [];
    var i := 0;
    while i < |files|
      invariant 0 <= i <= |files|
      invariant |rows| == i
      invariant forall k :: 0 <= k < i ==> rows[k] == RowOf(files[k])
    {
      match files[i] {
        case SyntaxError(message) =>
          rows := rows + [Row("Error", message)];
        case Parsed(m) =>
          var r := AnalyzeMetrics(m);
          rows := rows + [Row(GradeName(r.grade), Join(r.warnings, "; "))];
      }
      i := i + 1;
    }
    var criticalFound := false;
    i := 0;
    while i < |rows|
      invariant 0 <= i <= |rows|
      invariant criticalFound <==> exists k :: 0 <= k < i && Critical(rows[k])
    {
      if rows[i].grade == "Error" {
        criticalFound := true;
      }
      if Contains(rows[i].warnings, "CRITICAL") {
        criticalFound := true;
      }
      i := i + 1;
    }
    if criticalFound {
      var k :| 0 <= k < |rows| && Critical(rows[k]);
      assert Critical(RowOf(files[k]));
      outcome := Exit(1);
    } else {
      assert forall k :: 0 <= k < |files| ==> RowOf(files[k]) == rows[k];
      outcome := Exit(0);
    }
  }

  // ---------------------------------------------------------------------
  // When a file blocks the commit

  /** A complexity warning mentions `CRITICAL` exactly when its block is
      above 10 or its name mentions `CRITICAL`. */
  lemma WarningMentionsCritical(f: FunctionComplexity)
    ensures Contains(WarningText(f), "CRITICAL") <==> f.complexity > 10 || Contains(f.name, "CRITICAL")
  {
    if f.complexity > 10 {
      HighlyComplexMentions(f.name);
    } else {
      ModeratelyComplexMentions(f.name);
    }
  }

  lemma HighlyComplexMentions(name: string)
    ensures Contains("CRITICAL: " + name + " highly complex", "CRITICAL")
  {
    var w := "CRITICAL: " + name + " highly complex";
    assert w[..8] == "CRITICAL";
    assert StartsWith(w, "CRITICAL");
  }

  lemma ModeratelyComplexMentions(name: string)
    ensures Contains("WARNING: " + name + " moderate complexity", "CRITICAL") <==> Contains(name, "CRITICAL")
  {
    assert 'C' !in "WARNING:" && 'C' !in "moderate complexity";
    assert "WARNING: " + name + " moderate complexity" == "WARNING:" + " " + name + " " + "moderate complexity";
    MentionsWithin("WARNING:", name, "moderate complexity", "CRITICAL");
  }

  /** Between two space-separated words that cannot start `p`, the text
      holds `p` exactly when `name` does. */
  lemma MentionsWithin(x: string, name: string, y: string, p: string)
    requires |p| > 0 && ' ' !in p && p[0] !in x && p[0] !in y
    ensures Contains(x + " " + name + " " + y, p) <==> Contains(name, p)
  {
    assert x + " " + name + " " + y == x + " " + (name + " " + y);
    CutAt(x, " ", name + " " + y, p);
    CutAt(name, " ", y, p);
    NoFirstChar(x, p);
    NoFirstChar(y, p);
  }

  /** A row joined from warnings mentions `CRITICAL` exactly when one of its
      warnings does. */
  lemma WarningsMentionCritical(ws: seq<string>)
    ensures Contains(Join(ws, "; "), "CRITICAL") <==> exists w :: w in ws && Contains(w, "CRITICAL")
  {
    JoinContains(ws, "; ", "CRITICAL");
    if exists w :: w in ws && Contains(w, "CRITICAL") {
      var w :| w in ws && Contains(w, "CRITICAL");
      var k :| 0 <= k < |ws| && ws[k] == w;
    }
  }

  /** A file blocks the commit exactly when it does not parse, cannot be
      measured, has a block of complexity above 10, or has a block above 5
      whose name mentions `CRITICAL`. */
  lemma CriticalExactly(f: FileResult)
    ensures Critical(RowOf(f)) <==>
      || f.SyntaxError?
      || f.measurement.Failed?
      || exists g :: g in f.measurement.functions && g.complexity > 5 && (g.complexity > 10 || Contains(g.name, "CRITICAL"))
  {
    if f.Parsed? && f.measurement.Measured? {
      var fs := f.measurement.functions;
      var r := Analyze(f.measurement);
      assert r.grade != Error;
      WarningsMentionCritical(r.warnings);
      forall w
        ensures (w in r.warnings && Contains(w, "CRITICAL")) <==>
          exists g :: g in fs && g.complexity > 5 && w == WarningText(g) && (g.complexity > 10 || Contains(g.name, "CRITICAL"))
      {
        WarningsMembers(fs, w);
        forall g | g in fs
          ensures Contains(WarningText(g), "CRITICAL") <==> g.complexity > 10 || Contains(g.name, "CRITICAL")
        {
          WarningMentionsCritical(g);
        }
      }
      if exists g :: g in fs && g.complexity > 5 && (g.complexity > 10 || Contains(g.name, "CRITICAL")) {
        var g :| g in fs && g.complexity > 5 && (g.complexity > 10 || Contains(g.name, "CRITICAL"));
        assert WarningText(g) in r.warnings by {
          WarningsMembers(fs, WarningText(g));
        }
        WarningMentionsCritical(g);
      }
    }
  }

  /** A block above 10 always blocks the commit; so does a syntax error. */
  lemma HighComplexityBlocks(files: seq<FileResult>, k: int, g: FunctionComplexity)
    requires 0 <= k < |files| && files[k].Parsed? && files[k].measurement.Measured?
    requires g in files[k].measurement.functions && g.complexity > 10
    ensures AnyCritical(files)
  {
    CriticalExactly(files[k]);
  }

  /** Files that all parse and whose blocks all stay at or below 5 pass. */
  lemma CalmFilesPass(files: seq<FileResult>)
    requires forall k :: 0 <= k < |files| ==> files[k].Parsed? && files[k].measurement.Measured?
    requires forall k, g :: 0 <= k < |files| && g in files[k].measurement.functions ==> g.complexity <= 5
    ensures !AnyCritical(files)
  {
    forall k | 0 <= k < |files|
      ensures !Critical(RowOf(files[k]))
    {
      CriticalExactly(files[k]);
    }
  }
}
