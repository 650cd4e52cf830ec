/** The scoring part of `analyze_metrics`: per-function complexities and the
    maintainability index come in as measurements; the warnings, the
    average, the score and the grade are computed from them. */
module Metrics {
  import opened Text

  /** The grade strings: `"Excellent"`, `"Good"`, `"Moderate"`, `"Poor"`,
      and `"Error"` when the file could not be measured. */
  datatype Grade = Excellent | Good | Moderate | Poor | Error

  /** One block reported by the complexity visitor. */
  datatype FunctionComplexity = FunctionComplexity(name: string, complexity: int)

  /** What the measuring library reports for a file, or `Failed` when it raises. */
  datatype Measurement =
    | Failed
    | Measured(functions: seq<FunctionComplexity>, maintainability: real)

  /** The five values `analyze_metrics` returns, unrounded. */
  datatype Report = Report(avgComplexity: real, maintainability: real, score: int, grade: Grade, warnings: seq<string>)

  /** Sum of the complexities. */
  function Total(fs: seq<FunctionComplexity>): int {
    if fs == [] then 0
    else
      var n := |fs| - 1;
      Total(fs[..n]) + fs[n].complexity
  }

  /** The warning for a block above the moderate threshold (lines 364-367). */
  function WarningText(f: FunctionComplexity): string {
    if f.complexity > 10 then "CRITICAL: " + f.name + " highly complex"
    else "WARNING: " + f.name + " moderate complexity"
  }

  /** The warnings, one per block of complexity above 5, in block order. */
  function Warnings(fs: seq<FunctionComplexity>): seq<string> {
    if fs == [] then []
    else
      var n := |fs| - 1;
      Warnings(fs[..n]) + (if fs[n].complexity > 5 then [WarningText(fs[n])] else [])
  }

  /** The mean complexity, or 0 when there are no blocks. */
  function Average(fs: seq<FunctionComplexity>): real {
    if |fs| == 0 then 0.0 else Total(fs) as real / |fs| as real
  }

  /** Points lost for the average complexity (lines 372-375). */
  function ComplexityPenalty(avg: real): (p: int)
    ensures p == 0 || p == 10 || p == 20
  {
    if avg > 10.0 then 20 else if avg > 5.0 then 10 else 0
  }

  /** Points lost for the maintainability index (lines 377-380). */
  function MaintainabilityPenalty(mi: real): (p: int)
    ensures p == 0 || p == 10 || p == 20
  {
    if mi < 65.0 then 20 else if mi < 80.0 then 10 else 0
  }

  function Score(avg: real, mi: real): int {
    100 - ComplexityPenalty(avg) - MaintainabilityPenalty(mi)
  }

  /** The grade ladder of lines 382-387. */
  function GradeOf(score: int): Grade {
    if score >= 90 then Excellent
    else if score >= 75 then Good
    else if score >= 60 then Moderate
    else Poor
  }

  /** What `analyze_metrics` returns for a measurement. */
  function Analyze(m: Measurement): Report {
    match m
    case Failed => Report(0.0, 0.0, 0, Error, [])
    case Measured(fs, mi) =>
      var avg := Average(fs);
      Report(avg, mi, Score(avg, mi), GradeOf(Score(avg, mi)), Warnings(fs))
  }

  /** `analyze_metrics` (lines 351-389). */
  method AnalyzeMetrics(m: Measurement) returns (r: Report)
    ensures r == Analyze(m)
  {
    if m.Failed? {
      return Report(0.0, 0.0, 0, Error, []);
    }
    var fs, mi := m.functions, m.maintainability;
    var total := 0;
    var warnings: seq<string> := [];
    var i := 0;
    while i < |fs|
      invariant 0 <= i <= |fs|
      invariant total == Total(fs[..i])
      invariant warnings == Warnings(fs[..i])
    {
      assert fs[..i + 1][..i] == fs[..i];
      total := total + fs[i].complexity;
      if fs[i].complexity > 10 {
        warnings := warnings + ["CRITICAL: " + fs[i].name + " highly complex"];
      } else if fs[i].complexity > 5 {
        warnings := warnings + ["WARNING: " + fs[i].name + " moderate complexity"];
      }
      i := i + 1;
    }
    assert fs[..i] == fs;
    var avg := if |fs| > 0 then total as real / |fs| as real else 0.0;
    var score := 100;
    if avg > 10.0 {
      score := score - 20;
    } else if avg > 5.0 {
      score := score - 10;
    }
    if mi < 65.0 {
      score := score - 20;
    } else if mi < 80.0 {
      score := score - 10;
    }
    r := Report(avg, mi, score, GradeOf(score), warnings);
  }

  // ---------------------------------------------------------------------
  // Properties

  /** On the success path the score is 100 less one of 0, 10, 20 for
      complexity and one of 0, 10, 20 for maintainability: a multiple of ten
      between 60 and 100, never graded `Poor`. The failure path scores 0
      with grade `Error` and no warnings. */
  lemma ScoreBands(m: Measurement)
    ensures var r := Analyze(m);
      if m.Failed? then r.score == 0 && r.grade == Error && r.warnings == []
      else
        && r.score == 100 - ComplexityPenalty(r.avgComplexity) - MaintainabilityPenalty(r.maintainability)
        && 60 <= r.score <= 100 && r.score % 10 == 0
        && r.grade != Poor && r.grade != Error
  {
  }

  function Rank(g: Grade): nat {
    match g
    case Error => 0
    case Poor => 1
    case Moderate => 2
    case Good => 3
    case Excellent => 4
  }

  /** A higher score never gives a worse grade; a higher average complexity
      or a lower maintainability never gives a higher score. */
  lemma GradeMonotone(s1: int, s2: int, avg1: real, avg2: real, mi1: real, mi2: real)
    requires s1 <= s2 && avg1 <= avg2 && mi2 <= mi1
    ensures Rank(GradeOf(s1)) <= Rank(GradeOf(s2))
    ensures Score(avg2, mi2) <= Score(avg1, mi1)
  {
  }

  /** The two worked examples: average 12 with maintainability 50 scores 60,
      `Moderate`; average 3 with maintainability 90 scores 100, `Excellent`. */
  lemma ScoreExamples()
    ensures var r := Analyze(Measured([FunctionComplexity("f", 12)], 50.0));
      r.avgComplexity == 12.0 && r.score == 60 && r.grade == Moderate
      && r.warnings == ["CRITICAL: f highly complex"]
    ensures var r := Analyze(Measured([FunctionComplexity("f", 2), FunctionComplexity("g", 4)], 90.0));
      r.avgComplexity == 3.0 && r.score == 100 && r.grade == Excellent && r.warnings == []
  {
    var one := [FunctionComplexity("f", 12)];
    assert one[..0] == [];
    assert WarningText(one[0]) == "CRITICAL: f highly complex";
    var two := [FunctionComplexity("f", 2), FunctionComplexity("g", 4)];
    assert two[..1][..0] == [];
    assert Total(two) == 6;
  }

  /** A warning is in the list exactly when some block above 5 produced it. */
  lemma {:induction false} WarningsMembers(fs: seq<FunctionComplexity>, w: string)
    ensures w in Warnings(fs) <==> exists f :: f in fs && f.complexity > 5 && w == WarningText(f)
  {
    if fs != [] {
      var n := |fs| - 1;
      WarningsMembers(fs[..n], w);
      assert forall f :: f in fs <==> f in fs[..n] || f == fs[n] by {
        assert fs == fs[..n] + [fs[n]];
      }
    }
  }

  /** How many blocks have complexity above `t`. */
  function CountAbove(fs: seq<FunctionComplexity>, t: int): nat {
    if fs == [] then 0
    else
      var n := |fs| - 1;
      CountAbove(fs[..n], t) + (if fs[n].complexity > t then 1 else 0)
  }

  /** Exactly one warning per block above 5, and the `CRITICAL` ones are
      exactly those for blocks above 10. */
  lemma {:induction false} WarningsCount(fs: seq<FunctionComplexity>)
    ensures |Warnings(fs)| == CountAbove(fs, 5)
    ensures |set i | 0 <= i < |Warnings(fs)| && StartsWith(Warnings(fs)[i], "CRITICAL")| == CountAbove(fs, 10)
  {
    if fs != [] {
      var n := |fs| - 1;
      var w0, w := Warnings(fs[..n]), Warnings(fs);
      WarningsCount(fs[..n]);
      var s0 := set i | 0 <= i < |w0| && StartsWith(w0[i], "CRITICAL");
      var s := set i | 0 <= i < |w| && StartsWith(w[i], "CRITICAL");
      WarningTextPrefix(fs[n]);
      if fs[n].complexity > 5 {
        if fs[n].complexity > 10 {
          assert s == s0 + {|w0|};
        } else {
          assert s == s0;
        }
      } else {
        assert s == s0;
      }
    }
  }

  /** A warning starts with `CRITICAL` exactly when its block is above 10. */
  lemma WarningTextPrefix(f: FunctionComplexity)
    ensures StartsWith(WarningText(f), "CRITICAL") <==> f.complexity > 10
  {
    if f.complexity <= 10 {
      assert WarningText(f)[0] == 'W';
    }
  }

  /** When every block lies in `[lo, hi]`, so does the average. */
  lemma AverageWithin(fs: seq<FunctionComplexity>, lo: int, hi: int)
    requires |fs| > 0
    requires forall f :: f in fs ==> lo <= f.complexity <= hi
    ensures lo as real <= Average(fs) <= hi as real
  {
    TotalWithin(fs, lo, hi);
    var n := |fs| as real;
    var t := Total(fs) as real;
    assert lo as real * n <= t <= hi as real * n;
    assert Average(fs) == t / n;
  }

  lemma {:induction false} TotalWithin(fs: seq<FunctionComplexity>, lo: int, hi: int)
    requires forall f :: f in fs ==> lo <= f.complexity <= hi
    ensures lo * |fs| <= Total(fs) <= hi * |fs|
  {
    if fs != [] {
      var n := |fs| - 1;
      var init := fs[..n];
      assert forall f :: f in init ==> f in fs;
      TotalWithin(init, lo, hi);
      assert fs[n] in fs;
      var c := fs[n].complexity;
      assert Total(fs) == Total(init) + c;
      MulStep(lo, n);
      MulStep(hi, n);
    }
  }

  lemma MulStep(a: int, n: int)
    ensures a * (n + 1) == a * n + a
  {
  }

  /** A file without warnings has no block above 5, so its average costs it
      no points. */
  lemma NoWarningsNoPenalty(fs: seq<FunctionComplexity>)
    requires Warnings(fs) == []
    ensures forall f :: f in fs ==> f.complexity <= 5
    ensures ComplexityPenalty(Average(fs)) == 0
  {
    forall f | f in fs
      ensures f.complexity <= 5
    {
      WarningsMembers(fs, WarningText(f));
    }
    if |fs| > 0 {
      TotalAtMost(fs, 5);
      QuotientAtMost(Total(fs), |fs|, 5);
    }
  }

  /** A total of at most `hi` per item averages at most `hi`. */
  lemma QuotientAtMost(t: int, n: int, hi: int)
    requires n > 0 && t <= hi * n
    ensures t as real / n as real <= hi as real
  {
    var q := t as real / n as real;
    assert q * n as real == t as real;
    if q > hi as real {
      assert (q - hi as real) * n as real > 0.0;
    }
  }

  /** When no block is above `hi`, the total is at most `hi` per block. */
  lemma {:induction false} TotalAtMost(fs: seq<FunctionComplexity>, hi: int)
    requires forall f :: f in fs ==> f.complexity <= hi
    ensures Total(fs) <= hi * |fs|
  {
    if fs != [] {
      var n := |fs| - 1;
      assert forall f :: f in fs[..n] ==> f in fs;
      TotalAtMost(fs[..n], hi);
      assert fs[n] in fs;
      MulStep(hi, n);
    }
  }
}
