/** `auto_fix_code`: line-level rewriting of Python source text. */
module AutoFix {
  import opened Text

  /** A line the fixer drops (lines 335-339): stripped, it starts with
      `print(` and, lower-cased, mentions `debug` or `test`. */
  predicate IsDebugPrint(line: string) {
    var stripped := Strip(line);
    StartsWith(stripped, "print(") && (Contains(Lower(stripped), "debug") || Contains(Lower(stripped), "test"))
  }

  /** The rewrite of a kept line (lines 341-346). */
  function FixLine(line: string): string {
    var rewritten :=
      if Contains(line, "print(") then Replace(Replace(Replace(line, "print(", "print("), " )", ")"), "+", " + ")
      else line;
    RStrip(rewritten)
  }

  /** The lines that `drop` does not reject, each rewritten by `fix`, in order. */
  function KeepMap(lines: seq<string>, drop: string -> bool, fix: string -> string): seq<string> {
    if lines == [] then []
    else
      var n := |lines| - 1;
      KeepMap(lines[..n], drop, fix) + (if drop(lines[n]) then [] else [fix(lines[n])])
  }

  function FixLines(lines: seq<string>): seq<string> {
    KeepMap(lines, IsDebugPrint, FixLine)
  }

  function AutoFix(code: string): string {
    Join(FixLines(Split(code, '\n')), "\n")
  }

  method AutoFixCode(code: string) returns (fixed: string)
    ensures fixed == AutoFix(code)
  {
    var lines := Split(code, '\n');
    var fixedLines: seq<string> := [];
    var i := 0;
    while i < |lines|
      invariant 0 <= i <= |lines|
      invariant fixedLines == FixLines(lines[..i])
    {
      FixLinesStep(lines, i);
      var keep, line := FixCodeLine(lines[i]);
      if keep {
        fixedLines := fixedLines + [line];
      }
      i := i + 1;
    }
    assert lines[..i] == lines;
    fixed := Join(fixedLines, "\n");
  }

  /** One pass of the line loop: a debug print is skipped, any other line is
      rewritten. */
  method FixCodeLine(line: string) returns (keep: bool, fixedLine: string)
    ensures keep == !IsDebugPrint(line)
    ensures keep ==> fixedLine == FixLine(line)
  {
    var stripped := Strip(line);
    if StartsWith(stripped, "print(") && (Contains(Lower(stripped), "debug") || Contains(Lower(stripped), "test")) {
      return false, line;
    }
    var rewritten := line;
    if Contains(line, "print(") {
      rewritten := Replace(rewritten, "print(", "print(");
      rewritten := Replace(rewritten, " )", ")");
      rewritten := Replace(rewritten, "+", " + ");
    }
    return true, RStrip(rewritten);
  }

  lemma FixLinesStep(lines: seq<string>, i: int)
    requires 0 <= i < |lines|
    ensures FixLines(lines[..i + 1]) == FixLines(lines[..i]) + (if IsDebugPrint(lines[i]) then [] else [FixLine(lines[i])])
  {
    assert lines[..i + 1][..i] == lines[..i];
  }

  // ---------------------------------------------------------------------
  // The keep-and-rewrite fold

  /** How many lines `drop` keeps. */
  function KeptCount(lines: seq<string>, drop: string -> bool): nat {
    if lines == [] then 0
    else
      var n := |lines| - 1;
      KeptCount(lines[..n], drop) + (if drop(lines[n]) then 0 else 1)
  }

  /** One output line per kept line; an output line is the rewrite of some
      kept line, and every kept line's rewrite is output. */
  lemma {:induction false} KeepMapMembers(lines: seq<string>, drop: string -> bool, fix: string -> string, o: string)
    ensures |KeepMap(lines, drop, fix)| == KeptCount(lines, drop) <= |lines|
    ensures o in KeepMap(lines, drop, fix) <==> exists k :: 0 <= k < |lines| && !drop(lines[k]) && o == fix(lines[k])
  {
    if lines != [] {
      var n := |lines| - 1;
      KeepMapMembers(lines[..n], drop, fix, o);
      assert forall k :: 0 <= k < n ==> lines[..n][k] == lines[k];
    }
  }

  /** When nothing is dropped, the fold is the line-by-line rewrite. */
  lemma {:induction false} KeepMapAll(lines: seq<string>, drop: string -> bool, fix: string -> string)
    requires forall k :: 0 <= k < |lines| ==> !drop(lines[k])
    ensures |KeepMap(lines, drop, fix)| == |lines|
    ensures forall k :: 0 <= k < |lines| ==> KeepMap(lines, drop, fix)[k] == fix(lines[k])
  {
    if lines != [] {
      KeepMapAll(lines[..|lines| - 1], drop, fix);
    }
  }

  // ---------------------------------------------------------------------
  // Properties of one line

  /** The rewrite of a line holds no line break if the line holds none, and
      never ends in whitespace. */
  lemma FixLineShape(line: string)
    requires '\n' !in line
    ensures var o := FixLine(line);
      '\n' !in o && (o == [] || !IsSpace(o[|o| - 1]))
  {
    var rewritten := line;
    if Contains(line, "print(") {
      ReplaceKeepsOut(line, "print(", "print(", '\n');
      var a := Replace(line, "print(", "print(");
      ReplaceKeepsOut(a, " )", ")", '\n');
      var b := Replace(a, " )", ")");
      ReplaceKeepsOut(b, "+", " + ", '\n');
      rewritten := Replace(b, "+", " + ");
    }
    RStripPrefix(rewritten);
    assert FixLine(line) == RStrip(rewritten);
    assert forall c :: c in RStrip(rewritten) ==> c in rewritten;
  }

  /** A line without `print(` is never dropped and is kept right-stripped. */
  lemma PlainLineKept(line: string)
    requires !Contains(line, "print(")
    ensures !IsDebugPrint(line)
    ensures FixLine(line) == RStrip(line)
  {
    var stripped := Strip(line);
    if StartsWith(stripped, "print(") {
      StripIsSlice(line);
      var i :| OccursAt(line, stripped, i);
      assert line[i..i + 6] == line[i..i + |stripped|][..6];
      assert OccursAt(line, "print(", i);
      ContainsAt(line, "print(");
    }
  }

  /** The first rewrite, line 342, changes nothing. */
  lemma FirstRewriteIsNoOp(line: string)
    ensures Replace(line, "print(", "print(") == line
  {
    ReplaceByItself(line, "print(");
  }

  /** A prefix of a line without `print(` has none either. */
  lemma PrefixNoPrint(s: string, m: int)
    requires 0 <= m <= |s| && !Contains(s, "print(")
    ensures !Contains(s[..m], "print(")
  {
    assert [] + s[..m] + s[m..] == s;
    if Contains(s[..m], "print(") {
      ContainsInside([], s[..m], s[m..], "print(");
    }
  }

  /** A print of a sum `x+y` gets its `+` padded with one space on each
      side, and nothing else changes. */
  lemma PlusPadded(x: string, y: string)
    requires '+' !in x && '+' !in y && ')' !in x && ')' !in y
    requires y == [] || y[|y| - 1] != ' '
    ensures FixLine("print(" + x + "+" + y + ")") == "print(" + x + " + " + y + ")"
  {
    SumRewrites(x, y);
    FixPrintLine("print(" + x + "+" + y + ")", "print(" + x + " + " + y + ")");
  }

  /** The two substitutions of lines 343-344 on a print of a sum. */
  lemma SumRewrites(x: string, y: string)
    requires '+' !in x && '+' !in y && ')' !in x && ')' !in y
    requires y == [] || y[|y| - 1] != ' '
    ensures var line := "print(" + x + "+" + y + ")";
      && Contains(line, "print(")
      && Replace(Replace(line, " )", ")"), "+", " + ") == "print(" + x + " + " + y + ")"
  {
    var line := "print(" + x + "+" + y + ")";
    var pre := "print(" + x + "+" + y;
    assert line == pre + ")";
    assert line[..6] == "print(";
    assert Contains(line, "print(");
    assert ')' !in "print(";
    assert ')' !in pre;
    NoSpaceBeforeClose(pre);
    ReplaceAbsent(line, " )", ")");
    PlusStep(x, y);
  }

  /** The `+` substitution on a print of a sum. */
  lemma PlusStep(x: string, y: string)
    requires '+' !in x && '+' !in y
    ensures Replace("print(" + x + "+" + y + ")", "+", " + ") == "print(" + x + " + " + y + ")"
  {
    var a, b := "print(" + x, y + ")";
    assert '+' !in "print(" && '+' !in ")";
    assert "print(" + x + "+" + y + ")" == a + ['+'] + b;
    ReplaceSingle(a, b, '+', " + ");
    assert a + " + " + b == "print(" + x + " + " + y + ")";
  }

  /** Fixing is not idempotent: on the fixed line a second pass pads the
      `+` once more, e.g. `print(a+b)`, `print(a + b)`, `print(a  +  b)`. */
  lemma PlusPaddingGrows(x: string, y: string)
    requires '+' !in x && '+' !in y && ')' !in x && ')' !in y
    requires y != [] && y[|y| - 1] != ' '
    ensures var once := FixLine("print(" + x + "+" + y + ")");
      && once == "print(" + x + " + " + y + ")"
      && FixLine(once) == "print(" + x + "  +  " + y + ")"
      && FixLine(once) != once
  {
    PlusPadded(x, y);
    PaddedPieces(x, y);
    PlusPadded(x + " ", " " + y);
  }

  /** The padded line read again as a print of a sum. */
  lemma PaddedPieces(x: string, y: string)
    ensures "print(" + (x + " ") + "+" + (" " + y) + ")" == "print(" + x + " + " + y + ")"
    ensures "print(" + (x + " ") + " + " + (" " + y) + ")" == "print(" + x + "  +  " + y + ")"
    ensures |"print(" + x + "  +  " + y + ")"| == |"print(" + x + " + " + y + ")"| + 2
  {
  }

  /** A line that contains `print(` and whose two substitutions give a text
      ending in a non-space character is fixed to that text. */
  lemma FixPrintLine(line: string, r: string)
    requires Contains(line, "print(")
    requires Replace(Replace(line, " )", ")"), "+", " + ") == r
    requires |r| > 0 && !IsSpace(r[|r| - 1])
    ensures FixLine(line) == r
  {
    ReplaceByItself(line, "print(");
  }

  /** A closing parenthesis appended to a text without one, after a
      character other than a space, makes no ` )`. */
  lemma NoSpaceBeforeClose(pre: string)
    requires ')' !in pre && (pre == [] || pre[|pre| - 1] != ' ')
    ensures !Contains(pre + ")", " )")
  {
    var s := pre + ")";
    forall i | 0 <= i <= |s| - 2
      ensures !OccursAt(s, " )", i)
    {
      assert s[i..i + 2][0] == s[i] && s[i..i + 2][1] == s[i + 1];
      if i + 1 < |pre| {
        assert s[i + 1] == pre[i + 1];
        assert pre[i + 1] in pre;
      } else {
        assert s[i] == pre[|pre| - 1];
      }
    }
    ContainsAt(s, " )");
  }

  // ---------------------------------------------------------------------
  // Properties of the whole text

  /** Exactly the lines that are not debug prints are kept, each as its
      rewrite; no output line holds a line break or ends in whitespace. */
  lemma FixLinesShape(lines: seq<string>)
    requires forall k :: 0 <= k < |lines| ==> '\n' !in lines[k]
    ensures |FixLines(lines)| == KeptCount(lines, IsDebugPrint) <= |lines|
    ensures forall o :: o in FixLines(lines) <==> exists k :: 0 <= k < |lines| && !IsDebugPrint(lines[k]) && o == FixLine(lines[k])
    ensures forall o :: o in FixLines(lines) ==> '\n' !in o && (o == [] || !IsSpace(o[|o| - 1]))
  {
    forall o
      ensures o in FixLines(lines) <==> exists k :: 0 <= k < |lines| && !IsDebugPrint(lines[k]) && o == FixLine(lines[k])
    {
      KeepMapMembers(lines, IsDebugPrint, FixLine, o);
    }
    KeepMapMembers(lines, IsDebugPrint, FixLine, []);
    forall o | o in FixLines(lines)
      ensures '\n' !in o && (o == [] || !IsSpace(o[|o| - 1]))
    {
      var k :| 0 <= k < |lines| && !IsDebugPrint(lines[k]) && o == FixLine(lines[k]);
      FixLineShape(lines[k]);
    }
  }

  /** The fixed text splits back into the fixed lines, when any line is kept. */
  lemma AutoFixLines(code: string)
    requires FixLines(Split(code, '\n')) != []
    ensures Split(AutoFix(code), '\n') == FixLines(Split(code, '\n'))
  {
    var lines := Split(code, '\n');
    FixLinesShape(lines);
    var out := FixLines(lines);
    assert forall k :: 0 <= k < |out| ==> out[k] in out;
    SplitJoin(out, '\n');
  }

  /** The output has no more lines than the input, and none of them ends in
      whitespace. */
  lemma AutoFixShape(code: string)
    ensures var out := Split(AutoFix(code), '\n');
      && |out| <= |Split(code, '\n')|
      && forall i :: 0 <= i < |out| ==> out[i] == [] || !IsSpace(out[i][|out[i]| - 1])
  {
    var lines := Split(code, '\n');
    FixLinesShape(lines);
    if FixLines(lines) != [] {
      AutoFixLines(code);
      var out := FixLines(lines);
      assert forall i :: 0 <= i < |out| ==> out[i] in out;
    } else {
      assert AutoFix(code) == [];
      assert Split([], '\n') == [[]];
    }
  }

  /** On text without `print(` every line is kept right-stripped, and fixing
      the fixed lines again changes nothing. */
  lemma FixLinesWithoutPrint(lines: seq<string>)
    requires forall k :: 0 <= k < |lines| ==> !Contains(lines[k], "print(")
    ensures |FixLines(lines)| == |lines|
    ensures forall k :: 0 <= k < |lines| ==> FixLines(lines)[k] == RStrip(lines[k])
    ensures FixLines(FixLines(lines)) == FixLines(lines)
  {
    forall k | 0 <= k < |lines|
      ensures !IsDebugPrint(lines[k]) && FixLine(lines[k]) == RStrip(lines[k])
    {
      PlainLineKept(lines[k]);
    }
    KeepMapAll(lines, IsDebugPrint, FixLine);
    var out := FixLines(lines);
    forall k | 0 <= k < |out|
      ensures !IsDebugPrint(out[k]) && FixLine(out[k]) == out[k]
    {
      var line := lines[k];
      RStripPrefix(line);
      PrefixNoPrint(line, |RStrip(line)|);
      PlainLineKept(RStrip(line));
    }
    KeepMapAll(out, IsDebugPrint, FixLine);
  }

  /** Code without `print(` anywhere: fixing it twice is fixing it once. */
  lemma AutoFixWithoutPrint(code: string)
    requires !Contains(code, "print(")
    ensures AutoFix(AutoFix(code)) == AutoFix(code)
  {
    var lines := Split(code, '\n');
    LinesWithoutPrint(code);
    FixLinesWithoutPrint(lines);
    AutoFixLines(code);
  }

  /** No line of code without `print(` holds `print(`. */
  lemma LinesWithoutPrint(code: string)
    requires !Contains(code, "print(")
    ensures forall k :: 0 <= k < |Split(code, '\n')| ==> !Contains(Split(code, '\n')[k], "print(")
  {
    JoinSplit(code, '\n');
    JoinContains(Split(code, '\n'), "\n", "print(");
  }
}
