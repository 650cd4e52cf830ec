/** Feedback for a list of issues: the response parser, the rule-based
    templates, the engine fallback of `generate_ai_feedback` and the retry
    loop of `_call_openrouter`. Engine calls are abstract: each engine either
    fails or returns raw text. */
module Feedback {
  import opened Wrappers
  import opened Text
  import opened Issues

  // ---------------------------------------------------------------------
  // _parse_ai_response (lines 236-244)

  /** The characters `lstrip` removes from the front of a suggestion. */
  const Enumerators: string := "0123456789.-) "

  /** A stripped, non-empty line with its enumeration removed. */
  function Clean(line: string): string {
    Strip(LStripChars(line, Enumerators))
  }

  /** What one line of the response contributes. */
  function LineSuggestion(line: string): seq<string> {
    var stripped := Strip(line);
    if stripped != [] && Clean(stripped) != [] then [Clean(stripped)] else []
  }

  /** The suggestions of a list of lines, in line order. */
  function Suggestions(lines: seq<string>): seq<string> {
    if lines == [] then []
    else
      var n := |lines| - 1;
      Suggestions(lines[..n]) + LineSuggestion(lines[n])
  }

  /** What `_parse_ai_response` returns for a response. */
  function Parse(raw: string): seq<string> {
    Suggestions(Split(Strip(raw), '\n'))
  }

  method ParseResponse(raw: string) returns (suggestions: seq<string>)
    ensures suggestions == Parse(raw)
  {
    var lines := Split(Strip(raw), '\n');
    suggestions := [];
    var i := 0;
    while i < |lines|
      invariant 0 <= i <= |lines|
      invariant suggestions == Suggestions(lines[..i])
    {
      assert lines[..i + 1][..i] == lines[..i];
      var line := Strip(lines[i]);
      if line != [] {
        var cleaned := Strip(LStripChars(line, Enumerators));
        if cleaned != [] {
          suggestions := suggestions + [cleaned];
        }
      }
      i := i + 1;
    }
    assert lines[..i] == lines;
  }

  /** A suggestion is non-empty and has no whitespace at either end. */
  predicate Trimmed(s: string) {
    s != [] && !IsSpace(s[0]) && !IsSpace(s[|s| - 1])
  }

  lemma {:induction false} SuggestionsShape(lines: seq<string>)
    ensures |Suggestions(lines)| <= |lines|
    ensures forall i :: 0 <= i < |Suggestions(lines)| ==> Trimmed(Suggestions(lines)[i])
  {
    if lines != [] {
      SuggestionsShape(lines[..|lines| - 1]);
      LineSuggestionShape(lines[|lines| - 1]);
    }
  }

  /** One line gives at most one suggestion, and it is trimmed. */
  lemma LineSuggestionShape(line: string)
    ensures |LineSuggestion(line)| <= 1
    ensures forall i :: 0 <= i < |LineSuggestion(line)| ==> Trimmed(LineSuggestion(line)[i])
  {
  }

  /** Every parsed suggestion is non-empty and trimmed, and there are no
      more suggestions than the response has lines. */
  lemma ParseShape(raw: string)
    ensures forall i :: 0 <= i < |Parse(raw)| ==> Trimmed(Parse(raw)[i])
    ensures |Parse(raw)| <= 1 + Occurrences(raw, '\n')
  {
    SuggestionsShape(Split(Strip(raw), '\n'));
    StripSplitCount(raw);
  }

  /** A line whose only whitespace is the blank loses its whole enumeration. */
  lemma CleanLead(line: string)
    requires forall c :: c in line && IsSpace(c) ==> c == ' '
    ensures Clean(Strip(line)) == [] || Clean(Strip(line))[0] !in Enumerators
  {
    var stripped := Strip(line);
    StripChars(line);
    var r := LStripChars(stripped, Enumerators);
    LStripCharsSuffix(stripped, Enumerators);
    if r != [] {
      assert r[0] == stripped[|stripped| - |r|];
      assert r[0] in stripped;
      assert !IsSpace(r[0]);
      assert LStrip(r) == r;
      var cleaned := RStrip(r);
      if cleaned != [] {
        assert cleaned[0] == r[0];
      }
    }
  }

  lemma {:induction false} SuggestionsLead(lines: seq<string>)
    requires forall k, c :: 0 <= k < |lines| && c in lines[k] && IsSpace(c) ==> c == ' '
    ensures forall i :: 0 <= i < |Suggestions(lines)| ==> Suggestions(lines)[i] != [] && Suggestions(lines)[i][0] !in Enumerators
  {
    if lines != [] {
      var n := |lines| - 1;
      SuggestionsLead(lines[..n]);
      CleanLead(lines[n]);
    }
  }

  /** When the response's only whitespace characters are blanks and line
      breaks, no suggestion begins with a digit, `.`, `-`, `)` or a blank. */
  lemma ParseLead(raw: string)
    requires forall c :: c in raw && IsSpace(c) ==> c == ' ' || c == '\n'
    ensures forall i :: 0 <= i < |Parse(raw)| ==> Parse(raw)[i] != [] && Parse(raw)[i][0] !in Enumerators
  {
    var lines := Split(Strip(raw), '\n');
    StripChars(raw);
    SplitChars(Strip(raw), '\n');
    SuggestionsLead(lines);
  }

  /** With a tab after the enumeration, `strip()` exposes the next numeral:
      the condition of `ParseLead` cannot be dropped. */
  lemma ParseTabExample()
    ensures Parse("1.\t2. x") == ["2. x"]
  {
    var raw := "1.\t2. x";
    TabLine();
    assert '\n' !in raw;
    SplitPiece(raw, '\n');
    var lines := [raw];
    assert lines[..0] == [];
    assert Suggestions(lines) == LineSuggestion(raw);
  }

  lemma TabLine()
    ensures Strip("1.\t2. x") == "1.\t2. x"
    ensures Clean("1.\t2. x") == "2. x"
  {
    TabLineEnumeration();
    TabLineRest();
  }

  /** `lstrip` of the enumerator characters stops at the tab. */
  lemma TabLineEnumeration()
    ensures LStripChars("1.\t2. x", Enumerators) == "\t2. x"
  {
    var raw := "1.\t2. x";
    assert raw[1..][1..] == "\t2. x";
    assert raw[0] in Enumerators && raw[1..][0] in Enumerators && '\t' !in Enumerators;
  }

  /** `strip` then removes the tab and exposes the `2`. */
  lemma TabLineRest()
    ensures Strip("\t2. x") == "2. x"
  {
    var tail := "\t2. x";
    assert tail[1..] == "2. x";
  }

  // ---------------------------------------------------------------------
  // _rule_based_feedback (lines 198-215)

  /** An f-string rendering of a context: `None` when there is none. */
  function ContextText(c: Context): string {
    match c
    case None => "None"
    case Some(name) => name
  }

  function DigitChar(d: int): char
    requires 0 <= d < 10
  {
    "0123456789"[d]
  }

  /** Decimal digits of a natural number. */
  function NatText(n: nat): (r: string)
    ensures |r| >= 1
    ensures forall i :: 0 <= i < |r| ==> '0' <= r[i] <= '9'
  {
    if n < 10 then [DigitChar(n)] else NatText(n / 10) + [DigitChar(n % 10)]
  }

  /** An f-string rendering of a detail: the text, or the number in decimal. */
  function DetailText(d: Detail): string {
    match d
    case Str(s) => s
    case Num(v) => if v < 0 then "-" + NatText(-v) else NatText(v)
  }

  /** The six issue types that have a template. */
  predicate HasTemplate(t: IssueType) {
    t.MissingDocstring? || t.TooManyParameters? || t.MagicNumber? || t.UnusedVariable? || t.DebugPrint? || t.PoorVariableName?
  }

  /** The template for one issue. */
  function Template(x: Issue): string
    requires HasTemplate(x.kind)
  {
    match x.kind
    case MissingDocstring => "Add a proper docstring to '" + ContextText(x.context) + "' explaining its purpose."
    case TooManyParameters => "Refactor '" + ContextText(x.context) + "' to reduce parameters using objects."
    case MagicNumber => "Replace magic numbers with constants."
    case UnusedVariable => "Remove unused variable '" + DetailText(x.detail) + "'."
    case DebugPrint => "Remove debug print statements."
    case PoorVariableName => "Rename variable '" + DetailText(x.detail) + "' meaningfully."
  }

  function RuleFeedback(issues: seq<Issue>): seq<string> {
    if issues == [] then []
    else
      var n := |issues| - 1;
      RuleFeedback(issues[..n]) + (if HasTemplate(issues[n].kind) then [Template(issues[n])] else [])
  }

  /** The issues that have a template, in issue order. */
  function Templated(issues: seq<Issue>): (r: seq<Issue>)
    ensures forall i :: 0 <= i < |r| ==> HasTemplate(r[i].kind)
  {
    if issues == [] then []
    else
      var n := |issues| - 1;
      Templated(issues[..n]) + (if HasTemplate(issues[n].kind) then [issues[n]] else [])
  }

  method RuleBasedFeedback(issues: seq<Issue>) returns (feedback: seq<string>)
    ensures feedback == RuleFeedback(issues)
  {
    feedback := [];
    var i := 0;
    while i < |issues|
      invariant 0 <= i <= |issues|
      invariant feedback == RuleFeedback(issues[..i])
    {
      assert issues[..i + 1][..i] == issues[..i];
      var x := issues[i];
      var ctx := ContextText(x.context);
      if x.kind == MissingDocstring {
        feedback := feedback + ["Add a proper docstring to '" + ctx + "' explaining its purpose."];
      } else if x.kind == TooManyParameters {
        feedback := feedback + ["Refactor '" + ctx + "' to reduce parameters using objects."];
      } else if x.kind == MagicNumber {
        feedback := feedback + ["Replace magic numbers with constants."];
      } else if x.kind == UnusedVariable {
        feedback := feedback + ["Remove unused variable '" + DetailText(x.detail) + "'."];
      } else if x.kind == DebugPrint {
        feedback := feedback + ["Remove debug print statements."];
      } else if x.kind == PoorVariableName {
        feedback := feedback + ["Rename variable '" + DetailText(x.detail) + "' meaningfully."];
      }
      i := i + 1;
    }
    assert issues[..i] == issues;
  }

  /** The rule-based list has one entry per templated issue, in issue order,
      and it is empty exactly when no issue has a template. */
  lemma {:induction false} RuleFeedbackEntries(issues: seq<Issue>)
    ensures |RuleFeedback(issues)| == |Templated(issues)| <= |issues|
    ensures forall i :: 0 <= i < |Templated(issues)| ==> RuleFeedback(issues)[i] == Template(Templated(issues)[i])
    ensures RuleFeedback(issues) == [] <==> forall x :: x in issues ==> !HasTemplate(x.kind)
  {
    if issues != [] {
      var n := |issues| - 1;
      RuleFeedbackEntries(issues[..n]);
      var a0, t0 := RuleFeedback(issues[..n]), Templated(issues[..n]);
      if HasTemplate(issues[n].kind) {
        assert RuleFeedback(issues) == a0 + [Template(issues[n])];
        assert Templated(issues) == t0 + [issues[n]];
      } else {
        assert RuleFeedback(issues) == a0;
        assert Templated(issues) == t0;
      }
      assert forall x :: x in issues <==> x in issues[..n] || x == issues[n] by {
        assert issues == issues[..n] + [issues[n]];
      }
    }
  }

  // ---------------------------------------------------------------------
  // generate_ai_feedback (lines 296-326)

  const NoIssuesMessage: string := "No issues detected. Code looks good!"

  datatype Engine = OpenRouter | Ollama | Gemini

  /** What calling an engine gives: an exception, or the raw text. */
  datatype EngineResult = Fail | Ok(raw: string)

  /** The engines in the order they are tried, given the two keys after
      `strip()`: OpenRouter when its key is non-empty, then Ollama, then
      Gemini when its key is non-empty. An unset key is the empty string. */
  function Engines(openRouterKey: string, geminiKey: string): (es: seq<Engine>)
    ensures OpenRouter in es <==> openRouterKey != []
    ensures Gemini in es <==> geminiKey != []
    ensures Ollama in es
    ensures forall i, j :: 0 <= i < j < |es| ==> Order(es[i]) < Order(es[j])
  {
    if openRouterKey != [] && geminiKey != [] then [OpenRouter, Ollama, Gemini]
    else if openRouterKey != [] then [OpenRouter, Ollama]
    else if geminiKey != [] then [Ollama, Gemini]
    else [Ollama]
  }

  function Order(e: Engine): nat {
    match e
    case OpenRouter => 0
    case Ollama => 1
    case Gemini => 2
  }

  /** The suggestions an engine result yields: its parsed text, or none
      when the call raised. */
  function Suggested(r: EngineResult): seq<string> {
    if r.Ok? then Parse(r.raw) else []
  }

  /** Calling an engine and parsing what it returns, as one function. */
  function Ask(call: Engine -> EngineResult): Engine -> seq<string> {
    e => Suggested(call(e))
  }

  /** The engines' suggestions, in engine order. */
  function Outcomes(engines: seq<Engine>, answer: Engine -> seq<string>): (outs: seq<seq<string>>)
    ensures |outs| == |engines|
  {
    if engines == [] then [] else [answer(engines[0])] + Outcomes(engines[1..], answer)
  }

  /** The `j`-th outcome is the `j`-th engine's suggestions. */
  lemma {:induction false} OutcomeAt(engines: seq<Engine>, answer: Engine -> seq<string>, j: int)
    requires 0 <= j < |engines|
    ensures Outcomes(engines, answer)[j] == answer(engines[j])
  {
    if j > 0 {
      OutcomeAt(engines[1..], answer, j - 1);
    }
  }

  /** The feedback for a non-empty issue list, given the engines' outcomes in
      order: the first non-empty one, or `fallback` (the rule-based list). */
  function ResolveFrom(fallback: seq<string>, outs: seq<seq<string>>): seq<string> {
    if outs == [] then fallback
    else if outs[0] != [] then outs[0]
    else ResolveFrom(fallback, outs[1..])
  }

  /** How many engines are called: up to and including the first with a
      non-empty outcome. */
  function Calls(outs: seq<seq<string>>): (n: nat)
    ensures n <= |outs|
  {
    if outs == [] then 0
    else if outs[0] != [] then 1
    else 1 + Calls(outs[1..])
  }

  function Resolve(issues: seq<Issue>, outs: seq<seq<string>>): seq<string> {
    if issues == [] then [NoIssuesMessage] else ResolveFrom(RuleFeedback(issues), outs)
  }

  /** `generate_ai_feedback`: the two keys are the environment values as
      read (empty when unset), `call` gives each engine's result, and
      `tried` lists the engines called, in order. */
  method GenerateFeedback(issues: seq<Issue>, openRouterEnv: string, geminiEnv: string, call: Engine -> EngineResult)
    returns (feedback: seq<string>, tried: seq<Engine>)
    ensures var engines := Engines(Strip(openRouterEnv), Strip(geminiEnv));
      && feedback == Resolve(issues, Outcomes(engines, Ask(call)))
      && tried == (if issues == [] then [] else engines[..Calls(Outcomes(engines, Ask(call)))])
  {
    if issues == [] {
      return [NoIssuesMessage], [];
    }
    var openRouterKey := Strip(openRouterEnv);
    var geminiKey := Strip(geminiEnv);
    var engines := Engines(openRouterKey, geminiKey);
    feedback, tried := TryEngines(issues, engines, Ask(call));
  }

  /** The engine loop of lines 314-323 and the fallback of lines 325-326;
      `answer` calls an engine and parses its response. */
  method TryEngines(issues: seq<Issue>, engines: seq<Engine>, answer: Engine -> seq<string>)
    returns (feedback: seq<string>, tried: seq<Engine>)
    ensures feedback == ResolveFrom(RuleFeedback(issues), Outcomes(engines, answer))
    ensures tried == engines[..Calls(Outcomes(engines, answer))]
  {
    ghost var fallback := RuleFeedback(issues);
    tried := [];
    var i := 0;
    while i < |engines|
      invariant 0 <= i <= |engines|
      invariant tried == engines[..i]
      invariant ResolveFrom(fallback, Outcomes(engines, answer)) == ResolveFrom(fallback, Outcomes(engines[i..], answer))
      invariant Calls(Outcomes(engines, answer)) == i + Calls(Outcomes(engines[i..], answer))
    {
      tried := tried + [engines[i]];
      var suggestions := answer(engines[i]);
      ResolveStep(fallback, engines, answer, i);
      if suggestions != [] {
        assert tried == engines[..i + 1];
        return suggestions, tried;
      }
      i := i + 1;
    }
    feedback := RuleBasedFeedback(issues);
  }

  /** One engine of the resolution: a non-empty outcome ends it, an empty
      one passes on to the next engine. */
  lemma ResolveStep(fallback: seq<string>, engines: seq<Engine>, answer: Engine -> seq<string>, i: int)
    requires 0 <= i < |engines|
    ensures var here, outs, later := answer(engines[i]), Outcomes(engines[i..], answer), Outcomes(engines[i + 1..], answer);
      && (here != [] ==> ResolveFrom(fallback, outs) == here && Calls(outs) == 1)
      && (here == [] ==> ResolveFrom(fallback, outs) == ResolveFrom(fallback, later))
      && (here == [] ==> Calls(outs) == 1 + Calls(later))
  {
    assert engines[i..][0] == engines[i];
    assert engines[i..][1..] == engines[i + 1..];
  }

  /** The first engine with a non-empty outcome decides the feedback, and no
      engine after it is called. */
  lemma {:induction false} FirstSuccessDecides(fallback: seq<string>, outs: seq<seq<string>>, k: int)
    requires 0 <= k < |outs| && outs[k] != []
    requires forall j :: 0 <= j < k ==> outs[j] == []
    ensures ResolveFrom(fallback, outs) == outs[k]
    ensures Calls(outs) == k + 1
  {
    if k > 0 {
      FirstSuccessDecides(fallback, outs[1..], k - 1);
    }
  }

  /** When every engine fails, all are called and the fallback is returned. */
  lemma {:induction false} AllFailFallsBack(fallback: seq<string>, outs: seq<seq<string>>)
    requires forall j :: 0 <= j < |outs| ==> outs[j] == []
    ensures ResolveFrom(fallback, outs) == fallback
    ensures Calls(outs) == |outs|
  {
    if outs != [] {
      AllFailFallsBack(fallback, outs[1..]);
    }
  }

  /** Engines after one with a non-empty outcome change neither the feedback
      nor the calls made. */
  lemma {:induction false} LaterEnginesIrrelevant(fallback: seq<string>, a: seq<seq<string>>, b1: seq<seq<string>>, b2: seq<seq<string>>)
    requires exists j :: 0 <= j < |a| && a[j] != []
    ensures ResolveFrom(fallback, a + b1) == ResolveFrom(fallback, a + b2)
    ensures Calls(a + b1) == Calls(a + b2)
  {
    assert (a + b1)[0] == a[0] && (a + b2)[0] == a[0];
    if a[0] == [] {
      var j :| 0 <= j < |a| && a[j] != [];
      assert a[1..][j - 1] == a[j];
      LaterEnginesIrrelevant(fallback, a[1..], b1, b2);
      assert (a + b1)[1..] == a[1..] + b1;
      assert (a + b2)[1..] == a[1..] + b2;
    }
  }

  /** For a non-empty issue list the feedback is the rule-based list or the
      parsed text of some engine that answered; in the second case every
      entry is non-empty and trimmed. */
  lemma {:induction false} FeedbackSource(issues: seq<Issue>, engines: seq<Engine>, call: Engine -> EngineResult)
    requires issues != []
    ensures var f := Resolve(issues, Outcomes(engines, Ask(call)));
      || f == RuleFeedback(issues)
      || ((exists j :: 0 <= j < |engines| && call(engines[j]).Ok? && f == Parse(call(engines[j]).raw))
          && forall i :: 0 <= i < |f| ==> Trimmed(f[i]))
  {
    var outs := Outcomes(engines, Ask(call));
    ResolveIsSome(RuleFeedback(issues), outs);
    var f := ResolveFrom(RuleFeedback(issues), outs);
    if f != RuleFeedback(issues) {
      var j :| 0 <= j < |outs| && outs[j] != [] && f == outs[j];
      OutcomeAt(engines, Ask(call), j);
      ParseShape(call(engines[j]).raw);
    }
  }

  lemma {:induction false} ResolveIsSome(fallback: seq<string>, outs: seq<seq<string>>)
    ensures var f := ResolveFrom(fallback, outs);
      f == fallback || exists j :: 0 <= j < |outs| && outs[j] != [] && f == outs[j]
  {
    if outs != [] && outs[0] == [] {
      ResolveIsSome(fallback, outs[1..]);
      var f := ResolveFrom(fallback, outs);
      if f != fallback {
        var j :| 0 <= j < |outs[1..]| && outs[1..][j] != [] && f == outs[1..][j];
        assert outs[j + 1] == outs[1..][j];
      }
    } else if outs != [] {
      assert ResolveFrom(fallback, outs) == outs[0];
    }
  }

  // ---------------------------------------------------------------------
  // _call_openrouter (lines 257-281)

  /** The server's answer to one request, or a request that raised.
      `content` is `None` when the reply has no message content or a null
      one. The first makes the lookup of line 280 raise. The second makes
      `_call_openrouter` return `None`, and parsing that raises inside the
      engine loop (line 318). Either way the engine fails, so the model
      ends both as `Fail`. */
  datatype HttpReply = Response(status: int, content: Option<string>) | NetworkError

  /** The result of the attempts from `attempt` on, and the back-off pauses
      they take, in seconds. */
  datatype Retry = Retry(result: EngineResult, waits: seq<nat>)

  function OpenRouterFrom(respond: nat -> HttpReply, attempt: nat): Retry
    decreases 3 - attempt
  {
    if attempt >= 3 then Retry(Fail, [])
    else
      match respond(attempt)
      case NetworkError => Retry(Fail, [])
      case Response(status, content) =>
        if status == 429 then
          var rest := OpenRouterFrom(respond, attempt + 1);
          Retry(rest.result, [10 * (attempt + 1)] + rest.waits)
        else if status != 200 then Retry(Fail, [])
        else if content.None? then Retry(Fail, [])
        else Retry(Ok(content.value), [])
  }

  /** `_call_openrouter`: `respond(a)` is the reply to the request of attempt
      `a`; `waits` are the back-off pauses taken. */
  method CallOpenRouter(respond: nat -> HttpReply) returns (result: EngineResult, waits: seq<nat>)
    ensures Retry(result, waits) == OpenRouterFrom(respond, 0)
  {
    waits := [];
    var attempt: nat := 0;
    while attempt < 3
      invariant attempt <= 3
      invariant OpenRouterFrom(respond, 0) == Retry(OpenRouterFrom(respond, attempt).result, waits + OpenRouterFrom(respond, attempt).waits)
      decreases 3 - attempt
    {
      var reply := respond(attempt);
      var rest := OpenRouterFrom(respond, attempt);
      OpenRouterStep(respond, attempt);
      if reply.Response? && reply.status == 429 {
        var wait := 10 * (attempt + 1);
        var next := OpenRouterFrom(respond, attempt + 1);
        assert rest == Retry(next.result, [wait] + next.waits);
        assert waits + rest.waits == (waits + [wait]) + next.waits;
        waits := waits + [wait];
        attempt := attempt + 1;
      } else {
        if reply.Response? && reply.status == 200 && reply.content.Some? {
          result := Ok(reply.content.value);
        } else {
          result := Fail;
        }
        assert rest == Retry(result, []);
        assert waits + [] == waits;
        return;
      }
    }
    result := Fail;
  }

  /** One attempt: a rate limit defers to the next attempt after a pause of
      `10 * (attempt + 1)` seconds; any other reply ends the retries. */
  lemma OpenRouterStep(respond: nat -> HttpReply, attempt: nat)
    requires attempt < 3
    ensures var reply, rest, next := respond(attempt), OpenRouterFrom(respond, attempt), OpenRouterFrom(respond, attempt + 1);
      if reply.Response? && reply.status == 429 then rest == Retry(next.result, [10 * (attempt + 1)] + next.waits)
      else rest == Retry(if reply.Response? && reply.status == 200 && reply.content.Some? then Ok(reply.content.value) else Fail, [])
  {
  }

  ghost predicate RateLimited(respond: nat -> HttpReply, b: nat) {
    respond(b).Response? && respond(b).status == 429
  }

  ghost predicate Answers(respond: nat -> HttpReply, a: nat) {
    a < 3 && respond(a).Response? && respond(a).status == 200 && respond(a).content.Some?
  }

  /** Attempt `a` answers after every attempt from `from` on before it was
      rate limited. */
  ghost predicate AnswersAfterLimits(respond: nat -> HttpReply, from: nat, a: nat) {
    from <= a && Answers(respond, a) && forall b: nat :: from <= b < a ==> RateLimited(respond, b)
  }

  /** From attempt `attempt` on: at most `3 - attempt` pauses, the `i`-th of
      them `10 * (attempt + i + 1)` seconds; text comes back exactly when a
      later attempt answers after rate limits only, and it is that
      attempt's content. */
  lemma {:induction false} OpenRouterFromMeaning(respond: nat -> HttpReply, attempt: nat)
    requires attempt <= 3
    ensures var res := OpenRouterFrom(respond, attempt);
      && |res.waits| <= 3 - attempt
      && (forall i :: 0 <= i < |res.waits| ==> res.waits[i] == 10 * (attempt + i + 1))
      && (res.result.Ok? <==> exists a: nat :: AnswersAfterLimits(respond, attempt, a))
      && forall a: nat :: AnswersAfterLimits(respond, attempt, a) ==> res.result == Ok(respond(a).content.value)
    decreases 3 - attempt
  {
    var res := OpenRouterFrom(respond, attempt);
    forall a: nat | AnswersAfterLimits(respond, attempt, a) && a > attempt
      ensures RateLimited(respond, attempt)
    {
    }
    if attempt < 3 && RateLimited(respond, attempt) {
      OpenRouterFromMeaning(respond, attempt + 1);
      var rest := OpenRouterFrom(respond, attempt + 1);
      assert res.waits == [10 * (attempt + 1)] + rest.waits;
      forall a: nat
        ensures AnswersAfterLimits(respond, attempt, a) <==> AnswersAfterLimits(respond, attempt + 1, a)
      {
        if AnswersAfterLimits(respond, attempt + 1, a) {
          forall b: nat | attempt <= b < a
            ensures RateLimited(respond, b)
          {
          }
        }
      }
      assert res.result == rest.result;
      if rest.result.Ok? {
        var a: nat :| AnswersAfterLimits(respond, attempt + 1, a);
        assert AnswersAfterLimits(respond, attempt, a);
      }
      if exists a: nat :: AnswersAfterLimits(respond, attempt, a) {
        var a: nat :| AnswersAfterLimits(respond, attempt, a);
        assert AnswersAfterLimits(respond, attempt + 1, a);
      }
    } else if attempt < 3 && Answers(respond, attempt) {
      assert AnswersAfterLimits(respond, attempt, attempt);
    }
  }

  /** Three rate limits in a row end in failure after pauses of 10, 20 and
      30 seconds. */
  lemma RateLimitedThrice(respond: nat -> HttpReply)
    requires RateLimited(respond, 0) && RateLimited(respond, 1) && RateLimited(respond, 2)
    ensures OpenRouterFrom(respond, 0) == Retry(Fail, [10, 20, 30])
  {
    assert OpenRouterFrom(respond, 2) == Retry(Fail, [30]);
    assert OpenRouterFrom(respond, 1) == Retry(Fail, [20, 30]);
  }

  /** OpenRouter inside `generate_ai_feedback`: when its key is set and its
      result is the retry loop's, an attempt that answers after rate limits
      only, with text that parses to suggestions, decides the feedback and
      no other engine is called; when no attempt answers, the engines after
      it decide as if it were absent. */
  lemma OpenRouterInFeedback(issues: seq<Issue>, openRouterEnv: string, geminiEnv: string,
                             call: Engine -> EngineResult, respond: nat -> HttpReply)
    requires issues != [] && Strip(openRouterEnv) != []
    requires call(OpenRouter) == OpenRouterFrom(respond, 0).result
    ensures var engines := Engines(Strip(openRouterEnv), Strip(geminiEnv));
      var outs, later := Outcomes(engines, Ask(call)), Outcomes(engines[1..], Ask(call));
      && engines[0] == OpenRouter
      && (forall a: nat :: AnswersAfterLimits(respond, 0, a) && Parse(respond(a).content.value) != [] ==>
            Resolve(issues, outs) == Parse(respond(a).content.value) && Calls(outs) == 1)
      && ((forall a: nat :: !AnswersAfterLimits(respond, 0, a)) ==>
            Resolve(issues, outs) == ResolveFrom(RuleFeedback(issues), later) && Calls(outs) == 1 + Calls(later))
  {
    var engines := Engines(Strip(openRouterEnv), Strip(geminiEnv));
    assert engines[0] == OpenRouter;
    OpenRouterFromMeaning(respond, 0);
    ResolveStep(RuleFeedback(issues), engines, Ask(call), 0);
    assert engines[0..] == engines;
  }
}
