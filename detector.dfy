/** `detect_issues` (code_analyzer.py:101-196): one pass over the walk that
    tracks the current function, the assigned names (an insertion-ordered
    dict), the names read and the parameter names, then a pass that reports
    unused variables and a deduplication on (type, detail, context).

    The specification functions below are each the state of one local
    variable of the source after a prefix of the walk; `DetectIssues` is
    proved to compute `Detect`, and the lemmas say what `Detect` returns. */
module Detector {
  import opened Wrappers
  import opened Sequences
  import opened Ast
  import opened Issues

  /** The input of `detect_issues`: the walked tree, or the message of the
      `SyntaxError` that `ast.parse` raised. */
  datatype Source = Parsed(nodes: seq<Node>) | Unparsable(message: string)

  // ---------------------------------------------------------------------
  // The walk, one local variable at a time

  /** `nodes[k]` is a function definition and none comes after it. */
  ghost predicate LastFunctionAt(nodes: seq<Node>, k: int) {
    && 0 <= k < |nodes|
    && nodes[k].FunctionDef?
    && forall j :: k < j < |nodes| ==> !nodes[j].FunctionDef?
  }

  /** `current_function` after visiting `nodes`: the name of the last
      function definition walked so far (the cursor is never restored when
      the walk leaves a function), or `None` before the first. */
  function CurrentFunction(nodes: seq<Node>): (c: Context)
    ensures c.None? <==> forall k :: 0 <= k < |nodes| ==> !nodes[k].FunctionDef?
    ensures c.Some? ==> exists k :: LastFunctionAt(nodes, k) && nodes[k].name == c.value
  {
    if nodes == [] then None
    else
      var n := |nodes| - 1;
      if nodes[n].FunctionDef? then
        assert LastFunctionAt(nodes, n);
        Some(nodes[n].name)
      else
        var c := CurrentFunction(nodes[..n]);
        assert forall k :: 0 <= k < n ==> nodes[..n][k] == nodes[k];
        assert c.Some? ==> exists k :: LastFunctionAt(nodes[..n], k) && nodes[k].name == c.value;
        assert forall k :: LastFunctionAt(nodes[..n], k) ==> LastFunctionAt(nodes, k);
        c
  }

  /** One INFO issue of type `kind` for every name shorter than 3 characters,
      in order, with context `ctx` (parameters at lines 127-135, assignment
      targets at lines 138-147). */
  function ShortNameIssues(names: seq<string>, kind: IssueType, ctx: Context): seq<Issue> {
    if names == [] then []
    else
      var n := |names| - 1;
      ShortNameIssues(names[..n], kind, ctx)
        + (if |names[n]| < 3 then [Issue(kind, Str(names[n]), ctx, Info)] else [])
  }

  /** What a function definition reports (lines 115-135); its context is the
      function itself. */
  function FunctionDefIssues(name: string, hasDocstring: bool, params: seq<string>): seq<Issue> {
    var ctx := Some(name);
    (if |name| < 4 then [Issue(PoorFunctionName, Str(name), ctx, Info)] else [])
      + (if !hasDocstring then [Issue(MissingDocstring, Str(name), ctx, Info)] else [])
      + (if |params| > 4 then [Issue(TooManyParameters, Str(name), ctx, Warning)] else [])
      + ShortNameIssues(params, PoorParameterName, ctx)
  }

  /** What visiting `node` appends to `raw_issues` when `before` is the
      current function (lines 115-177). */
  function NodeIssues(before: Context, node: Node): seq<Issue> {
    match node
    case FunctionDef(name, doc, params) => FunctionDefIssues(name, doc, params)
    case Assign(targets) => ShortNameIssues(targets, PoorVariableName, before)
    case NumConst(v) => if v != 0 && v != 1 then [Issue(MagicNumber, Num(v), before, Warning)] else []
    case ExceptHandler(empty) => if empty then [Issue(EmptyExcept, Str(""), before, Critical)] else []
    case PrintCall => [Issue(DebugPrint, Str(""), before, Info)]
    case _ => []
  }

  /** `raw_issues` after visiting `nodes`. */
  function WalkIssues(nodes: seq<Node>): seq<Issue> {
    if nodes == [] then []
    else
      var n := |nodes| - 1;
      WalkIssues(nodes[..n]) + NodeIssues(CurrentFunction(nodes[..n]), nodes[n])
  }

  /** `m` after `m[name] = ctx` for every name of `names`, in order. */
  function Bind(m: map<string, Context>, names: seq<string>, ctx: Context): map<string, Context> {
    if names == [] then m
    else
      var n := |names| - 1;
      Bind(m, names[..n], ctx)[names[n] := ctx]
  }

  /** The keys of `Bind(m, names, ctx)` are those of `m` and `names`; the
      names are bound to `ctx`, the other keys keep their value. */
  lemma {:induction false} BindAt(m: map<string, Context>, names: seq<string>, ctx: Context, v: string)
    ensures v in Bind(m, names, ctx) <==> v in m || v in names
    ensures v in Bind(m, names, ctx) ==> Bind(m, names, ctx)[v] == if v in names then ctx else m[v]
  {
    if names != [] {
      var n := |names| - 1;
      BindAt(m, names[..n], ctx, v);
      assert names == names[..n] + [names[n]];
    }
  }

  /** The key order of a Python dict after inserting `names` into a dict
      whose keys were `order`: a name already present keeps its place. */
  function AppendNew(order: seq<string>, names: seq<string>): seq<string> {
    if names == [] then order
    else
      var n := |names| - 1;
      var o := AppendNew(order, names[..n]);
      if names[n] in o then o else o + [names[n]]
  }

  /** The dict `assigned` after visiting `nodes`: name to the function
      current at its assignment (line 140). */
  function Assigned(nodes: seq<Node>): map<string, Context> {
    if nodes == [] then map[]
    else
      var n := |nodes| - 1;
      var m := Assigned(nodes[..n]);
      if nodes[n].Assign? then Bind(m, nodes[n].targets, CurrentFunction(nodes[..n])) else m
  }

  /** The key order of `assigned` after visiting `nodes`. */
  function AssignOrder(nodes: seq<Node>): seq<string> {
    if nodes == [] then []
    else
      var n := |nodes| - 1;
      var o := AssignOrder(nodes[..n]);
      if nodes[n].Assign? then AppendNew(o, nodes[n].targets) else o
  }

  /** The set `used` after visiting `nodes` (lines 149-150). */
  function Used(nodes: seq<Node>): set<string> {
    if nodes == [] then {}
    else
      var n := |nodes| - 1;
      Used(nodes[..n]) + (if nodes[n].NameLoad? then {nodes[n].id} else {})
  }

  /** The dict `parameters` after visiting `nodes` (line 128). */
  function Parameters(nodes: seq<Node>): map<string, Context> {
    if nodes == [] then map[]
    else
      var n := |nodes| - 1;
      var m := Parameters(nodes[..n]);
      if nodes[n].FunctionDef? then Bind(m, nodes[n].params, Some(nodes[n].name)) else m
  }

  /** The post-pass (lines 179-186): one WARNING per assigned name, in key
      order, that is neither read nor a parameter. */
  function UnusedIssues(order: seq<string>, assignments: map<string, Context>, used: set<string>,
                        parameters: map<string, Context>): seq<Issue>
    requires forall v :: v in order ==> v in assignments
  {
    if order == [] then []
    else
      var n := |order| - 1;
      var v := order[n];
      UnusedIssues(order[..n], assignments, used, parameters)
        + (if v !in used && v !in parameters then [Issue(UnusedVariable, Str(v), assignments[v], Warning)] else [])
  }

  /** `raw_issues` when the dedup loop starts. */
  function RawIssues(nodes: seq<Node>): seq<Issue> {
    WalkIssues(nodes) + UnusedReports(nodes)
  }

  /** What the post-pass appends after visiting `nodes`. */
  function UnusedReports(nodes: seq<Node>): seq<Issue> {
    AssignOrderKeys(nodes);
    UnusedIssues(AssignOrder(nodes), Assigned(nodes), Used(nodes), Parameters(nodes))
  }

  /** The result of `detect_issues`. */
  function Detect(src: Source): seq<Issue> {
    match src
    case Unparsable(msg) => [Issue(SyntaxError, Str(msg), None, Critical)]
    case Parsed(nodes) => FirstBy(RawIssues(nodes), KeyOf)
  }

  // ---------------------------------------------------------------------
  // The source's loops

  /** `detect_issues`: the walk, the unused-variable pass and the dedup. */
  method DetectIssues(src: Source) returns (issues: seq<Issue>)
    ensures issues == Detect(src)
    ensures forall i, j :: 0 <= i < j < |issues| ==> KeyOf(issues[i]) != KeyOf(issues[j])
  {
    match src
    case Unparsable(msg) =>
      issues := [Issue(SyntaxError, Str(msg), None, Critical)];
    case Parsed(nodes) =>
      var raw, order, assignments, used, parameters := Walk(nodes);
      AssignOrderKeys(nodes);
      raw := ReportUnused(raw, order, assignments, used, parameters);
      issues := Dedup(raw);
  }

  /** The `for node in ast.walk(tree)` loop (lines 114-177). */
  method Walk(nodes: seq<Node>)
    returns (raw: seq<Issue>, order: seq<string>, assignments: map<string, Context>,
             used: set<string>, parameters: map<string, Context>)
    ensures raw == WalkIssues(nodes) && order == AssignOrder(nodes) && assignments == Assigned(nodes)
    ensures used == Used(nodes) && parameters == Parameters(nodes)
  {
    raw, order, assignments, used, parameters := [], [], map[], {}, map[];
    var current: Context := None;
    var i := 0;
    while i < |nodes|
      invariant 0 <= i <= |nodes|
      invariant current == CurrentFunction(nodes[..i])
      invariant raw == WalkIssues(nodes[..i])
      invariant order == AssignOrder(nodes[..i]) && assignments == Assigned(nodes[..i])
      invariant used == Used(nodes[..i]) && parameters == Parameters(nodes[..i])
    {
      WalkStep(nodes, i);
      current, raw, order, assignments, used, parameters :=
        Visit(nodes[i], current, raw, order, assignments, used, parameters);
      i := i + 1;
    }
    assert nodes[..i] == nodes;
  }

  /** The body of the walk loop for one node (lines 115-177). */
  method Visit(node: Node, current0: Context, raw0: seq<Issue>, order0: seq<string>,
               assignments0: map<string, Context>, used0: set<string>, parameters0: map<string, Context>)
    returns (current: Context, raw: seq<Issue>, order: seq<string>, assignments: map<string, Context>,
             used: set<string>, parameters: map<string, Context>)
    ensures current == if node.FunctionDef? then Some(node.name) else current0
    ensures raw == raw0 + NodeIssues(current0, node)
    ensures order == if node.Assign? then AppendNew(order0, node.targets) else order0
    ensures assignments == if node.Assign? then Bind(assignments0, node.targets, current0) else assignments0
    ensures used == used0 + (if node.NameLoad? then {node.id} else {})
    ensures parameters == if node.FunctionDef? then Bind(parameters0, node.params, Some(node.name)) else parameters0
  {
    current, raw, order, assignments, used, parameters := current0, raw0, order0, assignments0, used0, parameters0;
    match node {
      case FunctionDef(name, hasDocstring, params) =>
        current := Some(name);
        parameters, raw := VisitFunctionDef(name, hasDocstring, params, parameters, raw);
      case Assign(targets) =>
        order, assignments, raw := RecordTargets(targets, current, order, assignments, raw);
      case NameLoad(id) =>
        used := used + {id};
      case NumConst(value) =>
        if value != 0 && value != 1 {
          raw := raw + [Issue(MagicNumber, Num(value), current, Warning)];
        }
      case ExceptHandler(bodyEmpty) =>
        if bodyEmpty {
          raw := raw + [Issue(EmptyExcept, Str(""), current, Critical)];
        }
      case PrintCall =>
        raw := raw + [Issue(DebugPrint, Str(""), current, Info)];
      case _ =>
    }
  }

  /** A function definition (lines 115-135): its own three checks, then its
      parameters. */
  method VisitFunctionDef(name: string, hasDocstring: bool, params: seq<string>,
                          parameters0: map<string, Context>, raw0: seq<Issue>)
    returns (parameters: map<string, Context>, raw: seq<Issue>)
    ensures parameters == Bind(parameters0, params, Some(name))
    ensures raw == raw0 + FunctionDefIssues(name, hasDocstring, params)
  {
    var current := Some(name);
    var found := (if |name| < 4 then [Issue(PoorFunctionName, Str(name), current, Info)] else [])
      + (if !hasDocstring then [Issue(MissingDocstring, Str(name), current, Info)] else [])
      + (if |params| > 4 then [Issue(TooManyParameters, Str(name), current, Warning)] else []);
    raw := raw0 + found;
    parameters, raw := RecordParameters(params, current, parameters0, raw);
    assert raw0 + found + ShortNameIssues(params, PoorParameterName, current)
        == raw0 + (found + ShortNameIssues(params, PoorParameterName, current));
  }

  /** How each piece of the walk's state changes when `nodes[i]` is visited. */
  lemma WalkStep(nodes: seq<Node>, i: int)
    requires 0 <= i < |nodes|
    ensures var p, q, node := nodes[..i], nodes[..i + 1], nodes[i];
      && CurrentFunction(q) == (if node.FunctionDef? then Some(node.name) else CurrentFunction(p))
      && WalkIssues(q) == WalkIssues(p) + NodeIssues(CurrentFunction(p), node)
      && AssignOrder(q) == (if node.Assign? then AppendNew(AssignOrder(p), node.targets) else AssignOrder(p))
      && Assigned(q) == (if node.Assign? then Bind(Assigned(p), node.targets, CurrentFunction(p)) else Assigned(p))
      && Used(q) == Used(p) + (if node.NameLoad? then {node.id} else {})
      && Parameters(q) == (if node.FunctionDef? then Bind(Parameters(p), node.params, Some(node.name)) else Parameters(p))
  {
    assert nodes[..i + 1][..i] == nodes[..i];
  }

  /** The `for arg in node.args.args` loop (lines 127-135). */
  method RecordParameters(params: seq<string>, current: Context, parameters0: map<string, Context>,
                          raw0: seq<Issue>) returns (parameters: map<string, Context>, raw: seq<Issue>)
    ensures parameters == Bind(parameters0, params, current)
    ensures raw == raw0 + ShortNameIssues(params, PoorParameterName, current)
  {
    parameters, raw := parameters0, raw0;
    var j := 0;
    while j < |params|
      invariant 0 <= j <= |params|
      invariant parameters == Bind(parameters0, params[..j], current)
      invariant raw == raw0 + ShortNameIssues(params[..j], PoorParameterName, current)
    {
      var arg := params[j];
      assert params[..j + 1][..j] == params[..j];
      parameters := parameters[arg := current];
      if |arg| < 3 {
        raw := raw + [Issue(PoorParameterName, Str(arg), current, Info)];
      }
      j := j + 1;
    }
    assert params[..j] == params;
  }

  /** The `for target in node.targets` loop (lines 138-147); a new key goes
      to the end of the dict's order, an existing one keeps its place. */
  method RecordTargets(targets: seq<string>, current: Context, order0: seq<string>,
                       assignments0: map<string, Context>, raw0: seq<Issue>)
    returns (order: seq<string>, assignments: map<string, Context>, raw: seq<Issue>)
    ensures order == AppendNew(order0, targets)
    ensures assignments == Bind(assignments0, targets, current)
    ensures raw == raw0 + ShortNameIssues(targets, PoorVariableName, current)
  {
    order, assignments, raw := order0, assignments0, raw0;
    var j := 0;
    while j < |targets|
      invariant 0 <= j <= |targets|
      invariant assignments == Bind(assignments0, targets[..j], current)
      invariant order == AppendNew(order0, targets[..j])
      invariant raw == raw0 + ShortNameIssues(targets[..j], PoorVariableName, current)
    {
      var target := targets[j];
      assert targets[..j + 1][..j] == targets[..j];
      if target !in order {
        order := order + [target];
      }
      assignments := assignments[target := current];
      if |target| < 3 {
        raw := raw + [Issue(PoorVariableName, Str(target), current, Info)];
      }
      j := j + 1;
    }
    assert targets[..j] == targets;
  }

  /** The `for var, func in assigned.items()` loop (lines 179-186). */
  method ReportUnused(raw: seq<Issue>, order: seq<string>, assignments: map<string, Context>,
                      used: set<string>, parameters: map<string, Context>) returns (out: seq<Issue>)
    requires forall v :: v in order ==> v in assignments
    ensures out == raw + UnusedIssues(order, assignments, used, parameters)
  {
    out := raw;
    var j := 0;
    while j < |order|
      invariant 0 <= j <= |order|
      invariant out == raw + UnusedIssues(order[..j], assignments, used, parameters)
    {
      var v := order[j];
      assert order[..j + 1][..j] == order[..j];
      if v !in used && v !in parameters {
        out := out + [Issue(UnusedVariable, Str(v), assignments[v], Warning)];
      }
      j := j + 1;
    }
    assert order[..j] == order;
  }

  /** The dedup loop with its `seen` set (lines 188-194). */
  method Dedup(raw: seq<Issue>) returns (issues: seq<Issue>)
    ensures issues == FirstBy(raw, KeyOf)
  {
    var seen: set<Key> := {};
    issues := [];
    var i := 0;
    while i < |raw|
      invariant 0 <= i <= |raw|
      invariant seen == set j | 0 <= j < i :: KeyOf(raw[j])
      invariant issues == FirstBy(raw[..i], KeyOf)
    {
      var key := KeyOf(raw[i]);
      assert raw[..i + 1][..i] == raw[..i];
      assert key !in seen <==> IsFirst(raw[..i + 1], i, KeyOf);
      if key !in seen {
        issues := issues + [raw[i]];
        seen := seen + {key};
      }
      i := i + 1;
    }
    assert raw[..i] == raw;
  }

  // ---------------------------------------------------------------------
  // What the walk's state means

  /** The key order of `assignments` lists exactly the assignments names. */
  lemma {:induction false} AssignOrderKeys(nodes: seq<Node>)
    ensures forall v :: v in AssignOrder(nodes) <==> v in Assigned(nodes)
  {
    if nodes != [] {
      var n := |nodes| - 1;
      AssignOrderKeys(nodes[..n]);
      if nodes[n].Assign? {
        AppendNewElements(AssignOrder(nodes[..n]), nodes[n].targets);
        forall v {
          BindAt(Assigned(nodes[..n]), nodes[n].targets, CurrentFunction(nodes[..n]), v);
        }
      }
    }
  }

  lemma {:induction false} AppendNewElements(order: seq<string>, names: seq<string>)
    ensures forall v :: v in AppendNew(order, names) <==> v in order || v in names
  {
    if names != [] {
      var n := |names| - 1;
      AppendNewElements(order, names[..n]);
      assert names == names[..n] + [names[n]];
    }
  }

  /** Inserting names one by one into a dict keeps its key order as the
      list of first insertions. */
  lemma {:induction false} AppendNewIsFirstBy(a: seq<string>, names: seq<string>)
    ensures AppendNew(FirstBy(a, Self), names) == FirstBy(a + names, Self)
  {
    if names == [] {
      assert a + names == a;
    } else {
      var n := |names| - 1;
      var s := a + names;
      var m := |s| - 1;
      AppendNewIsFirstBy(a, names[..n]);
      assert s[..m] == a + names[..n];
      var x := names[n];
      assert s[m] == x;
      FirstBySameElements(s[..m], Self, x);
      assert IsFirst(s, m, Self) <==> x !in s[..m];
    }
  }

  function Self(s: string): string {
    s
  }

  /** Every assignment target in walk order, repeats included. */
  function AllTargets(nodes: seq<Node>): seq<string> {
    if nodes == [] then []
    else
      var n := |nodes| - 1;
      AllTargets(nodes[..n]) + (if nodes[n].Assign? then nodes[n].targets else [])
  }

  /** The unused-variable pass visits the names in the order of their first
      assignment in the walk. */
  lemma {:induction false} AssignOrderIsFirstAssignment(nodes: seq<Node>)
    ensures AssignOrder(nodes) == FirstBy(AllTargets(nodes), Self)
  {
    if nodes != [] {
      var n := |nodes| - 1;
      AssignOrderIsFirstAssignment(nodes[..n]);
      if nodes[n].Assign? {
        AppendNewIsFirstBy(AllTargets(nodes[..n]), nodes[n].targets);
      } else {
        assert AllTargets(nodes) == AllTargets(nodes[..n]);
      }
    }
  }

  // ---------------------------------------------------------------------
  // What the detector reports

  /** The rule table of lines 115-177: visiting `node` while `before` is the
      current function reports `x`. */
  ghost predicate Emits(before: Context, node: Node, x: Issue) {
    match node
    case FunctionDef(name, doc, params) =>
      || (|name| < 4 && x == Issue(PoorFunctionName, Str(name), Some(name), Info))
      || (!doc && x == Issue(MissingDocstring, Str(name), Some(name), Info))
      || (|params| > 4 && x == Issue(TooManyParameters, Str(name), Some(name), Warning))
      || (exists p :: p in params && |p| < 3 && x == Issue(PoorParameterName, Str(p), Some(name), Info))
    case Assign(targets) =>
      exists t :: t in targets && |t| < 3 && x == Issue(PoorVariableName, Str(t), before, Info)
    case NumConst(v) => v != 0 && v != 1 && x == Issue(MagicNumber, Num(v), before, Warning)
    case ExceptHandler(empty) => empty && x == Issue(EmptyExcept, Str(""), before, Critical)
    case PrintCall => x == Issue(DebugPrint, Str(""), before, Info)
    case _ => false
  }

  /** The `k`-th node of the walk reports `x`. */
  ghost predicate EmittedAt(nodes: seq<Node>, k: int, x: Issue) {
    0 <= k < |nodes| && Emits(CurrentFunction(nodes[..k]), nodes[k], x)
  }

  ghost predicate AssignedIn(nodes: seq<Node>, v: string) {
    exists k :: 0 <= k < |nodes| && nodes[k].Assign? && v in nodes[k].targets
  }

  ghost predicate LoadedIn(nodes: seq<Node>, v: string) {
    exists k :: 0 <= k < |nodes| && nodes[k] == NameLoad(v)
  }

  ghost predicate ParameterIn(nodes: seq<Node>, v: string) {
    exists k :: 0 <= k < |nodes| && nodes[k].FunctionDef? && v in nodes[k].params
  }

  /** `nodes[k]` is the last assignment to `v`. */
  ghost predicate LastAssignAt(nodes: seq<Node>, v: string, k: int) {
    && 0 <= k < |nodes| && nodes[k].Assign? && v in nodes[k].targets
    && forall j :: k < j < |nodes| ==> !(nodes[j].Assign? && v in nodes[j].targets)
  }

  /** The function current at the last assignment to `v`. */
  function LastAssignContext(nodes: seq<Node>, v: string): Context {
    if nodes == [] then None
    else
      var n := |nodes| - 1;
      if nodes[n].Assign? && v in nodes[n].targets then CurrentFunction(nodes[..n])
      else LastAssignContext(nodes[..n], v)
  }

  /** `LastAssignContext` is the current function at the last assignment. */
  lemma {:induction false} LastAssignContextMeaning(nodes: seq<Node>, v: string)
    requires AssignedIn(nodes, v)
    ensures exists k :: LastAssignAt(nodes, v, k) && LastAssignContext(nodes, v) == CurrentFunction(nodes[..k])
  {
    var n := |nodes| - 1;
    if nodes[n].Assign? && v in nodes[n].targets {
      assert LastAssignAt(nodes, v, n);
    } else {
      var init := nodes[..n];
      var k0 :| 0 <= k0 < |nodes| && nodes[k0].Assign? && v in nodes[k0].targets;
      assert init[k0] == nodes[k0];
      LastAssignContextMeaning(init, v);
      var k :| LastAssignAt(init, v, k) && LastAssignContext(init, v) == CurrentFunction(init[..k]);
      LastAssignExtends(nodes, v, k);
    }
  }

  /** The last assignment before a node that does not assign `v` is still
      the last one after it. */
  lemma LastAssignExtends(nodes: seq<Node>, v: string, k: int)
    requires |nodes| > 0 && LastAssignAt(nodes[..|nodes| - 1], v, k)
    requires !(nodes[|nodes| - 1].Assign? && v in nodes[|nodes| - 1].targets)
    ensures LastAssignAt(nodes, v, k) && nodes[..|nodes| - 1][..k] == nodes[..k]
  {
    var init := nodes[..|nodes| - 1];
    assert forall j :: 0 <= j < |init| ==> init[j] == nodes[j];
  }

  /** An unused variable in the source's sense: assigned somewhere, read
      nowhere in the file, and the parameter of no function. */
  ghost predicate Unused(nodes: seq<Node>, v: string) {
    AssignedIn(nodes, v) && !LoadedIn(nodes, v) && !ParameterIn(nodes, v)
  }

  /** `x` is the post-pass report for an unused variable. */
  ghost predicate UnusedReported(nodes: seq<Node>, x: Issue) {
    && x.kind == UnusedVariable && x.detail.Str? && x.level == Warning
    && Unused(nodes, x.detail.text)
    && x.context == LastAssignContext(nodes, x.detail.text)
  }

  lemma {:induction false} ShortNameIssuesMembers(names: seq<string>, kind: IssueType, ctx: Context, x: Issue)
    ensures x in ShortNameIssues(names, kind, ctx)
        <==> exists t :: t in names && |t| < 3 && x == Issue(kind, Str(t), ctx, Info)
  {
    if names != [] {
      var n := |names| - 1;
      ShortNameIssuesMembers(names[..n], kind, ctx, x);
      assert forall t :: t in names <==> t in names[..n] || t == names[n] by {
        assert names == names[..n] + [names[n]];
      }
    }
  }

  lemma NodeIssuesMembers(before: Context, node: Node, x: Issue)
    ensures x in NodeIssues(before, node) <==> Emits(before, node, x)
  {
    match node
    case FunctionDef(name, doc, params) =>
      ShortNameIssuesMembers(params, PoorParameterName, Some(name), x);
    case Assign(targets) =>
      ShortNameIssuesMembers(targets, PoorVariableName, before, x);
    case _ =>
  }

  /** An issue is in `raw_issues` after the walk exactly when some node of
      the walk reports it. */
  lemma {:induction false} WalkIssuesMembers(nodes: seq<Node>, x: Issue)
    ensures x in WalkIssues(nodes) <==> exists k :: EmittedAt(nodes, k, x)
  {
    if nodes != [] {
      var n := |nodes| - 1;
      var init := nodes[..n];
      WalkIssuesMembers(init, x);
      NodeIssuesMembers(CurrentFunction(init), nodes[n], x);
      EmittedSplit(nodes, x);
    }
  }

  /** Some node of a non-empty walk reports `x` exactly when some node
      before the last does or the last one does. */
  lemma EmittedSplit(nodes: seq<Node>, x: Issue)
    requires |nodes| > 0
    ensures var n := |nodes| - 1;
      (exists k :: EmittedAt(nodes, k, x)) <==>
        (exists k :: EmittedAt(nodes[..n], k, x)) || Emits(CurrentFunction(nodes[..n]), nodes[n], x)
  {
    var n := |nodes| - 1;
    var init := nodes[..n];
    forall k | 0 <= k < n
      ensures EmittedAt(init, k, x) <==> EmittedAt(nodes, k, x)
    {
      assert init[..k] == nodes[..k];
    }
    if exists k :: EmittedAt(nodes, k, x) {
      var k :| EmittedAt(nodes, k, x);
      if k < n {
        assert EmittedAt(init, k, x);
      }
    }
    if Emits(CurrentFunction(init), nodes[n], x) {
      assert EmittedAt(nodes, n, x);
    }
  }

  /** `assigned` holds exactly the assigned names, each with the function
      current at its last assignment. */
  lemma {:induction false} AssignedMeaning(nodes: seq<Node>, v: string)
    ensures v in Assigned(nodes) <==> AssignedIn(nodes, v)
    ensures v in Assigned(nodes) ==> Assigned(nodes)[v] == LastAssignContext(nodes, v)
  {
    if nodes != [] {
      var n := |nodes| - 1;
      var init := nodes[..n];
      AssignedMeaning(init, v);
      assert forall k :: 0 <= k < n ==> init[k] == nodes[k];
      if nodes[n].Assign? {
        BindAt(Assigned(init), nodes[n].targets, CurrentFunction(init), v);
      }
      if AssignedIn(nodes, v) && !(nodes[n].Assign? && v in nodes[n].targets) {
        var k :| 0 <= k < |nodes| && nodes[k].Assign? && v in nodes[k].targets;
        assert AssignedIn(init, v);
      }
    }
  }

  /** `used` holds exactly the names read somewhere in the file. */
  lemma {:induction false} UsedMeaning(nodes: seq<Node>, v: string)
    ensures v in Used(nodes) <==> LoadedIn(nodes, v)
  {
    if nodes != [] {
      var n := |nodes| - 1;
      var init := nodes[..n];
      UsedMeaning(init, v);
      assert forall k :: 0 <= k < n ==> init[k] == nodes[k];
      if LoadedIn(nodes, v) && nodes[n] != NameLoad(v) {
        var k :| 0 <= k < |nodes| && nodes[k] == NameLoad(v);
        assert LoadedIn(init, v);
      }
    }
  }

  /** `parameters` holds exactly the names that are a parameter of some function. */
  lemma {:induction false} ParametersMeaning(nodes: seq<Node>, v: string)
    ensures v in Parameters(nodes) <==> ParameterIn(nodes, v)
  {
    if nodes != [] {
      var n := |nodes| - 1;
      var init := nodes[..n];
      ParametersMeaning(init, v);
      assert forall k :: 0 <= k < n ==> init[k] == nodes[k];
      if nodes[n].FunctionDef? {
        BindAt(Parameters(init), nodes[n].params, Some(nodes[n].name), v);
      }
      if ParameterIn(nodes, v) && !(nodes[n].FunctionDef? && v in nodes[n].params) {
        var k :| 0 <= k < |nodes| && nodes[k].FunctionDef? && v in nodes[k].params;
        assert ParameterIn(init, v);
      }
    }
  }

  lemma {:induction false} UnusedIssuesMembers(order: seq<string>, assignments: map<string, Context>,
                                               used: set<string>, parameters: map<string, Context>, x: Issue)
    requires forall v :: v in order ==> v in assignments
    ensures x in UnusedIssues(order, assignments, used, parameters)
        <==> exists v :: v in order && v !in used && v !in parameters
                         && x == Issue(UnusedVariable, Str(v), assignments[v], Warning)
  {
    if order != [] {
      var n := |order| - 1;
      UnusedIssuesMembers(order[..n], assignments, used, parameters, x);
      assert forall v :: v in order <==> v in order[..n] || v == order[n] by {
        assert order == order[..n] + [order[n]];
      }
    }
  }

  /** The raw list: what the walk's nodes report, then the unused variables. */
  lemma RawIssuesMembers(nodes: seq<Node>, x: Issue)
    ensures x in RawIssues(nodes) <==> (exists k :: EmittedAt(nodes, k, x)) || UnusedReported(nodes, x)
  {
    AssignOrderKeys(nodes);
    var order, assignments, used, parameters := AssignOrder(nodes), Assigned(nodes), Used(nodes), Parameters(nodes);
    WalkIssuesMembers(nodes, x);
    UnusedIssuesMembers(order, assignments, used, parameters, x);
    if x in UnusedIssues(order, assignments, used, parameters) {
      var v :| v in order && v !in used && v !in parameters
               && x == Issue(UnusedVariable, Str(v), assignments[v], Warning);
      AssignedMeaning(nodes, v);
      UsedMeaning(nodes, v);
      ParametersMeaning(nodes, v);
    }
    if UnusedReported(nodes, x) {
      var v := x.detail.text;
      AssignedMeaning(nodes, v);
      UsedMeaning(nodes, v);
      ParametersMeaning(nodes, v);
      assert v in order && v !in used && v !in parameters
             && x == Issue(UnusedVariable, Str(v), assignments[v], Warning);
    }
  }

  /** Every raw issue carries the severity of its type. */
  lemma RawIssuesLevels(nodes: seq<Node>)
    ensures forall x :: x in RawIssues(nodes) ==> x.level == LevelOf(x.kind)
  {
    forall x | x in RawIssues(nodes)
      ensures x.level == LevelOf(x.kind)
    {
      RawIssuesMembers(nodes, x);
      if !UnusedReported(nodes, x) {
        var k :| EmittedAt(nodes, k, x);
      }
    }
  }

  /** The issues `detect_issues` returns for a parsed file are exactly what
      the rules of lines 115-177 report at some node, plus one report per
      unused variable with the context of its last assignment. */
  lemma DetectedExactly(nodes: seq<Node>, x: Issue)
    ensures x in Detect(Parsed(nodes)) <==> (exists k :: EmittedAt(nodes, k, x)) || UnusedReported(nodes, x)
  {
    var raw := RawIssues(nodes);
    RawIssuesLevels(nodes);
    forall i, j | 0 <= i < |raw| && 0 <= j < |raw| && KeyOf(raw[i]) == KeyOf(raw[j])
      ensures raw[i] == raw[j]
    {
      assert raw[i] in raw && raw[j] in raw;
    }
    FirstBySameElements(raw, KeyOf, x);
    RawIssuesMembers(nodes, x);
  }

  /** A function definition reports the four rules of lines 115-135. */
  lemma FunctionDefRules(nodes: seq<Node>, k: int)
    requires 0 <= k < |nodes| && nodes[k].FunctionDef?
    ensures var out, name, params := Detect(Parsed(nodes)), nodes[k].name, nodes[k].params;
      && (|name| < 4 ==> Issue(PoorFunctionName, Str(name), Some(name), Info) in out)
      && (!nodes[k].hasDocstring ==> Issue(MissingDocstring, Str(name), Some(name), Info) in out)
      && (|params| > 4 ==> Issue(TooManyParameters, Str(name), Some(name), Warning) in out)
      && forall p :: p in params && |p| < 3 ==> Issue(PoorParameterName, Str(p), Some(name), Info) in out
  {
    var name := nodes[k].name;
    if |name| < 4 {
      EmittedDetected(nodes, k, Issue(PoorFunctionName, Str(name), Some(name), Info));
    }
    if !nodes[k].hasDocstring {
      EmittedDetected(nodes, k, Issue(MissingDocstring, Str(name), Some(name), Info));
    }
    if |nodes[k].params| > 4 {
      EmittedDetected(nodes, k, Issue(TooManyParameters, Str(name), Some(name), Warning));
    }
    forall p | p in nodes[k].params && |p| < 3
      ensures Issue(PoorParameterName, Str(p), Some(name), Info) in Detect(Parsed(nodes))
    {
      EmittedDetected(nodes, k, Issue(PoorParameterName, Str(p), Some(name), Info));
    }
  }

  /** Whatever a node of the walk reports is returned. */
  lemma EmittedDetected(nodes: seq<Node>, k: int, x: Issue)
    requires EmittedAt(nodes, k, x)
    ensures x in Detect(Parsed(nodes))
  {
    DetectedExactly(nodes, x);
  }

  /** An unused-variable issue names `v` exactly when `v` is assigned, never
      read in the file and no function's parameter (lines 179-186). */
  lemma UnusedVariableExactly(nodes: seq<Node>, v: string)
    ensures (exists x :: x in Detect(Parsed(nodes)) && x.kind == UnusedVariable && x.detail == Str(v))
        <==> Unused(nodes, v)
  {
    if exists x :: x in Detect(Parsed(nodes)) && x.kind == UnusedVariable && x.detail == Str(v) {
      var x :| x in Detect(Parsed(nodes)) && x.kind == UnusedVariable && x.detail == Str(v);
      UnusedVariableSound(nodes, x);
    }
    if Unused(nodes, v) {
      var x := Issue(UnusedVariable, Str(v), LastAssignContext(nodes, v), Warning);
      DetectedExactly(nodes, x);
    }
  }

  /** Every unused-variable issue returned comes from the post-pass. */
  lemma UnusedVariableSound(nodes: seq<Node>, x: Issue)
    requires x in Detect(Parsed(nodes)) && x.kind == UnusedVariable
    ensures UnusedReported(nodes, x)
  {
    DetectedExactly(nodes, x);
    forall k | 0 <= k < |nodes|
      ensures !EmittedAt(nodes, k, x)
    {
      EmitsNoUnused(CurrentFunction(nodes[..k]), nodes[k], x);
    }
  }

  /** No rule of the walk reports an unused variable. */
  lemma EmitsNoUnused(before: Context, node: Node, x: Issue)
    ensures Emits(before, node, x) ==> x.kind != UnusedVariable
  {
  }

  /** The unused-variable issues `detect_issues` returns are the post-pass
      list itself, in its order: one per unused name, in the order of the
      names' first assignment. */
  lemma UnusedVariableOrder(nodes: seq<Node>)
    ensures OfKind(Detect(Parsed(nodes)), UnusedVariable) == UnusedReports(nodes)
    ensures AssignOrder(nodes) == FirstBy(AllTargets(nodes), Self)
  {
    AssignOrderIsFirstAssignment(nodes);
    WalkIssuesNotUnused(nodes);
    UnusedReportsDistinct(nodes);
    DedupKeepsFresh(WalkIssues(nodes), UnusedReports(nodes));
  }

  /** No issue of the walk is an unused-variable issue. */
  lemma WalkIssuesNotUnused(nodes: seq<Node>)
    ensures forall x :: x in WalkIssues(nodes) ==> x.kind != UnusedVariable
  {
    forall x | x in WalkIssues(nodes)
      ensures x.kind != UnusedVariable
    {
      WalkIssuesMembers(nodes, x);
      var k :| EmittedAt(nodes, k, x);
      EmitsNoUnused(CurrentFunction(nodes[..k]), nodes[k], x);
    }
  }

  /** The post-pass reports are unused-variable issues with pairwise
      different keys. */
  lemma UnusedReportsDistinct(nodes: seq<Node>)
    ensures forall i :: 0 <= i < |UnusedReports(nodes)| ==> UnusedReports(nodes)[i].kind == UnusedVariable
    ensures KeysDistinct(UnusedReports(nodes))
  {
    AssignOrderKeys(nodes);
    AssignOrderDistinct(nodes);
    var order, assignments, used, parameters := AssignOrder(nodes), Assigned(nodes), Used(nodes), Parameters(nodes);
    var u := UnusedIssues(order, assignments, used, parameters);
    assert UnusedReports(nodes) == u;
    forall i | 0 <= i < |u|
      ensures u[i].kind == UnusedVariable
    {
      assert u[i] in u;
      UnusedIssuesMembers(order, assignments, used, parameters, u[i]);
    }
    UnusedIssuesDistinct(order, assignments, used, parameters);
  }

  /** The key order of `assigned` has no repeats. */
  lemma AssignOrderDistinct(nodes: seq<Node>)
    ensures Distinct(AssignOrder(nodes))
  {
    AssignOrderIsFirstAssignment(nodes);
    var order := AssignOrder(nodes);
    assert forall i, j :: 0 <= i < j < |order| ==> Self(order[i]) != Self(order[j]);
  }

  /** Deduplicating a list without unused-variable issues followed by
      unused-variable issues with different keys leaves exactly the latter
      as its unused-variable issues. */
  lemma DedupKeepsFresh(walk: seq<Issue>, unused: seq<Issue>)
    requires forall x :: x in walk ==> x.kind != UnusedVariable
    requires forall i :: 0 <= i < |unused| ==> unused[i].kind == UnusedVariable
    requires KeysDistinct(unused)
    ensures OfKind(FirstBy(walk + unused, KeyOf), UnusedVariable) == unused
  {
    forall x, y | x in walk && y in unused
      ensures KeyOf(x) != KeyOf(y)
    {
      var i :| 0 <= i < |unused| && unused[i] == y;
    }
    FirstByAppendFresh(walk, unused, KeyOf);
    var kept := FirstBy(walk, KeyOf);
    OfKindAppend(kept, unused, UnusedVariable);
    OfKindNone(kept, UnusedVariable);
    OfKindAll(unused, UnusedVariable);
  }

  /** Over names without repeats, the post-pass reports have pairwise
      different keys. */
  lemma {:induction false} UnusedIssuesDistinct(order: seq<string>, assignments: map<string, Context>,
                                                used: set<string>, parameters: map<string, Context>)
    requires forall v :: v in order ==> v in assignments
    requires Distinct(order)
    ensures KeysDistinct(UnusedIssues(order, assignments, used, parameters))
  {
    if order != [] {
      var n := |order| - 1;
      var init := order[..n];
      UnusedIssuesDistinct(init, assignments, used, parameters);
      var u0 := UnusedIssues(init, assignments, used, parameters);
      forall x | x in u0
        ensures x.detail != Str(order[n])
      {
        UnusedIssuesMembers(init, assignments, used, parameters, x);
        var v :| v in init && v !in used && v !in parameters
                 && x == Issue(UnusedVariable, Str(v), assignments[v], Warning);
        var i :| 0 <= i < n && init[i] == v;
      }
      var u := UnusedIssues(order, assignments, used, parameters);
      var v := order[n];
      var last := if v !in used && v !in parameters then [Issue(UnusedVariable, Str(v), assignments[v], Warning)] else [];
      assert u == u0 + last;
      forall i, j | 0 <= i < j < |u|
        ensures KeyOf(u[i]) != KeyOf(u[j])
      {
        if j < |u0| {
          assert u[i] == u0[i] && u[j] == u0[j];
        } else {
          assert u[i] == u0[i] && u0[i] in u0;
          assert u[j] == last[0];
        }
      }
    }
  }
}
