/** `extract_structure` and `cyclomatic_complexity_ast`: two counting passes
    over the nodes that `ast.walk` yields. */
module Structure {
  import opened Wrappers
  import opened Ast

  /** The dict `extract_structure` returns. An `ImportFrom` without a module
      (`from . import x`) contributes `None`. */
  datatype Summary = Summary(
    imports: seq<Option<string>>,
    functions: seq<string>,
    classes: seq<string>,
    loops: nat,
    conditionals: nat)

  /** How many of `nodes` satisfy `p`. */
  function Count(nodes: seq<Node>, p: Node -> bool): (c: nat)
    ensures c <= |nodes|
  {
    if nodes == [] then 0
    else
      var n := |nodes| - 1;
      Count(nodes[..n], p) + (if p(nodes[n]) then 1 else 0)
  }

  /** What each of `nodes` contributes to a list, concatenated in walk order. */
  function Collect<T>(nodes: seq<Node>, f: Node -> seq<T>): seq<T> {
    if nodes == [] then []
    else
      var n := |nodes| - 1;
      Collect(nodes[..n], f) + f(nodes[n])
  }

  predicate IsLoop(node: Node) {
    node.ForLoop? || node.WhileLoop?
  }

  predicate IsConditional(node: Node) {
    node.IfStmt?
  }

  predicate IsFunction(node: Node) {
    node.FunctionDef?
  }

  predicate IsClass(node: Node) {
    node.ClassDef?
  }

  predicate IsTry(node: Node) {
    node.TryStmt?
  }

  predicate IsBoolOp(node: Node) {
    node.BoolOp?
  }

  /** The node kinds that add one to the AST complexity (line 96). */
  predicate IsBranch(node: Node) {
    node.IfStmt? || node.ForLoop? || node.WhileLoop? || node.TryStmt? || node.BoolOp?
  }

  /** Each name of an `import a, b` as an entry of `imports`. */
  function Somes(names: seq<string>): seq<Option<string>> {
    seq(|names|, i requires 0 <= i < |names| => Some(names[i]))
  }

  /** The entries a node adds to `imports` (lines 71-76). */
  function ImportEntries(node: Node): seq<Option<string>> {
    match node
    case Import(names) => Somes(names)
    case ImportFrom(source) => [source]
    case _ => []
  }

  function FunctionName(node: Node): seq<string> {
    if node.FunctionDef? then [node.name] else []
  }

  function ClassName(node: Node): seq<string> {
    if node.ClassDef? then [node.name] else []
  }

  /** The structure of a walk. */
  function StructureOf(nodes: seq<Node>): Summary {
    Summary(Collect(nodes, ImportEntries), Collect(nodes, FunctionName), Collect(nodes, ClassName),
            Count(nodes, IsLoop), Count(nodes, IsConditional))
  }

  /** The AST complexity of a walk: one, plus one per branching node. */
  function ComplexityOf(nodes: seq<Node>): nat {
    1 + Count(nodes, IsBranch)
  }

  /** `extract_structure` (lines 61-90). */
  method ExtractStructure(nodes: seq<Node>) returns (s: Summary)
    ensures s == StructureOf(nodes)
  {
    s := Summary([], [], [], 0, 0);
    var i := 0;
    while i < |nodes|
      invariant 0 <= i <= |nodes|
      invariant s == StructureOf(nodes[..i])
    {
      s := Tally(s, nodes[i]);
      StructureStep(nodes, i);
      i := i + 1;
    }
    assert nodes[..i] == nodes;
  }

  /** One pass of the loop of lines 70-88: what `node` adds to the tallies. */
  method Tally(s0: Summary, node: Node) returns (s: Summary)
    ensures s == Summary(s0.imports + ImportEntries(node), s0.functions + FunctionName(node),
                         s0.classes + ClassName(node),
                         s0.loops + (if IsLoop(node) then 1 else 0),
                         s0.conditionals + (if IsConditional(node) then 1 else 0))
  {
    s := s0;
    match node {
      case Import(names) =>
        var imports := AddImports(s.imports, names);
        s := s.(imports := imports);
      case ImportFrom(source) =>
        s := s.(imports := s.imports + [source]);
      case FunctionDef(name, _, _) =>
        s := s.(functions := s.functions + [name]);
      case ClassDef(name) =>
        s := s.(classes := s.classes + [name]);
      case ForLoop =>
        s := s.(loops := s.loops + 1);
      case WhileLoop =>
        s := s.(loops := s.loops + 1);
      case IfStmt =>
        s := s.(conditionals := s.conditionals + 1);
      case _ =>
    }
  }

  /** The inner loop of lines 72-73: one entry per imported name. */
  method AddImports(imports0: seq<Option<string>>, names: seq<string>) returns (imports: seq<Option<string>>)
    ensures imports == imports0 + Somes(names)
  {
    imports := imports0;
    var j := 0;
    while j < |names|
      invariant 0 <= j <= |names|
      invariant imports == imports0 + Somes(names[..j])
    {
      assert Somes(names[..j + 1]) == Somes(names[..j]) + [Some(names[j])];
      imports := imports + [Some(names[j])];
      j := j + 1;
    }
    assert names[..j] == names;
  }

  /** The structure of one more node. */
  lemma StructureStep(nodes: seq<Node>, i: int)
    requires 0 <= i < |nodes|
    ensures var s0, node := StructureOf(nodes[..i]), nodes[i];
      StructureOf(nodes[..i + 1]) == Summary(s0.imports + ImportEntries(node), s0.functions + FunctionName(node),
                                            s0.classes + ClassName(node),
                                            s0.loops + (if IsLoop(node) then 1 else 0),
                                            s0.conditionals + (if IsConditional(node) then 1 else 0))
  {
    assert nodes[..i + 1][..i] == nodes[..i];
  }

  /** `cyclomatic_complexity_ast` (lines 93-98). */
  method CyclomaticComplexity(nodes: seq<Node>) returns (complexity: int)
    ensures complexity == ComplexityOf(nodes)
  {
    complexity := 1;
    var i := 0;
    while i < |nodes|
      invariant 0 <= i <= |nodes|
      invariant complexity == 1 + Count(nodes[..i], IsBranch)
    {
      assert nodes[..i + 1][..i] == nodes[..i];
      if IsBranch(nodes[i]) {
        complexity := complexity + 1;
      }
      i := i + 1;
    }
    assert nodes[..i] == nodes;
  }

  // ---------------------------------------------------------------------
  // Properties

  /** Counting over a concatenated walk adds up. */
  lemma {:induction false} CountAppend(a: seq<Node>, b: seq<Node>, p: Node -> bool)
    ensures Count(a + b, p) == Count(a, p) + Count(b, p)
  {
    if b != [] {
      var n := |b| - 1;
      CountAppend(a, b[..n], p);
      assert (a + b)[..|a + b| - 1] == a + b[..n];
    } else {
      assert a + b == a;
    }
  }

  /** Collecting over a concatenated walk concatenates. */
  lemma {:induction false} CollectAppend<T>(a: seq<Node>, b: seq<Node>, f: Node -> seq<T>)
    ensures Collect(a + b, f) == Collect(a, f) + Collect(b, f)
  {
    if b != [] {
      var n := |b| - 1;
      CollectAppend(a, b[..n], f);
      assert (a + b)[..|a + b| - 1] == a + b[..n];
    } else {
      assert a + b == a;
    }
  }

  /** The structure of two walks one after the other is the sum of their structures. */
  lemma StructureOfAppend(a: seq<Node>, b: seq<Node>)
    ensures var s, sa, sb := StructureOf(a + b), StructureOf(a), StructureOf(b);
      && s.imports == sa.imports + sb.imports
      && s.functions == sa.functions + sb.functions
      && s.classes == sa.classes + sb.classes
      && s.loops == sa.loops + sb.loops
      && s.conditionals == sa.conditionals + sb.conditionals
  {
    CollectAppend(a, b, ImportEntries);
    CollectAppend(a, b, FunctionName);
    CollectAppend(a, b, ClassName);
    CountAppend(a, b, IsLoop);
    CountAppend(a, b, IsConditional);
  }

  /** An element is collected exactly when some node contributes it. */
  lemma {:induction false} CollectMembers<T>(nodes: seq<Node>, f: Node -> seq<T>, x: T)
    ensures x in Collect(nodes, f) <==> exists k :: 0 <= k < |nodes| && x in f(nodes[k])
  {
    if nodes != [] {
      var n := |nodes| - 1;
      CollectMembers(nodes[..n], f, x);
      assert forall k :: 0 <= k < n ==> nodes[..n][k] == nodes[k];
    }
  }

  /** When every node contributes one element if it satisfies `p` and none
      otherwise, the list is as long as the count of `p`. */
  lemma {:induction false} CollectCounts<T>(nodes: seq<Node>, f: Node -> seq<T>, p: Node -> bool)
    requires forall node :: |f(node)| == (if p(node) then 1 else 0)
    ensures |Collect(nodes, f)| == Count(nodes, p)
  {
    if nodes != [] {
      CollectCounts(nodes[..|nodes| - 1], f, p);
    }
  }

  /** `functions` lists one name per function definition, and a name is listed
      exactly when some definition has it; likewise for `classes`. */
  lemma DefinitionsListed(nodes: seq<Node>, name: string)
    ensures |StructureOf(nodes).functions| == Count(nodes, IsFunction)
    ensures |StructureOf(nodes).classes| == Count(nodes, IsClass)
    ensures name in StructureOf(nodes).functions
        <==> exists k :: 0 <= k < |nodes| && nodes[k].FunctionDef? && nodes[k].name == name
    ensures name in StructureOf(nodes).classes
        <==> exists k :: 0 <= k < |nodes| && nodes[k].ClassDef? && nodes[k].name == name
  {
    CollectCounts(nodes, FunctionName, IsFunction);
    CollectCounts(nodes, ClassName, IsClass);
    CollectMembers(nodes, FunctionName, name);
    CollectMembers(nodes, ClassName, name);
  }

  /** A module name is imported exactly when some `import` lists it or some
      `from ... import` names it as its source. */
  lemma ImportsListed(nodes: seq<Node>, m: string)
    ensures Some(m) in StructureOf(nodes).imports
        <==> exists k :: 0 <= k < |nodes|
               && ((nodes[k].Import? && m in nodes[k].names) || nodes[k] == ImportFrom(Some(m)))
  {
    CollectMembers(nodes, ImportEntries, Some(m));
    forall k | 0 <= k < |nodes|
      ensures Some(m) in ImportEntries(nodes[k])
          <==> (nodes[k].Import? && m in nodes[k].names) || nodes[k] == ImportFrom(Some(m))
    {
      if nodes[k].Import? && m in nodes[k].names {
        var i :| 0 <= i < |nodes[k].names| && nodes[k].names[i] == m;
        assert Somes(nodes[k].names)[i] == Some(m);
      }
    }
  }

  /** Each branching node is exactly one of a loop, a conditional, a `try`
      or a boolean operator. */
  lemma {:induction false} BranchCount(nodes: seq<Node>)
    ensures Count(nodes, IsBranch)
         == Count(nodes, IsLoop) + Count(nodes, IsConditional) + Count(nodes, IsTry) + Count(nodes, IsBoolOp)
  {
    if nodes != [] {
      BranchCount(nodes[..|nodes| - 1]);
    }
  }

  /** The AST complexity is one plus the loops and conditionals that
      `extract_structure` counts, plus the `try` statements and boolean
      operators; so it lies between one and one more than the walk's length. */
  lemma ComplexityDecomposes(nodes: seq<Node>)
    ensures var s := StructureOf(nodes);
      ComplexityOf(nodes) == 1 + s.loops + s.conditionals + Count(nodes, IsTry) + Count(nodes, IsBoolOp)
    ensures 1 + StructureOf(nodes).loops + StructureOf(nodes).conditionals <= ComplexityOf(nodes) <= 1 + |nodes|
  {
    BranchCount(nodes);
  }
}
