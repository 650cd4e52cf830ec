/** The issue record `detect_issues` produces and the feedback functions
    consume. */
module Issues {
  import opened Wrappers

  datatype Level = Info | Warning | Critical

  /** The issue types; `TypeName` gives the string the source uses. */
  datatype IssueType =
    | SyntaxError
    | PoorFunctionName
    | MissingDocstring
    | TooManyParameters
    | PoorParameterName
    | PoorVariableName
    | MagicNumber
    | EmptyExcept
    | DebugPrint
    | UnusedVariable

  /** An issue's detail is a string or a number. */
  datatype Detail = Str(text: string) | Num(value: int)

  /** The enclosing function, or `None` at module level. */
  type Context = Option<string>

  datatype Issue = Issue(kind: IssueType, detail: Detail, context: Context, level: Level)

  /** What deduplication compares: type, detail and context, not the level. */
  datatype Key = Key(kind: IssueType, detail: Detail, context: Context)

  function KeyOf(x: Issue): Key {
    Key(x.kind, x.detail, x.context)
  }

  function TypeName(t: IssueType): string {
    match t
    case SyntaxError => "Syntax Error"
    case PoorFunctionName => "Poor function name"
    case MissingDocstring => "Missing docstring"
    case TooManyParameters => "Too many parameters"
    case PoorParameterName => "Poor parameter name"
    case PoorVariableName => "Poor variable name"
    case MagicNumber => "Magic number used"
    case EmptyExcept => "Empty except block"
    case DebugPrint => "Debug print found"
    case UnusedVariable => "Unused variable"
  }

  /** The type strings are pairwise different, so comparing the source's
      type strings is comparing `IssueType`s. */
  lemma TypeNamesDistinct(a: IssueType, b: IssueType)
    ensures TypeName(a) == TypeName(b) ==> a == b
  {
  }

  /** The one severity each rule reports with. */
  function LevelOf(t: IssueType): Level {
    match t
    case SyntaxError | EmptyExcept => Critical
    case TooManyParameters | MagicNumber | UnusedVariable => Warning
    case _ => Info
  }

  /** No two of `issues` share a deduplication key. */
  predicate KeysDistinct(issues: seq<Issue>) {
    forall i, j :: 0 <= i < j < |issues| ==> KeyOf(issues[i]) != KeyOf(issues[j])
  }

  /** The issues of type `kind`, in order. */
  function OfKind(issues: seq<Issue>, kind: IssueType): seq<Issue> {
    if issues == [] then []
    else
      var n := |issues| - 1;
      OfKind(issues[..n], kind) + (if issues[n].kind == kind then [issues[n]] else [])
  }

  lemma {:induction false} OfKindAppend(a: seq<Issue>, b: seq<Issue>, kind: IssueType)
    ensures OfKind(a + b, kind) == OfKind(a, kind) + OfKind(b, kind)
  {
    if b == [] {
      assert a + b == a;
    } else {
      var n := |b| - 1;
      assert (a + b)[..|a + b| - 1] == a + b[..n];
      OfKindAppend(a, b[..n], kind);
    }
  }

  lemma {:induction false} OfKindAll(a: seq<Issue>, kind: IssueType)
    requires forall i :: 0 <= i < |a| ==> a[i].kind == kind
    ensures OfKind(a, kind) == a
  {
    if a != [] {
      var n := |a| - 1;
      OfKindAll(a[..n], kind);
      assert a[..n] + [a[n]] == a;
    }
  }

  lemma {:induction false} OfKindNone(a: seq<Issue>, kind: IssueType)
    requires forall x :: x in a ==> x.kind != kind
    ensures OfKind(a, kind) == []
  {
    if a != [] {
      var n := |a| - 1;
      assert forall x :: x in a[..n] ==> x in a;
      OfKindNone(a[..n], kind);
      assert a[n] in a;
    }
  }
}
