/** The syntax-tree nodes the analyzer looks at, as `ast.walk` yields them.
    A file is modelled by the sequence of its nodes in walk order
    (breadth-first); only the facts the rules inspect are kept. */
module Ast {
  import opened Wrappers

  datatype Node =
      /** `def name(params): ...`; `params` are the positional parameters
          (`node.args.args`), `hasDocstring` is whether `ast.get_docstring`
          finds one. */
    | FunctionDef(name: string, hasDocstring: bool, params: seq<string>)
    | ClassDef(name: string)
      /** `import a, b`: the imported module names. */
    | Import(names: seq<string>)
      /** `from m import ...`; `None` for a bare relative import. */
    | ImportFrom(source: Option<string>)
      /** `x = y = ...`: the identifiers among the assignment targets
          (targets that are not plain names are not listed). */
    | Assign(targets: seq<string>)
      /** A name read (`ast.Name` in `Load` context). */
    | NameLoad(id: string)
      /** A numeric constant; a boolean constant appears as 0 or 1. */
    | NumConst(value: int)
      /** An `except` clause and whether its body is empty. */
    | ExceptHandler(bodyEmpty: bool)
      /** A call whose callee is the plain name `print`. */
    | PrintCall
    | ForLoop
    | WhileLoop
    | IfStmt
    | TryStmt
    | BoolOp
      /** Any other node. */
    | Other
}
