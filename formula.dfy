/**
 * The Formula object behind a formula cell: the parsed tree and the set of
 * positions it references, with its evaluation, canonical text and sorted
 * list of referenced cells.
 */
module Formulas {
  import opened Wrappers
  import opened Common
  import opened PositionOrder
  import opened Expressions

  /** A parsed formula: its FormulaAST and the unordered set referenced_cells_. */
  datatype Formula = Formula(ast: FormulaAst, referenced: set<Position>)

  /**
   * What the Formula constructor establishes: the AST's cell list is sorted and
   * holds the cells of the tree, and the set holds the same positions.
   */
  ghost predicate WellFormed(f: Formula)
  {
    Sorted(f.ast.cells)
    && multiset(f.ast.cells) == multiset(CellsOf(f.ast.root))
    && f.referenced == Elements(f.ast.cells)
  }

  /** The positions a formula refers to, ascending and without repetition. */
  function ReferencedCells(f: Formula): (r: seq<Position>)
    ensures StrictlySorted(r)
    ensures Elements(r) == Elements(f.ast.cells)
  {
    SameElements(SortPositions(f.ast.cells), f.ast.cells);
    Dedup(SortPositions(f.ast.cells))
  }

  /** A sequence and any permutation of it hold the same positions. */
  lemma SameElements(a: seq<Position>, b: seq<Position>)
    requires multiset(a) == multiset(b)
    ensures Elements(a) == Elements(b)
  {
    forall x ensures x in Elements(a) <==> x in Elements(b) {
      assert x in a <==> x in multiset(a);
      assert x in b <==> x in multiset(b);
    }
  }

  /** The referenced cells of a well-formed formula are exactly the cells of its tree. */
  lemma ReferencedAreTreeCells(f: Formula)
    requires WellFormed(f)
    ensures Elements(ReferencedCells(f)) == Elements(CellsOf(f.ast.root)) == f.referenced
  {
    SameElements(f.ast.cells, CellsOf(f.ast.root));
  }

  /**
   * ParseFormula / the Formula constructor: parses the expression (failing as
   * ParseFormulaAST does) and inserts every collected position into the set.
   */
  method ParseFormula(expression: string, grammar: string -> Option<ParseTree>, env: Env)
    returns (r: Result<Formula, ParsingError>)
    ensures r.Success? <==> grammar(expression).Some? && ToExpr(grammar(expression).value, env).Some?
    ensures r.Success? ==> r.value.ast.root == ToExpr(grammar(expression).value, env).value
    ensures r.Success? ==> WellFormed(r.value)
  {
    var parsed := ParseFormulaAst(expression, grammar, env);
    if parsed.Failure? {
      return Failure(parsed.error);
    }
    var ast := parsed.value;
    var referenced: set<Position> := {};
    for i := 0 to |ast.cells|
      invariant referenced == Elements(ast.cells[..i])
    {
      assert ast.cells[..i + 1] == ast.cells[..i] + [ast.cells[i]];
      referenced := referenced + {ast.cells[i]};
    }
    assert ast.cells[..|ast.cells|] == ast.cells;
    r := Success(Formula(ast, referenced));
  }

  /** The Value a FormulaInterface::Value becomes: the number, or the caught error. */
  function ToValue(r: Result<real, Category>): (v: CellValue)
    ensures v.Number? <==> r.Success?
    ensures r.Success? ==> v.number == r.value
    ensures r.Failure? ==> v == Error(r.error)
  {
    if r.Success? then Number(r.value) else Error(r.error)
  }

  /**
   * Formula::Evaluate: runs the tree; a FormulaError thrown during evaluation is
   * returned as the value. The result is never text.
   */
  function Evaluate(f: Formula, env: Env, lookup: Position -> Option<CellValue>): (v: CellValue)
    ensures !v.Text?
    ensures v.Error? ==>
      v.category == Arithmetic
      || exists p :: p in CellsOf(f.ast.root) && CellNumber(lookup(p), env) == Failure(v.category)
  {
    ToValue(Execute(f.ast, env, lookup))
  }

  /** A formula's value depends on the lookup only at the positions it references. */
  lemma EvaluateDependsOnReferenced(f: Formula, env: Env, l1: Position -> Option<CellValue>, l2: Position -> Option<CellValue>)
    requires WellFormed(f)
    requires forall p :: p in f.referenced ==> l1(p) == l2(p)
    ensures Evaluate(f, env, l1) == Evaluate(f, env, l2)
  {
    ReferencedAreTreeCells(f);
    assert forall p :: p in CellsOf(f.ast.root) ==> p in Elements(CellsOf(f.ast.root));
    EvaluateReadsOnlyCells(f.ast.root, env, l1, l2);
  }

  /** Formula::GetExpression: the canonical text with minimal parentheses. */
  function GetExpression(f: Formula, env: Env): string
  {
    PrintAst(f.ast, env)
  }

  /** When atoms print without parentheses, the expression's parentheses all match. */
  lemma ExpressionBalanced(f: Formula, env: Env)
    requires PlainAtoms(env)
    ensures Balanced(GetExpression(f, env))
  {
    PrintFormulaBalanced(f.ast.root, env, EpAtom, false);
  }

  /** The sequence holds each element of the set once. */
  ghost predicate Enumerates(s: seq<Position>, elements: set<Position>)
  {
    multiset(s) == multiset(elements)
  }

  /** A sorted sequence without repeated elements is strictly ascending. */
  lemma SortedDistinct(s: seq<Position>)
    requires Sorted(s)
    requires forall x :: multiset(s)[x] <= 1
    ensures StrictlySorted(s)
  {
    forall i, j | 0 <= i < j < |s| ensures Less(s[i], s[j]) {
      Occurrences(s, i, j);
      assert LessEq(s[i], s[j]);
    }
  }

  /** Two places holding the same element count twice in the multiset. */
  lemma Occurrences(s: seq<Position>, i: int, j: int)
    requires 0 <= i < j < |s|
    ensures s[i] == s[j] ==> multiset(s)[s[i]] >= 2
  {
    assert s == s[..j] + s[j..];
    assert s[i] == s[..j][i];
    assert s[j] == s[j..][0];
    assert multiset(s) == multiset(s[..j]) + multiset(s[j..]);
  }

  /**
   * Formula::GetReferencedCells: copies the set into a vector and sorts it.
   * The result lists the referenced set in ascending order, once each.
   */
  method GetReferencedCells(f: Formula) returns (r: seq<Position>)
    ensures StrictlySorted(r)
    ensures Elements(r) == f.referenced
    ensures f.referenced == Elements(f.ast.cells) ==> r == ReferencedCells(f)
  {
    var ans := CopySet(f.referenced);
    SortInPlace(ans);
    r := ans[..];
    SortedEnumeration(r, f.referenced);
    if f.referenced == Elements(f.ast.cells) {
      StrictlySortedUnique(r, ReferencedCells(f));
    }
  }

  /** The vector constructor from the set's iterators: every element once, in some order. */
  method CopySet(elements: set<Position>) returns (ans: array<Position>)
    ensures fresh(ans)
    ensures Enumerates(ans[..], elements)
  {
    ans := new Position[|elements|];
    var rest := elements;
    var i := 0;
    while rest != {}
      invariant 0 <= i <= ans.Length
      invariant rest <= elements
      invariant i + |rest| == |elements|
      invariant multiset(ans[..i]) == multiset(elements - rest)
      decreases |rest|
    {
      var p :| p in rest;
      ans[i] := p;
      assert ans[..i + 1] == ans[..i] + [p];
      assert elements - (rest - {p}) == (elements - rest) + {p};
      rest := rest - {p};
      i := i + 1;
    }
    assert ans[..i] == ans[..];
    assert elements - rest == elements;
  }

  /** Sorting an enumeration of a set lists the set in ascending order, once each. */
  lemma SortedEnumeration(r: seq<Position>, elements: set<Position>)
    requires Sorted(r) && Enumerates(r, elements)
    ensures StrictlySorted(r) && Elements(r) == elements
  {
    SortedDistinct(r);
    forall x ensures x in Elements(r) <==> x in elements {
      assert x in r <==> x in multiset(r);
    }
  }
}
