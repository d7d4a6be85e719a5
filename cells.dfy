/**
 * Cells: the three kinds of cell content (Cell::EmptyImpl, TextImpl and
 * FormulaImpl), the per-cell state (dependents, cached value) and the
 * sheet-wide notions the cell operations rely on: which cells a formula
 * reaches through its references, the value a cell has given the caches in
 * place, and the set of cells an invalidation reaches.
 *
 * A sheet's cells are a map from position to Cell value; the Sheet class
 * owns that map and performs the in-place updates.
 */
module Cells {
  import opened Wrappers
  import opened Common
  import opened PositionOrder
  import opened Expressions
  import opened Formulas

  /** Cell::Impl and its variants; raw is the const raw_text_. */
  datatype Content =
    | EmptyImpl
    | TextImpl(raw: string)
    | FormulaImpl(raw: string, formula: Formula)

  /**
   * A cell: pos_, impl_, references_ (the positions of the cells whose
   * formulas refer to this one), has_value_ and cache_.
   */
  datatype Cell = Cell(pos: Position, content: Content, references: set<Position>, hasValue: bool, cache: CellValue)

  /** A cell as the Cell constructor leaves it before Set: Clear() installs EmptyImpl. */
  function NewCell(pos: Position, content: Content): Cell
  {
    Cell(pos, content, {}, false, Text(""))
  }

  /** The content variant Cell::Set picks for a text. */
  datatype Kind = EmptyKind | TextKind | FormulaKind(expression: string)

  /**
   * Cell::Set's dispatch: the empty text makes an empty cell, a text of two or
   * more characters starting with '=' a formula over the rest, and every other
   * text (including a lone "=" and anything starting with the escape sign)
   * a text cell.
   */
  function Classify(text: string): (k: Kind)
    ensures k.EmptyKind? <==> text == ""
    ensures k.FormulaKind? <==> |text| > 1 && text[0] == FORMULA_SIGN
    ensures k.FormulaKind? ==> k.expression == text[1..]
  {
    if text == "" then EmptyKind
    else if text[0] == ESCAPE_SIGN then TextKind
    else if text[0] == FORMULA_SIGN && |text| > 1 then FormulaKind(text[1..])
    else TextKind
  }

  /** Impl::GetReferencedCells: a formula's positions, ascending and once each; none otherwise. */
  function Refs(c: Content): (r: seq<Position>)
    ensures StrictlySorted(r)
    ensures !c.FormulaImpl? ==> r == []
    ensures c.FormulaImpl? ==> Elements(r) == Elements(c.formula.ast.cells)
  {
    if c.FormulaImpl? then ReferencedCells(c.formula) else []
  }

  /** The edges of the reference graph out of a cell: a formula's referenced_cells_ set, none otherwise. */
  function Deps(c: Content): set<Position>
  {
    if c.FormulaImpl? then c.formula.referenced else {}
  }

  /** For a formula whose set holds its listed cells, Refs lists exactly the graph's edges. */
  lemma RefsAreDeps(c: Content)
    requires c.FormulaImpl? ==> c.formula.referenced == Elements(c.formula.ast.cells)
    ensures Elements(Refs(c)) == Deps(c)
    ensures forall y :: y in Refs(c) <==> y in Deps(c)
  {
    assert forall y :: y in Refs(c) <==> y in Elements(Refs(c));
  }

  /**
   * Cell::GetReferencedCells / Impl::GetReferencedCells: a formula lists its
   * referenced set in ascending order; the other variants list nothing.
   */
  method GetReferencedCellsOf(c: Content) returns (r: seq<Position>)
    ensures StrictlySorted(r)
    ensures c.FormulaImpl? ==> Elements(r) == c.formula.referenced
    ensures !c.FormulaImpl? ==> r == []
    ensures c.FormulaImpl? && c.formula.referenced == Elements(c.formula.ast.cells) ==> r == Refs(c)
  {
    if c.FormulaImpl? {
      r := GetReferencedCells(c.formula);
    } else {
      r := [];
    }
  }

  /** Impl::GetText: the raw text, or '=' followed by the canonical expression. */
  function GetText(c: Content, env: Env): string
  {
    match c
    case EmptyImpl => ""
    case TextImpl(raw) => raw
    case FormulaImpl(_, f) => [FORMULA_SIGN] + GetExpression(f, env)
  }

  /** Impl::GetValue of the non-formula variants: the text, with one leading escape sign dropped. */
  function PlainValue(c: Content): CellValue
    requires !c.FormulaImpl?
  {
    match c
    case EmptyImpl => Text("")
    case TextImpl(raw) => Text(if raw != "" && raw[0] == ESCAPE_SIGN then raw[1..] else raw)
  }

  /** Impl::GetValue: a formula is evaluated against the values the lookup gives. */
  function ContentValue(c: Content, env: Env, lookup: Position -> Option<CellValue>): CellValue
  {
    if c.FormulaImpl? then Formulas.Evaluate(c.formula, env, lookup) else PlainValue(c)
  }

  /** What Set stores for a text: the empty cell, the text itself, or the parsed formula with the raw text. */
  lemma TextCellRoundTrip(text: string, env: Env, lookup: Position -> Option<CellValue>)
    requires Classify(text) == TextKind
    ensures GetText(TextImpl(text), env) == text
    ensures text[0] == ESCAPE_SIGN ==> ContentValue(TextImpl(text), env, lookup) == Text(text[1..])
    ensures text[0] != ESCAPE_SIGN ==> ContentValue(TextImpl(text), env, lookup) == Text(text)
  {
  }

  /** A formula cell's text starts with '=', and its value is a number or an error, never text. */
  lemma FormulaCellShape(raw: string, f: Formula, env: Env, lookup: Position -> Option<CellValue>)
    ensures GetText(FormulaImpl(raw, f), env)[0] == FORMULA_SIGN
    ensures !ContentValue(FormulaImpl(raw, f), env, lookup).Text?
  {
  }

  /** Cell::IsReferenced: some formula refers to the cell. */
  function IsReferenced(c: Cell): (b: bool)
    ensures b <==> exists q :: q in c.references
  {
    c.references != {}
  }

  /** Cell::AddReference: records a dependent; nothing else about the cell changes. */
  function AddReference(c: Cell, p: Position): (r: Cell)
    ensures p in r.references && IsReferenced(r)
    ensures forall q :: q != p ==> (q in r.references <==> q in c.references)
    ensures r.(references := c.references) == c
  {
    c.(references := c.references + {p})
  }

  /** Cell::DelReference: forgets a dependent; nothing else about the cell changes. */
  function DelReference(c: Cell, p: Position): (r: Cell)
    ensures p !in r.references
    ensures forall q :: q != p ==> (q in r.references <==> q in c.references)
    ensures r.(references := c.references) == c
  {
    c.(references := c.references - {p})
  }

  /** Removing a dependent that was just added restores the cell. */
  lemma ReferenceRoundTrip(c: Cell, p: Position)
    requires p !in c.references
    ensures DelReference(AddReference(c, p), p) == c
  {
    assert (c.references + {p}) - {p} == c.references;
  }

  // ---------------------------------------------------------------------
  // The graph of formula references.
  // ---------------------------------------------------------------------

  /**
   * Every reference of a stored formula points to a position of lower rank.
   * A rank function exists exactly when the reference graph has no cycle.
   */
  ghost predicate Ranked(cells: map<Position, Cell>, rank: Position -> nat)
  {
    forall x, y :: x in cells && y in Deps(cells[x].content) ==> rank(y) < rank(x)
  }

  /**
   * A chain of references leads from `from` to `target` (in zero or more steps)
   * through stored cells. The rank guard holds for every edge of a ranked map
   * and only makes the definition well-founded.
   */
  ghost predicate Reaches(cells: map<Position, Cell>, rank: Position -> nat, from: Position, target: Position)
    decreases rank(from)
  {
    from == target
    || (from in cells
        && exists y :: y in Deps(cells[from].content) && rank(y) < rank(from) && Reaches(cells, rank, y, target))
  }

  /** Following references never climbs in rank. */
  lemma {:induction false} ReachesLowersRank(cells: map<Position, Cell>, rank: Position -> nat, a: Position, b: Position)
    requires Reaches(cells, rank, a, b)
    ensures rank(b) <= rank(a)
    decreases rank(a)
  {
    if a != b {
      var y :| y in Deps(cells[a].content) && rank(y) < rank(a) && Reaches(cells, rank, y, b);
      ReachesLowersRank(cells, rank, y, b);
    }
  }

  /** A ranked map has no cycle: no reference of a cell leads back to it. */
  lemma Acyclic(cells: map<Position, Cell>, rank: Position -> nat, x: Position)
    requires Ranked(cells, rank)
    requires x in cells
    ensures forall y :: y in Deps(cells[x].content) ==> !Reaches(cells, rank, y, x)
  {
    forall y | y in Deps(cells[x].content) && Reaches(cells, rank, y, x)
      ensures false
    {
      ReachesLowersRank(cells, rank, y, x);
    }
  }

  /**
   * The same relation without a rank: a chain of at most `steps` references
   * leads from `from` to `target` through stored cells.
   */
  ghost predicate ReachesIn(cells: map<Position, Cell>, steps: nat, from: Position, target: Position)
  {
    from == target
    || (steps > 0 && from in cells
        && exists y :: y in Deps(cells[from].content) && ReachesIn(cells, steps - 1, y, target))
  }

  /** A chain found through the ranked definition has some finite length. */
  lemma {:induction false} ReachesHasChain(cells: map<Position, Cell>, rank: Position -> nat, a: Position, b: Position)
    returns (steps: nat)
    requires Reaches(cells, rank, a, b)
    ensures ReachesIn(cells, steps, a, b)
    decreases rank(a)
  {
    if a == b {
      steps := 0;
    } else {
      var y :| y in Deps(cells[a].content) && rank(y) < rank(a) && Reaches(cells, rank, y, b);
      var rest := ReachesHasChain(cells, rank, y, b);
      steps := rest + 1;
    }
  }

  /** In a ranked map every chain of references is seen by the ranked definition. */
  lemma {:induction false} ChainReaches(cells: map<Position, Cell>, rank: Position -> nat, steps: nat, a: Position, b: Position)
    requires Ranked(cells, rank)
    requires ReachesIn(cells, steps, a, b)
    ensures Reaches(cells, rank, a, b)
    decreases steps
  {
    if a != b {
      var y :| y in Deps(cells[a].content) && ReachesIn(cells, steps - 1, y, b);
      ChainReaches(cells, rank, steps - 1, y, b);
    }
  }

  /**
   * For a ranked map, Reaches is plain reachability along references: it does
   * not depend on which rank function witnesses acyclicity.
   */
  lemma ReachesIffChain(cells: map<Position, Cell>, rank: Position -> nat, a: Position, b: Position)
    requires Ranked(cells, rank)
    ensures Reaches(cells, rank, a, b) <==> exists steps: nat :: ReachesIn(cells, steps, a, b)
  {
    if Reaches(cells, rank, a, b) {
      var steps := ReachesHasChain(cells, rank, a, b);
      assert exists n: nat :: ReachesIn(cells, n, a, b);
    }
    if exists steps: nat :: ReachesIn(cells, steps, a, b) {
      var steps: nat :| ReachesIn(cells, steps, a, b);
      ChainReaches(cells, rank, steps, a, b);
    }
  }

  /** One more than the largest rank in a list: every element's rank lies below it. */
  function MaxRank(rank: Position -> nat, s: seq<Position>): (m: nat)
    ensures forall y :: y in s ==> rank(y) < m
    ensures s != [] ==> m == 1 + rank(s[0]) || m == MaxRank(rank, s[1..])
  {
    if s == [] then 0
    else
      var tail := MaxRank(rank, s[1..]);
      assert forall y :: y in s ==> y == s[0] || y in s[1..];
      if 1 + rank(s[0]) < tail then tail else 1 + rank(s[0])
  }

  /** MaxRank is the least such bound. */
  lemma {:induction false} MaxRankLeast(rank: Position -> nat, s: seq<Position>, b: nat)
    requires forall y :: y in s ==> rank(y) < b
    ensures MaxRank(rank, s) <= b
  {
    if s != [] {
      assert s[0] in s;
      assert forall y :: y in s[1..] ==> y in s;
      MaxRankLeast(rank, s[1..], b);
    }
  }

  /**
   * The ranks after a formula at pos with references refs is installed: every
   * cell that reached pos is lifted by the given amount.
   */
  ghost function Rerank(cells: map<Position, Cell>, rank: Position -> nat, pos: Position, lift: nat): Position -> nat
  {
    x => if Reaches(cells, rank, x, pos) then rank(x) + lift else rank(x)
  }

  /**
   * How Cell::Set and SetCell change the reference graph: pos gets a content
   * whose references are among refs; every other cell keeps its references or
   * has none (it was created empty).
   */
  ghost predicate Installs(before: map<Position, Cell>, after: map<Position, Cell>, pos: Position, refs: seq<Position>)
  {
    && pos in after
    && (forall y :: y in Deps(after[pos].content) ==> y in refs)
    && (forall x :: x in after && x != pos ==>
          Deps(after[x].content) == {} || (x in before && Deps(after[x].content) == Deps(before[x].content)))
  }

  /**
   * Installing references that do not lead back to pos keeps the graph
   * acyclic: the lifted ranks order it again.
   */
  lemma InstallKeepsAcyclic(before: map<Position, Cell>, after: map<Position, Cell>, rank: Position -> nat,
                            pos: Position, refs: seq<Position>)
    requires Ranked(before, rank)
    requires Installs(before, after, pos, refs)
    requires forall r :: r in refs ==> !Reaches(before, rank, r, pos)
    ensures Ranked(after, Rerank(before, rank, pos, MaxRank(rank, refs)))
  {
    var lift := MaxRank(rank, refs);
    var rank' := Rerank(before, rank, pos, lift);
    forall x, y | x in after && y in Deps(after[x].content) ensures rank'(y) < rank'(x) {
      if x == pos {
        assert y in refs;
        assert !Reaches(before, rank, y, pos);
        assert Reaches(before, rank, pos, pos);
      } else {
        assert x in before && y in Deps(before[x].content);
        if Reaches(before, rank, y, pos) {
          assert Reaches(before, rank, x, pos);
        }
      }
    }
  }

  /** Removing a cell and dropping references keep a ranked map ranked. */
  lemma RankedSubgraph(before: map<Position, Cell>, after: map<Position, Cell>, rank: Position -> nat)
    requires Ranked(before, rank)
    requires forall x :: x in after ==> Deps(after[x].content) == {} || (x in before && Deps(after[x].content) == Deps(before[x].content))
    ensures Ranked(after, rank)
  {
  }

  // ---------------------------------------------------------------------
  // Values with caches.
  // ---------------------------------------------------------------------

  /** What a formula sees when it reads the cell at q: nothing if absent, its value otherwise. */
  ghost function Lookup(cells: map<Position, Cell>, rank: Position -> nat, env: Env, bound: nat): Position -> Option<CellValue>
    decreases bound, 0
  {
    q => if q in cells && rank(q) < bound then Some(ValueAt(cells, rank, env, q)) else None
  }

  /**
   * Cell::GetValue as a value: the cached value when there is one, otherwise
   * the content's value with every referenced cell read the same way.
   */
  ghost function ValueAt(cells: map<Position, Cell>, rank: Position -> nat, env: Env, p: Position): CellValue
    requires p in cells
    decreases rank(p), 1
  {
    if cells[p].hasValue then cells[p].cache
    else ContentValue(cells[p].content, env, Lookup(cells, rank, env, rank(p)))
  }

  /**
   * A map after GetValue calls: the same cells, some of which have had their
   * value cached, each with the value it had before.
   */
  ghost predicate MemoExtends(before: map<Position, Cell>, after: map<Position, Cell>, rank: Position -> nat, env: Env)
  {
    && before.Keys == after.Keys
    && forall q :: q in before ==>
         after[q] == before[q]
         || (!before[q].hasValue && after[q] == before[q].(hasValue := true, cache := ValueAt(before, rank, env, q)))
  }

  /**
   * Every cell that differs between before and after is one that some
   * position of `from` reaches: GetValue only touches the cells it reads.
   */
  ghost predicate ChangedWithin(before: map<Position, Cell>, after: map<Position, Cell>, rank: Position -> nat,
                                from: seq<Position>)
  {
    forall q :: q in before && q in after && after[q] != before[q] ==>
      exists x :: x in from && Reaches(before, rank, x, q)
  }

  /** Filling caches leaves the references, so what a position reaches, alone. */
  lemma {:induction false} ReachesIgnoresCaches(a: map<Position, Cell>, b: map<Position, Cell>, rank: Position -> nat,
                                                env: Env, x: Position, q: Position)
    requires MemoExtends(a, b, rank, env)
    ensures Reaches(a, rank, x, q) == Reaches(b, rank, x, q)
    decreases rank(x)
  {
    if x != q && x in a {
      assert a[x].content == b[x].content;
      forall y | y in Deps(a[x].content) && rank(y) < rank(x)
        ensures Reaches(a, rank, y, q) == Reaches(b, rank, y, q)
      {
        ReachesIgnoresCaches(a, b, rank, env, y, q);
      }
    }
  }

  /** More starting positions reach at least as much. */
  lemma ChangedWithinMore(a: map<Position, Cell>, b: map<Position, Cell>, rank: Position -> nat,
                          f1: seq<Position>, f: seq<Position>)
    requires ChangedWithin(a, b, rank, f1)
    requires forall x :: x in f1 ==> x in f
    ensures ChangedWithin(a, b, rank, f)
  {
    forall q | q in a && q in b && b[q] != a[q]
      ensures exists x :: x in f && Reaches(a, rank, x, q)
    {
      var x :| x in f1 && Reaches(a, rank, x, q);
      assert x in f;
    }
  }

  /** Two rounds of caching touch only what the positions of either round reach. */
  lemma ChangedTransitive(a: map<Position, Cell>, b: map<Position, Cell>, c: map<Position, Cell>, rank: Position -> nat,
                          env: Env, f1: seq<Position>, f2: seq<Position>, f: seq<Position>)
    requires MemoExtends(a, b, rank, env) && b.Keys == c.Keys
    requires ChangedWithin(a, b, rank, f1) && ChangedWithin(b, c, rank, f2)
    requires forall x :: x in f1 ==> x in f
    requires forall x :: x in f2 ==> x in f
    ensures ChangedWithin(a, c, rank, f)
  {
    forall q | q in a && q in c && c[q] != a[q]
      ensures exists x :: x in f && Reaches(a, rank, x, q)
    {
      if b[q] != a[q] {
        var x :| x in f1 && Reaches(a, rank, x, q);
        assert x in f;
      } else {
        var x :| x in f2 && Reaches(b, rank, x, q);
        ReachesIgnoresCaches(a, b, rank, env, x, q);
        assert x in f;
      }
    }
  }

  /** Filling caches with the values the cells have does not change any cell's value. */
  lemma {:induction false} MemoKeepsValue(before: map<Position, Cell>, after: map<Position, Cell>, rank: Position -> nat,
                                          env: Env, p: Position)
    requires MemoExtends(before, after, rank, env)
    requires p in before
    ensures ValueAt(after, rank, env, p) == ValueAt(before, rank, env, p)
    decreases rank(p)
  {
    if !after[p].hasValue {
      var la, lb := Lookup(after, rank, env, rank(p)), Lookup(before, rank, env, rank(p));
      forall q ensures la(q) == lb(q) {
        if q in before && rank(q) < rank(p) {
          MemoKeepsValue(before, after, rank, env, q);
        }
      }
      var c := before[p].content;
      if c.FormulaImpl? {
        EvaluateReadsOnlyCells(c.formula.ast.root, env, la, lb);
      }
    }
  }

  /** Two rounds of caching are one round of caching. */
  lemma MemoTransitive(a: map<Position, Cell>, b: map<Position, Cell>, c: map<Position, Cell>, rank: Position -> nat, env: Env)
    requires MemoExtends(a, b, rank, env) && MemoExtends(b, c, rank, env)
    ensures MemoExtends(a, c, rank, env)
  {
    forall q | q in a
      ensures c[q] == a[q] || (!a[q].hasValue && c[q] == a[q].(hasValue := true, cache := ValueAt(a, rank, env, q)))
    {
      if b[q] == a[q] && c[q] != b[q] {
        MemoKeepsValue(a, b, rank, env, q);
      }
    }
  }

  /** Caching one cell's own value is a round of caching. */
  lemma MemoOne(cells: map<Position, Cell>, rank: Position -> nat, env: Env, p: Position)
    requires p in cells && !cells[p].hasValue
    ensures MemoExtends(cells, cells[p := cells[p].(hasValue := true, cache := ValueAt(cells, rank, env, p))], rank, env)
  {
  }

  /** Evaluating a tree against a map or against the same map with more caches filled gives the same result. */
  lemma MemoKeepsEvaluation(before: map<Position, Cell>, after: map<Position, Cell>, rank: Position -> nat, env: Env,
                            bound: nat, e: Expr)
    requires MemoExtends(before, after, rank, env)
    ensures Expressions.Evaluate(e, env, Lookup(after, rank, env, bound))
         == Expressions.Evaluate(e, env, Lookup(before, rank, env, bound))
  {
    var la, lb := Lookup(after, rank, env, bound), Lookup(before, rank, env, bound);
    forall q ensures la(q) == lb(q) {
      if q in before && rank(q) < bound {
        MemoKeepsValue(before, after, rank, env, q);
      }
    }
    EvaluateReadsOnlyCells(e, env, la, lb);
  }

  /**
   * The cache-free value: the content evaluated over the cache-free values of
   * the referenced cells. This is the value the specification assigns a cell.
   */
  ghost function FreshValue(cells: map<Position, Cell>, rank: Position -> nat, env: Env, p: Position): CellValue
    requires p in cells
    decreases rank(p), 1
  {
    ContentValue(cells[p].content, env, FreshLookup(cells, rank, env, rank(p)))
  }

  ghost function FreshLookup(cells: map<Position, Cell>, rank: Position -> nat, env: Env, bound: nat): Position -> Option<CellValue>
    decreases bound, 0
  {
    q => if q in cells && rank(q) < bound then Some(FreshValue(cells, rank, env, q)) else None
  }

  /** Every cached value is the cell's cache-free value. */
  ghost predicate CachesSound(cells: map<Position, Cell>, rank: Position -> nat, env: Env)
  {
    forall q :: q in cells && cells[q].hasValue ==> cells[q].cache == FreshValue(cells, rank, env, q)
  }

  /** With sound caches, the cache-aware value is the cache-free one. */
  lemma {:induction false} SoundCachesGiveFreshValues(cells: map<Position, Cell>, rank: Position -> nat, env: Env, p: Position)
    requires CachesSound(cells, rank, env)
    requires p in cells
    ensures ValueAt(cells, rank, env, p) == FreshValue(cells, rank, env, p)
    decreases rank(p)
  {
    if !cells[p].hasValue {
      var l, f := Lookup(cells, rank, env, rank(p)), FreshLookup(cells, rank, env, rank(p));
      forall q ensures l(q) == f(q) {
        if q in cells && rank(q) < rank(p) {
          SoundCachesGiveFreshValues(cells, rank, env, q);
        }
      }
      var c := cells[p].content;
      if c.FormulaImpl? {
        EvaluateReadsOnlyCells(c.formula.ast.root, env, l, f);
      }
    }
  }

  /** Clearing caches keeps the caches that remain sound. */
  lemma ClearingKeepsSound(cells: map<Position, Cell>, rank: Position -> nat, env: Env, gone: set<Position>)
    requires CachesSound(cells, rank, env)
    ensures CachesSound(ClearCaches(cells, gone), rank, env)
  {
    var after := ClearCaches(cells, gone);
    forall q | q in after ensures FreshValue(after, rank, env, q) == FreshValue(cells, rank, env, q) {
      FreshIgnoresCaches(cells, after, rank, env, q);
    }
  }

  /** Caching values keeps sound caches sound: a cell whose caches are sound caches its cache-free value. */
  lemma MemoKeepsSound(before: map<Position, Cell>, after: map<Position, Cell>, rank: Position -> nat, env: Env)
    requires CachesSound(before, rank, env)
    requires MemoExtends(before, after, rank, env)
    ensures CachesSound(after, rank, env)
  {
    forall q | q in after && after[q].hasValue ensures after[q].cache == FreshValue(after, rank, env, q) {
      FreshIgnoresCaches(before, after, rank, env, q);
      if after[q] != before[q] {
        SoundCachesGiveFreshValues(before, rank, env, q);
      }
    }
  }

  /** The cache-free value depends on contents only. */
  lemma {:induction false} FreshIgnoresCaches(a: map<Position, Cell>, b: map<Position, Cell>, rank: Position -> nat, env: Env, p: Position)
    requires a.Keys == b.Keys
    requires forall q :: q in a ==> a[q].content == b[q].content
    requires p in a
    ensures FreshValue(a, rank, env, p) == FreshValue(b, rank, env, p)
    decreases rank(p)
  {
    var la, lb := FreshLookup(a, rank, env, rank(p)), FreshLookup(b, rank, env, rank(p));
    forall q ensures la(q) == lb(q) {
      if q in a && rank(q) < rank(p) {
        FreshIgnoresCaches(a, b, rank, env, q);
      }
    }
    var c := a[p].content;
    if c.FormulaImpl? {
      EvaluateReadsOnlyCells(c.formula.ast.root, env, la, lb);
    }
  }

  // ---------------------------------------------------------------------
  // Invalidation.
  // ---------------------------------------------------------------------

  /**
   * Install order: a cell's dependents were all stored after it, so following
   * references_ strictly increases the stamp.
   */
  ghost predicate Stamped(cells: map<Position, Cell>, stamp: map<Position, nat>, clock: nat)
  {
    && stamp.Keys == cells.Keys
    && (forall p :: p in stamp ==> stamp[p] < clock)
    && (forall y, x :: y in cells && x in cells[y].references && x in cells ==> stamp[y] < stamp[x])
  }

  /** The cells Cell::Invalidate visits from p: p and, recursively, its stored dependents. */
  ghost function Dependents(cells: map<Position, Cell>, stamp: map<Position, nat>, clock: nat, p: Position): (d: set<Position>)
    requires Stamped(cells, stamp, clock)
    requires p in cells
    ensures p in d && d <= cells.Keys
    decreases clock - stamp[p]
  {
    {p} + (set x, q | x in cells[p].references && x in cells && q in Dependents(cells, stamp, clock, x) :: q)
  }

  /** The dependents of p are closed under references_: a dependent's stored dependents are dependents. */
  lemma {:induction false} DependentsClosed(cells: map<Position, Cell>, stamp: map<Position, nat>, clock: nat, p: Position,
                                            q: Position, x: Position)
    requires Stamped(cells, stamp, clock)
    requires p in cells
    requires q in Dependents(cells, stamp, clock, p)
    requires x in cells[q].references && x in cells
    ensures x in Dependents(cells, stamp, clock, p)
    decreases clock - stamp[p]
  {
    if q != p {
      var y :| y in cells[p].references && y in cells && q in Dependents(cells, stamp, clock, y);
      DependentsClosed(cells, stamp, clock, y, q, x);
      assert x in (set x', q' | x' in cells[p].references && x' in cells && q' in Dependents(cells, stamp, clock, x') :: q');
    } else {
      assert x in Dependents(cells, stamp, clock, x);
      assert x in (set x', q' | x' in cells[p].references && x' in cells && q' in Dependents(cells, stamp, clock, x') :: q');
    }
  }

  /** The cells with the given positions lose their cached value; nothing else changes. */
  function ClearCaches(cells: map<Position, Cell>, gone: set<Position>): (r: map<Position, Cell>)
    ensures r.Keys == cells.Keys
    ensures forall q :: q in r ==> r[q].hasValue == (cells[q].hasValue && q !in gone)
    ensures forall q :: q in r ==> r[q].(hasValue := cells[q].hasValue) == cells[q]
  {
    map q | q in cells :: if q in gone then cells[q].(hasValue := false) else cells[q]
  }

  /** Dependents only look at positions and references_, not at caches. */
  lemma {:induction false} DependentsIgnoreCaches(a: map<Position, Cell>, b: map<Position, Cell>, stamp: map<Position, nat>,
                                                  clock: nat, p: Position)
    requires Stamped(a, stamp, clock)
    requires a.Keys == b.Keys
    requires forall q :: q in a ==> a[q].references == b[q].references
    requires p in a
    ensures Stamped(b, stamp, clock)
    ensures Dependents(b, stamp, clock, p) == Dependents(a, stamp, clock, p)
    decreases clock - stamp[p]
  {
    forall x | x in a[p].references && x in a
      ensures Dependents(b, stamp, clock, x) == Dependents(a, stamp, clock, x)
    {
      DependentsIgnoreCaches(a, b, stamp, clock, x);
    }
  }
}
