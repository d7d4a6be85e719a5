/**
 * The sheet: the map from positions to cells, the per-row and per-column
 * indexes of occupied positions, and the printable size. Setting a cell
 * builds a fresh cell, registers it as a dependent of the cells its formula
 * reads and stores it; clearing a cell erases it and shrinks the printable
 * size; printing walks the printable area row by row.
 */
module Sheets {
  import opened Wrappers
  import opened Common
  import opened PositionOrder
  import opened Expressions
  import opened Formulas
  import opened Cells

  /** The exceptions the sheet operations throw. */
  datatype Exception = InvalidPositionException | FormulaException | CircularDependencyException

  /** A stored formula was built by the Formula constructor and reads valid positions only. */
  ghost predicate ContentValid(c: Content)
  {
    c.FormulaImpl? ==> WellFormed(c.formula) && forall q :: q in c.formula.referenced ==> IsValid(q)
  }

  /** Every cell is stored under its own valid position. */
  ghost predicate CellsValid(cells: map<Position, Cell>)
  {
    forall p :: p in cells ==> IsValid(p) && cells[p].pos == p && ContentValid(cells[p].content)
  }

  /** rows_idx_ and cols_idx_ record exactly the stored positions. */
  ghost predicate Indexed(cells: map<Position, Cell>, rowsIdx: map<int, set<int>>, colsIdx: map<int, set<int>>)
  {
    && (forall r, c :: r in rowsIdx && c in rowsIdx[r] <==> Position(r, c) in cells)
    && (forall r, c :: c in colsIdx && r in colsIdx[c] <==> Position(r, c) in cells)
  }

  /** Every stored position lies inside the printable area. */
  ghost predicate Fits(cells: map<Position, Cell>, size: Size)
  {
    size.rows >= 0 && size.cols >= 0
    && forall p :: p in cells ==> p.row < size.rows && p.col < size.cols
  }

  /**
   * The last printable row and the last printable column each have a
   * non-empty entry in the index, the condition UpdateSize stops at.
   */
  ghost predicate Tight(rowsIdx: map<int, set<int>>, colsIdx: map<int, set<int>>, size: Size)
  {
    && (size.rows == 0 || (size.rows - 1 in rowsIdx && rowsIdx[size.rows - 1] != {}))
    && (size.cols == 0 || (size.cols - 1 in colsIdx && colsIdx[size.cols - 1] != {}))
  }

  /** Stamped, except for references_ entries naming `exempt`. */
  ghost predicate StampedExcept(cells: map<Position, Cell>, stamp: map<Position, nat>, clock: nat, exempt: Position)
  {
    && stamp.Keys == cells.Keys
    && (forall p :: p in stamp ==> stamp[p] < clock)
    && (forall y, x :: y in cells && x in cells[y].references && x in cells && x != exempt ==> stamp[y] < stamp[x])
  }

  /** Two maps with the same positions, contents and dependents: only caches differ. */
  ghost predicate SameShape(a: map<Position, Cell>, b: map<Position, Cell>)
  {
    && a.Keys == b.Keys
    && forall q :: q in a ==> a[q].pos == b[q].pos && a[q].content == b[q].content && a[q].references == b[q].references
  }

  /** An index with v added to the set at key k (operator[] creates a missing set). */
  function IndexAdd(idx: map<int, set<int>>, k: int, v: int): map<int, set<int>>
  {
    idx[k := (if k in idx then idx[k] else {}) + {v}]
  }

  /** An index with v removed from the set at key k. */
  function IndexRemove(idx: map<int, set<int>>, k: int, v: int): map<int, set<int>>
  {
    idx[k := (if k in idx then idx[k] else {}) - {v}]
  }

  lemma StoreKeepsIndexed(cells: map<Position, Cell>, rowsIdx: map<int, set<int>>, colsIdx: map<int, set<int>>, cell: Cell)
    requires Indexed(cells, rowsIdx, colsIdx)
    ensures Indexed(cells[cell.pos := cell], IndexAdd(rowsIdx, cell.pos.row, cell.pos.col), IndexAdd(colsIdx, cell.pos.col, cell.pos.row))
  {
  }

  lemma EraseKeepsIndexed(cells: map<Position, Cell>, rowsIdx: map<int, set<int>>, colsIdx: map<int, set<int>>, pos: Position)
    requires Indexed(cells, rowsIdx, colsIdx)
    ensures Indexed(cells - {pos}, IndexRemove(rowsIdx, pos.row, pos.col), IndexRemove(colsIdx, pos.col, pos.row))
  {
  }

  /** The printable size after storing at pos: grown just enough to hold pos. */
  function Grow(size: Size, pos: Position): Size
  {
    Size(if pos.row >= size.rows then pos.row + 1 else size.rows,
         if pos.col >= size.cols then pos.col + 1 else size.cols)
  }

  lemma StoreKeepsSize(cells: map<Position, Cell>, rowsIdx: map<int, set<int>>, colsIdx: map<int, set<int>>,
                       size: Size, cell: Cell)
    requires IsValid(cell.pos)
    requires Fits(cells, size) && Tight(rowsIdx, colsIdx, size)
    ensures Fits(cells[cell.pos := cell], Grow(size, cell.pos))
    ensures Tight(IndexAdd(rowsIdx, cell.pos.row, cell.pos.col), IndexAdd(colsIdx, cell.pos.col, cell.pos.row), Grow(size, cell.pos))
  {
  }

  lemma StoreKeepsStamped(cells: map<Position, Cell>, stamp: map<Position, nat>, clock: nat, exempt: Position, cell: Cell)
    requires StampedExcept(cells, stamp, clock, exempt)
    requires cell.references == {}
    ensures StampedExcept(cells[cell.pos := cell], stamp[cell.pos := clock], clock + 1, exempt)
    ensures exempt == cell.pos ==> Stamped(cells[cell.pos := cell], stamp[cell.pos := clock], clock + 1)
  {
  }

  lemma StoreKeepsCellsValid(cells: map<Position, Cell>, cell: Cell)
    requires CellsValid(cells) && IsValid(cell.pos) && ContentValid(cell.content)
    ensures CellsValid(cells[cell.pos := cell])
  {
  }

  /** Some element of a non-empty set. */
  lemma Pick(s: set<int>) returns (x: int)
    requires s != {}
    ensures x in s
  {
    if forall y :: y !in s {
      assert false;
    }
    x :| x in s;
  }

  /** A non-empty entry of rows_idx_ names a row holding a stored cell. */
  lemma RowWitness(cells: map<Position, Cell>, rowsIdx: map<int, set<int>>, colsIdx: map<int, set<int>>, r: int)
    requires Indexed(cells, rowsIdx, colsIdx)
    requires r in rowsIdx && rowsIdx[r] != {}
    ensures exists p :: p in cells && p.row == r
  {
    var c := Pick(rowsIdx[r]);
    assert Position(r, c) in cells;
  }

  /** A non-empty entry of cols_idx_ names a column holding a stored cell. */
  lemma ColumnWitness(cells: map<Position, Cell>, rowsIdx: map<int, set<int>>, colsIdx: map<int, set<int>>, c: int)
    requires Indexed(cells, rowsIdx, colsIdx)
    requires c in colsIdx && colsIdx[c] != {}
    ensures exists p :: p in cells && p.col == c
  {
    var r := Pick(colsIdx[c]);
    assert Position(r, c) in cells;
  }

  /** A tight printable area is the least one that holds every stored position. */
  lemma TightIsLeast(cells: map<Position, Cell>, rowsIdx: map<int, set<int>>, colsIdx: map<int, set<int>>,
                     size: Size, other: Size)
    requires Indexed(cells, rowsIdx, colsIdx) && Fits(cells, size) && Tight(rowsIdx, colsIdx, size)
    requires Fits(cells, other)
    ensures size.rows <= other.rows && size.cols <= other.cols
  {
    if size.rows > 0 {
      RowWitness(cells, rowsIdx, colsIdx, size.rows - 1);
    }
    if size.cols > 0 {
      ColumnWitness(cells, rowsIdx, colsIdx, size.cols - 1);
    }
  }

  /** A row without an entry in rows_idx_, or with an empty one, holds no stored cell. */
  lemma EmptyRow(cells: map<Position, Cell>, rowsIdx: map<int, set<int>>, colsIdx: map<int, set<int>>, size: Size)
    requires Indexed(cells, rowsIdx, colsIdx) && Fits(cells, size) && size.rows > 0
    requires (if size.rows - 1 in rowsIdx then rowsIdx[size.rows - 1] else {}) == {}
    ensures forall p :: p in cells ==> p.row != size.rows - 1
    ensures Indexed(cells, rowsIdx - {size.rows - 1}, colsIdx) && Fits(cells, size.(rows := size.rows - 1))
  {
    var r := size.rows - 1;
    forall p | p in cells ensures p.row != r {
      assert Position(p.row, p.col) == p;
    }
  }

  /** A column without an entry in cols_idx_, or with an empty one, holds no stored cell. */
  lemma EmptyColumn(cells: map<Position, Cell>, rowsIdx: map<int, set<int>>, colsIdx: map<int, set<int>>, size: Size)
    requires Indexed(cells, rowsIdx, colsIdx) && Fits(cells, size) && size.cols > 0
    requires (if size.cols - 1 in colsIdx then colsIdx[size.cols - 1] else {}) == {}
    ensures forall p :: p in cells ==> p.col != size.cols - 1
    ensures Indexed(cells, rowsIdx, colsIdx - {size.cols - 1}) && Fits(cells, size.(cols := size.cols - 1))
  {
    var c := size.cols - 1;
    forall p | p in cells ensures p.col != c {
      assert Position(p.row, p.col) == p;
    }
  }

  /** Erasing a cell keeps the remaining cells valid, ranked and stamped. */
  lemma EraseKeepsInvariants(cells: map<Position, Cell>, rank: Position -> nat, stamp: map<Position, nat>, clock: nat,
                             size: Size, pos: Position)
    requires CellsValid(cells) && Ranked(cells, rank) && Stamped(cells, stamp, clock) && Fits(cells, size)
    ensures CellsValid(cells - {pos}) && Ranked(cells - {pos}, rank)
    ensures Stamped(cells - {pos}, stamp - {pos}, clock) && Fits(cells - {pos}, size)
  {
  }

  /** Adding a dependent to a stored cell keeps every invariant, except stamps on references to that dependent. */
  lemma RegisterKeepsInvariants(cells: map<Position, Cell>, rank: Position -> nat, stamp: map<Position, nat>, clock: nat,
                                rowsIdx: map<int, set<int>>, colsIdx: map<int, set<int>>, size: Size, r: Position, pos: Position)
    requires r in cells
    requires CellsValid(cells) && Ranked(cells, rank) && StampedExcept(cells, stamp, clock, pos)
    requires Indexed(cells, rowsIdx, colsIdx) && Fits(cells, size)
    ensures var after := cells[r := AddReference(cells[r], pos)];
      && CellsValid(after) && Ranked(after, rank) && StampedExcept(after, stamp, clock, pos)
      && Indexed(after, rowsIdx, colsIdx) && Fits(after, size)
  {
    var after := cells[r := AddReference(cells[r], pos)];
    assert after.Keys == cells.Keys;
  }

  /** An empty cell has no references, so storing one keeps a ranked map ranked. */
  lemma EmptyKeepsRanked(cells: map<Position, Cell>, rank: Position -> nat, r: Position)
    requires Ranked(cells, rank)
    ensures Ranked(cells[r := NewCell(r, EmptyImpl)], rank)
  {
  }

  /**
   * The cells after each position of refs has recorded pos as a dependent,
   * a missing one being created empty first.
   */
  ghost function Registered(cells: map<Position, Cell>, refs: seq<Position>, pos: Position): map<Position, Cell>
  {
    map q | q in cells.Keys + Elements(refs) ::
      if q in refs then AddReference(if q in cells then cells[q] else NewCell(q, EmptyImpl), pos) else cells[q]
  }

  /** Registering one more position: create it if missing, then add the dependent. */
  lemma RegisteredStep(cells: map<Position, Cell>, refs: seq<Position>, r: Position, pos: Position)
    ensures var m := Registered(cells, refs, pos);
      var m' := if r in m then m else m[r := NewCell(r, EmptyImpl)];
      Registered(cells, refs + [r], pos) == m'[r := AddReference(m'[r], pos)]
  {
    var m := Registered(cells, refs, pos);
    var m' := if r in m then m else m[r := NewCell(r, EmptyImpl)];
    var lhs, rhs := Registered(cells, refs + [r], pos), m'[r := AddReference(m'[r], pos)];
    assert Elements(refs + [r]) == Elements(refs) + {r};
    assert lhs.Keys == rhs.Keys;
    forall q | q in lhs ensures lhs[q] == rhs[q] {
      assert q in refs + [r] <==> q in refs || q == r;
    }
  }

  /** Storing a fresh cell over the registered map changes no other cell's references. */
  lemma RegisteredInstalls(before: map<Position, Cell>, refs: seq<Position>, pos: Position, content: Content)
    requires Refs(content) == refs
    requires content.FormulaImpl? ==> content.formula.referenced == Elements(content.formula.ast.cells)
    ensures Installs(before, Registered(before, refs, pos)[pos := NewCell(pos, content)], pos, refs)
  {
    RefsAreDeps(content);
  }

  /** With no references to register, nothing changes. */
  lemma RegisteredNothing(cells: map<Position, Cell>, pos: Position)
    ensures Registered(cells, [], pos) == cells
  {
  }

  /** Filling caches moves no cell and changes no content or dependents. */
  lemma MemoKeepsShape(a: map<Position, Cell>, b: map<Position, Cell>, rank: Position -> nat, env: Env)
    requires MemoExtends(a, b, rank, env)
    ensures SameShape(a, b)
  {
  }

  /** Maps that differ only in their caches satisfy the same invariants. */
  lemma ShapeKeepsInvariants(a: map<Position, Cell>, b: map<Position, Cell>, rank: Position -> nat,
                             stamp: map<Position, nat>, clock: nat,
                             rowsIdx: map<int, set<int>>, colsIdx: map<int, set<int>>, size: Size)
    requires SameShape(a, b)
    requires CellsValid(a) && Ranked(a, rank) && Stamped(a, stamp, clock)
    requires Indexed(a, rowsIdx, colsIdx) && Fits(a, size)
    ensures CellsValid(b) && Ranked(b, rank) && Stamped(b, stamp, clock)
    ensures Indexed(b, rowsIdx, colsIdx) && Fits(b, size)
  {
  }

  /** Every position a stored formula reads has a lower rank than the formula's cell. */
  lemma TreeCellsBelow(cells: map<Position, Cell>, rank: Position -> nat, p: Position)
    requires CellsValid(cells) && Ranked(cells, rank)
    requires p in cells && cells[p].content.FormulaImpl?
    ensures forall q :: q in CellsOf(cells[p].content.formula.ast.root) ==> q in Deps(cells[p].content) && rank(q) < rank(p)
  {
    var f := cells[p].content.formula;
    ReferencedAreTreeCells(f);
    RefsAreDeps(cells[p].content);
    forall q | q in CellsOf(f.ast.root) ensures q in Deps(cells[p].content) && rank(q) < rank(p) {
      assert q in Elements(CellsOf(f.ast.root));
      assert q in Elements(Refs(cells[p].content));
    }
  }

  /**
   * The cells a formula's evaluation changed are all reached from p, whose
   * references are the tree's cells: every other cell is as it was.
   */
  lemma ReadsAreReached(before: map<Position, Cell>, after: map<Position, Cell>, rank: Position -> nat,
                        p: Position, root: Expr)
    requires p in before
    requires forall q :: q in CellsOf(root) ==> q in Deps(before[p].content) && rank(q) < rank(p)
    requires ChangedWithin(before, after, rank, CellsOf(root))
    ensures forall q :: q in before && q in after && !Reaches(before, rank, p, q) ==> after[q] == before[q]
  {
    forall q | q in before && q in after && after[q] != before[q]
      ensures Reaches(before, rank, p, q)
    {
      var x :| x in CellsOf(root) && Reaches(before, rank, x, q);
      assert x in Deps(before[p].content) && rank(x) < rank(p);
    }
  }

  /** Caching the value p had before keeps the map a round of caching of before. */
  lemma CacheStep(before: map<Position, Cell>, mid: map<Position, Cell>, rank: Position -> nat, env: Env,
                  p: Position, v: CellValue)
    requires MemoExtends(before, mid, rank, env)
    requires p in before && !before[p].hasValue && v == ValueAt(before, rank, env, p)
    ensures var after := mid[p := mid[p].(hasValue := true, cache := v)];
      MemoExtends(before, after, rank, env) && SameShape(mid, after)
  {
    var after := mid[p := mid[p].(hasValue := true, cache := v)];
    if !mid[p].hasValue {
      MemoKeepsValue(before, mid, rank, env, p);
      MemoOne(mid, rank, env, p);
    }
    MemoTransitive(before, mid, after, rank, env);
  }

  /** The cells Cell::Invalidate reaches from the stored positions among xs. */
  ghost function Reached(cells: map<Position, Cell>, stamp: map<Position, nat>, clock: nat, xs: set<Position>): set<Position>
    requires Stamped(cells, stamp, clock)
  {
    set x, q | x in xs && x in cells && q in Dependents(cells, stamp, clock, x) :: q
  }

  /** Clearing two sets of caches one after the other clears their union. */
  lemma ClearCachesTwice(cells: map<Position, Cell>, a: set<Position>, b: set<Position>)
    ensures ClearCaches(ClearCaches(cells, a), b) == ClearCaches(cells, a + b)
  {
  }

  /** Clearing caches leaves the shape of the map alone. */
  lemma ClearingKeepsShape(cells: map<Position, Cell>, gone: set<Position>)
    ensures SameShape(cells, ClearCaches(cells, gone))
  {
  }

  /** The reach of one more position is the reach of the others plus its dependents. */
  lemma ReachedStep(cells: map<Position, Cell>, stamp: map<Position, nat>, clock: nat, xs: set<Position>, x: Position)
    requires Stamped(cells, stamp, clock)
    ensures Reached(cells, stamp, clock, xs + {x})
         == Reached(cells, stamp, clock, xs) + (if x in cells then Dependents(cells, stamp, clock, x) else {})
  {
    var prior, added := Reached(cells, stamp, clock, xs), if x in cells then Dependents(cells, stamp, clock, x) else {};
    var grown := Reached(cells, stamp, clock, xs + {x});
    forall q | q in grown ensures q in prior + added {
      var y :| y in xs + {x} && y in cells && q in Dependents(cells, stamp, clock, y);
      if y != x {
        assert y in xs;
      }
    }
    forall q | q in prior + added ensures q in grown {
      if q in added {
        assert x in xs + {x} && x in cells && q in Dependents(cells, stamp, clock, x);
      } else {
        var y :| y in xs && y in cells && q in Dependents(cells, stamp, clock, y);
        assert y in xs + {x};
      }
    }
  }

  /** What one turn of the Invalidate loop adds to the cleared caches. */
  lemma ReachedTurn(cells: map<Position, Cell>, stamp: map<Position, nat>, clock: nat, p: Position,
                    done: set<Position>, x: Position)
    requires Stamped(cells, stamp, clock)
    ensures x in cells ==>
      {p} + Reached(cells, stamp, clock, done + {x}) == ({p} + Reached(cells, stamp, clock, done)) + Dependents(cells, stamp, clock, x)
    ensures x !in cells ==> {p} + Reached(cells, stamp, clock, done + {x}) == {p} + Reached(cells, stamp, clock, done)
  {
    ReachedStep(cells, stamp, clock, done, x);
  }

  lemma ReachedNothing(cells: map<Position, Cell>, stamp: map<Position, nat>, clock: nat, p: Position)
    requires Stamped(cells, stamp, clock)
    ensures {p} + Reached(cells, stamp, clock, {}) == {p}
  {
  }

  /** Moving x from the positions still to visit to the visited ones. */
  lemma MoveOne(todo: set<Position>, done: set<Position>, x: Position)
    requires x in todo && todo !! done
    ensures (todo - {x}) + (done + {x}) == todo + done && (todo - {x}) !! (done + {x})
    ensures |todo - {x}| < |todo|
  {
  }

  /** A cell's dependents are itself and the reach of its references_. */
  lemma DependentsUnfold(cells: map<Position, Cell>, stamp: map<Position, nat>, clock: nat, p: Position)
    requires Stamped(cells, stamp, clock) && p in cells
    ensures Dependents(cells, stamp, clock, p) == {p} + Reached(cells, stamp, clock, cells[p].references)
  {
  }

  /** A cell nobody refers to invalidates only itself: the fresh cell of Cell::Set is one. */
  lemma UnreferencedInvalidatesItself(cells: map<Position, Cell>, stamp: map<Position, nat>, clock: nat, p: Position)
    requires Stamped(cells, stamp, clock) && p in cells
    requires !IsReferenced(cells[p])
    ensures Dependents(cells, stamp, clock, p) == {p}
  {
    DependentsUnfold(cells, stamp, clock, p);
  }

  /** Maps that differ only in their caches are equally evaluable. */
  lemma ShapeKeepsEvaluable(a: map<Position, Cell>, b: map<Position, Cell>, rank: Position -> nat)
    requires SameShape(a, b)
    requires CellsValid(a) && Ranked(a, rank)
    ensures CellsValid(b) && Ranked(b, rank)
  {
  }

  /** Maps that differ only in their caches carry the same stamps. */
  lemma ShapeKeepsStamped(a: map<Position, Cell>, b: map<Position, Cell>, stamp: map<Position, nat>, clock: nat)
    requires SameShape(a, b)
    requires Stamped(a, stamp, clock)
    ensures Stamped(b, stamp, clock)
  {
  }

  /** One more printed field leaves one more cell of the row cached, and keeps the others. */
  lemma RowCachedStep(a: map<Position, Cell>, b: map<Position, Cell>, row: int, col: int)
    requires forall q :: q in a && q.row == row && 0 <= q.col < col ==> a[q].hasValue
    requires forall q :: q in a && a[q].hasValue ==> q in b && b[q].hasValue
    requires a.Keys == b.Keys
    requires Position(row, col) in b ==> b[Position(row, col)].hasValue
    ensures forall q :: q in b && q.row == row && 0 <= q.col < col + 1 ==> b[q].hasValue
  {
    forall q | q in b && q.row == row && 0 <= q.col < col + 1
      ensures b[q].hasValue
    {
      if q.col == col {
        assert q == Position(row, col);
      }
    }
  }

  // ---------------------------------------------------------------------
  // Printing.
  // ---------------------------------------------------------------------

  /** Sheet::ValueVisitor: text verbatim, numbers and errors as the stream writes them. */
  function ValueText(v: CellValue, env: Env): (s: string)
    ensures v.Text? ==> s == v.text
  {
    match v
    case Text(t) => t
    case Number(n) => env.formatNumber(n)
    case Error(c) => env.errorText(c)
  }

  /** The field printed at p: the rendered cell, or nothing for a missing cell. */
  function Field(fields: map<Position, string>, p: Position): string
  {
    if p in fields then fields[p] else ""
  }

  /** The first `cols` fields of a row, separated by tabs. */
  function Line(row: int, cols: nat, fields: map<Position, string>): string
  {
    if cols == 0 then ""
    else if cols == 1 then Field(fields, Position(row, 0))
    else Line(row, cols - 1, fields) + "\t" + Field(fields, Position(row, cols - 1))
  }

  /** A row grows by a tab, unless it is the first field, then the next field. */
  lemma LineNext(row: int, cols: nat, fields: map<Position, string>)
    ensures Line(row, cols + 1, fields) == (if cols == 0 then "" else Line(row, cols, fields) + "\t") + Field(fields, Position(row, cols))
  {
  }

  /** The first `rows` rows, each ended by a newline. */
  function Grid(rows: nat, cols: nat, fields: map<Position, string>): string
  {
    if rows == 0 then "" else Grid(rows - 1, cols, fields) + Line(rows - 1, cols, fields) + "\n"
  }

  /** How often c occurs in s. */
  function Count(c: char, s: string): (n: nat)
    ensures n <= |s|
  {
    if s == [] then 0 else (if s[0] == c then 1 else 0) + Count(c, s[1..])
  }

  lemma {:induction false} CountConcat(c: char, a: string, b: string)
    ensures Count(c, a + b) == Count(c, a) + Count(c, b)
  {
    if a == [] {
      assert a + b == b;
    } else {
      assert (a + b)[0] == a[0];
      assert (a + b)[1..] == a[1..] + b;
      CountConcat(c, a[1..], b);
    }
  }

  /** A field holding neither a tab nor a newline. */
  predicate Plain(s: string)
  {
    '\t' !in s && '\n' !in s
  }

  lemma {:induction false} PlainCounts(s: string)
    requires Plain(s)
    ensures Count('\t', s) == 0 && Count('\n', s) == 0
  {
    if s != [] {
      assert s[0] in s;
      assert forall c :: c in s[1..] ==> c in s;
      PlainCounts(s[1..]);
    }
  }

  /** The count over a+sep+b splits around the one-character separator. */
  lemma CountJoin(c: char, a: string, sep: char, b: string)
    ensures Count(c, a + [sep] + b) == Count(c, a) + (if sep == c then 1 else 0) + Count(c, b)
  {
    CountConcat(c, a + [sep], b);
    CountConcat(c, a, [sep]);
  }

  /** With plain fields, a row of n > 0 fields has n - 1 tabs and no newline. */
  lemma {:induction false} LineCounts(row: int, cols: nat, fields: map<Position, string>)
    requires forall p :: p in fields ==> Plain(fields[p])
    ensures Count('\t', Line(row, cols, fields)) == (if cols == 0 then 0 else cols - 1)
    ensures Count('\n', Line(row, cols, fields)) == 0
  {
    if cols == 1 {
      PlainCounts(Field(fields, Position(row, 0)));
    } else if cols > 1 {
      var init, last := Line(row, cols - 1, fields), Field(fields, Position(row, cols - 1));
      assert Line(row, cols, fields) == init + ['\t'] + last;
      LineCounts(row, cols - 1, fields);
      PlainCounts(last);
      CountJoin('\t', init, '\t', last);
      CountJoin('\n', init, '\t', last);
    }
  }

  /** With plain fields, the grid has exactly one newline per row. */
  lemma {:induction false} GridLines(rows: nat, cols: nat, fields: map<Position, string>)
    requires forall p :: p in fields ==> Plain(fields[p])
    ensures Count('\n', Grid(rows, cols, fields)) == rows
  {
    if rows > 0 {
      var init, line := Grid(rows - 1, cols, fields), Line(rows - 1, cols, fields);
      assert Grid(rows, cols, fields) == (init + line) + ['\n'] + [];
      GridLines(rows - 1, cols, fields);
      LineCounts(rows - 1, cols, fields);
      CountJoin('\n', init + line, '\n', []);
      CountConcat('\n', init, line);
    }
  }

  /** With plain fields, every row of the grid holds cols - 1 tabs. */
  lemma {:induction false} GridTabs(rows: nat, cols: nat, fields: map<Position, string>)
    requires forall p :: p in fields ==> Plain(fields[p])
    ensures Count('\t', Grid(rows, cols, fields)) == rows * (if cols == 0 then 0 else cols - 1)
  {
    if rows > 0 {
      var init, line := Grid(rows - 1, cols, fields), Line(rows - 1, cols, fields);
      var tabs := if cols == 0 then 0 else cols - 1;
      assert Grid(rows, cols, fields) == (init + line) + ['\n'] + [];
      GridTabs(rows - 1, cols, fields);
      LineCounts(rows - 1, cols, fields);
      CountJoin('\t', init + line, '\n', []);
      CountConcat('\t', init, line);
      RowsTimes(rows, tabs);
    }
  }

  /** One more row adds one more row's worth. */
  lemma RowsTimes(rows: nat, tabs: nat)
    requires rows > 0
    ensures rows * tabs == (rows - 1) * tabs + tabs
  {
  }

  /** What PrintTexts writes for each stored cell: its GetText. */
  function Texts(cells: map<Position, Cell>, env: Env): (fields: map<Position, string>)
    ensures fields.Keys == cells.Keys
  {
    map p | p in cells :: GetText(cells[p].content, env)
  }

  /** What PrintValues writes for each stored cell: its value through the print visitor. */
  ghost function Values(cells: map<Position, Cell>, rank: Position -> nat, env: Env): (fields: map<Position, string>)
    ensures fields.Keys == cells.Keys
  {
    map p | p in cells :: ValueText(ValueAt(cells, rank, env, p), env)
  }

  /**
   * The first loop of Sheet::UpdateSize: while the last printable row has no
   * entry in rows_idx_ (reading it inserts an empty one) or an empty one, the
   * entry is erased and the row count drops by one.
   */
  method TrimRows(ghost cells: map<Position, Cell>, rowsIdx: map<int, set<int>>, colsIdx: map<int, set<int>>, size: Size)
    returns (rIdx: map<int, set<int>>, rows: int)
    requires Indexed(cells, rowsIdx, colsIdx) && Fits(cells, size)
    ensures Indexed(cells, rIdx, colsIdx) && Fits(cells, Size(rows, size.cols))
    ensures 0 <= rows <= size.rows
    ensures rows == 0 || (rows - 1 in rIdx && rIdx[rows - 1] != {})
  {
    rows, rIdx := size.rows, rowsIdx;
    while rows > 0 && (if rows - 1 in rIdx then rIdx[rows - 1] else {}) == {}
      invariant Indexed(cells, rIdx, colsIdx) && Fits(cells, Size(rows, size.cols))
      invariant rows <= size.rows
    {
      EmptyRow(cells, rIdx, colsIdx, Size(rows, size.cols));
      rIdx := rIdx - {rows - 1};
      rows := rows - 1;
    }
  }

  /** The second loop of Sheet::UpdateSize, the same over cols_idx_ and the column count. */
  method TrimColumns(ghost cells: map<Position, Cell>, rowsIdx: map<int, set<int>>, colsIdx: map<int, set<int>>, size: Size)
    returns (cIdx: map<int, set<int>>, cols: int)
    requires Indexed(cells, rowsIdx, colsIdx) && Fits(cells, size)
    ensures Indexed(cells, rowsIdx, cIdx) && Fits(cells, Size(size.rows, cols))
    ensures 0 <= cols <= size.cols
    ensures cols == 0 || (cols - 1 in cIdx && cIdx[cols - 1] != {})
  {
    cols, cIdx := size.cols, colsIdx;
    while cols > 0 && (if cols - 1 in cIdx then cIdx[cols - 1] else {}) == {}
      invariant Indexed(cells, rowsIdx, cIdx) && Fits(cells, Size(size.rows, cols))
      invariant cols <= size.cols
    {
      EmptyColumn(cells, rowsIdx, cIdx, Size(size.rows, cols));
      cIdx := cIdx - {cols - 1};
      cols := cols - 1;
    }
  }

  class Sheet {
    const env: Env
    /** The external grammar parser: the parse tree of an expression, or None on a syntax error. */
    const grammar: string -> Option<ParseTree>
    var cells: map<Position, Cell>
    var rowsIdx: map<int, set<int>>
    var colsIdx: map<int, set<int>>
    var size: Size
    /** Witness that the formula references form no cycle. */
    ghost var rank: Position -> nat
    /** When each stored cell was stored; references_ lead to later cells. */
    ghost var stamp: map<Position, nat>
    ghost var clock: nat

    ghost predicate Valid()
      reads this
    {
      && CellsValid(cells)
      && Ranked(cells, rank)
      && Stamped(cells, stamp, clock)
      && Indexed(cells, rowsIdx, colsIdx)
      && Fits(cells, size)
      && Tight(rowsIdx, colsIdx, size)
    }

    /** CreateSheet / Sheet::Sheet: no cells and an empty printable area. */
    constructor(env: Env, grammar: string -> Option<ParseTree>)
      ensures Valid()
      ensures this.env == env && this.grammar == grammar
      ensures cells == map[] && size == Size(0, 0)
    {
      this.env := env;
      this.grammar := grammar;
      cells := map[];
      rowsIdx := map[];
      colsIdx := map[];
      size := Size(0, 0);
      rank := _ => 0;
      stamp := map[];
      clock := 0;
    }

    /** Sheet::GetCell: an invalid position throws; otherwise the stored cell, if any. */
    function GetCell(pos: Position): (r: Result<Option<Cell>, Exception>)
      reads this
      ensures r.Failure? <==> !IsValid(pos)
      ensures r.Failure? ==> r.error == InvalidPositionException
      ensures r.Success? ==> (r.value.Some? <==> pos in cells)
      ensures r.Success? && r.value.Some? ==> r.value.value == cells[pos]
    {
      if !IsValid(pos) then Failure(InvalidPositionException)
      else if pos in cells then Success(Some(cells[pos]))
      else Success(None)
    }

    /**
     * Sheet::GetPrintableSize. On a valid sheet every stored cell lies inside
     * it, and its last row and last column have index entries, which makes it
     * the least such size (TightIsLeast).
     */
    function GetPrintableSize(): (r: Size)
      reads this
      ensures Valid() ==> r.rows >= 0 && r.cols >= 0
      ensures Valid() ==> forall p :: p in cells ==> p.row < r.rows && p.col < r.cols
      ensures Valid() ==> Tight(rowsIdx, colsIdx, r)
    {
      size
    }

    /**
     * The part of Sheet::SetCell after the new cell is built: store it and
     * record its position in the row and column indexes and the printable size.
     */
    method Store(cell: Cell, ghost exempt: Position)
      requires IsValid(cell.pos) && ContentValid(cell.content) && cell.references == {}
      requires CellsValid(cells) && Indexed(cells, rowsIdx, colsIdx) && Fits(cells, size) && Tight(rowsIdx, colsIdx, size)
      requires StampedExcept(cells, stamp, clock, exempt)
      modifies this`cells, this`rowsIdx, this`colsIdx, this`size, this`stamp, this`clock
      ensures cells == old(cells)[cell.pos := cell]
      ensures size == Grow(old(size), cell.pos)
      ensures rank == old(rank) && clock == old(clock) + 1 && stamp == old(stamp)[cell.pos := old(clock)]
      ensures CellsValid(cells) && Indexed(cells, rowsIdx, colsIdx) && Fits(cells, size) && Tight(rowsIdx, colsIdx, size)
      ensures StampedExcept(cells, stamp, clock, exempt)
      ensures exempt == cell.pos ==> Stamped(cells, stamp, clock)
    {
      ghost var prev := cells;
      PutCell(cell, exempt);
      RecordPosition(cell, prev);
    }

    /** cells_[pos] = the new cell; the ghost stamp of pos becomes the newest. */
    method PutCell(cell: Cell, ghost exempt: Position)
      requires IsValid(cell.pos) && ContentValid(cell.content) && cell.references == {}
      requires CellsValid(cells) && StampedExcept(cells, stamp, clock, exempt)
      modifies this`cells, this`stamp, this`clock
      ensures cells == old(cells)[cell.pos := cell]
      ensures clock == old(clock) + 1 && stamp == old(stamp)[cell.pos := old(clock)]
      ensures CellsValid(cells) && StampedExcept(cells, stamp, clock, exempt)
      ensures exempt == cell.pos ==> Stamped(cells, stamp, clock)
    {
      StoreKeepsCellsValid(cells, cell);
      StoreKeepsStamped(cells, stamp, clock, exempt, cell);
      cells := cells[cell.pos := cell];
      stamp := stamp[cell.pos := clock];
      clock := clock + 1;
    }

    /** The row and column indexes record the stored cell's position, and the printable size grows to hold it. */
    method RecordPosition(cell: Cell, ghost prev: map<Position, Cell>)
      requires IsValid(cell.pos) && cells == prev[cell.pos := cell]
      requires Indexed(prev, rowsIdx, colsIdx) && Fits(prev, size) && Tight(rowsIdx, colsIdx, size)
      modifies this`rowsIdx, this`colsIdx, this`size
      ensures Indexed(cells, rowsIdx, colsIdx) && Fits(cells, size) && Tight(rowsIdx, colsIdx, size)
      ensures size == Grow(old(size), cell.pos)
    {
      var pos := cell.pos;
      StoreKeepsIndexed(prev, rowsIdx, colsIdx, cell);
      StoreKeepsSize(prev, rowsIdx, colsIdx, size, cell);
      rowsIdx := IndexAdd(rowsIdx, pos.row, pos.col);
      colsIdx := IndexAdd(colsIdx, pos.col, pos.row);
      size := Grow(size, pos);
    }

    /** Sheet::UpdateSize: drops trailing empty rows, then trailing empty columns. */
    method UpdateSize()
      requires Indexed(cells, rowsIdx, colsIdx) && Fits(cells, size)
      modifies this`rowsIdx, this`colsIdx, this`size
      ensures cells == old(cells) && rank == old(rank) && stamp == old(stamp) && clock == old(clock)
      ensures Indexed(cells, rowsIdx, colsIdx) && Fits(cells, size) && Tight(rowsIdx, colsIdx, size)
      ensures size.rows <= old(size.rows) && size.cols <= old(size.cols)
    {
      var rIdx, rows := TrimRows(cells, rowsIdx, colsIdx, size);
      var cIdx, cols := TrimColumns(cells, rIdx, colsIdx, Size(rows, size.cols));
      rowsIdx, colsIdx, size := rIdx, cIdx, Size(rows, cols);
    }

    /** The expression parses: the grammar accepts it and the listener builds a tree from it. */
    ghost predicate Parses(expression: string)
    {
      grammar(expression).Some? && ToExpr(grammar(expression).value, env).Some?
    }

    /** The tree of an expression that parses. */
    ghost function ParsedRoot(expression: string): Expr
      requires Parses(expression)
    {
      ToExpr(grammar(expression).value, env).value
    }

    /** The content Cell::Set installs for a text. */
    ghost predicate Holds(c: Content, text: string)
    {
      match Classify(text)
      case EmptyKind => c == EmptyImpl
      case TextKind => c == TextImpl(text)
      case FormulaKind(e) => Parses(e) && c.FormulaImpl? && c.raw == text && c.formula.ast.root == ParsedRoot(e)
    }

    /**
     * Cell::CheckDependencies for a new cell at pos: true exactly when no chain
     * of references starting at refs leads to pos.
     */
    method CheckDependencies(pos: Position, refs: seq<Position>) returns (ok: bool)
      requires Valid()
      requires forall r :: r in refs ==> IsValid(r)
      ensures ok <==> forall r :: r in refs ==> !Reaches(cells, rank, r, pos)
      decreases MaxRank(rank, refs)
    {
      for i := 0 to |refs|
        invariant forall r :: r in refs[..i] ==> !Reaches(cells, rank, r, pos)
      {
        var r := refs[i];
        if r == pos {
          assert Reaches(cells, rank, r, pos);
          return false;
        }
        var cell := GetCell(r);
        if cell.value.Some? {
          var sub := GetReferencedCellsOf(cell.value.value.content);
          MaxRankLeast(rank, sub, rank(r));
          var subOk := CheckDependencies(pos, sub);
          if !subOk {
            ghost var y :| y in sub && Reaches(cells, rank, y, pos);
            assert Reaches(cells, rank, r, pos);
            return false;
          }
        }
        assert refs[..i + 1] == refs[..i] + [r];
      }
      assert refs[..|refs|] == refs;
      return true;
    }

    /** Valid, except that references_ entries naming pos need not respect the stamps. */
    ghost predicate ValidExcept(pos: Position)
      reads this
    {
      && CellsValid(cells)
      && Ranked(cells, rank)
      && StampedExcept(cells, stamp, clock, pos)
      && Indexed(cells, rowsIdx, colsIdx)
      && Fits(cells, size)
      && Tight(rowsIdx, colsIdx, size)
    }

    /**
     * The loop of Cell::Set over a new formula's references: a missing cell is
     * created by SetCell(ref, ""), which stores an empty cell, and every
     * referenced cell records pos as a dependent.
     */
    method RegisterDependent(pos: Position, refs: seq<Position>)
      requires ValidExcept(pos)
      requires forall r :: r in refs ==> IsValid(r)
      modifies this
      ensures ValidExcept(pos)
      ensures rank == old(rank)
      ensures cells == Registered(old(cells), refs, pos)
      ensures size.rows >= old(size.rows) && size.cols >= old(size.cols)
    {
      ghost var before := cells;
      assert cells == Registered(before, [], pos);
      for i := 0 to |refs|
        invariant ValidExcept(pos)
        invariant rank == old(rank)
        invariant cells == Registered(before, refs[..i], pos)
        invariant size.rows >= old(size.rows) && size.cols >= old(size.cols)
      {
        var r := refs[i];
        assert refs[..i + 1] == refs[..i] + [r];
        RegisteredStep(before, refs[..i], r, pos);
        RegisterOne(pos, r);
      }
      assert refs[..|refs|] == refs;
    }

    /** One step of that loop, for the referenced position r. */
    method RegisterOne(pos: Position, r: Position)
      requires ValidExcept(pos)
      requires IsValid(r)
      modifies this
      ensures ValidExcept(pos)
      ensures rank == old(rank)
      ensures var m := if r in old(cells) then old(cells) else old(cells)[r := NewCell(r, EmptyImpl)];
        cells == m[r := AddReference(m[r], pos)]
      ensures size.rows >= old(size.rows) && size.cols >= old(size.cols)
    {
      var cell := GetCell(r);
      if cell.value.None? {
        CreateEmpty(r, pos);
      }
      Depend(r, pos);
    }

    /** SetCell(r, "") for a missing cell: an empty cell is stored at r. */
    method CreateEmpty(r: Position, ghost pos: Position)
      requires ValidExcept(pos)
      requires IsValid(r) && r !in cells
      modifies this
      ensures ValidExcept(pos)
      ensures rank == old(rank)
      ensures cells == old(cells)[r := NewCell(r, EmptyImpl)]
      ensures size.rows >= old(size.rows) && size.cols >= old(size.cols)
    {
      EmptyKeepsRanked(cells, rank, r);
      Store(NewCell(r, EmptyImpl), pos);
    }

    /** GetCell(r)->AddReference(pos) on a stored cell. */
    method Depend(r: Position, pos: Position)
      requires ValidExcept(pos)
      requires r in cells
      modifies this
      ensures ValidExcept(pos)
      ensures rank == old(rank) && size == old(size)
      ensures cells == old(cells)[r := AddReference(old(cells)[r], pos)]
    {
      RegisterKeepsInvariants(cells, rank, stamp, clock, rowsIdx, colsIdx, size, r, pos);
      cells := cells[r := AddReference(cells[r], pos)];
    }

    /**
     * Sheet::SetCell with the Cell constructor and Cell::Set: an invalid
     * position throws; otherwise a fresh cell is built for the text. A formula
     * that does not parse, or whose references lead back to pos, throws and
     * leaves the sheet as it was. Otherwise the referenced cells (created empty
     * when missing) record pos as a dependent, and the fresh cell replaces the
     * old one: it has no dependents and no cached value. The fresh cell's
     * Invalidate and ClearRefs calls in Set find neither dependents nor
     * references and change nothing.
     */
    method SetCell(pos: Position, text: string) returns (raised: Option<Exception>)
      requires Valid()
      modifies this
      ensures Valid()
      ensures raised == Some(InvalidPositionException) <==> !IsValid(pos)
      ensures raised == Some(FormulaException) <==>
        IsValid(pos) && Classify(text).FormulaKind? && !Parses(Classify(text).expression)
      ensures raised == Some(CircularDependencyException) <==>
        IsValid(pos) && Classify(text).FormulaKind? && Parses(Classify(text).expression)
        && exists r :: r in CellsOf(ParsedRoot(Classify(text).expression)) && Reaches(old(cells), old(rank), r, pos)
      ensures raised.Some? ==> cells == old(cells) && rowsIdx == old(rowsIdx) && colsIdx == old(colsIdx) && size == old(size)
      ensures raised.None? ==>
        && pos in cells && Holds(cells[pos].content, text)
        && cells == Registered(old(cells), Refs(cells[pos].content), pos)[pos := NewCell(pos, cells[pos].content)]
      ensures size.rows >= old(size.rows) && size.cols >= old(size.cols)
    {
      if !IsValid(pos) {
        return Some(InvalidPositionException);
      }
      match Classify(text) {
        case EmptyKind =>
          RegisteredNothing(cells, pos);
          SetPlain(pos, EmptyImpl);
          raised := None;
        case TextKind =>
          RegisteredNothing(cells, pos);
          SetPlain(pos, TextImpl(text));
          raised := None;
        case FormulaKind(expression) =>
          raised := SetFormula(pos, text, expression);
      }
    }

    /** Cell::Set for a formula text: parse, check for a cycle, register, install. */
    method SetFormula(pos: Position, text: string, expression: string) returns (raised: Option<Exception>)
      requires Valid() && IsValid(pos) && Classify(text) == FormulaKind(expression)
      modifies this
      ensures Valid()
      ensures raised != Some(InvalidPositionException)
      ensures raised == Some(FormulaException) <==> !Parses(expression)
      ensures raised == Some(CircularDependencyException) <==>
        Parses(expression) && exists r :: r in CellsOf(ParsedRoot(expression)) && Reaches(old(cells), old(rank), r, pos)
      ensures raised.Some? ==> cells == old(cells) && rowsIdx == old(rowsIdx) && colsIdx == old(colsIdx) && size == old(size)
      ensures raised.None? ==>
        && pos in cells && Holds(cells[pos].content, text)
        && cells == Registered(old(cells), Refs(cells[pos].content), pos)[pos := NewCell(pos, cells[pos].content)]
      ensures size.rows >= old(size.rows) && size.cols >= old(size.cols)
    {
      var parsed := ParseFormula(expression, grammar, env);
      if parsed.Failure? {
        return Some(FormulaException);
      }
      var formula := parsed.value;
      var refs := GetReferencedCells(formula);
      ReferencedAreTreeCells(formula);
      ToExprValidCells(grammar(expression).value, env);
      assert forall r :: r in refs <==> r in CellsOf(formula.ast.root) by {
        assert forall r :: r in refs <==> r in Elements(refs);
        assert forall r :: r in CellsOf(formula.ast.root) <==> r in Elements(CellsOf(formula.ast.root));
      }
      var ok := CheckDependencies(pos, refs);
      if !ok {
        return Some(CircularDependencyException);
      }
      ghost var before := cells;
      ValidIsValidExcept(pos);
      RegisterDependent(pos, refs);
      RegisteredInstalls(before, refs, pos, FormulaImpl(text, formula));
      Install(pos, FormulaImpl(text, formula), before, refs);
      return None;
    }

    /** Cell::Set for an empty or plain text: the fresh cell is stored. */
    method SetPlain(pos: Position, content: Content)
      requires Valid() && IsValid(pos) && !content.FormulaImpl?
      modifies this
      ensures Valid()
      ensures cells == old(cells)[pos := NewCell(pos, content)]
      ensures size == Grow(old(size), pos)
    {
      ValidIsValidExcept(pos);
      RegisteredInstalls(cells, [], pos, content);
      Install(pos, content, cells, []);
    }

    lemma ValidIsValidExcept(pos: Position)
      requires Valid()
      ensures ValidExcept(pos)
    {
    }

    /**
     * The end of Sheet::SetCell: the fresh cell, whose references were
     * registered in before, is stored, and the rank lifted above them.
     */
    method Install(pos: Position, content: Content, ghost before: map<Position, Cell>, ghost refs: seq<Position>)
      requires ValidExcept(pos) && IsValid(pos) && ContentValid(content) && Refs(content) == refs
      requires Ranked(before, rank) && Installs(before, cells[pos := NewCell(pos, content)], pos, refs)
      requires forall r :: r in refs ==> !Reaches(before, rank, r, pos)
      modifies this
      ensures Valid()
      ensures cells == old(cells)[pos := NewCell(pos, content)]
      ensures size == Grow(old(size), pos)
    {
      InstallKeepsAcyclic(before, cells[pos := NewCell(pos, content)], rank, pos, refs);
      ghost var rank' := Rerank(before, rank, pos, MaxRank(rank, refs));
      Store(NewCell(pos, content), pos);
      rank := rank';
    }

    /** The parts of Valid that evaluation relies on: well-formed formulas over an acyclic graph. */
    ghost predicate Evaluable()
      reads this
    {
      CellsValid(cells) && Ranked(cells, rank)
    }

    /**
     * Cell::GetValue on the stored cell at p: the cached value when there is
     * one; otherwise the content's value (a formula evaluated through
     * Formula::Evaluate, which reads other cells through GetValue), which is
     * then cached. Every cache filled on the way holds the value that cell had.
     */
    method GetValue(p: Position) returns (v: CellValue)
      requires Evaluable() && p in cells
      modifies this`cells
      ensures Evaluable()
      ensures v == ValueAt(old(cells), rank, env, p)
      ensures MemoExtends(old(cells), cells, rank, env)
      ensures p in cells && cells[p].hasValue && cells[p].cache == v
      ensures forall q :: q in old(cells) && !Reaches(old(cells), rank, p, q) ==> cells[q] == old(cells)[q]
      decreases rank(p), 1
    {
      var cell := cells[p];
      if cell.hasValue {
        return cell.cache;
      }
      ghost var before := cells;
      if cell.content.FormulaImpl? {
        TreeCellsBelow(cells, rank, p);
        var result := EvaluateExpr(cell.content.formula.ast.root, rank(p));
        ReadsAreReached(before, cells, rank, p, cell.content.formula.ast.root);
        v := ToValue(result);
      } else {
        v := PlainValue(cell.content);
      }
      Cache(p, v, before);
    }

    /** has_value_ = true and cache_ = v on the cell at p, whose value in before is v. */
    method Cache(p: Position, v: CellValue, ghost before: map<Position, Cell>)
      requires Evaluable() && p in before && !before[p].hasValue
      requires MemoExtends(before, cells, rank, env)
      requires v == ValueAt(before, rank, env, p)
      modifies this`cells
      ensures Evaluable()
      ensures MemoExtends(before, cells, rank, env)
      ensures cells == old(cells)[p := old(cells)[p].(hasValue := true, cache := v)]
      ensures p in cells && cells[p].hasValue && cells[p].cache == v
    {
      CacheStep(before, cells, rank, env, p, v);
      ShapeKeepsEvaluable(cells, cells[p := cells[p].(hasValue := true, cache := v)], rank);
      cells := cells[p := cells[p].(hasValue := true, cache := v)];
    }

    /**
     * FormulaAST::Execute and Expr::Evaluate over the sheet: a cell reference
     * reads the stored cell's value through GetValue (0 for a missing cell),
     * and any error ends the evaluation. The result is the value of the tree
     * over the cells as they were.
     */
    method EvaluateExpr(e: Expr, ghost bound: nat) returns (r: Result<real, Category>)
      requires Evaluable()
      requires forall q :: q in CellsOf(e) ==> rank(q) < bound
      modifies this`cells
      ensures Evaluable()
      ensures r == Expressions.Evaluate(e, env, Lookup(old(cells), rank, env, bound))
      ensures MemoExtends(old(cells), cells, rank, env)
      ensures ChangedWithin(old(cells), cells, rank, CellsOf(e))
      decreases bound, 0, e
    {
      match e {
        case NumberExpr(v) =>
          r := Success(v);
        case CellExpr(q) =>
          var cell := GetCell(q);
          if cell.Success? && cell.value.Some? {
            assert q in CellsOf(e);
            var v := GetValue(q);
            assert q in CellsOf(e);
            r := CellNumber(Some(v), env);
          } else {
            r := CellNumber(None, env);
          }
        case UnaryOpExpr(op, x) =>
          var operand := EvaluateExpr(x, bound);
          UnaryEvaluation(op, x, env, Lookup(old(cells), rank, env, bound));
          if operand.Failure? {
            r := operand;
          } else {
            r := Success(if op == UnaryMinus then -operand.value else operand.value);
          }
        case BinaryOpExpr(op, left, right) =>
          r := EvaluateBinary(op, left, right, bound);
      }
    }

    /** BinaryOpExpr::Evaluate: the right operand first, then the left, then the checked operation. */
    method EvaluateBinary(op: BinaryOp, left: Expr, right: Expr, ghost bound: nat) returns (r: Result<real, Category>)
      requires Evaluable()
      requires forall q :: q in CellsOf(BinaryOpExpr(op, left, right)) ==> rank(q) < bound
      modifies this`cells
      ensures Evaluable()
      ensures r == Expressions.Evaluate(BinaryOpExpr(op, left, right), env, Lookup(old(cells), rank, env, bound))
      ensures MemoExtends(old(cells), cells, rank, env)
      ensures ChangedWithin(old(cells), cells, rank, CellsOf(BinaryOpExpr(op, left, right)))
      decreases bound, 0, BinaryOpExpr(op, left, right), 1
    {
      ghost var before := cells;
      var rv := EvaluateExpr(right, bound);
      BinaryErrorOrder(op, left, right, env, Lookup(before, rank, env, bound));
      if rv.Failure? {
        ChangedWithinMore(before, cells, rank, CellsOf(right), CellsOf(BinaryOpExpr(op, left, right)));
        return rv;
      }
      r := EvaluateLeft(op, left, right, rv.value, bound, before);
    }

    /** The rest of BinaryOpExpr::Evaluate once the right operand has a value. */
    method EvaluateLeft(op: BinaryOp, left: Expr, right: Expr, rv: real, ghost bound: nat, ghost before: map<Position, Cell>)
      returns (r: Result<real, Category>)
      requires Evaluable()
      requires forall q :: q in CellsOf(BinaryOpExpr(op, left, right)) ==> rank(q) < bound
      requires MemoExtends(before, cells, rank, env)
      requires Expressions.Evaluate(right, env, Lookup(before, rank, env, bound)) == Success(rv)
      requires ChangedWithin(before, cells, rank, CellsOf(right))
      modifies this`cells
      ensures Evaluable()
      ensures r == Expressions.Evaluate(BinaryOpExpr(op, left, right), env, Lookup(before, rank, env, bound))
      ensures MemoExtends(before, cells, rank, env)
      ensures ChangedWithin(before, cells, rank, CellsOf(BinaryOpExpr(op, left, right)))
      decreases bound, 0, BinaryOpExpr(op, left, right), 0
    {
      ghost var mid := cells;
      var lv := EvaluateExpr(left, bound);
      MemoKeepsEvaluation(before, mid, rank, env, bound, left);
      ChangedTransitive(before, mid, cells, rank, env, CellsOf(right), CellsOf(left), CellsOf(BinaryOpExpr(op, left, right)));
      MemoTransitive(before, mid, cells, rank, env);
      BinaryErrorOrder(op, left, right, env, Lookup(before, rank, env, bound));
      if lv.Failure? {
        return lv;
      }
      var result := Apply(op, env, lv.value, rv);
      if !env.isFinite(result) {
        r := Failure(Arithmetic);
      } else {
        r := Success(result);
      }
    }

    /**
     * Cell::Invalidate on the stored cell at p: its cached value is dropped,
     * then every stored dependent is invalidated in turn. Exactly the caches of
     * p's dependents, direct and indirect, are dropped.
     */
    method Invalidate(p: Position)
      requires Stamped(cells, stamp, clock) && p in cells
      modifies this`cells
      ensures Stamped(cells, stamp, clock)
      ensures cells == ClearCaches(old(cells), Dependents(old(cells), stamp, clock, p))
      decreases clock - stamp[p]
    {
      ghost var before := cells;
      ForgetValue(p);
      var todo := cells[p].references;
      ghost var refs, done: set<Position> := todo, {};
      ReachedNothing(before, stamp, clock, p);
      while todo != {}
        invariant todo + done == refs == before[p].references && todo !! done
        invariant Stamped(before, stamp, clock)
        invariant cells == ClearCaches(before, {p} + Reached(before, stamp, clock, done))
        decreases |todo|
      {
        var x :| x in todo;
        InvalidateNext(p, x, before, done);
        MoveOne(todo, done, x);
        todo := todo - {x};
        done := done + {x};
      }
      DependentsUnfold(before, stamp, clock, p);
      ClearingKeepsShape(before, Dependents(before, stamp, clock, p));
      ShapeKeepsStamped(before, cells, stamp, clock);
    }

    /**
     * One turn of the loop in Invalidate: the dependent x of p, if stored, is
     * invalidated, which adds its dependents to the cleared caches.
     */
    method InvalidateNext(p: Position, x: Position, ghost before: map<Position, Cell>, ghost done: set<Position>)
      requires Stamped(before, stamp, clock) && p in before && x in before[p].references
      requires cells == ClearCaches(before, {p} + Reached(before, stamp, clock, done))
      modifies this`cells
      ensures cells == ClearCaches(before, {p} + Reached(before, stamp, clock, done + {x}))
      decreases clock - stamp[p], 1
    {
      ghost var gone := {p} + Reached(before, stamp, clock, done);
      ReachedTurn(before, stamp, clock, p, done, x);
      if x in cells {
        InvalidateDependent(p, x, before, gone);
      }
    }

    /** has_value_ = false on the cell at p. */
    method ForgetValue(p: Position)
      requires Stamped(cells, stamp, clock) && p in cells
      modifies this`cells
      ensures Stamped(cells, stamp, clock) && p in cells
      ensures cells == ClearCaches(old(cells), {p})
    {
      ClearingKeepsShape(cells, {p});
      ShapeKeepsStamped(cells, ClearCaches(cells, {p}), stamp, clock);
      cells := ClearCaches(cells, {p});
    }

    /** The stored dependent x of p is invalidated, on top of the caches already cleared. */
    method InvalidateDependent(p: Position, x: Position, ghost before: map<Position, Cell>, ghost gone: set<Position>)
      requires Stamped(before, stamp, clock) && p in before && x in before[p].references && x in before
      requires cells == ClearCaches(before, gone)
      modifies this`cells
      ensures Stamped(cells, stamp, clock)
      ensures cells == ClearCaches(before, gone + Dependents(before, stamp, clock, x))
      decreases clock - stamp[p], 0
    {
      ClearingKeepsShape(before, gone);
      DependentsIgnoreCaches(before, cells, stamp, clock, x);
      Invalidate(x);
      ClearCachesTwice(before, gone, Dependents(before, stamp, clock, x));
    }

    /**
     * Sheet::ClearCell: an invalid position throws; a stored cell is erased and
     * the printable size shrunk to fit. Dependents keep the erased position in
     * their references_, and no cell is invalidated.
     */
    method ClearCell(pos: Position) returns (raised: Option<Exception>)
      requires Valid()
      modifies this
      ensures Valid()
      ensures raised.Some? <==> !IsValid(pos)
      ensures raised.Some? ==> raised.value == InvalidPositionException
      ensures raised.Some? || pos !in old(cells) ==>
        cells == old(cells) && rowsIdx == old(rowsIdx) && colsIdx == old(colsIdx) && size == old(size)
      ensures cells == old(cells) - {pos}
      ensures size.rows <= old(size.rows) && size.cols <= old(size.cols)
      ensures rank == old(rank)
    {
      if !IsValid(pos) {
        assert pos !in cells;
        assert cells - {pos} == cells;
        return Some(InvalidPositionException);
      }
      if pos in cells {
        Erase(pos);
      } else {
        assert cells - {pos} == cells;
      }
      return None;
    }

    /** The body of ClearCell for a stored cell: erase it and its index entries, then UpdateSize. */
    method Erase(pos: Position)
      requires Valid() && pos in cells
      modifies this`cells, this`stamp, this`rowsIdx, this`colsIdx, this`size
      ensures Valid()
      ensures cells == old(cells) - {pos}
      ensures size.rows <= old(size.rows) && size.cols <= old(size.cols)
      ensures rank == old(rank)
    {
      ghost var prev := cells;
      DropCell(pos);
      ForgetPosition(pos, prev);
      UpdateSize();
    }

    /** cells_.erase: the cell and its ghost stamp go. */
    method DropCell(pos: Position)
      requires CellsValid(cells) && Ranked(cells, rank) && Stamped(cells, stamp, clock) && Fits(cells, size)
      modifies this`cells, this`stamp
      ensures cells == old(cells) - {pos} && stamp == old(stamp) - {pos}
      ensures CellsValid(cells) && Ranked(cells, rank) && Stamped(cells, stamp, clock) && Fits(cells, size)
    {
      EraseKeepsInvariants(cells, rank, stamp, clock, size, pos);
      cells := cells - {pos};
      stamp := stamp - {pos};
    }

    /** rows_idx_[row].erase(col) and cols_idx_[col].erase(row). */
    method ForgetPosition(pos: Position, ghost prev: map<Position, Cell>)
      requires Indexed(prev, rowsIdx, colsIdx) && cells == prev - {pos}
      modifies this`rowsIdx, this`colsIdx
      ensures Indexed(cells, rowsIdx, colsIdx)
    {
      EraseKeepsIndexed(prev, rowsIdx, colsIdx, pos);
      rowsIdx := IndexRemove(rowsIdx, pos.row, pos.col);
      colsIdx := IndexRemove(colsIdx, pos.col, pos.row);
    }

    /**
     * Sheet::Print: each row of the printable area, its fields separated by
     * tabs and followed by a newline. A stored cell's field is what pred
     * writes for it, a missing cell's field is empty.
     */
    method Print(pred: Cell -> string) returns (output: string)
      requires Fits(cells, size)
      ensures output == Grid(size.rows, size.cols, map p | p in cells :: pred(cells[p]))
    {
      ghost var fields := map p | p in cells :: pred(cells[p]);
      output := "";
      for rowId := 0 to size.rows
        invariant output == Grid(rowId, size.cols, fields)
      {
        var firstCol := true;
        for colId := 0 to size.cols
          invariant firstCol <==> colId == 0
          invariant output == Grid(rowId, size.cols, fields) + Line(rowId, colId, fields)
        {
          if firstCol {
            firstCol := false;
          } else {
            output := output + "\t";
          }
          var pos := Position(rowId, colId);
          if pos in cells {
            output := output + pred(cells[pos]);
          }
        }
        output := output + "\n";
      }
    }

    /** Sheet::PrintTexts: every stored cell prints its GetText. */
    method PrintTexts() returns (output: string)
      requires Fits(cells, size)
      ensures output == Grid(size.rows, size.cols, Texts(cells, env))
    {
      output := Print((c: Cell) => GetText(c.content, env));
      assert (map p | p in cells :: ((c: Cell) => GetText(c.content, env))(cells[p])) == Texts(cells, env);
    }

    /**
     * Sheet::PrintValues: every stored cell prints its GetValue through the
     * print visitor. GetValue fills caches on the way, so this walk keeps its
     * own loops; the text is that of the values the cells had before.
     */
    method PrintValues() returns (output: string)
      requires Valid()
      modifies this`cells
      ensures Valid()
      ensures MemoExtends(old(cells), cells, rank, env)
      ensures output == Grid(size.rows, size.cols, Values(old(cells), rank, env))
      ensures forall q :: q in cells ==> cells[q].hasValue
    {
      ghost var before := cells;
      output := PrintValueRows(before);
      MemoKeepsShape(before, cells, rank, env);
      ShapeKeepsInvariants(before, cells, rank, stamp, clock, rowsIdx, colsIdx, size);
    }

    /** The rows of PrintValues, each followed by a newline. */
    method PrintValueRows(ghost before: map<Position, Cell>) returns (output: string)
      requires Evaluable() && MemoExtends(before, cells, rank, env) && size.rows >= 0 && size.cols >= 0
      modifies this`cells
      ensures Evaluable() && MemoExtends(before, cells, rank, env)
      ensures output == Grid(size.rows, size.cols, Values(before, rank, env))
      ensures forall q :: q in cells && 0 <= q.row < size.rows && 0 <= q.col < size.cols ==> cells[q].hasValue
    {
      ghost var fields := Values(before, rank, env);
      output := "";
      for rowId := 0 to size.rows
        invariant Evaluable() && MemoExtends(before, cells, rank, env)
        invariant output == Grid(rowId, size.cols, fields)
        invariant forall q :: q in cells && 0 <= q.row < rowId && 0 <= q.col < size.cols ==> cells[q].hasValue
      {
        var line := PrintValuesRow(rowId, before);
        output := output + line + "\n";
      }
    }

    /** One row of PrintValues: the row's fields, tab separated. */
    method PrintValuesRow(rowId: int, ghost before: map<Position, Cell>) returns (line: string)
      requires Evaluable() && MemoExtends(before, cells, rank, env) && size.cols >= 0
      modifies this`cells
      ensures Evaluable() && MemoExtends(before, cells, rank, env)
      ensures line == Line(rowId, size.cols, Values(before, rank, env))
      ensures forall q :: q in old(cells) && old(cells)[q].hasValue ==> q in cells && cells[q].hasValue
      ensures forall q :: q in cells && q.row == rowId && 0 <= q.col < size.cols ==> cells[q].hasValue
    {
      ghost var fields := Values(before, rank, env);
      ghost var start := cells;
      line := "";
      var firstCol := true;
      for colId := 0 to size.cols
        invariant Evaluable() && MemoExtends(before, cells, rank, env)
        invariant forall q :: q in start && start[q].hasValue ==> q in cells && cells[q].hasValue
        invariant forall q :: q in cells && q.row == rowId && 0 <= q.col < colId ==> cells[q].hasValue
        invariant firstCol <==> colId == 0
        invariant line == Line(rowId, colId, fields)
      {
        if firstCol {
          firstCol := false;
        } else {
          line := line + "\t";
        }
        ghost var mid := cells;
        var text := PrintValue(Position(rowId, colId), before);
        RowCachedStep(mid, cells, rowId, colId);
        assert text == Field(fields, Position(rowId, colId));
        line := line + text;
        LineNext(rowId, colId, fields);
      }
    }

    /**
     * The field PrintValues writes at p: nothing for an absent cell, otherwise
     * the cell's value through the visitor, which leaves that cell cached.
     */
    method PrintValue(p: Position, ghost before: map<Position, Cell>) returns (text: string)
      requires Evaluable()
      requires MemoExtends(before, cells, rank, env)
      modifies this`cells
      ensures Evaluable() && MemoExtends(before, cells, rank, env)
      ensures p in cells ==> text == ValueText(ValueAt(before, rank, env, p), env) && cells[p].hasValue
      ensures p !in cells ==> text == ""
      ensures forall q :: q in old(cells) && old(cells)[q].hasValue ==> q in cells && cells[q].hasValue
    {
      if p !in cells {
        return "";
      }
      ghost var mid := cells;
      var v := GetValue(p);
      MemoKeepsValue(before, mid, rank, env, p);
      MemoTransitive(before, mid, cells, rank, env);
      text := ValueText(v, env);
    }
}
}
