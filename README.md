# cpp-spreadsheet core in Dafny

This project models the computational core of a small C++ spreadsheet:

- **formula expression trees**: the four node kinds, the minimal-parenthesis printer driven by `PRECEDENCE_RULES`, the debug printer, evaluation with errors carried as values, and the listener stack that assembles nodes while the parse tree is walked;
- **formulas**: construction, evaluation that turns a thrown `FormulaError` into a value, canonical text and the sorted list of referenced cells;
- **cells**: classification of input text by its first character, the Empty/Text/Formula content variants, the set of dependents (`references_`), the memoised value cache, the recursive cycle check and the recursive invalidation;
- **the sheet**: the `Position → Cell` map with position validation, the per-row and per-column occupancy indexes, the printable size (grown on set, shrunk on clear by `UpdateSize`), and the tab-separated printers.

Files and modules:

| file | module | models |
|---|---|---|
| `wrappers.dfy` | `Wrappers` | `Option`, `Result` (the exceptions) |
| `common.dfy` | `Common` | `common.h`: `Position`, `PositionHash`, `Size`, `FormulaError::Category`, the cell `Value`, the markers, and `Env`, the record of operations the core uses but does not define |
| `positions.dfy` | `PositionOrder` | the order on positions and the two sorts the core runs over position lists |
| `formula_ast.dfy` | `Expressions` | `FormulaAST.cpp` |
| `formula.dfy` | `Formulas` | `formula.cpp` |
| `cells.dfy` | `Cells` | `cell.h` / `cell.cpp`: contents, getters, reference sets, and the graph and cache notions the cell operations rely on |
| `sheet.dfy` | `Sheets` | `sheet.h` / `sheet.cpp`, plus the cell operations that call back into the sheet (`Cell::Set`, `CheckDependencies`, `Invalidate`, `GetValue`) as methods of the `Sheet` class |

Cells are values of the datatype `Cells.Cell` held in the map field `Sheets.Sheet.cells`. A method that changes a cell reassigns that cell's map entry. Arithmetic on doubles, number parsing and formatting, `Position::ToString`/`FromString` and the text of an error are fields of `Common.Env`, so the model is proved for every choice of them. The external grammar parser is the function `grammar` held by the sheet. It yields a parse tree or fails.

The model follows the code where the code differs from the intended design:

- `Sheet::SetCell` always builds a brand-new `Cell` (`sheet.cpp:22`). The `Invalidate()` and `ClearRefs()` calls at the start of `Cell::Set` therefore run on a fresh cell that has no dependents and no content, and do nothing. The old cell's set of dependents is dropped. Its formula's registrations on other cells stay behind. The dependents' caches are not invalidated.
- `Sheet::ClearCell` unregisters nothing and invalidates nothing.
- `Cell::CheckDependencies` is the unmemoised recursion of the code.
- Forward/reverse symmetry and transitive cache invalidation are therefore not proved. What is proved: the forward-reference graph stays acyclic (`Sheet.Valid` holds a rank function that every reference decreases), and a rejected `SetCell` leaves the sheet unchanged.

## Model

| member | source | states |
|---|---|---|
| `Common.HashKey` | spreadsheet/common.h:39-42 | For a valid position, the key lies in `[0, MAX_ROWS*MAX_COLS)`, and dividing or taking the remainder by `MAX_COLS` gives back the row and the column. |
| `Common.HashKeyInjective` | spreadsheet/common.h:25-42 | Two valid positions have equal hash keys exactly when they are equal. |
| `Common.HashKeyFitsInt` | spreadsheet/common.h:25-42 | The key of a valid position is below 2^31, so `row*MAX_COLS + col` never overflows a 32-bit `int`. |
| `Common.DefaultsAreZero` | spreadsheet/common.h:13-15 | A default `Position` is row 0, column 0 and is valid. A default `Size` is {0, 0}. |
| `Common.MarkersDistinct` | spreadsheet/common.h:118-119 | The formula marker `=` and the escape marker `'` differ. |
| `Common.IsValid` | spreadsheet/common.h:20 | Defines `Position::IsValid` as both coordinates inside `[0, MAX_ROWS)` and `[0, MAX_COLS)`. `HashKey` and `HashKeyFitsInt` rely on it. |
| `Common.Less` | spreadsheet/common.h:18 | Defines `Position::operator<` as row-major order. `LessIsStrictTotal` proves it is a strict total order. |
| `Common.LessIsStrictTotal` | spreadsheet/common.h:18 | The order is irreflexive, transitive, asymmetric and total, which both sorts of the core need. |
| `PositionOrder.SortPositions` | spreadsheet/FormulaAST.cpp:440-444 | `cells_.sort()`: the result is sorted and is a permutation of the input. |
| `PositionOrder.Insert` | spreadsheet/FormulaAST.cpp:443 | One insertion step of the list sort: a sorted list stays sorted and gains exactly the new element. |
| `PositionOrder.SortedUnique` | spreadsheet/FormulaAST.cpp:443 | Two sorted permutations of the same multiset are the same sequence, so the sorted cell list does not depend on the sort used. |
| `PositionOrder.Dedup` | spreadsheet/formula.cpp:17-19 | Dropping repeated neighbours of a sorted list gives a strictly ascending list with the same elements. |
| `PositionOrder.StrictlySortedUnique` | spreadsheet/formula.cpp:36-43 | Two strictly ascending lists with the same elements are equal: a set has one ascending enumeration. |
| `PositionOrder.SortInPlace` | spreadsheet/formula.cpp:41 | `std::sort` on the vector: the array ends sorted and is a permutation of its old contents. |
| `Expressions.ParensNeeded` | spreadsheet/FormulaAST.cpp:36-43 | Reads the table's bit for the child's side. A child is wrapped iff it is additive under Subtract on the right; or it is additive under Multiply, Divide or unary; or it is multiplicative under Divide on the right. |
| `Expressions.GetPrecedence` | spreadsheet/FormulaAST.cpp:103-118 | Number and cell nodes are atoms, unary nodes are unary, and a binary node has exactly its operator's level. |
| `Expressions.PrintFormula` | spreadsheet/FormulaAST.cpp:55-69 | Defines a node's text, wrapped in one pair of parentheses exactly when `ParensNeeded` says so. `PrintFormulaBalanced` and the wrapping lemmas below state its properties. |
| `Expressions.DoPrintFormula` | spreadsheet/FormulaAST.cpp:97-101 | Defines each node kind's text at its own precedence, with the right operand printed as a right child. `DoPrintFormulaBalanced` states its property. |
| `Expressions.Print` | spreadsheet/FormulaAST.cpp:89-95 | Defines the debug printer's prefix form. `PrintBalanced` states its property. |
| `Expressions.RootNeverWrapped` | spreadsheet/FormulaAST.cpp:432-434 | The root is printed with parent `EP_ATOM` and so never gets parentheses. |
| `Expressions.AtomNeverWrapped` | spreadsheet/FormulaAST.cpp:263-265 | A number node prints as its number under any parent, on either side. |
| `Expressions.SubtractLeftChildUnwrapped` | spreadsheet/FormulaAST.cpp:38 | `(a-b)-c` prints as `a-b-c`. |
| `Expressions.SubtractRightChildWrapped` | spreadsheet/FormulaAST.cpp:38 | `a-(b-c)` keeps its parentheses. |
| `Expressions.MultiplyOverAdd` | spreadsheet/FormulaAST.cpp:37-39 | `(a+b)*c` keeps its parentheses. `a*b+c` gets none. |
| `Expressions.PrintFormulaBalanced` | spreadsheet/FormulaAST.cpp:55-69 | When numbers, cell names and the Ref token contain no parentheses, the canonical printer's output has balanced parentheses under any parent and side. |
| `Expressions.DoPrintFormulaBalanced` | spreadsheet/FormulaAST.cpp:97-101 | The same for a node printed at its own precedence: the operands are wrapped at most by matching pairs. |
| `Expressions.PrintBalanced` | spreadsheet/FormulaAST.cpp:89-95 | The debug printer's fully parenthesised prefix form `(op lhs rhs)` / `(sign operand)` is balanced. |
| `Expressions.Evaluate` | spreadsheet/FormulaAST.cpp:120-143 | A successful binary node yields a finite number. Every error is Arithmetic or is the error some cell of the tree raises when read. |
| `Expressions.CellEvaluation` | spreadsheet/FormulaAST.cpp:211-249 | An absent cell and empty text read as 0. Text that does not parse as a number raises Value. A stored error is raised unchanged. A number is used as is. |
| `Expressions.EvaluateReadsOnlyCells` | spreadsheet/FormulaAST.cpp:211-249 | Evaluation depends on the lookup only at the positions of the tree's cell nodes. |
| `Expressions.BinaryErrorOrder` | spreadsheet/FormulaAST.cpp:120-143 | The right operand is evaluated first and its error wins. Otherwise the left operand's error is returned. Otherwise the result is the operation's value, or Arithmetic when that value is not finite. |
| `Expressions.UnaryEvaluation` | spreadsheet/FormulaAST.cpp:179-182 | Unary minus negates, unary plus is the identity, and an operand's error passes through. |
| `Expressions.CellNumber` | spreadsheet/FormulaAST.cpp:211-249 | An absent cell reads as 0. Reading fails exactly for a stored error or for non-empty text that does not parse, and a failure other than Value is the stored error itself. |
| `Expressions.ToExprValidCells` | spreadsheet/FormulaAST.cpp:325-337 | A tree built by the walk only holds valid cell positions, because `exitCell` throws on an invalid one before pushing it. |
| `Expressions.ParseAstListener.constructor` | spreadsheet/FormulaAST.cpp:368-370 | The listener starts with an empty node stack and no cells. |
| `Expressions.ParseAstListener.ExitUnaryOp` | spreadsheet/FormulaAST.cpp:294-309 | The top node is replaced by a unary node over it. The stack depth and the cells are unchanged. |
| `Expressions.ParseAstListener.ExitLiteral` | spreadsheet/FormulaAST.cpp:311-323 | Fails exactly when the number does not parse. Otherwise it pushes one number node. |
| `Expressions.ParseAstListener.ExitCell` | spreadsheet/FormulaAST.cpp:325-337 | Fails exactly when the position is invalid. Otherwise it pushes one cell node and puts the position at the front of `cells_`. |
| `Expressions.ParseAstListener.ExitBinaryOp` | spreadsheet/FormulaAST.cpp:339-361 | Pops two nodes, with rhs on top, and pushes one binary node over them. |
| `Expressions.ParseAstListener.MoveRoot` | spreadsheet/FormulaAST.cpp:281-287 | Requires exactly one node on the stack. It returns that node and leaves the stack empty. |
| `Expressions.ParseAstListener.MoveCells` | spreadsheet/FormulaAST.cpp:289-291 | Hands over the collected positions and leaves the list empty. |
| `Expressions.Walk` | spreadsheet/FormulaAST.cpp:404-406 | Post-order walk. It succeeds iff the tree converts. On success exactly one node (the converted tree) is pushed, and the tree's cell positions are prepended in reverse order. |
| `Expressions.ReverseConcat` | spreadsheet/FormulaAST.cpp:334 | `push_front` order: the reversal of a concatenation is the reversed parts swapped. |
| `Expressions.ReverseMultiset` | spreadsheet/FormulaAST.cpp:334 | Collecting positions with `push_front` keeps each one with its multiplicity: the reversed list is a permutation. |
| `Expressions.NewFormulaAst` | spreadsheet/FormulaAST.cpp:440-444 | Keeps the root and stores a sorted permutation of the collected cells. |
| `Expressions.ParseFormulaAst` | spreadsheet/FormulaAST.cpp:387-420 | Fails exactly when the grammar rejects the text or a callback throws. Otherwise the root is the converted tree, and the cell list is sorted and holds exactly the tree's cell positions with multiplicity. |
| `Expressions.PrintAst` | spreadsheet/FormulaAST.cpp:432-434 | Defines the root printed under `EP_ATOM`. `RootNeverWrapped` states that the root gets no parentheses. |
| `Expressions.Execute` | spreadsheet/FormulaAST.cpp:436-438 | Defines `Execute` as the root's evaluation. The `Expressions.Evaluate` row states its properties. |
| `Formulas.ReferencedCells` | spreadsheet/formula.cpp:36-43 | Reference definition of the referenced cells: strictly ascending, holding exactly the AST's positions. |
| `Formulas.ReferencedAreTreeCells` | spreadsheet/formula.cpp:16-20 | For a constructed formula, the referenced set, the referenced list and the tree's cell positions are the same set. |
| `Formulas.ParseFormula` | spreadsheet/formula.cpp:16-20 | Construction fails exactly when `ParseFormulaAST` fails, so no formula is partially built. On success the formula is well formed: the set holds exactly the AST's cells. |
| `Formulas.ToValue` | spreadsheet/formula.cpp:22-28 | A successful evaluation becomes its number. A caught error becomes the error value. |
| `Formulas.Evaluate` | spreadsheet/formula.cpp:22-28 | Never yields text. An error is Arithmetic or comes from a referenced cell. |
| `Formulas.EvaluateDependsOnReferenced` | spreadsheet/formula.cpp:22-28 | A formula's value depends only on the values at its referenced positions. |
| `Formulas.ExpressionBalanced` | spreadsheet/formula.cpp:30-34 | `GetExpression` is the canonical print of the AST, and its parentheses are balanced. |
| `Formulas.GetExpression` | spreadsheet/formula.cpp:30-34 | Defines `GetExpression` as the printed AST. `ExpressionBalanced` states its property. |
| `Formulas.SortedDistinct` | spreadsheet/formula.cpp:41-42 | Sorting the elements of a set gives a strictly ascending list. |
| `Formulas.GetReferencedCells` | spreadsheet/formula.cpp:36-43 | The set copied into a vector and sorted: strictly ascending, exactly the referenced set, and equal to `ReferencedCells`. |
| `Formulas.CopySet` | spreadsheet/formula.cpp:37-40 | The loop over the set pushes every element exactly once, so the vector enumerates the set. |
| `Formulas.SortedEnumeration` | spreadsheet/formula.cpp:41-42 | A sorted enumeration of a set has no repeats, so it is strictly ascending and holds the same elements. |
| `Cells.Classify` | spreadsheet/cell.cpp:52-78 | `""` is Empty. A text of length > 1 starting with `=` is a formula over the text after `=`. Everything else is text, including a leading `'` and a bare `=`. |
| `Cells.NewCell` | spreadsheet/cell.cpp:11-14 | Defines the cell the constructor builds: no dependents and no cache. `UnreferencedInvalidatesItself` states why `Set`'s first steps do nothing on it. |
| `Cells.GetText` | spreadsheet/cell.cpp:129-179 | Defines each `Impl::GetText`. `TextCellRoundTrip` and `FormulaCellShape` state its properties. |
| `Cells.PlainValue` | spreadsheet/cell.cpp:125-154 | Defines `GetValue` of the empty and text variants. `TextCellRoundTrip` states that exactly one leading escape is dropped. |
| `Cells.ContentValue` | spreadsheet/cell.cpp:125-173 | Defines `Impl::GetValue` of each variant. `FormulaCellShape` states that a formula never yields text. |
| `Cells.Refs` | spreadsheet/cell.cpp:97-99 | Only a formula has references. They are strictly ascending and are exactly its AST's positions. |
| `Cells.RefsAreDeps` | spreadsheet/cell.cpp:97-99 | For a well-formed formula, the listed references and the stored `referenced_cells_` set are the same positions. |
| `Cells.GetReferencedCellsOf` | spreadsheet/cell.cpp:181-183 | Empty and Text list nothing. A formula lists its referenced set once each, in ascending order. |
| `Cells.TextCellRoundTrip` | spreadsheet/cell.cpp:145-154 | A text cell's `GetText` is the raw text. Its value drops exactly one leading `'`. |
| `Cells.FormulaCellShape` | spreadsheet/cell.cpp:168-179 | A formula cell's text starts with `=`. Its value is a number or an error, never text. |
| `Cells.IsReferenced` | spreadsheet/cell.cpp:101-103 | True iff the set of dependents is non-empty. |
| `Cells.AddReference` | spreadsheet/cell.cpp:109-111 | Inserts the position. No other dependent and no other field changes. |
| `Cells.DelReference` | spreadsheet/cell.cpp:113-115 | Erases the position. No other dependent and no other field changes. |
| `Cells.ReferenceRoundTrip` | spreadsheet/cell.cpp:109-115 | Erasing a dependent that was just inserted restores the cell. |
| `Cells.ReachesLowersRank` | spreadsheet/cell.cpp:39-50 | Following references never climbs in rank. |
| `Cells.Acyclic` | spreadsheet/cell.cpp:39-50 | In a ranked sheet, no reference of a cell leads back to that cell. |
| `Cells.ReachesIffChain` | spreadsheet/cell.cpp:39-50 | In a ranked sheet, `Reaches` holds exactly when some finite chain of stored references leads from one position to the other. So the cycle condition in `CheckDependencies` and `SetCell` does not depend on which rank function witnesses acyclicity. |
| `Cells.MaxRankLeast` | spreadsheet/cell.cpp:45 | The recursion into a referenced cell's own references terminates: the largest of their ranks lies below that cell's rank. |
| `Cells.InstallKeepsAcyclic` | spreadsheet/cell.cpp:59-74 | Installing a formula whose references do not reach its own position keeps the graph acyclic, with ranks lifted above the new references. |
| `Cells.RankedSubgraph` | spreadsheet/sheet.cpp:59-61 | Removing cells, or replacing them by reference-free ones, keeps the graph acyclic. |
| `Cells.MemoKeepsValue` | spreadsheet/cell.cpp:84-91 | Caching values that cells already have changes no cell's value. |
| `Cells.ValueAt` | spreadsheet/cell.cpp:84-91 | Defines `Cell::GetValue` as a function: the cache when `has_value_` is set, otherwise the content's value over the referenced cells. `MemoKeepsValue` and `SoundCachesGiveFreshValues` state its properties. |
| `Cells.ReachesIgnoresCaches` | spreadsheet/cell.cpp:84-91 | Filling caches never changes which cells a position reaches. |
| `Cells.MemoTransitive` | spreadsheet/cell.cpp:84-91 | Two rounds of caching are one round of caching. |
| `Cells.MemoKeepsEvaluation` | spreadsheet/FormulaAST.cpp:214-220 | A tree evaluated after other cells cached their values gives the same result. |
| `Cells.SoundCachesGiveFreshValues` | spreadsheet/cell.cpp:84-91 | When every cache holds its cell's cache-free value, `GetValue` gives the cache-free value. |
| `Cells.ClearingKeepsSound` | spreadsheet/cell.cpp:29-37 | Clearing caches keeps the remaining caches sound. |
| `Cells.MemoKeepsSound` | spreadsheet/cell.cpp:84-91 | Filling caches keeps sound caches sound. |
| `Cells.FreshIgnoresCaches` | spreadsheet/cell.cpp:84-91 | The cache-free value depends on contents only. |
| `Cells.DependentsClosed` | spreadsheet/cell.cpp:29-37 | The cells `Invalidate` visits are closed under the dependents relation. |
| `Cells.Dependents` | spreadsheet/cell.cpp:29-37 | The cells `Invalidate` visits from `p` include `p` and are all stored cells. `DependentsClosed` proves they are closed under dependents. |
| `Cells.ClearCaches` | spreadsheet/cell.cpp:30 | Only `has_value_` changes, and it becomes false exactly on the given positions. |
| `Cells.DependentsIgnoreCaches` | spreadsheet/cell.cpp:31-36 | The cells `Invalidate` visits depend on dependents only, not on caches. |
| `Sheets.TightIsLeast` | spreadsheet/sheet.cpp:68-77 | The size `UpdateSize` stops at is the least one that holds every stored position: (max row + 1, max column + 1), or 0 on an empty sheet. |
| `Sheets.StoreKeepsSize` | spreadsheet/sheet.cpp:25-30 | After storing at `pos`, every cell fits, and the size is again tight. |
| `Sheets.StoreKeepsIndexed` | spreadsheet/sheet.cpp:22-24 | After storing, `col ∈ rows_idx_[row]` iff `row ∈ cols_idx_[col]` iff the position is stored. |
| `Sheets.EraseKeepsIndexed` | spreadsheet/sheet.cpp:61-63 | After erasing, the same equivalence holds. |
| `Sheets.EmptyRow` | spreadsheet/sheet.cpp:69 | A row whose index set is empty or missing holds no cell. |
| `Sheets.EmptyColumn` | spreadsheet/sheet.cpp:73 | A column whose index set is empty or missing holds no cell. |
| `Sheets.TrimRows` | spreadsheet/sheet.cpp:69-72 | The row loop of `UpdateSize`: the row count never grows, every cell still fits, the indexes stay consistent, and it stops at 0 or at an occupied last row. |
| `Sheets.TrimColumns` | spreadsheet/sheet.cpp:73-76 | The column loop: the same for columns. |
| `Sheets.UnreferencedInvalidatesItself` | spreadsheet/cell.cpp:53 | A cell without dependents invalidates only itself: the `Invalidate()` on the fresh cell in `Set` touches nothing else. |
| `Sheets.GridLines` | spreadsheet/sheet.cpp:88-104 | With fields free of tabs and newlines, the printout has exactly one newline per printable row. |
| `Sheets.GridTabs` | spreadsheet/sheet.cpp:88-104 | With such fields, the printout holds `cols-1` tabs for each printable row. |
| `Sheets.LineCounts` | spreadsheet/sheet.cpp:90-101 | With such fields, a row of n > 0 fields has n-1 tabs and no newline. |
| `Sheets.CountJoin` | spreadsheet/sheet.cpp:93-97 | The count of a character in two parts joined by a separator is the two counts plus the separator when it is that character. |
| `Sheets.LineNext` | spreadsheet/sheet.cpp:91-100 | One more column appends a tab (except before the first field) and that column's field to the line. |
| `Sheets.ValueText` | spreadsheet/sheet.h:28-39 | The print visitor writes text verbatim. Numbers and errors go through the stream. |
| `Sheets.Sheet.constructor` | spreadsheet/sheet.h:49-51 | A new sheet has no cells and size {0, 0}. |
| `Sheets.Sheet.GetCell` | spreadsheet/sheet.cpp:33-53 | An invalid position throws `InvalidPositionException`. A valid absent position gives null. A present one gives the stored cell. |
| `Sheets.Sheet.GetPrintableSize` | spreadsheet/sheet.cpp:83-85 | On a valid sheet, every stored cell lies inside the size, and the last row and the last column have index entries. With `TightIsLeast`, this makes it the least such size. |
| `Sheets.Sheet.Store` | spreadsheet/sheet.cpp:22-30 | Replaces the entry at the cell's position, adds it to both indexes and grows the size just enough. |
| `Sheets.Sheet.PutCell` | spreadsheet/sheet.cpp:22 | `cells_[pos] = ...`: only that entry is replaced, and the well-formedness of the stored cells is kept. |
| `Sheets.Sheet.RecordPosition` | spreadsheet/sheet.cpp:23-30 | Adds the position to both indexes and grows the size to hold it: the indexes match the cells again, every cell fits and the size is tight. |
| `Sheets.Sheet.UpdateSize` | spreadsheet/sheet.cpp:68-77 | Shrinks the size, leaves the cells alone, and ends with the last row and the last column occupied, which makes the size tight. |
| `Sheets.Sheet.CheckDependencies` | spreadsheet/cell.cpp:39-50 | True iff no ref equals the cell's position and no chain of stored references from a ref reaches that position. |
| `Sheets.Sheet.RegisterDependent` | spreadsheet/cell.cpp:66-72 | Every referenced position holds a cell afterwards (created empty when missing), and its dependents include `pos`. Nothing else changes, and the size never shrinks. |
| `Sheets.Sheet.RegisterOne` | spreadsheet/cell.cpp:67-71 | One turn of that loop: create if missing, then add the dependent. |
| `Sheets.Sheet.CreateEmpty` | spreadsheet/cell.cpp:68-70 | `SetCell(ref, "")` on a missing cell stores a fresh empty cell. |
| `Sheets.Sheet.Depend` | spreadsheet/cell.cpp:71 | `AddReference` on the stored referenced cell. Nothing else changes. |
| `Sheets.Sheet.SetCell` | spreadsheet/sheet.cpp:18-31 | An invalid position throws `InvalidPositionException`. A formula that does not parse throws `FormulaException`. One whose cells reach `pos` throws `CircularDependencyException`. Each failure leaves cells, indexes and size unchanged. On success a fresh cell holding the classified content, with no dependents and no cache, replaces the entry after the references are registered. The size never shrinks, and the graph stays acyclic. |
| `Sheets.Sheet.SetFormula` | spreadsheet/cell.cpp:59-74 | The formula branch of `Set`: parse, check for a cycle before any mutation, register, install. |
| `Sheets.Sheet.SetPlain` | spreadsheet/cell.cpp:55-58 | The empty and text branches of `Set`: the fresh cell is stored and nothing else changes. |
| `Sheets.Sheet.Install` | spreadsheet/sheet.cpp:22-30 | Stores the fresh formula cell once its references are registered, and keeps every sheet invariant. |
| `Sheets.Sheet.GetValue` | spreadsheet/cell.cpp:84-91 | Returns the cell's cache-aware value. Afterwards the cell's cache holds that value, so a second call agrees. Every cache filled on the way holds the value that cell already had. Every cell that `p` does not reach through its references is left exactly as it was. |
| `Sheets.Sheet.Cache` | spreadsheet/cell.cpp:88-89 | Stores the computed value and sets `has_value_`. No other cell changes. |
| `Sheets.Sheet.EvaluateExpr` | spreadsheet/FormulaAST.cpp:211-249 | Evaluating the tree against the live sheet gives the value of `Expressions.Evaluate` over the cells as they were. A missing cell reads as 0. Only cells reached from the tree's cell positions can have their caches filled. |
| `Sheets.Sheet.EvaluateBinary` | spreadsheet/FormulaAST.cpp:120-143 | Right operand first, then left, then the checked operation, matching `Expressions.Evaluate`. Only cells reached from the node's cells can change. |
| `Sheets.Sheet.EvaluateLeft` | spreadsheet/FormulaAST.cpp:123-142 | The left operand and the finiteness check once the right operand has a value. The cells changed by both operands are reached from the node's cells. |
| `Sheets.Sheet.Invalidate` | spreadsheet/cell.cpp:29-37 | Clears exactly the caches of the cell and of its stored dependents, direct and indirect. Nothing else changes. |
| `Sheets.Sheet.InvalidateNext` | spreadsheet/cell.cpp:31-36 | One turn of the loop over `references_`. A missing dependent is skipped. |
| `Sheets.Sheet.ForgetValue` | spreadsheet/cell.cpp:30 | `has_value_ = false` on the cell. |
| `Sheets.Sheet.InvalidateDependent` | spreadsheet/cell.cpp:34 | The recursive call on a stored dependent. |
| `Sheets.Sheet.ClearCell` | spreadsheet/sheet.cpp:55-66 | An invalid position throws and changes nothing. An absent position is a no-op. A present cell is erased with its index entries. The size does not grow and is tight again. No other cell changes. |
| `Sheets.Sheet.Erase` | spreadsheet/sheet.cpp:59-65 | The erase and the `UpdateSize` call. |
| `Sheets.Sheet.DropCell` | spreadsheet/sheet.cpp:61 | `cells_.erase`: exactly that entry is removed, and the graph stays acyclic and every cell still fits. |
| `Sheets.Sheet.ForgetPosition` | spreadsheet/sheet.cpp:62-63 | Erasing the position from both indexes makes them match the remaining cells. |
| `Sheets.Sheet.Print` | spreadsheet/sheet.cpp:87-104 | Exactly `size.rows` lines, with the fields of each row separated by tabs. A stored cell's field is what the printer writes for it. An absent cell's field is empty. |
| `Sheets.Sheet.PrintTexts` | spreadsheet/sheet.cpp:112-117 | The grid of every stored cell's `GetText`. |
| `Sheets.Sheet.PrintValues` | spreadsheet/sheet.cpp:106-110 | The grid of every stored cell's value through the print visitor. The caches filled on the way hold those values, and afterwards every stored cell has its cache filled. |
| `Sheets.Sheet.PrintValueRows` | spreadsheet/sheet.cpp:89-103 | The row loop: the output is the grid of the values the cells had, the caches it fills hold those values, and every cell inside the printable area ends cached. |
| `Sheets.Sheet.PrintValuesRow` | spreadsheet/sheet.cpp:90-101 | One row of that grid. Caches already filled stay filled, and every stored cell of the row ends cached. |
| `Sheets.Sheet.PrintValue` | spreadsheet/sheet.cpp:98-108 | One field: empty for an absent cell; otherwise the cell's value written by the visitor, which leaves that cell cached. |

## Left out

- The ANTLR lexer and parser, `BailErrorListener`, `visitErrorNode` and the stream plumbing of `ParseFormulaAST` (`FormulaAST.cpp:363-420`) are foreign code. The grammar is a function from text to an optional parse tree. A syntax error is `None`.
- IEEE double arithmetic, `std::isfinite`, `istringstream >> double` and `ostream << double` are the fields of `Common.Env`. Numbers are carried as `real`. Rounding, NaN and infinities are not modelled. `isFinite` decides the Arithmetic error.
- `Position::IsValid`, `ToString`, `FromString` and `operator<` are not shown in the source. `IsValid` is the bound check. `ToString` and `FromString` are `Env` fields. `operator<` is taken to be row-major order.
- `FormulaError::ToString` and its `operator<<` are not shown. The text of an error is the `Env` field `errorText`.
- `Sheets.Sheet.EvaluateExpr`: the `catch (InvalidPositionException&)` path that throws `FormulaException("1234")` (`FormulaAST.cpp:221-222`) is not modelled. Stored formulas only hold valid positions, so the path cannot be taken.
- `Cell::ClearRefs` and the `Invalidate()` call at the start of `Cell::Set` are not modelled as separate steps. `Set` always runs on a freshly constructed cell whose content is `EmptyImpl` and whose set of dependents is empty, so both do nothing there (see `Sheets.UnreferencedInvalidatesItself`).
- `Cell::Clear` and `Cell::Empty`, `FormulaAST::PrintCells` and `FormulaAST::Print` of the root are not modelled as separate members. `Clear` is the initial content of a new cell. The others are not used by the modelled operations.
- `unique_ptr` ownership, `reinterpret_cast`, destructors, `CreateSheet` and the iterator comparisons with `nullptr` are not modelled. Lookups are "found / not found".
- Cells are values inside the sheet's map, not separate objects. The model does not capture aliasing between a cell object held by a caller and the sheet's entry.
- `Sheets.Sheet.CheckDependencies` follows the unmemoised recursion of the code. Its running time on graphs with shared sub-graphs, which can be exponential, is not modelled.
- Streams are returned strings. Output is not interleaved with other writes.
- Threading is not modelled. The code is single-threaded.
