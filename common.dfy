/**
 * Value types shared by the whole spreadsheet: positions and their hash key,
 * the printable size, formula error categories, the value a cell reports,
 * the two input marker characters, and the record of operations the model
 * takes from outside (C++ double arithmetic and streams, the unshown parts
 * of Position and FormulaError).
 */
module Common {
  import opened Wrappers

  const MAX_ROWS: int := 16384
  const MAX_COLS: int := 16384

  /** A cell coordinate, zero-based. The default position is row 0, column 0. */
  datatype Position = Position(row: int := 0, col: int := 0)

  /** Position::IsValid: both coordinates within the grid bounds. */
  predicate IsValid(p: Position)
  {
    0 <= p.row < MAX_ROWS && 0 <= p.col < MAX_COLS
  }

  /** Position::operator<, taken as row-major lexicographic order. */
  predicate Less(a: Position, b: Position)
  {
    a.row < b.row || (a.row == b.row && a.col < b.col)
  }

  /** The order is a strict total order, as sorting needs: irreflexive, transitive and total. */
  lemma LessIsStrictTotal(a: Position, b: Position, c: Position)
    ensures !Less(a, a)
    ensures Less(a, b) && Less(b, c) ==> Less(a, c)
    ensures a == b || Less(a, b) || Less(b, a)
    ensures !(Less(a, b) && Less(b, a))
  {
  }

  /** The key PositionHash feeds to std::hash<int>. */
  function HashKey(p: Position): (k: int)
    requires IsValid(p)
    ensures 0 <= k < MAX_ROWS * MAX_COLS
    ensures k / MAX_COLS == p.row && k % MAX_COLS == p.col
  {
    p.row * MAX_COLS + p.col
  }

  /** Two valid positions never share a hash key. */
  lemma HashKeyInjective(p: Position, q: Position)
    requires IsValid(p) && IsValid(q)
    ensures HashKey(p) == HashKey(q) <==> p == q
  {
    if HashKey(p) == HashKey(q) {
      assert p.row == HashKey(p) / MAX_COLS == q.row;
    }
  }

  /** The hash key of a valid position fits in a 32-bit signed int. */
  lemma HashKeyFitsInt(p: Position)
    requires IsValid(p)
    ensures 0 <= HashKey(p) < 0x8000_0000
  {
    assert MAX_ROWS * MAX_COLS == 0x1000_0000;
  }

  /** The printable size; the default is {0, 0}. */
  datatype Size = Size(rows: int := 0, cols: int := 0)

  /** FormulaError::Category. */
  datatype Category = Ref | Value | Arithmetic

  /** CellInterface::Value: std::variant<std::string, double, FormulaError>. */
  datatype CellValue = Text(text: string) | Number(number: real) | Error(category: Category)

  const FORMULA_SIGN: char := '='
  const ESCAPE_SIGN: char := '\''

  /** A default Position and a default Size are all zeros, and the default position is valid. */
  lemma DefaultsAreZero()
    ensures Position() == Position(0, 0) && IsValid(Position())
    ensures Size() == Size(0, 0)
  {
  }

  /** The two input markers are different characters, so no text is both a formula and escaped. */
  lemma MarkersDistinct()
    ensures FORMULA_SIGN != ESCAPE_SIGN
  {
  }

  /**
   * Operations the core uses but does not define: double arithmetic and
   * std::isfinite, `istringstream >> double` (which accepts a numeric prefix),
   * `ostream << double`, Position::ToString and Position::FromString, and the
   * text FormulaError prints as.
   */
  datatype Env = Env(
    add: (real, real) -> real,
    sub: (real, real) -> real,
    mul: (real, real) -> real,
    div: (real, real) -> real,
    isFinite: real -> bool,
    parseNumber: string -> Option<real>,
    formatNumber: real -> string,
    positionName: Position -> string,
    positionFromString: string -> Position,
    errorText: Category -> string)
}
