/**
 * Formula expression trees (FormulaAST.cpp): the four node kinds, the
 * precedence table that drives the minimal-parenthesis printer, the debug
 * printer, evaluation with errors carried as values, and the listener whose
 * stack assembles nodes while the parse tree is walked.
 */
module Expressions {
  import opened Wrappers
  import opened Common
  import opened PositionOrder

  /** ExprPrecedence, from loosest to tightest. */
  datatype Precedence = EpAdd | EpSub | EpMul | EpDiv | EpUnary | EpAtom

  /** The enumerator's value, used to index the table. */
  function Ordinal(p: Precedence): (i: nat)
    ensures i < 6
  {
    match p
    case EpAdd => 0
    case EpSub => 1
    case EpMul => 2
    case EpDiv => 3
    case EpUnary => 4
    case EpAtom => 5
  }

  /** PrecedenceRule: bit 0 asks for parentheses on a left child, bit 1 on a right child. */
  const PR_NONE: bv2 := 0
  const PR_LEFT: bv2 := 1
  const PR_RIGHT: bv2 := 2
  const PR_BOTH: bv2 := 3

  /** PRECEDENCE_RULES[parent][child]. */
  const PRECEDENCE_RULES: seq<seq<bv2>> := [
    /* EP_ADD */   [PR_NONE, PR_NONE, PR_NONE, PR_NONE, PR_NONE, PR_NONE],
    /* EP_SUB */   [PR_RIGHT, PR_RIGHT, PR_NONE, PR_NONE, PR_NONE, PR_NONE],
    /* EP_MUL */   [PR_BOTH, PR_BOTH, PR_NONE, PR_NONE, PR_NONE, PR_NONE],
    /* EP_DIV */   [PR_BOTH, PR_BOTH, PR_RIGHT, PR_RIGHT, PR_NONE, PR_NONE],
    /* EP_UNARY */ [PR_BOTH, PR_BOTH, PR_NONE, PR_NONE, PR_NONE, PR_NONE],
    /* EP_ATOM */  [PR_NONE, PR_NONE, PR_NONE, PR_NONE, PR_NONE, PR_NONE]
  ]

  predicate IsAdditive(p: Precedence)
  {
    p == EpAdd || p == EpSub
  }

  predicate IsMultiplicative(p: Precedence)
  {
    p == EpMul || p == EpDiv
  }

  /**
   * Whether a child of precedence `child` printed under `parent` on the given
   * side is wrapped in parentheses. The table says: additive children under
   * Subtract only on the right; additive children under Multiply, Divide and
   * unary on both sides; multiplicative children under Divide only on the
   * right; nothing else.
   */
  function ParensNeeded(parent: Precedence, child: Precedence, rightChild: bool): (needed: bool)
    ensures needed <==>
      || (parent == EpSub && rightChild && IsAdditive(child))
      || ((parent == EpMul || parent == EpDiv || parent == EpUnary) && IsAdditive(child))
      || (parent == EpDiv && rightChild && IsMultiplicative(child))
  {
    var mask := if rightChild then PR_RIGHT else PR_LEFT;
    PRECEDENCE_RULES[Ordinal(parent)][Ordinal(child)] & mask != 0
  }

  datatype BinaryOp = Add | Subtract | Multiply | Divide
  datatype UnaryOp = UnaryPlus | UnaryMinus

  /** An expression node; each node owns its children. */
  datatype Expr =
    | NumberExpr(value: real)
    | CellExpr(pos: Position)
    | UnaryOpExpr(uop: UnaryOp, operand: Expr)
    | BinaryOpExpr(bop: BinaryOp, lhs: Expr, rhs: Expr)

  function BinarySign(op: BinaryOp): char
  {
    match op
    case Add => '+'
    case Subtract => '-'
    case Multiply => '*'
    case Divide => '/'
  }

  function UnarySign(op: UnaryOp): char
  {
    match op
    case UnaryPlus => '+'
    case UnaryMinus => '-'
  }

  /** Expr::GetPrecedence: leaves are atoms, unary nodes are unary, a binary node has its operator's level. */
  function GetPrecedence(e: Expr): (p: Precedence)
    ensures p == EpAtom <==> e.NumberExpr? || e.CellExpr?
    ensures p == EpUnary <==> e.UnaryOpExpr?
    ensures e.BinaryOpExpr? ==> (p == EpAdd <==> e.bop == Add) && (p == EpSub <==> e.bop == Subtract)
                                && (p == EpMul <==> e.bop == Multiply) && (p == EpDiv <==> e.bop == Divide)
  {
    match e
    case NumberExpr(_) => EpAtom
    case CellExpr(_) => EpAtom
    case UnaryOpExpr(_, _) => EpUnary
    case BinaryOpExpr(op, _, _) =>
      match op
      case Add => EpAdd
      case Subtract => EpSub
      case Multiply => EpMul
      case Divide => EpDiv
  }

  /** The positions of the cell nodes, left to right. */
  function CellsOf(e: Expr): seq<Position>
  {
    match e
    case NumberExpr(_) => []
    case CellExpr(p) => [p]
    case UnaryOpExpr(_, x) => CellsOf(x)
    case BinaryOpExpr(_, l, r) => CellsOf(l) + CellsOf(r)
  }

  /** Expr::Print: fully parenthesised prefix form, the debug printer. */
  function Print(e: Expr, env: Env): string
  {
    match e
    case NumberExpr(v) => env.formatNumber(v)
    case CellExpr(p) => if !IsValid(p) then env.errorText(Ref) else env.positionName(p)
    case UnaryOpExpr(op, x) => "(" + [UnarySign(op)] + " " + Print(x, env) + ")"
    case BinaryOpExpr(op, l, r) => "(" + [BinarySign(op)] + " " + Print(l, env) + " " + Print(r, env) + ")"
  }

  /** Expr::PrintFormula: the node, wrapped when the table asks for it. */
  function PrintFormula(e: Expr, env: Env, parent: Precedence, rightChild: bool): string
    decreases e, 1
  {
    var precedence := GetPrecedence(e);
    var text := DoPrintFormula(e, env, precedence);
    if ParensNeeded(parent, precedence, rightChild) then "(" + text + ")" else text
  }

  /** DoPrintFormula of each node kind; `precedence` is the node's own. */
  function DoPrintFormula(e: Expr, env: Env, precedence: Precedence): string
    decreases e, 0
  {
    match e
    case NumberExpr(v) => env.formatNumber(v)
    case CellExpr(_) => Print(e, env)
    case UnaryOpExpr(op, x) => [UnarySign(op)] + PrintFormula(x, env, precedence, false)
    case BinaryOpExpr(op, l, r) =>
      PrintFormula(l, env, precedence, false) + [BinarySign(op)] + PrintFormula(r, env, precedence, true)
  }

  /** One of the four double operators. */
  function Apply(op: BinaryOp, env: Env, l: real, r: real): real
  {
    match op
    case Add => env.add(l, r)
    case Subtract => env.sub(l, r)
    case Multiply => env.mul(l, r)
    case Divide => env.div(l, r)
  }

  /**
   * CellExpr::Evaluate with its CellValueVisitor: an absent cell and empty
   * text count as 0, other text must parse as a number, a stored error is
   * raised again.
   */
  function CellNumber(v: Option<CellValue>, env: Env): (r: Result<real, Category>)
    ensures v.None? ==> r == Success(0.0)
    ensures r.Failure? <==>
      v.Some? && (v.value.Error? || (v.value.Text? && v.value.text != "" && env.parseNumber(v.value.text).None?))
    ensures r.Failure? && r.error != Value ==> v == Some(Error(r.error))
  {
    match v
    case None => Success(0.0)
    case Some(Text(s)) =>
      if s == "" then Success(0.0)
      else if env.parseNumber(s).None? then Failure(Value)
      else Success(env.parseNumber(s).value)
    case Some(Number(n)) => Success(n)
    case Some(Error(c)) => Failure(c)
  }

  /**
   * Expr::Evaluate; a thrown FormulaError is the Failure case. A binary node
   * evaluates its right operand first, so the right operand's error wins.
   * Every error is an arithmetic one or is raised by a referenced cell, and a
   * binary node's number is finite.
   */
  function Evaluate(e: Expr, env: Env, lookup: Position -> Option<CellValue>): (r: Result<real, Category>)
    ensures e.BinaryOpExpr? && r.Success? ==> env.isFinite(r.value)
    ensures r.Failure? ==>
      r.error == Arithmetic || exists p :: p in CellsOf(e) && CellNumber(lookup(p), env) == Failure(r.error)
  {
    match e
    case NumberExpr(v) => Success(v)
    case CellExpr(p) =>
      assert p in CellsOf(e);
      CellNumber(lookup(p), env)
    case UnaryOpExpr(op, x) =>
      var operand := Evaluate(x, env, lookup);
      if operand.Failure? then operand
      else Success(if op == UnaryMinus then -operand.value else operand.value)
    case BinaryOpExpr(op, l, r) =>
      var rv := Evaluate(r, env, lookup);
      if rv.Failure? then rv
      else
        var lv := Evaluate(l, env, lookup);
        if lv.Failure? then lv
        else
          var result := Apply(op, env, lv.value, rv.value);
          if !env.isFinite(result) then Failure(Arithmetic) else Success(result)
  }

  /** Evaluation reads the lookup only at the tree's own cell positions. */
  lemma {:induction false} EvaluateReadsOnlyCells(e: Expr, env: Env, l1: Position -> Option<CellValue>, l2: Position -> Option<CellValue>)
    requires forall p :: p in CellsOf(e) ==> l1(p) == l2(p)
    ensures Evaluate(e, env, l1) == Evaluate(e, env, l2)
  {
    match e
    case NumberExpr(_) =>
    case CellExpr(p) =>
      assert p in CellsOf(e);
    case UnaryOpExpr(_, x) =>
      EvaluateReadsOnlyCells(x, env, l1, l2);
    case BinaryOpExpr(_, l, r) =>
      EvaluateReadsOnlyCells(l, env, l1, l2);
      EvaluateReadsOnlyCells(r, env, l1, l2);
  }

  /**
   * Reading a cell: an absent cell and empty text read as 0, text that is not
   * a number raises Value, a stored error is raised unchanged, and a number is
   * used as is.
   */
  lemma CellEvaluation(p: Position, env: Env, lookup: Position -> Option<CellValue>)
    ensures lookup(p).None? ==> Evaluate(CellExpr(p), env, lookup) == Success(0.0)
    ensures lookup(p) == Some(Text("")) ==> Evaluate(CellExpr(p), env, lookup) == Success(0.0)
    ensures lookup(p).Some? && lookup(p).value.Text? && lookup(p).value.text != "" ==>
      Evaluate(CellExpr(p), env, lookup) ==
        if env.parseNumber(lookup(p).value.text).None? then Failure(Value)
        else Success(env.parseNumber(lookup(p).value.text).value)
    ensures lookup(p).Some? && lookup(p).value.Error? ==>
      Evaluate(CellExpr(p), env, lookup) == Failure(lookup(p).value.category)
    ensures lookup(p).Some? && lookup(p).value.Number? ==>
      Evaluate(CellExpr(p), env, lookup) == Success(lookup(p).value.number)
  {
  }

  /** Order of a binary node's errors: the right operand's error first, then the left's. */
  lemma BinaryErrorOrder(op: BinaryOp, l: Expr, r: Expr, env: Env, lookup: Position -> Option<CellValue>)
    ensures Evaluate(r, env, lookup).Failure? ==>
      Evaluate(BinaryOpExpr(op, l, r), env, lookup) == Evaluate(r, env, lookup)
    ensures Evaluate(r, env, lookup).Success? && Evaluate(l, env, lookup).Failure? ==>
      Evaluate(BinaryOpExpr(op, l, r), env, lookup) == Evaluate(l, env, lookup)
    ensures Evaluate(r, env, lookup).Success? && Evaluate(l, env, lookup).Success? ==>
      var v := Apply(op, env, Evaluate(l, env, lookup).value, Evaluate(r, env, lookup).value);
      Evaluate(BinaryOpExpr(op, l, r), env, lookup) == if env.isFinite(v) then Success(v) else Failure(Arithmetic)
  {
  }

  /** Unary minus negates, unary plus is the identity, errors pass through. */
  lemma UnaryEvaluation(op: UnaryOp, x: Expr, env: Env, lookup: Position -> Option<CellValue>)
    ensures Evaluate(x, env, lookup).Failure? ==> Evaluate(UnaryOpExpr(op, x), env, lookup) == Evaluate(x, env, lookup)
    ensures Evaluate(x, env, lookup).Success? ==>
      Evaluate(UnaryOpExpr(op, x), env, lookup).Success? &&
      Evaluate(UnaryOpExpr(op, x), env, lookup).value ==
        (if op == UnaryMinus then -Evaluate(x, env, lookup).value else Evaluate(x, env, lookup).value)
  {
  }

  /** The root is printed under EP_ATOM, whose row asks for no parentheses. */
  lemma RootNeverWrapped(e: Expr, env: Env)
    ensures PrintFormula(e, env, EpAtom, false) == DoPrintFormula(e, env, GetPrecedence(e))
  {
  }

  /** An atom printed anywhere is never wrapped. */
  lemma AtomNeverWrapped(v: real, env: Env, parent: Precedence, rightChild: bool)
    ensures PrintFormula(NumberExpr(v), env, parent, rightChild) == env.formatNumber(v)
  {
  }

  /** A binary node over two literals, printed without parentheses around either literal. */
  lemma PrintLiteralPair(op: BinaryOp, a: real, b: real, env: Env)
    ensures DoPrintFormula(BinaryOpExpr(op, NumberExpr(a), NumberExpr(b)), env, GetPrecedence(BinaryOpExpr(op, NumberExpr(a), NumberExpr(b))))
      == env.formatNumber(a) + [BinarySign(op)] + env.formatNumber(b)
  {
    var precedence := GetPrecedence(BinaryOpExpr(op, NumberExpr(a), NumberExpr(b)));
    AtomNeverWrapped(a, env, precedence, false);
    AtomNeverWrapped(b, env, precedence, true);
  }

  /** `(1-2)-3` prints as `1-2-3`: a left child under Subtract keeps no parentheses. */
  lemma SubtractLeftChildUnwrapped(a: real, b: real, c: real, env: Env)
    ensures PrintFormula(BinaryOpExpr(Subtract, BinaryOpExpr(Subtract, NumberExpr(a), NumberExpr(b)), NumberExpr(c)), env, EpAtom, false)
      == env.formatNumber(a) + "-" + env.formatNumber(b) + "-" + env.formatNumber(c)
  {
    var inner := BinaryOpExpr(Subtract, NumberExpr(a), NumberExpr(b));
    var outer := BinaryOpExpr(Subtract, inner, NumberExpr(c));
    PrintLiteralPair(Subtract, a, b, env);
    AtomNeverWrapped(c, env, EpSub, true);
    assert [BinarySign(Subtract)] == "-";
    assert PrintFormula(inner, env, EpSub, false) == env.formatNumber(a) + "-" + env.formatNumber(b);
    assert DoPrintFormula(outer, env, EpSub)
      == PrintFormula(inner, env, EpSub, false) + "-" + PrintFormula(NumberExpr(c), env, EpSub, true);
  }

  /** `1-(2-3)` keeps its parentheses: a right child under Subtract is wrapped. */
  lemma SubtractRightChildWrapped(a: real, b: real, c: real, env: Env)
    ensures PrintFormula(BinaryOpExpr(Subtract, NumberExpr(a), BinaryOpExpr(Subtract, NumberExpr(b), NumberExpr(c))), env, EpAtom, false)
      == env.formatNumber(a) + "-(" + env.formatNumber(b) + "-" + env.formatNumber(c) + ")"
  {
    var inner := BinaryOpExpr(Subtract, NumberExpr(b), NumberExpr(c));
    var outer := BinaryOpExpr(Subtract, NumberExpr(a), inner);
    PrintLiteralPair(Subtract, b, c, env);
    AtomNeverWrapped(a, env, EpSub, false);
    assert [BinarySign(Subtract)] == "-";
    assert PrintFormula(inner, env, EpSub, true) == "(" + env.formatNumber(b) + "-" + env.formatNumber(c) + ")";
    assert DoPrintFormula(outer, env, EpSub)
      == PrintFormula(NumberExpr(a), env, EpSub, false) + "-" + PrintFormula(inner, env, EpSub, true);
  }

  /** `(1+2)*3` keeps its parentheses and `1*2+3` needs none. */
  lemma MultiplyOverAdd(a: real, b: real, c: real, env: Env)
    ensures PrintFormula(BinaryOpExpr(Multiply, BinaryOpExpr(Add, NumberExpr(a), NumberExpr(b)), NumberExpr(c)), env, EpAtom, false)
      == "(" + env.formatNumber(a) + "+" + env.formatNumber(b) + ")*" + env.formatNumber(c)
    ensures PrintFormula(BinaryOpExpr(Add, BinaryOpExpr(Multiply, NumberExpr(a), NumberExpr(b)), NumberExpr(c)), env, EpAtom, false)
      == env.formatNumber(a) + "*" + env.formatNumber(b) + "+" + env.formatNumber(c)
  {
    var sum := BinaryOpExpr(Add, NumberExpr(a), NumberExpr(b));
    var product := BinaryOpExpr(Multiply, NumberExpr(a), NumberExpr(b));
    PrintLiteralPair(Add, a, b, env);
    PrintLiteralPair(Multiply, a, b, env);
    AtomNeverWrapped(c, env, EpMul, true);
    AtomNeverWrapped(c, env, EpAdd, true);
    assert [BinarySign(Add)] == "+" && [BinarySign(Multiply)] == "*";
    assert PrintFormula(sum, env, EpMul, false) == "(" + env.formatNumber(a) + "+" + env.formatNumber(b) + ")";
    assert DoPrintFormula(BinaryOpExpr(Multiply, sum, NumberExpr(c)), env, EpMul)
      == PrintFormula(sum, env, EpMul, false) + "*" + PrintFormula(NumberExpr(c), env, EpMul, true);
    assert PrintFormula(product, env, EpAdd, false) == env.formatNumber(a) + "*" + env.formatNumber(b);
    assert DoPrintFormula(BinaryOpExpr(Add, product, NumberExpr(c)), env, EpAdd)
      == PrintFormula(product, env, EpAdd, false) + "+" + PrintFormula(NumberExpr(c), env, EpAdd, true);
  }

  /** Net parenthesis depth of a string: opening minus closing. */
  function Depth(s: string): int
  {
    if s == [] then 0
    else (if s[0] == '(' then 1 else if s[0] == ')' then -1 else 0) + Depth(s[1..])
  }

  /** Every parenthesis is closed, and no prefix closes more than it opened. */
  predicate Balanced(s: string)
  {
    Depth(s) == 0 && forall k :: 0 <= k <= |s| ==> Depth(s[..k]) >= 0
  }

  predicate NoParens(s: string)
  {
    '(' !in s && ')' !in s
  }

  /** Numbers, cell names and the Ref token are printed without parentheses. */
  ghost predicate PlainAtoms(env: Env)
  {
    && (forall v :: NoParens(env.formatNumber(v)))
    && (forall p :: NoParens(env.positionName(p)))
    && NoParens(env.errorText(Ref))
  }

  lemma {:induction false} DepthConcat(a: string, b: string)
    ensures Depth(a + b) == Depth(a) + Depth(b)
  {
    if a == [] {
      assert a + b == b;
    } else {
      assert (a + b)[0] == a[0];
      assert (a + b)[1..] == a[1..] + b;
      DepthConcat(a[1..], b);
    }
  }

  lemma {:induction false} NoParensDepth(s: string)
    requires NoParens(s)
    ensures Depth(s) == 0
  {
    if s != [] {
      assert s[0] in s;
      assert forall c :: c in s[1..] ==> c in s;
      NoParensDepth(s[1..]);
    }
  }

  lemma NoParensBalanced(s: string)
    requires NoParens(s)
    ensures Balanced(s)
  {
    NoParensDepth(s);
    forall k | 0 <= k <= |s| ensures Depth(s[..k]) >= 0 {
      assert forall c :: c in s[..k] ==> c in s;
      NoParensDepth(s[..k]);
    }
  }

  lemma BalancedConcat(a: string, b: string)
    requires Balanced(a) && Balanced(b)
    ensures Balanced(a + b)
  {
    DepthConcat(a, b);
    forall k | 0 <= k <= |a + b| ensures Depth((a + b)[..k]) >= 0 {
      if k <= |a| {
        assert (a + b)[..k] == a[..k];
      } else {
        assert (a + b)[..k] == a + b[..k - |a|];
        DepthConcat(a, b[..k - |a|]);
      }
    }
  }

  lemma BalancedWrap(s: string)
    requires Balanced(s)
    ensures Balanced("(" + s + ")")
  {
    var w := "(" + s + ")";
    DepthConcat("(" + s, ")");
    DepthConcat("(", s);
    forall k | 0 <= k <= |w| ensures Depth(w[..k]) >= 0 {
      if k == 0 {
      } else if k <= |s| + 1 {
        assert w[..k] == "(" + s[..k - 1];
        DepthConcat("(", s[..k - 1]);
      } else {
        assert w[..k] == w;
      }
    }
  }

  /** The canonical printer only emits matched parentheses. */
  lemma {:induction false} PrintFormulaBalanced(e: Expr, env: Env, parent: Precedence, rightChild: bool)
    requires PlainAtoms(env)
    ensures Balanced(PrintFormula(e, env, parent, rightChild))
    decreases e, 1
  {
    var precedence := GetPrecedence(e);
    DoPrintFormulaBalanced(e, env, precedence);
    if ParensNeeded(parent, precedence, rightChild) {
      BalancedWrap(DoPrintFormula(e, env, precedence));
    }
  }

  lemma {:induction false} DoPrintFormulaBalanced(e: Expr, env: Env, precedence: Precedence)
    requires PlainAtoms(env)
    ensures Balanced(DoPrintFormula(e, env, precedence))
    decreases e, 0
  {
    match e
    case NumberExpr(v) =>
      NoParensBalanced(env.formatNumber(v));
    case CellExpr(p) =>
      if IsValid(p) { NoParensBalanced(env.positionName(p)); } else { NoParensBalanced(env.errorText(Ref)); }
    case UnaryOpExpr(op, x) =>
      NoParensBalanced([UnarySign(op)]);
      PrintFormulaBalanced(x, env, precedence, false);
      BalancedConcat([UnarySign(op)], PrintFormula(x, env, precedence, false));
    case BinaryOpExpr(op, l, r) =>
      var left, right := PrintFormula(l, env, precedence, false), PrintFormula(r, env, precedence, true);
      PrintFormulaBalanced(l, env, precedence, false);
      PrintFormulaBalanced(r, env, precedence, true);
      NoParensBalanced([BinarySign(op)]);
      BalancedConcat(left, [BinarySign(op)]);
      BalancedConcat(left + [BinarySign(op)], right);
  }

  /** The debug printer only emits matched parentheses too. */
  lemma {:induction false} PrintBalanced(e: Expr, env: Env)
    requires PlainAtoms(env)
    ensures Balanced(Print(e, env))
  {
    match e
    case NumberExpr(v) =>
      NoParensBalanced(env.formatNumber(v));
    case CellExpr(p) =>
      if IsValid(p) { NoParensBalanced(env.positionName(p)); } else { NoParensBalanced(env.errorText(Ref)); }
    case UnaryOpExpr(op, x) =>
      var head := [UnarySign(op)] + " ";
      PrintBalanced(x, env);
      NoParensBalanced(head);
      BalancedConcat(head, Print(x, env));
      BalancedWrap(head + Print(x, env));
      assert Print(e, env) == "(" + (head + Print(x, env)) + ")";
    case BinaryOpExpr(op, l, r) =>
      PrintBalanced(l, env);
      PrintBalanced(r, env);
      PrintBinaryBalanced(op, l, r, env);
  }

  /** A binary node's prefix form is balanced when both operands' are. */
  lemma PrintBinaryBalanced(op: BinaryOp, l: Expr, r: Expr, env: Env)
    requires Balanced(Print(l, env)) && Balanced(Print(r, env))
    ensures Balanced(Print(BinaryOpExpr(op, l, r), env))
  {
    PrintBinaryShape(op, l, r, env);
    PrefixFormBalanced([BinarySign(op)] + " ", Print(l, env), Print(r, env));
  }

  /** The debug form of a binary node, grouped as `(` head-and-operands `)`. */
  lemma PrintBinaryShape(op: BinaryOp, l: Expr, r: Expr, env: Env)
    ensures Print(BinaryOpExpr(op, l, r), env) == "(" + ([BinarySign(op)] + " " + Print(l, env) + " " + Print(r, env)) + ")"
  {
    assert Print(BinaryOpExpr(op, l, r), env) == "(" + [BinarySign(op)] + " " + Print(l, env) + " " + Print(r, env) + ")";
  }

  /** `(head a b)` is balanced when the head has no parentheses and both operands are balanced. */
  lemma PrefixFormBalanced(head: string, a: string, b: string)
    requires NoParens(head) && Balanced(a) && Balanced(b)
    ensures Balanced("(" + (head + a + " " + b) + ")")
  {
    NoParensBalanced(head);
    NoParensBalanced(" ");
    BalancedConcat(head, a);
    BalancedConcat(head + a, " ");
    BalancedConcat(head + a + " ", b);
    BalancedWrap(head + a + " " + b);
  }

  /**
   * The tree the external grammar parser hands over: the rule nodes whose
   * exit callbacks the listener handles, plus the parenthesised-expression
   * rule, which it ignores. Literal and cell nodes carry their token text.
   */
  datatype ParseTree =
    | LiteralNode(token: string)
    | CellNode(token: string)
    | UnaryNode(uop: UnaryOp, operand: ParseTree)
    | BinaryNode(bop: BinaryOp, lhs: ParseTree, rhs: ParseTree)
    | ParensNode(inner: ParseTree)

  /**
   * The expression a walk over t builds, or None when a callback throws: a
   * number token that does not parse, or a cell token naming an invalid position.
   */
  function ToExpr(t: ParseTree, env: Env): Option<Expr>
  {
    match t
    case LiteralNode(token) =>
      if env.parseNumber(token).None? then None else Some(NumberExpr(env.parseNumber(token).value))
    case CellNode(token) =>
      var pos := env.positionFromString(token);
      if !IsValid(pos) then None else Some(CellExpr(pos))
    case UnaryNode(op, x) =>
      var operand := ToExpr(x, env);
      if operand.None? then None else Some(UnaryOpExpr(op, operand.value))
    case BinaryNode(op, l, r) =>
      var lhs := ToExpr(l, env);
      var rhs := ToExpr(r, env);
      if lhs.None? || rhs.None? then None else Some(BinaryOpExpr(op, lhs.value, rhs.value))
    case ParensNode(x) => ToExpr(x, env)
  }

  /** A tree built by the walk holds valid cell positions only. */
  lemma {:induction false} ToExprValidCells(t: ParseTree, env: Env)
    requires ToExpr(t, env).Some?
    ensures forall p :: p in CellsOf(ToExpr(t, env).value) ==> IsValid(p)
  {
    match t
    case LiteralNode(_) =>
    case CellNode(_) =>
    case UnaryNode(_, x) =>
      ToExprValidCells(x, env);
    case BinaryNode(_, l, r) =>
      ToExprValidCells(l, env);
      ToExprValidCells(r, env);
    case ParensNode(x) =>
      ToExprValidCells(x, env);
  }

  function Reverse(s: seq<Position>): (r: seq<Position>)
    ensures |r| == |s|
  {
    if s == [] then [] else Reverse(s[1..]) + [s[0]]
  }

  /** Reversing keeps every position, as often as it occurs. */
  lemma {:induction false} ReverseMultiset(s: seq<Position>)
    ensures multiset(Reverse(s)) == multiset(s)
  {
    if s != [] {
      assert s == [s[0]] + s[1..];
      ReverseMultiset(s[1..]);
    }
  }

  /**
   * ParseASTListener: a stack of finished nodes (args_) and the positions of
   * the cell nodes, newest first (cells_, a forward_list filled by push_front).
   */
  class ParseAstListener {
    var args: seq<Expr>
    var cells: seq<Position>
    const env: Env

    constructor (env: Env)
      ensures args == [] && cells == [] && this.env == env
    {
      args := [];
      cells := [];
      this.env := env;
    }

    /** exitUnaryOp: the top node becomes the operand of a new unary node. */
    method ExitUnaryOp(op: UnaryOp)
      requires |args| >= 1
      modifies this
      ensures args == old(args[..|args| - 1]) + [UnaryOpExpr(op, old(args[|args| - 1]))]
      ensures cells == old(cells)
    {
      var operand := args[|args| - 1];
      args := args[..|args| - 1] + [UnaryOpExpr(op, operand)];
    }

    /** exitLiteral: pushes a number node; a token that does not parse throws ParsingError. */
    method ExitLiteral(token: string) returns (ok: bool)
      modifies this
      ensures ok == env.parseNumber(token).Some?
      ensures args == if ok then old(args) + [NumberExpr(env.parseNumber(token).value)] else old(args)
      ensures cells == old(cells)
    {
      var value := env.parseNumber(token);
      if value.None? {
        return false;
      }
      args := args + [NumberExpr(value.value)];
      return true;
    }

    /** exitCell: records the position and pushes a cell node; an invalid position throws. */
    method ExitCell(token: string) returns (ok: bool)
      modifies this
      ensures ok == IsValid(env.positionFromString(token))
      ensures args == if ok then old(args) + [CellExpr(env.positionFromString(token))] else old(args)
      ensures cells == if ok then [env.positionFromString(token)] + old(cells) else old(cells)
    {
      var value := env.positionFromString(token);
      if !IsValid(value) {
        return false;
      }
      cells := [value] + cells;
      args := args + [CellExpr(value)];
      return true;
    }

    /** exitBinaryOp: pops the right operand, then replaces the left one with the new node. */
    method ExitBinaryOp(op: BinaryOp)
      requires |args| >= 2
      modifies this
      ensures args == old(args[..|args| - 2]) + [BinaryOpExpr(op, old(args[|args| - 2]), old(args[|args| - 1]))]
      ensures cells == old(cells)
    {
      var rhs := args[|args| - 1];
      args := args[..|args| - 1];
      var lhs := args[|args| - 1];
      args := args[..|args| - 1] + [BinaryOpExpr(op, lhs, rhs)];
    }

    /** MoveRoot: the walk must have left exactly one node. */
    method MoveRoot() returns (root: Expr)
      requires |args| == 1
      modifies this
      ensures root == old(args[0]) && args == [] && cells == old(cells)
    {
      root := args[0];
      args := [];
    }

    /** MoveCells: hands over the collected positions. */
    method MoveCells() returns (collected: seq<Position>)
      modifies this
      ensures collected == old(cells) && cells == [] && args == old(args)
    {
      collected := cells;
      cells := [];
    }
  }

  /**
   * ParseTreeWalker::walk: exit callbacks in post-order, left subtree first.
   * The walk stops at the first callback that throws.
   */
  method Walk(listener: ParseAstListener, t: ParseTree) returns (ok: bool)
    modifies listener
    ensures ok == ToExpr(t, listener.env).Some?
    ensures ok ==> listener.args == old(listener.args) + [ToExpr(t, listener.env).value]
    ensures ok ==> listener.cells == Reverse(CellsOf(ToExpr(t, listener.env).value)) + old(listener.cells)
    decreases t, 1
  {
    match t
    case LiteralNode(token) =>
      ok := listener.ExitLiteral(token);
      assert ok ==> Reverse(CellsOf(ToExpr(t, listener.env).value)) == [];
    case CellNode(token) =>
      ok := listener.ExitCell(token);
      assert ok ==> Reverse(CellsOf(ToExpr(t, listener.env).value)) == [listener.env.positionFromString(token)];
    case UnaryNode(_, _) =>
      ok := WalkUnary(listener, t);
    case BinaryNode(_, _, _) =>
      ok := WalkBinary(listener, t);
    case ParensNode(x) =>
      ok := Walk(listener, x);
      assert ToExpr(t, listener.env) == ToExpr(x, listener.env);
  }

  method WalkUnary(listener: ParseAstListener, t: ParseTree) returns (ok: bool)
    requires t.UnaryNode?
    modifies listener
    ensures ok == ToExpr(t, listener.env).Some?
    ensures ok ==> listener.args == old(listener.args) + [ToExpr(t, listener.env).value]
    ensures ok ==> listener.cells == Reverse(CellsOf(ToExpr(t, listener.env).value)) + old(listener.cells)
    decreases t, 0
  {
    ok := Walk(listener, t.operand);
    if ok {
      ghost var operand := ToExpr(t.operand, listener.env).value;
      listener.ExitUnaryOp(t.uop);
      assert ToExpr(t, listener.env) == Some(UnaryOpExpr(t.uop, operand));
    }
  }

  method WalkBinary(listener: ParseAstListener, t: ParseTree) returns (ok: bool)
    requires t.BinaryNode?
    modifies listener
    ensures ok == ToExpr(t, listener.env).Some?
    ensures ok ==> listener.args == old(listener.args) + [ToExpr(t, listener.env).value]
    ensures ok ==> listener.cells == Reverse(CellsOf(ToExpr(t, listener.env).value)) + old(listener.cells)
    decreases t, 0
  {
    ghost var env, args0, cells0 := listener.env, listener.args, listener.cells;
    ok := Walk(listener, t.lhs);
    if !ok {
      return;
    }
    ghost var lhs := ToExpr(t.lhs, env).value;
    ok := Walk(listener, t.rhs);
    if !ok {
      return;
    }
    ghost var rhs := ToExpr(t.rhs, env).value;
    ghost var args2, cells2 := listener.args, listener.cells;
    assert args2 == (args0 + [lhs]) + [rhs];
    assert args2[..|args2| - 2] == args0 && args2[|args2| - 2] == lhs && args2[|args2| - 1] == rhs;
    listener.ExitBinaryOp(t.bop);
    BinaryCells(t, env, cells0, cells2);
  }

  /** What the walk of a binary node builds and collects, once both operands are built. */
  lemma BinaryCells(t: ParseTree, env: Env, before: seq<Position>, after: seq<Position>)
    requires t.BinaryNode? && ToExpr(t.lhs, env).Some? && ToExpr(t.rhs, env).Some?
    requires after == Reverse(CellsOf(ToExpr(t.rhs, env).value)) + (Reverse(CellsOf(ToExpr(t.lhs, env).value)) + before)
    ensures ToExpr(t, env) == Some(BinaryOpExpr(t.bop, ToExpr(t.lhs, env).value, ToExpr(t.rhs, env).value))
    ensures after == Reverse(CellsOf(ToExpr(t, env).value)) + before
  {
    var lhs, rhs := ToExpr(t.lhs, env).value, ToExpr(t.rhs, env).value;
    assert ToExpr(t, env) == Some(BinaryOpExpr(t.bop, lhs, rhs));
    BinaryReverse(t.bop, lhs, rhs, before, after);
  }

  /** Collecting the operands' cells in turn collects the binary expression's cells. */
  lemma BinaryReverse(op: BinaryOp, lhs: Expr, rhs: Expr, before: seq<Position>, after: seq<Position>)
    requires after == Reverse(CellsOf(rhs)) + (Reverse(CellsOf(lhs)) + before)
    ensures after == Reverse(CellsOf(BinaryOpExpr(op, lhs, rhs))) + before
  {
    var l, r := CellsOf(lhs), CellsOf(rhs);
    assert CellsOf(BinaryOpExpr(op, lhs, rhs)) == l + r;
    ReverseConcat(l, r);
    assert Reverse(r) + (Reverse(l) + before) == (Reverse(r) + Reverse(l)) + before;
  }

  lemma {:induction false} ReverseConcat(a: seq<Position>, b: seq<Position>)
    ensures Reverse(a + b) == Reverse(b) + Reverse(a)
  {
    if a == [] {
      assert a + b == b;
    } else {
      assert (a + b)[0] == a[0];
      assert (a + b)[1..] == a[1..] + b;
      ReverseConcat(a[1..], b);
    }
  }

  /** FormulaAST: the root node and the sorted positions of every cell node (duplicates kept). */
  datatype FormulaAst = FormulaAst(root: Expr, cells: seq<Position>)

  /** The FormulaAST constructor: keeps the root and sorts the collected positions. */
  function NewFormulaAst(root: Expr, cells: seq<Position>): (ast: FormulaAst)
    ensures ast.root == root
    ensures Sorted(ast.cells) && multiset(ast.cells) == multiset(cells)
  {
    FormulaAst(root, SortPositions(cells))
  }

  /** The parse failure ParseFormulaAST reports as FormulaException("parsing error"). */
  datatype ParsingError = ParsingError

  /**
   * ParseFormulaAST: the external parser yields a tree or fails; the walk
   * builds one root and the list of cell positions, which the FormulaAST
   * constructor sorts.
   */
  method ParseFormulaAst(text: string, grammar: string -> Option<ParseTree>, env: Env)
    returns (r: Result<FormulaAst, ParsingError>)
    ensures r.Success? <==> grammar(text).Some? && ToExpr(grammar(text).value, env).Some?
    ensures r.Success? ==> r.value.root == ToExpr(grammar(text).value, env).value
    ensures r.Success? ==> Sorted(r.value.cells) && multiset(r.value.cells) == multiset(CellsOf(r.value.root))
  {
    var tree := grammar(text);
    if tree.None? {
      return Failure(ParsingError);
    }
    var listener := new ParseAstListener(env);
    var ok := Walk(listener, tree.value);
    if !ok {
      return Failure(ParsingError);
    }
    var root := listener.MoveRoot();
    var cells := listener.MoveCells();
    assert cells == Reverse(CellsOf(root)) + [];
    ReverseMultiset(CellsOf(root));
    r := Success(NewFormulaAst(root, cells));
  }

  /** FormulaAST::PrintFormula: the root printed as a child of an atom. */
  function PrintAst(ast: FormulaAst, env: Env): string
  {
    PrintFormula(ast.root, env, EpAtom, false)
  }

  /** FormulaAST::Execute. */
  function Execute(ast: FormulaAst, env: Env, lookup: Position -> Option<CellValue>): Result<real, Category>
  {
    Evaluate(ast.root, env, lookup)
  }
}
