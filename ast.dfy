/**
 * The expression tree: the `TreeNode` hierarchy with its seven node kinds,
 * `eval()` on 32-bit `int`, and `print()` as the text it writes.
 */
module Ast {
  import opened Chars
  import opened CInt
  import opened IntText
  import opened Wrappers

  /** One variant per `TreeNode` subclass that can be instantiated */
  datatype Expr =
    | Add(left: Expr, right: Expr)
    | Sub(left: Expr, right: Expr)
    | Mul(left: Expr, right: Expr)
    | Div(left: Expr, right: Expr)
    | Negate(arg: Expr)
    | Integer(val: int)
    | Identifier(str: string, val: int)
  {
    predicate IsBinary() {
      Add? || Sub? || Mul? || Div?
    }

    /** The operator character a binary node writes between its operands */
    function Symbol(): char
      requires IsBinary()
    {
      match this
      case Add(_, _) => '+'
      case Sub(_, _) => '-'
      case Mul(_, _) => '*'
      case Div(_, _) => '/'
    }
  }

  /**
   * `eval()` of `e` has defined behaviour: no division by zero, every stored
   * value is an `int`, and no node's result overflows `int`.
   */
  predicate Defined(e: Expr)
    decreases e, 0
  {
    match e
    case Add(l, r) => Defined(l) && Defined(r) && InInt32(Eval(l) + Eval(r))
    case Sub(l, r) => Defined(l) && Defined(r) && InInt32(Eval(l) - Eval(r))
    case Mul(l, r) => Defined(l) && Defined(r) && InInt32(Eval(l) * Eval(r))
    case Div(l, r) => Defined(l) && Defined(r) && Eval(r) != 0 && InInt32(Quot(Eval(l), Eval(r)))
    case Negate(a) => Defined(a) && InInt32(-Eval(a))
    case Integer(v) => InInt32(v)
    case Identifier(_, v) => InInt32(v)
  }

  /** `eval()`: the node's `int` value */
  function Eval(e: Expr): (v: int)
    requires Defined(e)
    ensures InInt32(v)
    decreases e, 1
  {
    match e
    case Add(l, r) => Eval(l) + Eval(r)
    case Sub(l, r) => Eval(l) - Eval(r)
    case Mul(l, r) => Eval(l) * Eval(r)
    case Div(l, r) => Quot(Eval(l), Eval(r))
    case Negate(a) => -Eval(a)
    case Integer(v) => v
    case Identifier(_, v) => v
  }

  /**
   * `print()` of `e` has defined behaviour: it evaluates the children of a
   * compound node (but not the node itself).
   */
  predicate Printable(e: Expr) {
    match e
    case Negate(a) => Defined(a)
    case Integer(_) => true
    case Identifier(_, _) => true
    case _ => Defined(e.left) && Defined(e.right)
  }

  /** The text `print()` writes: a compound node shows its children's values */
  function Print(e: Expr): (r: string)
    requires Printable(e)
    ensures e.IsBinary() || e.Negate? ==> |r| >= 4 && r[0] == '(' && r[|r| - 1] == ')'
    ensures e.Integer? ==> IsIntText(r)
    ensures e.Identifier? ==> r == e.str
  {
    match e
    case Negate(a) => "(-" + Format(Eval(a)) + ")"
    case Integer(v) => Format(v)
    case Identifier(s, _) => s
    case _ => "(" + Format(Eval(e.left)) + [e.Symbol()] + Format(Eval(e.right)) + ")"
  }

  /**
   * Reads the text of a binary node back into its left value, operator and
   * right value; None for text of any other shape.
   */
  function ReadBinary(s: string): Option<(int, char, int)> {
    if |s| < 2 || s[0] != '(' || s[|s| - 1] != ')' then None
    else
      var body := s[1..|s| - 1];
      var j := if |body| == 0 then 0 else DigitRunEnd(body, 1);
      if j == 0 || j >= |body| || body[j] !in "+-*/" then None
      else match (Parse(body[..j]), Parse(body[j + 1..]))
        case (Some(a), Some(b)) => Some((a, body[j], b))
        case _ => None
  }

  /** Reads the text of a Negate node back into its operand's value */
  function ReadNegation(s: string): Option<int> {
    if |s| < 3 || s[0] != '(' || s[1] != '-' || s[|s| - 1] != ')' then None
    else Parse(s[2..|s| - 1])
  }

  /** Every character of a formatted `int` after the first is a digit */
  lemma FormatTail(n: int)
    ensures forall k :: 1 <= k < |Format(n)| ==> IsDigit(Format(n)[k])
  {
    var s := Format(n);
    if s[0] == '-' {
      assert forall k :: 1 <= k < |s| ==> s[k] == s[1..][k - 1];
    }
  }

  /** The text of two formatted values around an operator reads back as them */
  lemma ReadBinaryText(x: int, op: char, y: int)
    requires op in "+-*/"
    ensures ReadBinary("(" + Format(x) + [op] + Format(y) + ")") == Some((x, op, y))
  {
    var a, b := Format(x), Format(y);
    var body := a + [op] + b;
    var s := "(" + body + ")";
    assert s == "(" + Format(x) + [op] + Format(y) + ")";
    assert s[1..|s| - 1] == body;
    FormatTail(x);
    assert forall k :: 1 <= k < |a| ==> body[k] == a[k];
    assert !IsDigit(body[|a|]);
    DigitRunEndUnique(body, 1, |a|);
    assert body[..|a|] == a;
    assert body[|a| + 1..] == b;
    ParseFormat(x);
    ParseFormat(y);
  }

  /**
   * A binary node's text holds exactly its operator and the values of its two
   * children, and these can be read back from it.
   */
  lemma ReadPrintBinary(e: Expr)
    requires e.IsBinary() && Printable(e)
    ensures ReadBinary(Print(e)) == Some((Eval(e.left), e.Symbol(), Eval(e.right)))
  {
    ReadBinaryText(Eval(e.left), e.Symbol(), Eval(e.right));
  }

  /** A Negate node's text holds its operand's value, which can be read back */
  lemma ReadPrintNegate(a: Expr)
    requires Defined(a)
    ensures ReadNegation(Print(Negate(a))) == Some(Eval(a))
  {
    var s := Print(Negate(a));
    assert s[2..|s| - 1] == Format(Eval(a));
    ParseFormat(Eval(a));
  }

  /** An Integer node's text is the decimal text of its value */
  lemma ReadPrintInteger(v: int)
    ensures Parse(Print(Integer(v))) == Some(v)
  {
    ParseFormat(v);
  }

  /**
   * `print()` of a compound node depends only on its kind and on the values
   * of its children, not on the shape of the subtrees below it.
   */
  lemma PrintShowsOnlyValues(e1: Expr, e2: Expr)
    requires e1.IsBinary() && e2.IsBinary() && Printable(e1) && Printable(e2)
    ensures Print(e1) == Print(e2) <==>
      e1.Symbol() == e2.Symbol() && Eval(e1.left) == Eval(e2.left) && Eval(e1.right) == Eval(e2.right)
  {
    if Print(e1) == Print(e2) {
      ReadPrintBinary(e1);
      ReadPrintBinary(e2);
    }
  }

  /** Negation undone: `-(-x)` is `x`, and is defined exactly when `x` is not INT_MIN */
  lemma NegateTwice(e: Expr)
    ensures Defined(Negate(Negate(e))) <==> Defined(e) && Eval(e) != Int32Min
    ensures Defined(Negate(Negate(e))) ==> Eval(Negate(Negate(e))) == Eval(e)
  {
  }

  /** `Div` computes C++ `/`: truncation toward zero, remainder with the dividend's sign */
  lemma DivIsTruncating(l: Expr, r: Expr)
    requires Defined(Div(l, r))
    ensures var q, a, b := Eval(Div(l, r)), Eval(l), Eval(r);
            b != 0 && Abs(a - q * b) < Abs(b) && (a - q * b == 0 || (a - q * b < 0 <==> a < 0))
  {
  }

  /** INT_MIN / -1 overflows, so a tree computing it has no defined value */
  lemma DivOverflow(l: Expr)
    requires Defined(l) && Eval(l) == Int32Min
    ensures !Defined(Div(l, Integer(-1)))
  {
    QuotUnique(Int32Min, -1, Int32Max + 1);
  }

  /** The nodes' `print()` on a sample tree: `(1+2)+3` is written `(3+3)` */
  lemma PrintNestedAdd()
    ensures Print(Add(Add(Integer(1), Integer(2)), Integer(3))) == "(3+3)"
  {
    assert Format(3) == "3";
  }
}
