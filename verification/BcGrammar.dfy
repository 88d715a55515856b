/** Arithmetic expressions as the calculator's users write them: concrete syntax with free
    layout, its text, and its meaning in C's `int` arithmetic. */
module BcGrammar {
  import opened Wrappers

  const INT_MAX := 0x7FFF_FFFF
  const INT_MIN := -0x8000_0000

  predicate IsSpace(c: char) { c == ' ' || c == '\t' || c == '\n' || c as int == 11 || c as int == 12 || c == '\r' }
  predicate IsDigit(c: char) { '0' as int <= c as int <= '9' as int }

  function Digit(c: char): nat
    requires IsDigit(c)
  {
    c as int - '0' as int
  }

  /** None is where C leaves the result undefined: overflow or division by zero. */
  type Number = Option<int>

  function Int(v: int): Number { if INT_MIN <= v <= INT_MAX then Some(v) else None }

  /** C's division truncates toward zero. */
  function Quotient(a: int, b: int): int
    requires b != 0
  {
    if (a >= 0) == (b > 0) then Abs(a) / Abs(b) else -(Abs(a) / Abs(b))
  }

  function Abs(a: int): nat { if a < 0 then -a else a }

  function Plus(a: Number, b: Number): Number { if a.Some? && b.Some? then Int(a.value + b.value) else None }
  function Minus(a: Number, b: Number): Number { if a.Some? && b.Some? then Int(a.value - b.value) else None }
  function Times(a: Number, b: Number): Number { if a.Some? && b.Some? then Int(a.value * b.value) else None }
  function Over(a: Number, b: Number): Number {
    if a.Some? && b.Some? && b.value != 0 then Int(Quotient(a.value, b.value)) else None
  }

  datatype Factor = Lit(pad: string, digits: string) | Paren(before: string, inner: Expr, after: string)
  datatype Term = One(f: Factor) | Mul(t: Term, pad: string, f: Factor) | Div(t: Term, pad: string, f: Factor)
  datatype Expr = Just(t: Term) | Add(e: Expr, pad: string, t: Term) | Sub(e: Expr, pad: string, t: Term)

  function FactorText(f: Factor): string {
    match f
    case Lit(pad, digits) => pad + digits
    case Paren(before, inner, after) => before + "(" + ExprText(inner) + after + ")"
  }

  function TermText(t: Term): string {
    match t
    case One(f) => FactorText(f)
    case Mul(t', pad, f) => TermText(t') + (pad + "*") + FactorText(f)
    case Div(t', pad, f) => TermText(t') + (pad + "/") + FactorText(f)
  }

  function ExprText(e: Expr): string {
    match e
    case Just(t) => TermText(t)
    case Add(e', pad, t) => ExprText(e') + (pad + "+") + TermText(t)
    case Sub(e', pad, t) => ExprText(e') + (pad + "-") + TermText(t)
  }

  function DigitsValue(ds: string): nat
    requires forall c :: c in ds ==> IsDigit(c)
  {
    if ds == [] then 0 else 10 * DigitsValue(ds[..|ds| - 1]) + Digit(ds[|ds| - 1])
  }

  predicate Spaces(s: string) { forall c :: c in s ==> IsSpace(c) }

  /** Layout is white space and literals are digits. */
  predicate FactorOk(f: Factor) {
    match f
    case Lit(pad, digits) => Spaces(pad) && digits != [] && forall c :: c in digits ==> IsDigit(c)
    case Paren(before, inner, after) => Spaces(before) && Spaces(after) && ExprOk(inner)
  }

  predicate TermOk(t: Term) {
    match t
    case One(f) => FactorOk(f)
    case Mul(t', pad, f) => TermOk(t') && Spaces(pad) && FactorOk(f)
    case Div(t', pad, f) => TermOk(t') && Spaces(pad) && FactorOk(f)
  }

  predicate ExprOk(e: Expr) {
    match e
    case Just(t) => TermOk(t)
    case Add(e', pad, t) => ExprOk(e') && Spaces(pad) && TermOk(t)
    case Sub(e', pad, t) => ExprOk(e') && Spaces(pad) && TermOk(t)
  }

  /** No '-' stands directly behind a zero literal. */
  predicate FactorSpaced(f: Factor) { f.Paren? ==> ExprSpaced(f.inner) }

  predicate TermSpaced(t: Term) {
    match t
    case One(f) => FactorSpaced(f)
    case Mul(t', _, f) => TermSpaced(t') && FactorSpaced(f)
    case Div(t', _, f) => TermSpaced(t') && FactorSpaced(f)
  }

  predicate ExprSpaced(e: Expr) {
    match e
    case Just(t) => TermSpaced(t)
    case Add(e', _, t) => ExprSpaced(e') && TermSpaced(t)
    case Sub(e', pad, t) =>
      && ExprSpaced(e') && TermSpaced(t)
      && (LastFactor(e').Lit? && IsZero(LastFactor(e').digits) ==> pad != [])
  }

  predicate IsZero(digits: string) { forall c :: c in digits ==> c == '0' }

  function LastOfTerm(t: Term): Factor {
    match t
    case One(f) => f
    case Mul(_, _, f) => f
    case Div(_, _, f) => f
  }

  function LastFactor(e: Expr): Factor {
    match e
    case Just(t) => LastOfTerm(t)
    case Add(_, _, t) => LastOfTerm(t)
    case Sub(_, _, t) => LastOfTerm(t)
  }

  /** The value: operators of one level associate to the left, division truncates. */
  function FactorValue(f: Factor): Number
    requires FactorOk(f)
  {
    match f
    case Lit(_, digits) => Int(DigitsValue(digits))
    case Paren(_, inner, _) => ExprValue(inner)
  }

  function TermValue(t: Term): Number
    requires TermOk(t)
  {
    match t
    case One(f) => FactorValue(f)
    case Mul(t', _, f) => Times(TermValue(t'), FactorValue(f))
    case Div(t', _, f) => Over(TermValue(t'), FactorValue(f))
  }

  function ExprValue(e: Expr): Number
    requires ExprOk(e)
  {
    match e
    case Just(t) => TermValue(t)
    case Add(e', _, t) => Plus(ExprValue(e'), TermValue(t))
    case Sub(e', _, t) => Minus(ExprValue(e'), TermValue(t))
  }

  // ------------------------------------------------------------------ the arithmetic

  /** The quotient is the one that leaves a remainder smaller than the divisor and none of the other sign. */
  lemma QuotientTruncates(a: int, b: int)
    requires b != 0
    ensures var r := a - b * Quotient(a, b); Abs(r) < Abs(b) && (r == 0 || (r > 0 <==> a > 0))
  {
    var r := Remainder(a, b);
    hide Quotient;
  }

  lemma Remainder(a: int, b: int) returns (r: int)
    requires b != 0
    ensures 0 <= r < Abs(b) && a - b * Quotient(a, b) == if a >= 0 then r else -r
  {
    var q: int := Abs(a) / Abs(b);
    r := Abs(a) % Abs(b);
    Division(Abs(a), Abs(b));
    assert Quotient(a, b) == if (a >= 0) == (b > 0) then q else -q;
    hide Quotient;
    Truncated(a, b, q, r, Quotient(a, b));
  }

  lemma Truncated(a: int, b: int, q: int, r: int, quotient: int)
    requires Abs(a) == Abs(b) * q + r && quotient == if (a >= 0) == (b > 0) then q else -q
    ensures a - b * quotient == if a >= 0 then r else -r
  {
    Signs(b, q);
  }

  lemma Division(a: nat, b: nat)
    requires b != 0
    ensures a == b * (a / b) + a % b && a % b < b
  {
  }

  lemma Signs(x: int, y: int)
    ensures (-x) * y == -(x * y) && x * (-y) == -(x * y) && (-x) * (-y) == x * y
  {
  }

  /** No other number is a quotient in this sense. */
  lemma OneQuotient(a: int, b: int, q: int)
    requires b != 0 && Abs(a - b * q) < Abs(b) && (a == b * q || (a - b * q > 0 <==> a > 0))
    ensures q == Quotient(a, b)
  {
    QuotientTruncates(a, b);
    hide Quotient;
    var q' := Quotient(a, b);
    var d := q - q';
    Distributes(b, q, q');
    if d != 0 { Multiple(b, d); }
  }

  lemma Distributes(b: int, x: int, y: int)
    ensures b * x - b * y == b * (x - y)
  {
  }

  lemma Multiple(b: int, d: int)
    requires d != 0
    ensures Abs(b * d) >= Abs(b)
  {
    Signs(Abs(b), Abs(d));
    AtLeastOnce(Abs(b), Abs(d));
    assert b * d == Abs(b) * Abs(d) || b * d == -(Abs(b) * Abs(d));
  }

  lemma AtLeastOnce(b: nat, d: nat)
    requires d != 0
    ensures b * d >= b
  {
    assert b * d == b * (d - 1) + b;
  }

  /** Each operator gives the exact result wherever an `int` can hold it, and none elsewhere; the only
      division without a result, besides those by zero, is of the least number by -1. */
  lemma Results(a: int, b: int)
    requires INT_MIN <= a <= INT_MAX && INT_MIN <= b <= INT_MAX
    ensures Plus(Some(a), Some(b)) == None <==> a + b < INT_MIN || INT_MAX < a + b
    ensures Plus(Some(a), Some(b)).Some? ==> Minus(Plus(Some(a), Some(b)), Some(b)) == Some(a)
    ensures Plus(Some(a), Some(b)) == Plus(Some(b), Some(a)) && Plus(Some(a), Some(0)) == Some(a)
    ensures Minus(Some(a), Some(b)) == None <==> a - b < INT_MIN || INT_MAX < a - b
    ensures Times(Some(a), Some(b)) == None <==> a * b < INT_MIN || INT_MAX < a * b
    ensures b != 0 && Times(Some(a), Some(b)).Some? ==> Over(Times(Some(a), Some(b)), Some(b)) == Some(a)
    ensures Over(Some(a), Some(b)) == None <==> b == 0 || (a == INT_MIN && b == -1)
  {
    if b != 0 {
      OneQuotient(a * b, b, a);
      QuotientBound(a, b);
    }
  }

  lemma QuotientBound(a: int, b: int)
    requires b != 0 && INT_MIN <= a <= INT_MAX && INT_MIN <= b <= INT_MAX
    ensures INT_MIN <= Quotient(a, b) <= INT_MAX <==> !(a == INT_MIN && b == -1)
  {
    var q := Abs(a) / Abs(b);
    if Abs(b) > 1 { Halved(Abs(a), Abs(b)); }
  }

  lemma Halved(a: nat, b: nat)
    requires b >= 2
    ensures 2 * (a / b) <= a
  {
    assert a == b * (a / b) + a % b;
  }
}
