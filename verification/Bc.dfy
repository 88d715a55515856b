/** The calculator: an evaluating recursive-descent parser that moves one cursor over the line. */
module Bc {
  import opened Wrappers
  import opened BcGrammar

  /** Outcome of a parsing function: the value, and the cursor it leaves behind. */
  datatype Parsed = Parsed(v: Number, pos: nat)

  function SkipWs(t: string, i: nat): (j: nat)
    requires i <= |t|
    ensures i <= j <= |t|
    decreases |t| - i
  {
    if i < |t| && IsSpace(t[i]) then SkipWs(t, i + 1) else i
  }

  function SkipDigits(t: string, i: nat): (j: nat)
    requires i <= |t|
    ensures i <= j <= |t| && forall k :: i <= k < j ==> IsDigit(t[k])
    ensures j < |t| ==> !IsDigit(t[j])
    decreases |t| - i
  {
    if i < |t| && IsDigit(t[i]) then SkipDigits(t, i + 1) else i
  }

  /** The conversion loop of `atoi`: a '-' is accepted as long as the value so far is zero. */
  function Atoi(t: string, i: nat, acc: int, neg: bool): Number
    requires i <= |t| && acc >= 0
    decreases |t| - i
  {
    if i < |t| && IsDigit(t[i]) then
      var v := acc * 10 + Digit(t[i]);
      if v > INT_MAX then None else Atoi(t, i + 1, v, neg)
    else if i < |t| && t[i] == '-' && acc == 0 then Atoi(t, i + 1, acc, true)
    else Some(if neg then -acc else acc)
  }

  predicate At(t: string, i: nat, c: char) { i < |t| && t[i] == c }

  function NumberAt(t: string, i: nat): (r: Parsed)
    requires i <= |t|
    ensures i <= r.pos <= |t|
  {
    var j := SkipWs(t, i);
    Parsed(Atoi(t, j, 0, false), SkipDigits(t, j))
  }

  function FactorAt(t: string, i: nat): (r: Parsed)
    requires i <= |t|
    ensures i <= r.pos <= |t|
    decreases |t| - i, 0
  {
    var j := SkipWs(t, i);
    if At(t, j, '(') then
      var e := ExprAt(t, j + 1);
      var k := SkipWs(t, e.pos);
      Parsed(e.v, if At(t, k, ')') then k + 1 else k)
    else NumberAt(t, j)
  }

  function TermLoop(t: string, v: Number, i: nat): (r: Parsed)
    requires i <= |t|
    ensures i <= r.pos <= |t|
    decreases |t| - i, 0
  {
    var j := SkipWs(t, i);
    if At(t, j, '*') then
      var f := FactorAt(t, j + 1);
      TermLoop(t, Times(v, f.v), f.pos)
    else if At(t, j, '/') then
      var f := FactorAt(t, j + 1);
      TermLoop(t, Over(v, f.v), f.pos)
    else Parsed(v, j)
  }

  function TermAt(t: string, i: nat): (r: Parsed)
    requires i <= |t|
    ensures i <= r.pos <= |t|
    decreases |t| - i, 1
  {
    var f := FactorAt(t, i);
    TermLoop(t, f.v, f.pos)
  }

  function ExprLoop(t: string, v: Number, i: nat): (r: Parsed)
    requires i <= |t|
    ensures i <= r.pos <= |t|
    decreases |t| - i, 2
  {
    var j := SkipWs(t, i);
    if At(t, j, '+') then
      var f := TermAt(t, j + 1);
      ExprLoop(t, Plus(v, f.v), f.pos)
    else if At(t, j, '-') then
      var f := TermAt(t, j + 1);
      ExprLoop(t, Minus(v, f.v), f.pos)
    else Parsed(v, j)
  }

  function ExprAt(t: string, i: nat): (r: Parsed)
    requires i <= |t|
    ensures i <= r.pos <= |t|
    decreases |t| - i, 3
  {
    var f := TermAt(t, i);
    ExprLoop(t, f.v, f.pos)
  }

  // ---------------------------------------------------------------- reading a well-formed text

  /** The text of `s` stands in `t` at position `i`. */
  predicate Stands(t: string, i: nat, s: string) { i + |s| <= |t| && t[i..i + |s|] == s }

  lemma StandsSplit(t: string, i: nat, a: string, b: string)
    requires Stands(t, i, a + b)
    ensures Stands(t, i, a) && Stands(t, i + |a|, b)
  {
    assert t[i..i + |a| + |b|][..|a|] == a && t[i..i + |a| + |b|][|a|..] == b;
  }

  lemma {:induction false} SpacesSkipped(t: string, i: nat, pad: string)
    requires Stands(t, i, pad) && Spaces(pad)
    ensures SkipWs(t, i) == SkipWs(t, i + |pad|)
    decreases |pad|
  {
    if pad != [] {
      assert t[i] == pad[0];
      assert t[i + 1..i + |pad|] == pad[1..];
      SpacesSkipped(t, i + 1, pad[1..]);
    }
  }

  /** Padding followed by the operator `c`. */
  lemma OperatorNext(t: string, i: nat, pad: string, c: char)
    requires Stands(t, i, pad + [c]) && Spaces(pad) && !IsSpace(c)
    ensures SkipWs(t, i) == i + |pad| && t[i + |pad|] == c
  {
    StandsSplit(t, i, pad, [c]);
    SpacesSkipped(t, i, pad);
    assert t[i + |pad|] == t[i + |pad|..i + |pad| + 1][0];
  }

  lemma {:induction false} SkipTwice(t: string, i: nat)
    requires i <= |t|
    ensures SkipWs(t, SkipWs(t, i)) == SkipWs(t, i)
    decreases |t| - i
  {
    if i < |t| && IsSpace(t[i]) { SkipTwice(t, i + 1); }
  }

  // ---------------------------------------------------------------- what may follow a literal

  /** Skips what `atoi` swallows after a zero: further zeros and minus signs. */
  function SkipZeros(t: string, i: nat): (j: nat)
    requires i <= |t|
    ensures i <= j <= |t|
    decreases |t| - i
  {
    if i < |t| && (t[i] == '0' || t[i] == '-') then SkipZeros(t, i + 1) else i
  }

  lemma {:induction false} AtoiFromZero(t: string, i: nat, neg: bool)
    requires i <= |t|
    ensures Atoi(t, i, 0, neg) == Some(0) <==> (SkipZeros(t, i) < |t| ==> !IsDigit(t[SkipZeros(t, i)]))
    decreases |t| - i
  {
    if i < |t| && t[i] == '0' {
      AtoiFromZero(t, i + 1, neg);
    } else if i < |t| && t[i] == '-' {
      AtoiFromZero(t, i + 1, true);
    } else if i < |t| && IsDigit(t[i]) {
      assert Digit(t[i]) > 0;
      AtoiNonZero(t, i + 1, Digit(t[i]), neg);
    }
  }

  lemma {:induction false} AtoiNonZero(t: string, i: nat, acc: int, neg: bool)
    requires i <= |t| && acc > 0
    ensures Atoi(t, i, acc, neg) != Some(0)
    decreases |t| - i
  {
    if i < |t| && IsDigit(t[i]) && acc * 10 + Digit(t[i]) <= INT_MAX {
      AtoiNonZero(t, i + 1, acc * 10 + Digit(t[i]), neg);
    }
  }

  /** No digit comes directly after a literal. */
  predicate Parted(t: string, j: nat, f: Factor) { f.Lit? && j < |t| ==> !IsDigit(t[j]) }

  /** What `atoi` swallows behind a zero literal leads to no digit. */
  predicate ZeroStops(t: string, j: nat, f: Factor)
    requires j <= |t|
  {
    f.Lit? && IsZero(f.digits) && SkipZeros(t, j) < |t| ==> !IsDigit(t[SkipZeros(t, j)])
  }

  /** Neither a digit nor, behind a zero literal, a '-' comes next. */
  predicate Follows(t: string, j: nat, f: Factor) {
    f.Lit? && j < |t| ==> !IsDigit(t[j]) && (IsZero(f.digits) ==> t[j] != '-')
  }

  lemma FollowsStops(t: string, j: nat, f: Factor)
    requires j <= |t| && Follows(t, j, f)
    ensures Parted(t, j, f) && ZeroStops(t, j, f)
  {
  }

  /** Behind every zero literal of the text at position `i` the zeros and minus signs lead to no digit. */
  predicate FactorRead(f: Factor, t: string, i: nat) {
    match f
    case Lit(pad, digits) => i + |pad + digits| <= |t| && ZeroStops(t, i + |pad + digits|, f)
    case Paren(before, inner, _) => ExprRead(inner, t, i + |before| + 1)
  }

  predicate TermRead(m: Term, t: string, i: nat) {
    match m
    case One(f) => FactorRead(f, t, i)
    case Mul(m', pad, f) => TermRead(m', t, i) && FactorRead(f, t, i + |TermText(m')| + |pad| + 1)
    case Div(m', pad, f) => TermRead(m', t, i) && FactorRead(f, t, i + |TermText(m')| + |pad| + 1)
  }

  predicate ExprRead(e: Expr, t: string, i: nat) {
    match e
    case Just(m) => TermRead(m, t, i)
    case Add(e', pad, m) => ExprRead(e', t, i) && TermRead(m, t, i + |ExprText(e')| + |pad| + 1)
    case Sub(e', pad, m) => ExprRead(e', t, i) && TermRead(m, t, i + |ExprText(e')| + |pad| + 1)
  }

  lemma {:induction false} DigitsBound(ds: string, n: nat)
    requires n <= |ds| && forall c :: c in ds ==> IsDigit(c)
    ensures DigitsValue(ds[..n]) <= DigitsValue(ds)
  {
    if n < |ds| {
      DigitsBound(ds[..|ds| - 1], n);
      assert ds[..|ds| - 1][..n] == ds[..n];
    } else {
      assert ds[..n] == ds;
    }
  }

  lemma {:induction false} ZeroValue(ds: string)
    requires forall c :: c in ds ==> IsDigit(c)
    ensures DigitsValue(ds) == 0 <==> IsZero(ds)
  {
    if ds != [] {
      var n := |ds| - 1;
      ZeroValue(ds[..n]);
      assert ds == ds[..n] + [ds[n]];
      assert forall c :: c in ds <==> c in ds[..n] || c == ds[n];
      assert ds[n] in ds && (Digit(ds[n]) == 0 <==> ds[n] == '0');
    }
  }

  lemma NextDigit(ds: string, n: nat)
    requires n < |ds| && forall c :: c in ds ==> IsDigit(c)
    ensures IsDigit(ds[n]) && DigitsValue(ds[..n + 1]) == DigitsValue(ds[..n]) * 10 + Digit(ds[n]) <= DigitsValue(ds)
  {
    assert ds[n] in ds;
    assert ds[..n + 1][..n] == ds[..n] && ds[..n + 1][n] == ds[n];
    DigitsBound(ds, n + 1);
  }

  /** `atoi` after `n` digits of a literal has converted exactly those digits. */
  lemma {:induction false} AtoiDigits(t: string, i: nat, ds: string, n: nat, neg: bool)
    requires Stands(t, i, ds) && n <= |ds| && (forall c :: c in ds ==> IsDigit(c))
    requires DigitsValue(ds[..n]) <= INT_MAX
    ensures Atoi(t, i + n, DigitsValue(ds[..n]), neg) ==
            if DigitsValue(ds) > INT_MAX then None else Atoi(t, i + |ds|, DigitsValue(ds), neg)
    decreases |ds| - n
  {
    hide DigitsValue, Digit;
    if n == |ds| {
      assert ds[..n] == ds;
    } else {
      assert t[i + n] == t[i..i + |ds|][n] == ds[n];
      NextDigit(ds, n);
      if DigitsValue(ds[..n + 1]) <= INT_MAX { AtoiDigits(t, i, ds, n + 1, neg); }
    }
  }

  lemma {:induction false} DigitsSkipped(t: string, i: nat, ds: string)
    requires Stands(t, i, ds) && forall c :: c in ds ==> IsDigit(c)
    ensures SkipDigits(t, i) == SkipDigits(t, i + |ds|)
    decreases |ds|
  {
    if ds != [] {
      assert t[i] == ds[0] && t[i + 1..i + |ds|] == ds[1..];
      DigitsSkipped(t, i + 1, ds[1..]);
    }
  }

  /** What may come behind a literal that ends at `j` for it to be read as its value. */
  predicate Harmless(t: string, j: nat, ds: string)
    requires j <= |t|
  {
    IsZero(ds) && SkipZeros(t, j) < |t| ==> !IsDigit(t[SkipZeros(t, j)])
  }

  lemma LiteralParts(f: Factor, t: string, i: nat)
    requires f.Lit? && FactorOk(f) && Stands(t, i, FactorText(f)) && Parted(t, i + |FactorText(f)|, f)
    ensures var k := i + |f.pad|; var j := k + |f.digits|;
      && j == i + |FactorText(f)| <= |t| && (j < |t| ==> !IsDigit(t[j]))
      && Stands(t, i, f.pad) && Spaces(f.pad) && Stands(t, k, f.digits)
      && f.digits != [] && (forall c :: c in f.digits ==> IsDigit(c))
      && (FactorRead(f, t, i) <==> Harmless(t, j, f.digits))
  {
    hide SkipZeros, IsZero, DigitsValue, IsDigit;
    StandsSplit(t, i, f.pad, f.digits);
    assert |f.pad + f.digits| == |f.pad| + |f.digits|;
  }

  lemma LiteralReads(f: Factor, t: string, i: nat)
    requires f.Lit? && FactorOk(f) && Stands(t, i, FactorText(f)) && Parted(t, i + |FactorText(f)|, f)
        && FactorRead(f, t, i)
    ensures FactorAt(t, i) == Parsed(FactorValue(f), i + |FactorText(f)|)
  {
    LiteralParts(f, t, i);
    hide Atoi, SkipDigits, DigitsValue, SkipWs, SkipZeros, Stands, Parted, Harmless, FactorText, FactorRead,
        ExprAt, IsZero;
    var k, ds := i + |f.pad|, f.digits;
    SpacesSkipped(t, i, f.pad);
    FirstDigit(t, k, ds);
    assert !At(t, k, '(');
    NumberReads(t, k, ds);
    FactorIsNumber(t, i);
    NumberIs(t, k);
    hide IsDigit, IsSpace, At, Spaces, FactorAt, NumberAt;
  }

  lemma NumberIs(t: string, k: nat)
    requires k <= |t| && SkipWs(t, k) == k
    ensures NumberAt(t, k) == Parsed(Atoi(t, k, 0, false), SkipDigits(t, k))
  {
  }

  lemma FactorIsNumber(t: string, i: nat)
    requires i <= |t| && !At(t, SkipWs(t, i), '(')
    ensures FactorAt(t, i) == NumberAt(t, SkipWs(t, i))
  {
  }

  lemma FirstDigit(t: string, k: nat, ds: string)
    requires Stands(t, k, ds) && ds != [] && forall c :: c in ds ==> IsDigit(c)
    ensures k < |t| && IsDigit(t[k]) && SkipWs(t, k) == k
  {
    assert t[k] == t[k..k + |ds|][0] == ds[0] && ds[0] in ds;
  }

  /** A run of digits with no digit behind it reads as its value, if it is not zero or what follows allows it. */
  lemma NumberReads(t: string, k: nat, ds: string)
    requires Stands(t, k, ds) && ds != [] && forall c :: c in ds ==> IsDigit(c)
    requires k + |ds| < |t| ==> !IsDigit(t[k + |ds|])
    requires k + |ds| <= |t| && Harmless(t, k + |ds|, ds)
    ensures Atoi(t, k, 0, false) == Int(DigitsValue(ds)) && SkipDigits(t, k) == k + |ds|
  {
    assert ds[..0] == [];
    AtoiDigits(t, k, ds, 0, false);
    DigitsSkipped(t, k, ds);
    ZeroValue(ds);
    if IsZero(ds) {
      AtoiFromZero(t, k, false);
      ZerosSkipped(t, k, ds);
    }
  }

  lemma {:induction false} FactorReads(f: Factor, t: string, i: nat)
    requires FactorOk(f) && Stands(t, i, FactorText(f)) && Parted(t, i + |FactorText(f)|, f) && FactorRead(f, t, i)
    ensures FactorAt(t, i) == Parsed(FactorValue(f), i + |FactorText(f)|)
    decreases f, 0
  {
    if f.Lit? {
      LiteralReads(f, t, i);
    } else {
      hide ExprText, ExprOk, ExprValue, LastFactor, FactorText, FactorAt, ExprAt, SkipWs;
      ParenSetup(f, t, i);
      ExprReads(f.inner, t, i + |f.before| + 1);
      ParenClose(f, t, i);
    }
  }

  lemma ParenSetup(f: Factor, t: string, i: nat)
    requires f.Paren? && FactorOk(f) && Stands(t, i, FactorText(f))
    ensures var k := i + |f.before|; var j := k + 1 + |ExprText(f.inner)|;
      && i <= |t| && j <= |t| && i + |FactorText(f)| == j + |f.after| + 1
      && SkipWs(t, i) == k && At(t, k, '(') && Stands(t, k + 1, ExprText(f.inner))
      && SkipWs(t, j) == j + |f.after| && At(t, j + |f.after|, ')') && Follows(t, j, LastFactor(f.inner))
      && Parted(t, j, LastFactor(f.inner))
  {
    hide ExprText, ExprOk, LastFactor, SkipWs;
    var k := i + |f.before|;
    var j := k + 1 + |ExprText(f.inner)|;
    var body := ExprText(f.inner) + (f.after + [')']);
    assert FactorText(f) == (f.before + ['(']) + body;
    StandsSplit(t, i, f.before + ['('], body);
    StandsSplit(t, k + 1, ExprText(f.inner), f.after + [')']);
    OperatorNext(t, i, f.before, '(');
    OperatorNext(t, j, f.after, ')');
    CloseFollows(t, j, f.after, ')', LastFactor(f.inner));
  }

  lemma ParenClose(f: Factor, t: string, i: nat)
    requires f.Paren? && FactorOk(f) && i <= |t|
    requires var k := i + |f.before|; var j := k + 1 + |ExprText(f.inner)|;
      && j <= |t| && i + |FactorText(f)| == j + |f.after| + 1
      && SkipWs(t, i) == k && At(t, k, '(')
      && SkipWs(t, j) == j + |f.after| && At(t, j + |f.after|, ')')
      && ExprAt(t, k + 1) == ExprLoop(t, ExprValue(f.inner), j)
    ensures FactorAt(t, i) == Parsed(FactorValue(f), i + |FactorText(f)|)
  {
    hide ExprText, ExprOk, ExprValue, FactorText, ExprAt, NumberAt;
    var j := i + |f.before| + 1 + |ExprText(f.inner)|;
    SkipTwice(t, j);
    assert ExprLoop(t, ExprValue(f.inner), j) == Parsed(ExprValue(f.inner), j + |f.after|);
  }

  /** Padding and any operator but a touching '-' may follow every factor. */
  lemma CloseFollows(t: string, j: nat, pad: string, c: char, f: Factor)
    requires Stands(t, j, pad + [c]) && Spaces(pad) && !IsDigit(c)
    requires c == '-' && f.Lit? && IsZero(f.digits) ==> pad != []
    ensures Follows(t, j, f)
  {
    assert t[j] == t[j..j + |pad| + 1][0] == (pad + [c])[0];
    assert pad != [] ==> pad[0] in pad;
  }

  lemma CloseParts(t: string, j: nat, pad: string, c: char, f: Factor)
    requires Stands(t, j, pad + [c]) && Spaces(pad) && !IsDigit(c)
    ensures Parted(t, j, f)
  {
    assert t[j] == t[j..j + |pad| + 1][0] == (pad + [c])[0];
    assert pad != [] ==> pad[0] in pad;
  }

  lemma {:induction false} TermReads(m: Term, t: string, i: nat)
    requires TermOk(m) && Stands(t, i, TermText(m)) && Parted(t, i + |TermText(m)|, LastOfTerm(m)) && TermRead(m, t, i)
    ensures TermAt(t, i) == TermLoop(t, TermValue(m), i + |TermText(m)|)
    decreases m, 1
  {
    if m.One? {
      hide FactorAt, FactorText, FactorOk, FactorValue, TermLoop;
      FactorReads(m.f, t, i);
    } else {
      TermStep(m, t, i, if m.Mul? then '*' else '/');
    }
  }

  lemma {:induction false} TermStep(m: Term, t: string, i: nat, c: char)
    requires !m.One? && TermOk(m) && c == if m.Mul? then '*' else '/'
    requires Stands(t, i, TermText(m)) && Parted(t, i + |TermText(m)|, m.f) && TermRead(m, t, i)
    ensures TermAt(t, i) == TermLoop(t, TermValue(m), i + |TermText(m)|)
    decreases m, 0
  {
    hide FactorAt, FactorText, FactorOk, FactorValue, TermText, TermAt, SkipWs;
    var j := i + |TermText(m.t)|;
    TermSetup(m, t, i, c);
    TermReads(m.t, t, i);
    FactorReads(m.f, t, j + |m.pad| + 1);
  }

  lemma TermSetup(m: Term, t: string, i: nat, c: char)
    requires !m.One? && TermOk(m) && Stands(t, i, TermText(m)) && c == if m.Mul? then '*' else '/'
    ensures var j := i + |TermText(m.t)|;
      && i + |TermText(m)| == j + |m.pad| + 1 + |FactorText(m.f)| <= |t|
      && Stands(t, i, TermText(m.t)) && Follows(t, j, LastOfTerm(m.t)) && Parted(t, j, LastOfTerm(m.t))
      && SkipWs(t, j) == j + |m.pad| && At(t, j + |m.pad|, c) && Stands(t, j + |m.pad| + 1, FactorText(m.f))
  {
    hide FactorText, FactorOk, SkipWs;
    var j := i + |TermText(m.t)|;
    assert TermText(m) == TermText(m.t) + (m.pad + [c]) + FactorText(m.f);
    StandsSplit(t, i, TermText(m.t) + (m.pad + [c]), FactorText(m.f));
    StandsSplit(t, i, TermText(m.t), m.pad + [c]);
    CloseFollows(t, j, m.pad, c, LastOfTerm(m.t));
    OperatorNext(t, j, m.pad, c);
  }

  /** No multiplying operator is next: a term ends here. */
  predicate TermEnds(t: string, j: nat)
    requires j <= |t|
  {
    !At(t, SkipWs(t, j), '*') && !At(t, SkipWs(t, j), '/')
  }

  lemma {:induction false} ExprReads(e: Expr, t: string, i: nat)
    requires ExprOk(e) && Stands(t, i, ExprText(e)) && Parted(t, i + |ExprText(e)|, LastFactor(e)) && ExprRead(e, t, i)
    requires TermEnds(t, i + |ExprText(e)|)
    ensures ExprAt(t, i) == ExprLoop(t, ExprValue(e), i + |ExprText(e)|)
    decreases e, 1
  {
    hide FactorAt, FactorText, FactorOk, FactorValue;
    if e.Just? {
      hide TermText, TermOk, TermValue, TermAt;
      TermReads(e.t, t, i);
      SkipTwice(t, i + |ExprText(e)|);
    } else {
      ExprStep(e, t, i, if e.Add? then '+' else '-');
    }
  }

  lemma {:induction false} ExprStep(e: Expr, t: string, i: nat, c: char)
    requires !e.Just? && ExprOk(e) && c == if e.Add? then '+' else '-'
    requires Stands(t, i, ExprText(e)) && Parted(t, i + |ExprText(e)|, LastOfTerm(e.t)) && ExprRead(e, t, i)
    requires TermEnds(t, i + |ExprText(e)|)
    ensures ExprAt(t, i) == ExprLoop(t, ExprValue(e), i + |ExprText(e)|)
    decreases e, 0
  {
    hide TermText, TermOk, TermValue, TermAt, ExprText, ExprAt, SkipWs, LastFactor;
    var j := i + |ExprText(e.e)|;
    ExprSetup(e, t, i, c);
    assert ExprRead(e.e, t, i) && TermRead(e.t, t, j + |e.pad| + 1);
    hide ExprRead, TermRead, Stands, Parted, Follows, ExprSpaced;
    ExprReads(e.e, t, i);
    TermReads(e.t, t, j + |e.pad| + 1);
    hide TermEnds;
    TermToExpr(t, ExprValue(e), TermValue(e.t), i + |ExprText(e)|);
    LoopStep(t, ExprValue(e.e), j, j + |e.pad|, c, TermValue(e.t), SkipWs(t, i + |ExprText(e)|));
    hide ExprLoop, TermLoop;
  }

  /** One turn of the expression loop. */
  lemma LoopStep(t: string, v: Number, j: nat, k: nat, c: char, w: Number, pos: nat)
    requires j <= |t| && SkipWs(t, j) == k && At(t, k, c) && (c == '+' || c == '-')
        && TermAt(t, k + 1) == Parsed(w, pos)
    ensures pos <= |t| && ExprLoop(t, v, j) == ExprLoop(t, if c == '+' then Plus(v, w) else Minus(v, w), pos)
  {
    hide TermAt, SkipWs;
  }

  /** Where a term ends, the term loop stops and the expression loop goes on from the same place. */
  lemma TermToExpr(t: string, v: Number, w: Number, j: nat)
    requires j <= |t| && TermEnds(t, j)
    ensures TermLoop(t, w, j) == Parsed(w, SkipWs(t, j)) && ExprLoop(t, v, SkipWs(t, j)) == ExprLoop(t, v, j)
  {
    hide TermAt;
    SkipTwice(t, j);
  }

  lemma ExprSetup(e: Expr, t: string, i: nat, c: char)
    requires !e.Just? && ExprOk(e) && Stands(t, i, ExprText(e)) && c == if e.Add? then '+' else '-'
    ensures var j := i + |ExprText(e.e)|;
      && i + |ExprText(e)| == j + |e.pad| + 1 + |TermText(e.t)| <= |t|
      && Stands(t, i, ExprText(e.e)) && Parted(t, j, LastFactor(e.e)) && TermEnds(t, j)
      && (ExprSpaced(e) ==> Follows(t, j, LastFactor(e.e)))
      && SkipWs(t, j) == j + |e.pad| && At(t, j + |e.pad|, c) && Stands(t, j + |e.pad| + 1, TermText(e.t))
      && LastFactor(e) == LastOfTerm(e.t)
  {
    hide TermText, TermOk, SkipWs;
    var j := i + |ExprText(e.e)|;
    assert ExprText(e) == ExprText(e.e) + (e.pad + [c]) + TermText(e.t);
    StandsSplit(t, i, ExprText(e.e) + (e.pad + [c]), TermText(e.t));
    StandsSplit(t, i, ExprText(e.e), e.pad + [c]);
    CloseParts(t, j, e.pad, c, LastFactor(e.e));
    if ExprSpaced(e) { CloseFollows(t, j, e.pad, c, LastFactor(e.e)); }
    OperatorNext(t, j, e.pad, c);
  }

  /** Every well-formed line in which no zero literal is misread evaluates to its meaning and is consumed
      to the end. */
  lemma LineReads(e: Expr, tail: string)
    requires ExprOk(e) && Spaces(tail) && ExprRead(e, ExprText(e) + tail, 0)
    ensures ExprAt(ExprText(e) + tail, 0) == Parsed(ExprValue(e), |ExprText(e) + tail|)
  {
    hide ExprText, ExprOk, ExprRead, ExprValue, LastFactor, TermAt, TermLoop;
    var t := ExprText(e) + tail;
    var j := |ExprText(e)|;
    assert Stands(t, 0, ExprText(e) + tail);
    StandsSplit(t, 0, ExprText(e), tail);
    SpacesSkipped(t, j, tail);
    assert j < |t| ==> t[j] == tail[0] && tail[0] in tail;
    ExprReads(e, t, 0);
  }

  // ---------------------------------------------------------------- when every literal is read right

  /** Each literal of the text at position `i` is read as its value. */
  predicate FactorRight(f: Factor, t: string, i: nat)
    requires FactorOk(f)
  {
    match f
    case Lit(pad, digits) => i + |pad| <= |t| && NumberAt(t, i + |pad|).v == Int(DigitsValue(digits))
    case Paren(before, inner, _) => ExprRight(inner, t, i + |before| + 1)
  }

  predicate TermRight(m: Term, t: string, i: nat)
    requires TermOk(m)
  {
    match m
    case One(f) => FactorRight(f, t, i)
    case Mul(m', pad, f) => TermRight(m', t, i) && FactorRight(f, t, i + |TermText(m')| + |pad| + 1)
    case Div(m', pad, f) => TermRight(m', t, i) && FactorRight(f, t, i + |TermText(m')| + |pad| + 1)
  }

  predicate ExprRight(e: Expr, t: string, i: nat)
    requires ExprOk(e)
  {
    match e
    case Just(m) => TermRight(m, t, i)
    case Add(e', pad, m) => ExprRight(e', t, i) && TermRight(m, t, i + |ExprText(e')| + |pad| + 1)
    case Sub(e', pad, m) => ExprRight(e', t, i) && TermRight(m, t, i + |ExprText(e')| + |pad| + 1)
  }

  /** The condition on the zeros of a line is exact: it holds if and only if each literal is read as its value. */
  lemma {:induction false} FactorExact(f: Factor, t: string, i: nat)
    requires FactorOk(f) && Stands(t, i, FactorText(f)) && Parted(t, i + |FactorText(f)|, f)
    ensures FactorRead(f, t, i) <==> FactorRight(f, t, i)
    decreases f, 0
  {
    if f.Lit? {
      LiteralExact(f, t, i);
    } else {
      ParenSetup(f, t, i);
      hide ExprText, ExprOk, FactorText, SkipWs, LastFactor;
      ExprExact(f.inner, t, i + |f.before| + 1);
    }
  }

  lemma LiteralExact(f: Factor, t: string, i: nat)
    requires f.Lit? && FactorOk(f) && Stands(t, i, FactorText(f)) && Parted(t, i + |FactorText(f)|, f)
    ensures FactorRead(f, t, i) <==> FactorRight(f, t, i)
  {
    LiteralParts(f, t, i);
    hide Atoi, SkipDigits, DigitsValue, SkipWs, SkipZeros, Stands, Parted, FactorText, FactorRead, IsZero;
    var k, ds := i + |f.pad|, f.digits;
    FirstDigit(t, k, ds);
    ZeroValue(ds);
    if IsZero(ds) {
      ZeroReads(t, k, ds);
    } else {
      NumberReads(t, k, ds);
    }
  }

  lemma {:induction false} TermExact(m: Term, t: string, i: nat)
    requires TermOk(m) && Stands(t, i, TermText(m)) && Parted(t, i + |TermText(m)|, LastOfTerm(m))
    ensures TermRead(m, t, i) <==> TermRight(m, t, i)
    decreases m, 1
  {
    if m.One? {
      hide FactorText, FactorOk, FactorRead, FactorRight;
      FactorExact(m.f, t, i);
    } else {
      hide TermRead, TermRight, Stands, Parted;
      LastOf(m);
      TermExactStep(m, t, i, if m.Mul? then '*' else '/');
    }
  }

  lemma LastOf(m: Term)
    ensures !m.One? ==> LastOfTerm(m) == m.f
  {
  }

  lemma {:induction false} TermExactStep(m: Term, t: string, i: nat, c: char)
    requires !m.One? && TermOk(m) && c == (if m.Mul? then '*' else '/') && Stands(t, i, TermText(m))
        && Parted(t, i + |TermText(m)|, m.f)
    ensures TermRead(m, t, i) <==> TermRight(m, t, i)
    decreases m, 0
  {
    hide FactorText, TermText, FactorOk, SkipWs, FactorRead, FactorRight, Stands, Parted, Follows, LastOfTerm;
    TermSetup(m, t, i, c);
    TermExact(m.t, t, i);
    FactorExact(m.f, t, i + |TermText(m.t)| + |m.pad| + 1);
  }

  lemma {:induction false} ExprExact(e: Expr, t: string, i: nat)
    requires ExprOk(e) && Stands(t, i, ExprText(e)) && Parted(t, i + |ExprText(e)|, LastFactor(e))
    ensures ExprRead(e, t, i) <==> ExprRight(e, t, i)
    decreases e, 1
  {
    if e.Just? {
      hide TermText, TermOk, TermRead, TermRight, Stands, Parted, LastOfTerm;
      TermExact(e.t, t, i);
    } else {
      hide ExprRead, ExprRight, Stands, Parted, LastFactor;
      ExprExactStep(e, t, i, if e.Add? then '+' else '-');
    }
  }

  lemma {:induction false} ExprExactStep(e: Expr, t: string, i: nat, c: char)
    requires !e.Just? && ExprOk(e) && c == if e.Add? then '+' else '-'
    requires Stands(t, i, ExprText(e)) && Parted(t, i + |ExprText(e)|, LastFactor(e))
    ensures ExprRead(e, t, i) <==> ExprRight(e, t, i)
    decreases e, 0
  {
    hide TermText, ExprText, TermOk, SkipWs, TermRead, TermRight, Stands, Parted, Follows, TermEnds, LastFactor;
    ExprSetup(e, t, i, c);
    ExprExact(e.e, t, i);
    TermExact(e.t, t, i + |ExprText(e.e)| + |e.pad| + 1);
  }

  /** Lines in which no '-' stands directly behind a zero literal are read right. */
  lemma {:induction false} FactorSpacedRead(f: Factor, t: string, i: nat)
    requires FactorOk(f) && FactorSpaced(f) && Stands(t, i, FactorText(f)) && Follows(t, i + |FactorText(f)|, f)
    ensures FactorRead(f, t, i)
    decreases f, 0
  {
    if f.Lit? {
      FollowsStops(t, i + |FactorText(f)|, f);
    } else {
      ParenSetup(f, t, i);
      hide ExprText, ExprOk, FactorText, SkipWs, LastFactor;
      ExprSpacedRead(f.inner, t, i + |f.before| + 1);
    }
  }

  lemma {:induction false} TermSpacedRead(m: Term, t: string, i: nat)
    requires TermOk(m) && TermSpaced(m) && Stands(t, i, TermText(m)) && Follows(t, i + |TermText(m)|, LastOfTerm(m))
    ensures TermRead(m, t, i)
    decreases m, 1
  {
    if m.One? {
      FactorSpacedRead(m.f, t, i);
    } else {
      TermSetup(m, t, i, if m.Mul? then '*' else '/');
      hide FactorText, TermText, FactorOk, SkipWs, FactorRead, Stands, Parted, LastOfTerm;
      assert LastOfTerm(m) == m.f by { LastOf(m); }
      TermSpacedRead(m.t, t, i);
      FactorSpacedRead(m.f, t, i + |TermText(m.t)| + |m.pad| + 1);
    }
  }

  lemma {:induction false} ExprSpacedRead(e: Expr, t: string, i: nat)
    requires ExprOk(e) && ExprSpaced(e) && Stands(t, i, ExprText(e)) && Follows(t, i + |ExprText(e)|, LastFactor(e))
    ensures ExprRead(e, t, i)
    decreases e, 1
  {
    if e.Just? {
      hide TermText, TermOk, TermRead;
      TermSpacedRead(e.t, t, i);
    } else {
      ExprSetup(e, t, i, if e.Add? then '+' else '-');
      hide TermText, ExprText, TermOk, SkipWs, TermRead, Stands, Parted, TermEnds, LastFactor;
      ExprSpacedRead(e.e, t, i);
      TermSpacedRead(e.t, t, i + |ExprText(e.e)| + |e.pad| + 1);
    }
  }

  /** Such a line evaluates to its meaning and is consumed to the end. */
  lemma SpacedLineReads(e: Expr, tail: string)
    requires ExprOk(e) && ExprSpaced(e) && Spaces(tail)
    ensures ExprAt(ExprText(e) + tail, 0) == Parsed(ExprValue(e), |ExprText(e) + tail|)
  {
    hide ExprText, ExprOk, ExprValue, LastFactor, ExprAt;
    var t, j := ExprText(e) + tail, |ExprText(e)|;
    assert Stands(t, 0, ExprText(e) + tail);
    StandsSplit(t, 0, ExprText(e), tail);
    assert j < |t| ==> t[j] == tail[0] && tail[0] in tail;
    ExprSpacedRead(e, t, 0);
    LineReads(e, tail);
  }

  // ---------------------------------------------------------------- the misreading of a zero

  /** A zero literal is read as zero exactly when the zeros and minus signs after it lead to no digit. */
  lemma ZeroReads(t: string, k: nat, ds: string)
    requires Stands(t, k, ds) && ds != [] && IsZero(ds)
    ensures NumberAt(t, k).v == Some(0) <==>
            k + |ds| <= |t| && Harmless(t, k + |ds|, ds)
  {
    FirstDigit(t, k, ds);
    AtoiFromZero(t, k, false);
    ZerosSkipped(t, k, ds);
  }

  lemma {:induction false} ZerosSkipped(t: string, k: nat, ds: string)
    requires Stands(t, k, ds) && IsZero(ds)
    ensures SkipZeros(t, k) == SkipZeros(t, k + |ds|)
    decreases |ds|
  {
    if ds != [] {
      assert t[k] == t[k..k + |ds|][0] == ds[0] && ds[0] in ds;
      assert t[k + 1..k + |ds|] == ds[1..] && forall c :: c in ds[1..] ==> c in ds;
      ZerosSkipped(t, k + 1, ds[1..]);
    }
  }

  /** "0-5" is read as -5 - 5. */
  lemma ZeroMinusFiveMisread()
    ensures ExprAt("0-5", 0).v == Some(-10)
  {
    var t := "0-5";
    assert t[0] == '0' && t[1] == '-' && t[2] == '5';
    assert Atoi(t, 3, 5, true) == Some(-5) && Atoi(t, 3, 5, false) == Some(5);
    assert Atoi(t, 0, 0, false) == Atoi(t, 1, 0, false) == Atoi(t, 2, 0, true) == Some(-5);
    assert Atoi(t, 2, 0, false) == Some(5);
    assert SkipDigits(t, 0) == 1 && SkipDigits(t, 2) == 3;
    assert NumberAt(t, 0) == Parsed(Some(-5), 1) && NumberAt(t, 2) == Parsed(Some(5), 3);
    assert FactorAt(t, 0) == Parsed(Some(-5), 1) && FactorAt(t, 2) == Parsed(Some(5), 3);
    assert TermAt(t, 0) == Parsed(Some(-5), 1);
    assert TermAt(t, 2) == Parsed(Some(5), 3);
    assert ExprLoop(t, Some(-10), 3) == Parsed(Some(-10), 3);
    assert ExprAt(t, 0) == ExprLoop(t, Some(-5), 1);
  }

  // ---------------------------------------------------------------- printed trees

  datatype Op = OpAdd | OpSub | OpMul | OpDiv
  datatype Tree = Num(n: nat) | Node(op: Op, l: Tree, r: Tree)

  function TreeValue(tr: Tree): Number {
    match tr
    case Num(n) => Int(n)
    case Node(OpAdd, l, r) => Plus(TreeValue(l), TreeValue(r))
    case Node(OpSub, l, r) => Minus(TreeValue(l), TreeValue(r))
    case Node(OpMul, l, r) => Times(TreeValue(l), TreeValue(r))
    case Node(OpDiv, l, r) => Over(TreeValue(l), TreeValue(r))
  }

  function Decimal(n: nat): (ds: string)
    ensures ds != [] && (forall c :: c in ds ==> IsDigit(c)) && DigitsValue(ds) == n
  {
    var last := ('0' as int + n % 10) as char;
    if n < 10 then [last]
    else
      var front := Decimal(n / 10);
      assert (front + [last])[..|front|] == front;
      front + [last]
  }

  predicate IsProduct(tr: Tree) { tr.Node? && (tr.op == OpMul || tr.op == OpDiv) }

  /** Minimal parentheses: a right operand of equal precedence needs them, a left one does not. */
  function ToFactor(tr: Tree): (f: Factor)
    ensures FactorOk(f) && FactorSpaced(f) && FactorValue(f) == TreeValue(tr)
    decreases tr, if tr.Num? then 0 else if IsProduct(tr) then 2 else 1
  {
    if tr.Num? then Lit(" ", Decimal(tr.n)) else Paren(" ", ToExpr(tr), "")
  }

  function ToTerm(tr: Tree): (t: Term)
    ensures TermOk(t) && TermSpaced(t) && TermValue(t) == TreeValue(tr)
    decreases tr, if IsProduct(tr) then 0 else if tr.Num? then 1 else 2
  {
    if tr.Node? && tr.op == OpMul then Mul(ToTerm(tr.l), " ", ToFactor(tr.r))
    else if tr.Node? && tr.op == OpDiv then Div(ToTerm(tr.l), " ", ToFactor(tr.r))
    else One(ToFactor(tr))
  }

  function ToExpr(tr: Tree): (e: Expr)
    ensures ExprOk(e) && ExprSpaced(e) && ExprValue(e) == TreeValue(tr)
    decreases tr, if IsProduct(tr) then 1 else if tr.Num? then 2 else 0
  {
    if tr.Node? && tr.op == OpAdd then Add(ToExpr(tr.l), " ", ToTerm(tr.r))
    else if tr.Node? && tr.op == OpSub then Sub(ToExpr(tr.l), " ", ToTerm(tr.r))
    else Just(ToTerm(tr))
  }

  /** Parsing the printed form of a tree returns the value of the tree and consumes the text. */
  lemma PrintedTreeReads(tr: Tree)
    ensures ExprAt(ExprText(ToExpr(tr)), 0) == Parsed(TreeValue(tr), |ExprText(ToExpr(tr))|)
  {
    hide ExprText, ExprAt, ToExpr;
    SpacedLineReads(ToExpr(tr), "");
    assert ExprText(ToExpr(tr)) + "" == ExprText(ToExpr(tr));
  }

  // ---------------------------------------------------------------- the program

  lemma {:induction false} TermTrap(t: string, i: nat)
    requires i <= |t|
    ensures TermLoop(t, None, i).v == None
    decreases |t| - i
  {
    var j := SkipWs(t, i);
    if At(t, j, '*') || At(t, j, '/') { TermTrap(t, FactorAt(t, j + 1).pos); }
  }

  lemma {:induction false} ExprTrap(t: string, i: nat)
    requires i <= |t|
    ensures ExprLoop(t, None, i).v == None
    decreases |t| - i
  {
    var j := SkipWs(t, i);
    if At(t, j, '+') || At(t, j, '-') { ExprTrap(t, TermAt(t, j + 1).pos); }
  }

  /** The parser proper: None is returned where the C program has no defined result. */
  class Parser {
    const text: string
    var p: nat

    constructor (line: string)
      ensures text == line && p == 0
    {
      text := line;
      p := 0;
    }

    /** `v` and the cursor are what the parsing function `r` promises; after a trap the cursor is moot. */
    ghost predicate Agrees(v: Number, r: Parsed)
      reads this
    {
      v == r.v && (v.Some? ==> p == r.pos)
    }

    method SkipSpaces()
      requires p <= |text|
      modifies `p
      ensures p == SkipWs(text, old(p))
    {
      while p < |text| && IsSpace(text[p])
        invariant p <= |text| && SkipWs(text, p) == SkipWs(text, old(p))
      {
        p := p + 1;
      }
    }

    method ConvertInt() returns (v: Number)
      requires p <= |text|
      ensures v == Atoi(text, p, 0, false)
    {
      var s, i, neg := p, 0, false;
      while s < |text|
        invariant p <= s <= |text| && 0 <= i <= INT_MAX
        invariant Atoi(text, s, i, neg) == Atoi(text, p, 0, false)
      {
        if IsDigit(text[s]) {
          i := i * 10;
          i := i + Digit(text[s]);
          if i > INT_MAX {
            return None;
          }
        } else if text[s] == '-' && i == 0 {
          neg := true;
        } else {
          break;
        }
        s := s + 1;
      }
      return Some(if neg then -i else i);
    }

    method ParseNumber() returns (v: Number)
      requires p <= |text|
      modifies `p
      ensures old(p) <= p <= |text| && Agrees(v, NumberAt(text, old(p)))
    {
      SkipSpaces();
      v := ConvertInt();
      ghost var start := p;
      while p < |text| && IsDigit(text[p])
        invariant start <= p <= |text| && SkipDigits(text, p) == SkipDigits(text, start)
      {
        p := p + 1;
      }
    }

    method ParseFactor() returns (v: Number)
      requires p <= |text|
      modifies `p
      ensures old(p) <= p <= |text| && Agrees(v, FactorAt(text, old(p)))
      decreases |text| - p, 0
    {
      ghost var start := p;
      SkipSpaces();
      SkipTwice(text, start);
      if p < |text| && text[p] == '(' {
        p := p + 1;
        v := ParseExpr();
        if v.None? {
          return v;
        }
        SkipSpaces();
        if p < |text| && text[p] == ')' {
          p := p + 1;
        }
        return v;
      }
      v := ParseNumber();
    }

    method ParseTerm() returns (v: Number)
      requires p <= |text|
      modifies `p
      ensures old(p) <= p <= |text| && Agrees(v, TermAt(text, old(p)))
      decreases |text| - p, 1
    {
      hide FactorAt, SkipWs;
      ghost var start := p;
      v := ParseFactor();
      if v.None? {
        TermTrap(text, FactorAt(text, start).pos);
        return v;
      }
      while true
        invariant start <= p <= |text| && v.Some?
        invariant TermLoop(text, v, p) == TermAt(text, start)
        decreases |text| - p
      {
        SkipSpaces();
        if p < |text| && text[p] == '*' {
          p := p + 1;
          ghost var operand := FactorAt(text, p);
          var w := ParseFactor();
          v := Times(v, w);
          if v.None? {
            TermTrap(text, operand.pos);
            return v;
          }
        } else if p < |text| && text[p] == '/' {
          p := p + 1;
          ghost var operand := FactorAt(text, p);
          var w := ParseFactor();
          v := Over(v, w);
          if v.None? {
            TermTrap(text, operand.pos);
            return v;
          }
        } else {
          break;
        }
      }
    }

    method ParseExpr() returns (v: Number)
      requires p <= |text|
      modifies `p
      ensures old(p) <= p <= |text| && Agrees(v, ExprAt(text, old(p)))
      decreases |text| - p, 3
    {
      hide TermAt;
      ghost var start := p;
      v := ParseTerm();
      if v.None? {
        ExprTrap(text, TermAt(text, start).pos);
        return v;
      }
      while true
        invariant start <= p <= |text| && v.Some?
        invariant ExprLoop(text, v, p) == ExprAt(text, start)
        decreases |text| - p
      {
        SkipSpaces();
        if p < |text| && text[p] == '+' {
          p := p + 1;
          ghost var operand := TermAt(text, p);
          var w := ParseTerm();
          v := Plus(v, w);
          if v.None? {
            ExprTrap(text, operand.pos);
            return v;
          }
        } else if p < |text| && text[p] == '-' {
          p := p + 1;
          ghost var operand := TermAt(text, p);
          var w := ParseTerm();
          v := Minus(v, w);
          if v.None? {
            ExprTrap(text, operand.pos);
            return v;
          }
        } else {
          break;
        }
      }
    }
  }
}
