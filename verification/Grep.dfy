/** The regular-expression matcher of grep: mutual recursion with pointer-advancing loops,
    proved sound and complete for the language the expression denotes. */
module Grep {

  /** One character, or any number of repetitions of one; '.' stands for every character. */
  datatype Atom = One(c: char) | Star(c: char)

  /** What remains to be matched at a point of the text: atoms, then possibly the end of the text. */
  datatype Rest = Rest(atoms: seq<Atom>, atEnd: bool)

  predicate Fits(c: char, d: char) { c == '.' || c == d }

  /** How the matcher reads an expression: a star binds first, then a final '$', then literals. */
  function Parse(re: string): Rest {
    if re == [] then Rest([], false)
    else if |re| > 1 && re[1] == '*' then
      var r := Parse(re[2..]);
      Rest([Star(re[0])] + r.atoms, r.atEnd)
    else if re == "$" then Rest([], true)
    else
      var r := Parse(re[1..]);
      Rest([One(re[0])] + r.atoms, r.atEnd)
  }

  predicate AllFit(c: char, w: string) { forall i :: 0 <= i < |w| ==> Fits(c, w[i]) }

  /** The language of a sequence of atoms: concatenations of one word for each atom. */
  ghost predicate Language(atoms: seq<Atom>, w: string)
    decreases |atoms|
  {
    if atoms == [] then w == []
    else match atoms[0]
      case One(c) => w != [] && Fits(c, w[0]) && Language(atoms[1..], w[1..])
      case Star(c) => exists n :: 0 <= n <= |w| && AllFit(c, w[..n]) && Language(atoms[1..], w[n..])
  }

  /** Some prefix of the text is in the language, the whole text when anchored at the end. */
  ghost predicate Here(r: Rest, text: string) {
    exists n :: 0 <= n <= |text| && Language(r.atoms, text[..n]) && (r.atEnd ==> n == |text|)
  }

  /** Some substring of the text is in the language of the expression and meets its anchors. */
  ghost predicate Denotes(re: string, text: string) {
    var begin := re != [] && re[0] == '^';
    var r := Parse(if begin then re[1..] else re);
    exists i, j :: 0 <= i <= j <= |text| && Language(r.atoms, text[i..j])
                   && (begin ==> i == 0) && (r.atEnd ==> j == |text|)
  }

  /** `c*` may absorb the first `n` characters of the text, leaving the rest to `r`. */
  ghost predicate StarHere(c: char, r: Rest, text: string, n: nat) {
    n <= |text| && AllFit(c, text[..n]) && Here(r, text[n..])
  }

  ghost predicate StarMatches(c: char, r: Rest, text: string) {
    exists n: nat :: StarHere(c, r, text, n)
  }

  lemma HereOne(c: char, r: Rest, text: string)
    ensures Here(Rest([One(c)] + r.atoms, r.atEnd), text) <==>
            text != [] && Fits(c, text[0]) && Here(r, text[1..])
  {
    var r' := Rest([One(c)] + r.atoms, r.atEnd);
    assert r'.atoms[1..] == r.atoms;
    if Here(r', text) {
      var n :| 0 <= n <= |text| && Language(r'.atoms, text[..n]) && (r.atEnd ==> n == |text|);
      assert text[..n][1..] == text[1..][..n - 1];
    }
    if text != [] && Fits(c, text[0]) && Here(r, text[1..]) {
      var n :| 0 <= n <= |text[1..]| && Language(r.atoms, text[1..][..n]) && (r.atEnd ==> n == |text[1..]|);
      assert text[..n + 1][1..] == text[1..][..n];
      assert Language(r'.atoms, text[..n + 1]);
    }
  }

  lemma HereStar(c: char, r: Rest, text: string)
    ensures Here(Rest([Star(c)] + r.atoms, r.atEnd), text) <==> StarMatches(c, r, text)
  {
    var r' := Rest([Star(c)] + r.atoms, r.atEnd);
    assert r'.atoms[1..] == r.atoms;
    if Here(r', text) {
      var n :| 0 <= n <= |text| && Language(r'.atoms, text[..n]) && (r.atEnd ==> n == |text|);
      var k :| 0 <= k <= n && AllFit(c, text[..n][..k]) && Language(r.atoms, text[..n][k..]);
      assert text[..n][..k] == text[..k] && text[..n][k..] == text[k..][..n - k];
      assert StarHere(c, r, text, k);
    }
    if k: nat :| StarHere(c, r, text, k) {
      var n :| 0 <= n <= |text[k..]| && Language(r.atoms, text[k..][..n]) && (r.atEnd ==> n == |text[k..]|);
      assert text[..k + n][..k] == text[..k] && text[..k + n][k..] == text[k..][..n];
      assert Language(r'.atoms, text[..k + n]);
    }
  }

  lemma HereNoAtoms(r: Rest, text: string)
    requires r.atoms == []
    ensures Here(r, text) <==> (r.atEnd ==> text == [])
  {
    assert Language(r.atoms, text[..0]);
    assert Language(r.atoms, text[..|text|]) <==> text == [];
  }

  /** Search for the expression at the beginning of the text. */
  method MatchHere(regexp: string, text: string) returns (r: bool)
    ensures r <==> Here(Parse(regexp), text)
    decreases |regexp|, 0
  {
    if |regexp| == 0 {
      HereNoAtoms(Parse(regexp), text);
      return true;
    }
    if |regexp| > 1 && regexp[1] == '*' {
      var rest := Parse(regexp[2..]);
      HereStar(regexp[0], rest, text);
      assert Parse(regexp) == Rest([Star(regexp[0])] + rest.atoms, rest.atEnd);
      r := MatchStar(regexp[0], regexp[2..], text);
      return r;
    }
    if regexp[0] == '$' && |regexp| == 1 {
      HereNoAtoms(Parse(regexp), text);
      return |text| == 0;
    }
    assert regexp != "$";
    HereOne(regexp[0], Parse(regexp[1..]), text);
    if |text| > 0 && (regexp[0] == '.' || regexp[0] == text[0]) {
      r := MatchHere(regexp[1..], text[1..]);
      return r;
    }
    return false;
  }

  /** Search for c*regexp at the beginning of the text. */
  method MatchStar(c: char, regexp: string, text: string) returns (r: bool)
    ensures r <==> StarMatches(c, Parse(regexp), text)
    decreases |regexp|, 1
  {
    var t := 0;
    while true
      invariant t <= |text| && AllFit(c, text[..t])
      invariant forall n: nat :: n < t ==> !StarHere(c, Parse(regexp), text, n)
      decreases |text| - t
    {
      var here := MatchHere(regexp, text[t..]);
      if here {
        assert StarHere(c, Parse(regexp), text, t);
        return true;
      }
      if t == |text| || !(text[t] == c || c == '.') {
        assert forall n :: t < n <= |text| ==> text[..n][t] == text[t];
        return false;
      }
      assert text[..t + 1] == text[..t] + [text[t]];
      t := t + 1;
    }
  }

  lemma DenotesFrom(re: string, text: string)
    requires re == [] || re[0] != '^'
    ensures Denotes(re, text) <==> exists i :: 0 <= i <= |text| && Here(Parse(re), text[i..])
  {
    var r := Parse(re);
    if Denotes(re, text) {
      var i, j :| 0 <= i <= j <= |text| && Language(r.atoms, text[i..j]) && (r.atEnd ==> j == |text|);
      assert text[i..][..j - i] == text[i..j];
      assert Here(r, text[i..]);
    }
    if i :| 0 <= i <= |text| && Here(r, text[i..]) {
      var n :| 0 <= n <= |text[i..]| && Language(r.atoms, text[i..][..n]) && (r.atEnd ==> n == |text[i..]|);
      assert text[i..i + n] == text[i..][..n];
    }
  }

  lemma DenotesAnchored(re: string, text: string)
    requires re != [] && re[0] == '^'
    ensures Denotes(re, text) <==> Here(Parse(re[1..]), text)
  {
    var r := Parse(re[1..]);
    if Denotes(re, text) {
      var i, j :| 0 <= i <= j <= |text| && Language(r.atoms, text[i..j]) && i == 0 && (r.atEnd ==> j == |text|);
      assert text[..j] == text[0..j];
    }
    if Here(r, text) {
      var n :| 0 <= n <= |text| && Language(r.atoms, text[..n]) && (r.atEnd ==> n == |text|);
      assert text[0..n] == text[..n];
    }
  }

  /** Search for the expression anywhere in the text. */
  method Match(regexp: string, text: string) returns (r: bool)
    ensures r <==> Denotes(regexp, text)
  {
    if |regexp| > 0 && regexp[0] == '^' {
      DenotesAnchored(regexp, text);
      r := MatchHere(regexp[1..], text);
      return r;
    }
    DenotesFrom(regexp, text);
    var t := 0;
    while true
      invariant t <= |text|
      invariant forall i :: 0 <= i < t ==> !Here(Parse(regexp), text[i..])
      decreases |text| - t
    {
      var here := MatchHere(regexp, text[t..]);
      if here {
        return true;
      }
      if t == |text| {
        return false;
      }
      t := t + 1;
    }
  }

  // ------------------------------------------------------------------ what expressions mean

  /** Characters without a meaning of their own. */
  predicate Plain(a: string) { forall i :: 0 <= i < |a| ==> a[i] != '*' && a[i] != '^' && a[i] != '$' && a[i] != '.' }

  /** The text has `a` at position `i`. */
  predicate Stands(text: string, i: nat, a: string) { i + |a| <= |text| && text[i..i + |a|] == a }

  function Ones(a: string): seq<Atom> { if a == [] then [] else [One(a[0])] + Ones(a[1..]) }

  lemma {:induction false} ParsePlain(a: string, re: string)
    requires Plain(a) && (re != [] ==> re[0] != '*')
    ensures Parse(a + re) == Rest(Ones(a) + Parse(re).atoms, Parse(re).atEnd)
  {
    if a == [] {
      assert a + re == re && [] + Parse(re).atoms == Parse(re).atoms;
    } else {
      var s := a + re;
      assert s[0] == a[0] && s[1..] == a[1..] + re && (|s| > 1 ==> s[1] != '*');
      ParsePlain(a[1..], re);
      assert Ones(a) + Parse(re).atoms == [One(a[0])] + (Ones(a[1..]) + Parse(re).atoms);
    }
  }

  lemma {:induction false} PlainWord(a: string, atoms: seq<Atom>, w: string)
    requires Plain(a)
    ensures Language(Ones(a) + atoms, w) <==> Stands(w, 0, a) && Language(atoms, w[|a|..])
  {
    if a == [] {
      assert [] + atoms == atoms && w[0..] == w && w[0..0] == [];
    } else {
      OneMore(a, atoms);
      if w != [] {
        PlainWord(a[1..], atoms, w[1..]);
        hide Ones, Plain;
        StandsOneMore(a, w);
      }
    }
  }

  lemma OneMore(a: string, atoms: seq<Atom>)
    requires a != []
    ensures var all := Ones(a) + atoms; all != [] && all[0] == One(a[0]) && all[1..] == Ones(a[1..]) + atoms
  {
    var rest := Ones(a[1..]);
    assert Ones(a) == [One(a[0])] + rest;
    hide Ones;
    Behind(One(a[0]), rest, atoms);
  }

  lemma Behind(x: Atom, s: seq<Atom>, t: seq<Atom>)
    ensures [x] + s + t != [] && ([x] + s + t)[0] == x && ([x] + s + t)[1..] == s + t
  {
    assert [x] + s + t == [x] + (s + t);
  }

  lemma StandsOneMore(a: string, w: string)
    requires a != [] && w != []
    ensures Stands(w, 0, a) <==> a[0] == w[0] && Stands(w[1..], 0, a[1..])
    ensures |a| <= |w| ==> w[1..][|a[1..]|..] == w[|a|..]
  {
    if |a| <= |w| {
      var n := |a| - 1;
      assert w[0..|a|] == [w[0]] + w[1..][0..n] && a == [a[0]] + a[1..];
    }
  }

  lemma PlainParse(a: string)
    requires Plain(a)
    ensures Parse(a) == Rest(Ones(a), false) && Parse(a + "$") == Rest(Ones(a), true)
  {
    ParsePlain(a, []);
    ParsePlain(a, "$");
    assert a + [] == a && Ones(a) + [] == Ones(a) && Parse("$") == Rest([], true);
  }

  /** The words of a plain expression: itself. */
  lemma {:induction false} PlainOnly(a: string, w: string)
    requires Plain(a)
    ensures Language(Ones(a), w) <==> w == a
  {
    if a != [] {
      assert Ones(a)[1..] == Ones(a[1..]);
      if w != [] {
        PlainOnly(a[1..], w[1..]);
        assert a == [a[0]] + a[1..] && w == [w[0]] + w[1..];
      }
    }
  }

  lemma PlainLanguage(a: string, text: string, i: nat, j: nat)
    requires Plain(a) && i <= j <= |text|
    ensures Parse(a) == Rest(Ones(a), false) && Parse(a + "$") == Rest(Ones(a), true)
    ensures Language(Ones(a), text[i..j]) <==> j == i + |a| && Stands(text, i, a)
  {
    hide Parse, Language, Ones;
    PlainParse(a);
    PlainOnly(a, text[i..j]);
  }

  /** A plain expression is found wherever it stands in the text. */
  lemma PlainFound(a: string, text: string)
    requires Plain(a)
    ensures Denotes(a, text) <==> exists i: nat :: Stands(text, i, a)
  {
    PlainLanguage(a, text, 0, 0);
    var atoms := Ones(a);
    if Denotes(a, text) {
      var i, j :| 0 <= i <= j <= |text| && Language(atoms, text[i..j]);
      PlainLanguage(a, text, i, j);
    }
    if i: nat :| Stands(text, i, a) {
      PlainLanguage(a, text, i, i + |a|);
      assert Language(atoms, text[i..i + |a|]);
    }
  }

  /** After `^` it is found only at the beginning of the text. */
  lemma PlainAtBegin(a: string, text: string)
    requires Plain(a)
    ensures Denotes("^" + a, text) <==> Stands(text, 0, a)
  {
    PlainLanguage(a, text, 0, 0);
    var atoms := Ones(a);
    assert ("^" + a)[1..] == a;
    if Denotes("^" + a, text) {
      var j :| 0 <= j <= |text| && Language(atoms, text[0..j]);
      PlainLanguage(a, text, 0, j);
    }
    if Stands(text, 0, a) {
      PlainLanguage(a, text, 0, |a|);
      assert Language(atoms, text[0..|a|]);
    }
  }

  /** Before `$` only at its end. */
  lemma PlainAtEnd(a: string, text: string)
    requires Plain(a)
    ensures Denotes(a + "$", text) <==> |a| <= |text| && Stands(text, |text| - |a|, a)
  {
    PlainLanguage(a, text, 0, 0);
    var atoms, n := Ones(a), |text| - |a|;
    assert (a + "$")[0] == if a == [] then '$' else a[0];
    hide Language, Parse, Ones;
    if Denotes(a + "$", text) {
      var i :| 0 <= i <= |text| && Language(atoms, text[i..|text|]);
      PlainLanguage(a, text, i, |text|);
    }
    if 0 <= n && Stands(text, n, a) {
      PlainLanguage(a, text, n, |text|);
      assert Language(atoms, text[n..|text|]);
    }
  }

  /** From `k` on the text is `n` characters that are all `c`, or with a dot any, and then `b`. */
  predicate Filled(text: string, k: nat, n: nat, c: char, b: string) {
    && k + n + |b| == |text| && Stands(text, k + n, b)
    && (c == '.' || forall i :: k <= i < k + n ==> text[i] == c)
  }

  /** `^a c* b$`, with `a` and `b` plain: the text is `a`, then nothing but `c`, however often, and then `b`. */
  lemma StarredBetween(a: string, c: char, b: string, text: string)
    requires Plain(a) && Plain(b) && c != '*'
    ensures Denotes("^" + a + [c, '*'] + b + "$", text) <==>
              Stands(text, 0, a) && exists n: nat :: Filled(text, |a|, n, c, b)
  {
    StarredParse(a, c, b);
    var re := "^" + a + [c, '*'] + b + "$";
    assert re[1..] == a + ([c, '*'] + b + "$");
    hide Parse, Language;
    AnchoredBoth(re, a + ([c, '*'] + b + "$"), text);
    PlainWord(a, [Star(c)] + Ones(b), text);
    if |a| <= |text| { StarTail(c, b, text, |a|); }
  }

  lemma StarredParse(a: string, c: char, b: string)
    requires Plain(a) && Plain(b) && c != '*'
    ensures Parse(a + ([c, '*'] + b + "$")) == Rest(Ones(a) + ([Star(c)] + Ones(b)), true)
  {
    var re := [c, '*'] + b + "$";
    assert re[2..] == b + "$" && Parse("$") == Rest([], true) && Ones(b) + [] == Ones(b);
    ParsePlain(b, "$");
    ParsePlain(a, re);
  }

  lemma AnchoredBoth(re: string, rest: string, text: string)
    requires re != [] && re[0] == '^' && re[1..] == rest && Parse(rest).atEnd
    ensures Denotes(re, text) <==> Language(Parse(rest).atoms, text)
  {
    assert text[0..|text|] == text;
  }

  lemma StarTail(c: char, b: string, text: string, k: nat)
    requires Plain(b) && k <= |text|
    ensures Language([Star(c)] + Ones(b), text[k..]) <==> exists n: nat :: Filled(text, k, n, c, b)
  {
    assert ([Star(c)] + Ones(b))[1..] == Ones(b);
    forall n: nat | n <= |text| - k
      ensures AllFit(c, text[k..][..n]) && Language(Ones(b), text[k..][n..]) <==> Filled(text, k, n, c, b)
    {
      StarTaken(c, b, text, k, n);
    }
    hide AllFit, Filled;
  }

  lemma StarTaken(c: char, b: string, text: string, k: nat, n: nat)
    requires Plain(b) && k + n <= |text|
    ensures AllFit(c, text[k..][..n]) && Language(Ones(b), text[k..][n..]) <==> Filled(text, k, n, c, b)
  {
    hide Language, Parse, Plain, Ones, AllFit;
    PlainLanguage(b, text, k + n, |text|);
    Further(text, k, n);
    AllFitting(c, text, k, n);
  }

  lemma Further(text: string, k: nat, n: nat)
    requires k + n <= |text|
    ensures text[k..][n..] == text[k + n..|text|]
  {
  }

  lemma AllFitting(c: char, text: string, k: nat, n: nat)
    requires k + n <= |text|
    ensures AllFit(c, text[k..][..n]) <==> c == '.' || forall i :: k <= i < k + n ==> text[i] == c
  {
    var w := text[k..][..n];
    assert forall i :: 0 <= i < n ==> w[i] == text[k + i];
    assert forall i :: k <= i < k + n ==> text[i] == w[i - k];
  }
}
