/** Wildcard matching of the shell: one pass with a single remembered star, proved to decide
    the recursive meaning of `*` and `?`.  A C string is the sequence of its characters;
    reading its terminator is being at the end. */
module ShellPattern {
  import opened Wrappers

  /** The pattern denotes the text: `*` any string, `?` any character, others themselves. */
  predicate Matches(p: string, s: string)
    decreases |p|, |s|
  {
    if p == [] then s == []
    else if p[0] == '*' then Matches(p[1..], s) || (s != [] && Matches(p, s[1..]))
    else s != [] && Fits(p[0], s[0]) && Matches(p[1..], s[1..])
  }

  predicate Fits(c: char, d: char) { c == d || c == '?' }

  /** Some suffix of `s` that begins at or after `from` is denoted by `p`. */
  ghost predicate MatchesFrom(p: string, s: string, from: nat) {
    exists k :: from <= k <= |s| && Matches(p, s[k..])
  }

  /** `p` has no star and its characters fit the first characters of `s`. */
  ghost predicate Literal(p: string, s: string) {
    |p| <= |s| && forall i :: 0 <= i < |p| ==> p[i] != '*' && Fits(p[i], s[i])
  }

  /** A leading star absorbs any prefix. */
  lemma {:induction false} StarAbsorbs(p: string, s: string, from: nat)
    requires p != [] && p[0] == '*' && from <= |s|
    ensures Matches(p, s[from..]) <==> MatchesFrom(p[1..], s, from)
    decreases |s| - from
  {
    if from < |s| {
      StarAbsorbs(p, s, from + 1);
      assert s[from..][1..] == s[from + 1..];
    }
  }

  /** A literal head is stripped from both sides. */
  lemma {:induction false} LiteralStrips(p: string, s: string, n: nat)
    requires n <= |p| && Literal(p[..n], s)
    ensures Matches(p, s) <==> Matches(p[n..], s[n..])
  {
    if n > 0 {
      assert p[..n][0] == p[0];
      assert p[..n][1..] == p[1..][..n - 1];
      assert p[1..][..n - 1] == p[1..n];
      assert p[..n] == [p[0]] + p[1..][..n - 1];
      LiteralStrips(p[1..], s[1..], n - 1);
      assert p[1..][n - 1..] == p[n..] && s[1..][n - 1..] == s[n..];
    }
  }

  /** A star-free head needs at least as many characters as it has. */
  lemma {:induction false} HeadNeedsRoom(p: string, s: string, n: nat)
    requires n <= |p| && (forall i :: 0 <= i < n ==> p[i] != '*') && Matches(p, s)
    ensures n <= |s| && Literal(p[..n], s)
  {
    if n > 0 {
      HeadNeedsRoom(p[1..], s[1..], n - 1);
      assert p[1..][..n - 1] == p[1..n];
      assert p[..n] == [p[0]] + p[1..][..n - 1];
    }
  }

  lemma {:induction false} StarsMatchNothing(p: string)
    ensures Matches(p, []) <==> forall i :: 0 <= i < |p| ==> p[i] == '*'
  {
    if p != [] { StarsMatchNothing(p[1..]); }
  }

  /** The remembered star decides: `mp` follows the last star seen, whose text begins at or after `k`. */
  ghost predicate Pending(p: string, s: string, mp: nat, k: nat, i: nat, j: nat) {
    && 0 < mp <= i <= |p| && k <= j <= |s| && p[mp - 1] == '*'
    && i - mp == j - k && Literal(p[mp..i], s[k..])
    && (Matches(p, s) <==> MatchesFrom(p[mp..], s, k))
  }

  /** A new star replaces the remembered one: nothing matched earlier need be reconsidered. */
  lemma LastStarSuffices(p: string, s: string, mp: nat, k: nat, i: nat, j: nat)
    requires Pending(p, s, mp, k, i, j) && i < |p| && p[i] == '*'
    ensures Pending(p, s, i + 1, j, i + 1, j)
  {
    if MatchesFrom(p[mp..], s, k) {
      var q :| k <= q <= |s| && Matches(p[mp..], s[q..]);
      LaterStarMatches(p, s, mp, k, i, j, q);
    }
    if MatchesFrom(p[i + 1..], s, j) {
      EarlierStarMatches(p, s, mp, k, i, j);
    }
  }

  lemma LaterStarMatches(p: string, s: string, mp: nat, k: nat, i: nat, j: nat, q: nat)
    requires Pending(p, s, mp, k, i, j) && i < |p| && p[i] == '*'
    requires k <= q <= |s| && Matches(p[mp..], s[q..])
    ensures MatchesFrom(p[i + 1..], s, j)
  {
    var n := i - mp;
    assert p[mp..][..n] == p[mp..i] && p[mp..][n..] == p[i..] && p[i..][1..] == p[i + 1..];
    HeadNeedsRoom(p[mp..], s[q..], n);
    LiteralStrips(p[mp..], s[q..], n);
    assert s[q..][n..] == s[q + n..];
    StarAbsorbs(p[i..], s, q + n);
    var r :| q + n <= r <= |s| && Matches(p[i + 1..], s[r..]);
  }

  lemma EarlierStarMatches(p: string, s: string, mp: nat, k: nat, i: nat, j: nat)
    requires Pending(p, s, mp, k, i, j) && i < |p| && p[i] == '*'
    requires MatchesFrom(p[i + 1..], s, j)
    ensures MatchesFrom(p[mp..], s, k)
  {
    var n := i - mp;
    assert p[mp..][..n] == p[mp..i] && p[mp..][n..] == p[i..] && p[i..][1..] == p[i + 1..];
    StarAbsorbs(p[i..], s, j);
    LiteralStrips(p[mp..], s[k..], n);
    assert s[k..][n..] == s[j..];
    assert Matches(p[mp..], s[k..]);
  }

  /** The first star: everything before it has been matched literally. */
  lemma FirstStar(p: string, s: string, i: nat)
    requires i < |p| && i <= |s| && Literal(p[..i], s) && p[i] == '*'
    ensures Pending(p, s, i + 1, i, i + 1, i)
  {
    LiteralStrips(p, s, i);
    StarAbsorbs(p[i..], s, i);
    assert p[i..][1..] == p[i + 1..];
  }

  lemma FittingCharacter(p: string, s: string, mp: nat, k: nat, i: nat, j: nat)
    requires Pending(p, s, mp, k, i, j) && i < |p| && j < |s| && p[i] != '*' && Fits(p[i], s[j])
    ensures Pending(p, s, mp, k, i + 1, j + 1)
  {
    assert p[mp..i + 1] == p[mp..i] + [p[i]];
  }

  /** A mismatch rules out the current position of the remembered star only. */
  lemma MismatchAdvances(p: string, s: string, mp: nat, k: nat, i: nat, j: nat)
    requires Pending(p, s, mp, k, i, j) && j < |s|
    requires i < |p| ==> p[i] != '*' && !Fits(p[i], s[j])
    ensures Pending(p, s, mp, k + 1, mp, k + 1)
  {
    assert p[mp..][..i - mp] == p[mp..i];
    assert p[mp..][i - mp..] == p[i..] && s[k..][i - mp..] == s[j..];
    LiteralStrips(p[mp..], s[k..], i - mp);
    assert !Matches(p[mp..], s[k..]);
  }

  /** At the end of the text only stars may remain. */
  lemma EndDecides(p: string, s: string, mp: nat, k: nat, i: nat)
    requires Pending(p, s, mp, k, i, |s|)
    ensures MatchesFrom(p[mp..], s, k) <==> Matches(p[i..], [])
  {
    assert p[mp..][..i - mp] == p[mp..i] && p[mp..][i - mp..] == p[i..] && s[k..][i - mp..] == [];
    LiteralStrips(p[mp..], s[k..], i - mp);
    if MatchesFrom(p[mp..], s, k) {
      var q :| k <= q <= |s| && Matches(p[mp..], s[q..]);
      HeadNeedsRoom(p[mp..], s[q..], i - mp);
    }
  }

  /** The remembered cursors: none before the first star, else the state of the last one. */
  ghost predicate Remembered(p: string, s: string, mp: Option<nat>, cp: Option<nat>, i: nat, j: nat) {
    && i <= |p| && j <= |s|
    && match mp
       case None => cp.None? && i == j && Literal(p[..i], s) && (j < |s| ==> i < |p| && p[i] == '*')
       case Some(m) => m <= i && cp.Some? && 0 < cp.value <= j + 1 && Pending(p, s, m, cp.value - 1, i, j)
  }

  lemma NothingYet(p: string, s: string)
    ensures Literal(p[..0], s)
  {
  }

  /** Before the first star a character that does not fit decides against the text. */
  lemma LiteralStep(p: string, s: string, i: nat)
    requires i <= |p| && i < |s| && Literal(p[..i], s) && (i < |p| ==> p[i] != '*')
    ensures i < |p| && Fits(p[i], s[i]) ==> Literal(p[..i + 1], s)
    ensures !(i < |p| && Fits(p[i], s[i])) ==> !Matches(p, s)
  {
    LiteralStrips(p, s, i);
    assert i < |p| ==> p[..i + 1] == p[..i] + [p[i]];
  }

  lemma TrailingStar(p: string, s: string, k: nat, j: nat)
    requires Pending(p, s, |p|, k, |p|, j)
    ensures Matches(p, s)
  {
    assert Matches(p[|p|..], s[|s|..]);
  }

  lemma AtEnd(p: string, s: string, mp: Option<nat>, cp: Option<nat>, i: nat)
    requires Remembered(p, s, mp, cp, i, |s|)
    ensures Matches(p, s) <==> forall k :: i <= k < |p| ==> p[k] == '*'
  {
    if mp.Some? { EndDecides(p, s, mp.value, cp.value - 1, i); } else { LiteralStrips(p, s, i); }
    StarsMatchNothing(p[i..]);
    assert forall k :: i <= k < |p| ==> p[i..][k - i] == p[k];
  }

  /** The shell's matcher: returns true exactly when the pattern denotes the whole text. */
  method PatternMatch(pattern: string, s: string) returns (matched: bool)
    ensures matched <==> Matches(pattern, s)
  {
    hide Matches;
    hide Literal;
    hide Pending;
    var i: nat, j: nat := 0, 0;
    NothingYet(pattern, s);
    var cp: Option<nat>, mp: Option<nat> := None, None;
    while j < |s| && !(i < |pattern| && pattern[i] == '*')
      invariant i == j <= |s| && i <= |pattern| && Literal(pattern[..i], s)
    {
      LiteralStep(pattern, s, i);
      if !(i < |pattern| && (pattern[i] == s[j] || pattern[i] == '?')) {
        return false;
      }
      i, j := i + 1, j + 1;
    }

    while j < |s|
      invariant Remembered(pattern, s, mp, cp, i, j)
      decreases |pattern| + 1 - (if mp.Some? then mp.value else 0),
                |s| + 1 - (if cp.Some? then cp.value else 0), |s| - j
    {
      if i < |pattern| && pattern[i] == '*' {
        if mp.Some? {
          LastStarSuffices(pattern, s, mp.value, cp.value - 1, i, j);
        } else {
          FirstStar(pattern, s, i);
        }
        i := i + 1;
        if i == |pattern| {
          TrailingStar(pattern, s, j, j);
          return true;
        }
        mp, cp := Some(i), Some(j + 1);
      } else if i < |pattern| && (pattern[i] == s[j] || pattern[i] == '?') {
        FittingCharacter(pattern, s, mp.value, cp.value - 1, i, j);
        i, j := i + 1, j + 1;
      } else {
        MismatchAdvances(pattern, s, mp.value, cp.value - 1, i, j);
        i, j := mp.value, cp.value;
        cp := Some(cp.value + 1);
      }
    }
    AtEnd(pattern, s, mp, cp, i);

    while i < |pattern| && pattern[i] == '*'
      invariant i <= |pattern|
      invariant Matches(pattern, s) <==> forall k :: i <= k < |pattern| ==> pattern[k] == '*'
    {
      i := i + 1;
    }
    return i == |pattern|;
  }

  // ------------------------------------------------------------------ the language of patterns

  /** What single pattern characters match: a star anything, a question mark any one character, others themselves. */
  lemma OneCharacter(c: char, s: string)
    ensures Matches([c], s) <==> if c == '*' then true else if c == '?' then |s| == 1 else s == [c]
  {
    if c == '*' {
      assert s[0..] == s && [c][1..] == [] && s[|s|..] == [];
      StarAbsorbs([c], s, 0);
      assert Matches([c][1..], s[|s|..]);
    }
  }

  /** A pattern made of two matches what is made of two matches. */
  lemma Concatenation(a: string, b: string, s: string)
    ensures Matches(a + b, s) <==> exists i :: 0 <= i <= |s| && Matches(a, s[..i]) && Matches(b, s[i..])
  {
    if Matches(a + b, s) { var i := SplitAt(a, b, s); }
    if i :| 0 <= i <= |s| && Matches(a, s[..i]) && Matches(b, s[i..]) { Joined(a, b, s, i); }
  }

  lemma {:induction false} SplitAt(a: string, b: string, s: string) returns (i: nat)
    requires Matches(a + b, s)
    ensures i <= |s| && Matches(a, s[..i]) && Matches(b, s[i..])
    decreases |a|, |s|
  {
    if a == [] {
      assert a + b == b && s[0..] == s;
      i := 0;
    } else {
      assert (a + b)[1..] == a[1..] + b;
      if a[0] == '*' && Matches(a[1..] + b, s) {
        i := SplitAt(a[1..], b, s);
      } else {
        var j := SplitAt(if a[0] == '*' then a else a[1..], b, s[1..]);
        i := j + 1;
        assert s[..i][1..] == s[1..][..j] && s[i..] == s[1..][j..];
      }
    }
  }

  lemma {:induction false} Joined(a: string, b: string, s: string, i: nat)
    requires i <= |s| && Matches(a, s[..i]) && Matches(b, s[i..])
    ensures Matches(a + b, s)
    decreases |a|, |s|
  {
    if a == [] {
      assert a + b == b && s[0..] == s;
    } else {
      assert (a + b)[1..] == a[1..] + b;
      if a[0] == '*' && Matches(a[1..], s[..i]) {
        Joined(a[1..], b, s, i);
      } else {
        assert s[..i][1..] == s[1..][..i - 1] && s[i..] == s[1..][i - 1..];
        Joined(if a[0] == '*' then a else a[1..], b, s[1..], i - 1);
      }
    }
  }
}
