/** The wildcard matcher of the policy engine: `*` stands for any text, `?` for any one
    character and every other character for itself. */
module Wildcard {

  // ----- Meaning of a pattern -------------------------------------------------------

  /** The pieces of text that one pattern character stands for. */
  predicate Fits(c: char, piece: string) {
    if c == '*' then true else if c == '?' then |piece| == 1 else piece == [c]
  }

  function Join(pieces: seq<string>): string {
    if |pieces| == 0 then "" else pieces[0] + Join(pieces[1..])
  }

  /** `pieces` has one fitting piece for each pattern character. */
  ghost predicate Cuts(p: string, pieces: seq<string>) {
    |pieces| == |p| && forall i :: 0 <= i < |p| ==> Fits(p[i], pieces[i])
  }

  /** The value can be cut into pieces, one per pattern character. */
  ghost predicate Denotes(p: string, v: string) {
    exists pieces :: Cuts(p, pieces) && Join(pieces) == v
  }

  // ----- Algebra of patterns --------------------------------------------------------

  lemma {:induction false} JoinAppend(xs: seq<string>, ys: seq<string>)
    ensures Join(xs + ys) == Join(xs) + Join(ys)
  {
    if xs == [] {
      assert xs + ys == ys;
    } else {
      assert (xs + ys)[1..] == xs[1..] + ys;
      JoinAppend(xs[1..], ys);
    }
  }

  /** Concatenated patterns denote concatenated texts. */
  lemma ConcatDenotes(p: string, q: string, v: string, w: string)
    requires Denotes(p, v) && Denotes(q, w)
    ensures Denotes(p + q, v + w)
  {
    var xs :| Cuts(p, xs) && Join(xs) == v;
    var ys :| Cuts(q, ys) && Join(ys) == w;
    JoinAppend(xs, ys);
    assert Cuts(p + q, xs + ys);
  }

  /** A text denoted by a concatenation splits at some point between the two patterns. */
  lemma SplitDenotes(p: string, q: string, v: string) returns (k: nat)
    requires Denotes(p + q, v)
    ensures k <= |v| && Denotes(p, v[..k]) && Denotes(q, v[k..])
  {
    var zs :| Cuts(p + q, zs) && Join(zs) == v;
    var xs, ys := zs[..|p|], zs[|p|..];
    assert zs == xs + ys;
    JoinAppend(xs, ys);
    k := |Join(xs)|;
    assert v[..k] == Join(xs) && v[k..] == Join(ys);
    assert Cuts(p, xs);
    assert Cuts(q, ys) by {
      forall i | 0 <= i < |q| ensures Fits(q[i], ys[i]) {
        assert (p + q)[|p| + i] == q[i] && zs[|p| + i] == ys[i];
      }
    }
  }

  lemma OneDenotes(c: char, v: string)
    ensures Denotes([c], v) <==> Fits(c, v)
  {
    if Fits(c, v) {
      assert Join([v]) == v by { assert [v][1..] == []; }
      assert Cuts([c], [v]);
    }
    if Denotes([c], v) {
      var xs :| Cuts([c], xs) && Join(xs) == v;
      assert Join(xs) == xs[0] + Join([]) by { assert xs[1..] == []; }
      assert Fits([c][0], xs[0]);
    }
  }

  lemma EmptyDenotes(v: string)
    ensures Denotes("", v) <==> v == ""
  {
    if v == "" {
      assert Cuts("", []) && Join([]) == v;
    }
  }

  lemma StarDenotes(v: string)
    ensures Denotes("*", v)
  {
    OneDenotes('*', v);
  }

  /** Every pattern denotes its own text. */
  lemma {:induction false} SelfDenotes(p: string)
    ensures Denotes(p, p)
  {
    if p == "" {
      EmptyDenotes(p);
    } else {
      SelfDenotes(p[1..]);
      OneDenotes(p[0], [p[0]]);
      ConcatDenotes([p[0]], p[1..], [p[0]], p[1..]);
      assert p == [p[0]] + p[1..];
    }
  }

  /** A pattern without wildcards denotes its own text and no other. */
  lemma {:induction false} LiteralDenotes(p: string, v: string)
    requires '*' !in p && '?' !in p
    ensures Denotes(p, v) <==> p == v
  {
    SelfDenotes(p);
    if Denotes(p, v) {
      if p == "" {
        EmptyDenotes(v);
      } else {
        assert p == [p[0]] + p[1..];
        var k := SplitDenotes([p[0]], p[1..], v);
        OneDenotes(p[0], v[..k]);
        LiteralDenotes(p[1..], v[k..]);
        assert v == v[..k] + v[k..];
      }
    }
  }

  /** Literal text followed by `*` denotes every text that begins with it. */
  lemma PrefixDenotes(prefix: string, rest: string)
    ensures Denotes(prefix + "*", prefix + rest)
  {
    SelfDenotes(prefix);
    StarDenotes(rest);
    ConcatDenotes(prefix, "*", prefix, rest);
  }

  /** And it denotes no others. */
  lemma PrefixExact(prefix: string, v: string)
    requires '*' !in prefix && '?' !in prefix
    ensures Denotes(prefix + "*", v) <==> prefix <= v
  {
    if Denotes(prefix + "*", v) {
      var k := SplitDenotes(prefix, "*", v);
      LiteralDenotes(prefix, v[..k]);
    }
    if prefix <= v {
      PrefixDenotes(prefix, v[|prefix|..]);
      assert v == prefix + v[|prefix|..];
    }
  }

  // ----- The recurrence behind the table --------------------------------------------

  /** The meaning of one table cell: a prefix of the pattern against a prefix of the value. */
  ghost predicate Cell(p: string, v: string, i: nat, j: nat)
    requires i <= |p| && j <= |v|
  {
    Denotes(p[..i], v[..j])
  }

  /** The last pattern character takes some final piece of the value. */
  lemma LastCharacter(p: string, c: char, v: string)
    ensures Denotes(p + [c], v) <==> exists k :: 0 <= k <= |v| && Denotes(p, v[..k]) && Fits(c, v[k..])
  {
    if Denotes(p + [c], v) {
      var k := SplitDenotes(p, [c], v);
      OneDenotes(c, v[k..]);
    }
    if k :| 0 <= k <= |v| && Denotes(p, v[..k]) && Fits(c, v[k..]) {
      OneDenotes(c, v[k..]);
      ConcatDenotes(p, [c], v[..k], v[k..]);
      assert v[..k] + v[k..] == v;
    }
  }

  /** Column 0 of the table. */
  lemma CellColumn(p: string, v: string, i: nat)
    requires 0 < i <= |p|
    ensures Cell(p, v, i, 0) <==> p[i - 1] == '*' && Cell(p, v, i - 1, 0)
  {
    assert p[..i] == p[..i - 1] + [p[i - 1]];
    LastCharacter(p[..i - 1], p[i - 1], "");
    assert v[..0] == "";
    if p[i - 1] == '*' && Cell(p, v, i - 1, 0) {
      assert Denotes(p[..i - 1], ""[..0]) && Fits('*', ""[0..]);
    }
  }

  /** Row 0 of the table. */
  lemma CellRow(p: string, v: string, j: nat)
    requires j <= |v|
    ensures Cell(p, v, 0, j) <==> j == 0
  {
    EmptyDenotes(v[..j]);
  }

  /** Every other cell. */
  lemma CellStep(p: string, v: string, i: nat, j: nat)
    requires 0 < i <= |p| && 0 < j <= |v|
    ensures Cell(p, v, i, j) <==>
            if p[i - 1] == '*' then Cell(p, v, i - 1, j) || Cell(p, v, i, j - 1)
            else (p[i - 1] == '?' || p[i - 1] == v[j - 1]) && Cell(p, v, i - 1, j - 1)
  {
    var q, c, w := p[..i - 1], p[i - 1], v[..j];
    assert p[..i] == q + [c];
    LastCharacter(q, c, w);
    LastCharacter(q, c, v[..j - 1]);
    forall k | 0 <= k < j ensures w[..k] == v[..j - 1][..k] == v[..k] {}
    if c == '*' {
      StarStep(p, v, i, j);
    } else {
      forall k | 0 <= k <= j && Fits(c, w[k..]) ensures k == j - 1 && (c == '?' || c == v[j - 1]) {
        assert |w[k..]| == 1;
      }
      assert w[j - 1..] == [v[j - 1]];
      assert w[..j - 1] == v[..j - 1];
    }
  }

  lemma StarStep(p: string, v: string, i: nat, j: nat)
    requires 0 < i <= |p| && 0 < j <= |v| && p[i - 1] == '*'
    ensures Cell(p, v, i, j) <==> Cell(p, v, i - 1, j) || Cell(p, v, i, j - 1)
  {
    var q, w, u := p[..i - 1], v[..j], v[..j - 1];
    assert p[..i] == q + ['*'];
    LastCharacter(q, '*', w);
    LastCharacter(q, '*', u);
    forall k | 0 <= k < j ensures w[..k] == u[..k] {}
    assert w[..j] == w;
    if Cell(p, v, i - 1, j) {
      assert Denotes(q, w[..j]) && Fits('*', w[j..]);
    }
    if Cell(p, v, i, j - 1) {
      var k :| 0 <= k <= |u| && Denotes(q, u[..k]) && Fits('*', u[k..]);
      assert Denotes(q, w[..k]) && Fits('*', w[k..]);
    }
    if Cell(p, v, i, j) {
      var k :| 0 <= k <= |w| && Denotes(q, w[..k]) && Fits('*', w[k..]);
      if k < j {
        assert Denotes(q, u[..k]) && Fits('*', u[k..]);
      }
    }
  }

  // ----- The table-filling matcher --------------------------------------------------

  method MatchesWildcard(pattern: string, value: string) returns (matched: bool)
    ensures matched <==> Denotes(pattern, value)
  {
    if pattern == "*" {
      StarDenotes(value);
      return true;
    }
    var m, n := |pattern|, |value|;
    var dp := new bool[m + 1, n + 1]((_, _) => false);
    dp[0, 0] := true;
    CellRow(pattern, value, 0);
    for i := 1 to m + 1
      invariant forall a, b :: 0 <= a <= m && 0 <= b <= n ==>
        (dp[a, b] <==> b == 0 && a < i && Cell(pattern, value, a, b))
    {
      CellColumn(pattern, value, i);
      if pattern[i - 1] == '*' {
        dp[i, 0] := dp[i - 1, 0];
      }
    }
    forall b | 0 <= b <= n ensures Cell(pattern, value, 0, b) <==> b == 0 {
      CellRow(pattern, value, b);
    }
    for i := 1 to m + 1
      invariant forall a, b :: 0 <= a <= m && 0 <= b <= n ==>
        (dp[a, b] <==> (a < i || b == 0) && Cell(pattern, value, a, b))
    {
      for j := 1 to n + 1
        invariant forall a, b :: 0 <= a <= m && 0 <= b <= n ==>
          (dp[a, b] <==> (a < i || b == 0 || (a == i && b < j)) && Cell(pattern, value, a, b))
      {
        CellStep(pattern, value, i, j);
        if pattern[i - 1] == '*' {
          dp[i, j] := dp[i - 1, j] || dp[i, j - 1];
        } else if pattern[i - 1] == '?' || pattern[i - 1] == value[j - 1] {
          dp[i, j] := dp[i - 1, j - 1];
        }
      }
    }
    assert pattern[..m] == pattern && value[..n] == value;
    return dp[m, n];
  }

  // ----- Subsumption ----------------------------------------------------------------

  /** A pattern without `?` that matches another pattern read as plain text matches
      everything the other pattern matches. */
  lemma {:induction false} Subsumption(p: string, q: string, v: string)
    requires '?' !in p
    requires Denotes(p, q) && Denotes(q, v)
    ensures Denotes(p, v)
  {
    if p == "" {
      EmptyDenotes(q);
    } else {
      assert p == [p[0]] + p[1..];
      var k := SplitDenotes([p[0]], p[1..], q);
      OneDenotes(p[0], q[..k]);
      assert q == q[..k] + q[k..];
      var l := SplitDenotes(q[..k], q[k..], v);
      Subsumption(p[1..], q[k..], v[l..]);
      if p[0] != '*' {
        assert q[..k] == [p[0]];
        OneDenotes(p[0], v[..l]);
      }
      OneDenotes(p[0], v[..l]);
      ConcatDenotes([p[0]], p[1..], v[..l], v[l..]);
      assert v == v[..l] + v[l..];
    }
  }

  /** The pattern with every `?` widened to `*`. */
  function Widen(p: string): string {
    if p == "" then "" else [if p[0] == '?' then '*' else p[0]] + Widen(p[1..])
  }

  /** The pattern's literal characters alone. */
  function Literals(p: string): string {
    if p == "" then "" else (if p[0] == '?' || p[0] == '*' then "" else [p[0]]) + Literals(p[1..])
  }

  /** The least length of a text the pattern denotes. */
  function Required(p: string): nat {
    if p == "" then 0 else (if p[0] == '*' then 0 else 1) + Required(p[1..])
  }

  lemma {:induction false} WidenDenoted(p: string)
    ensures Denotes(p, Widen(p)) && Denotes(Widen(p), Literals(p))
    ensures |Literals(p)| <= Required(p)
    ensures '?' in p ==> |Literals(p)| < Required(p)
  {
    hide Denotes;
    if p == "" {
      EmptyDenotes("");
    } else {
      WidenDenoted(p[1..]);
      var c, lit := Widen(p)[0], if p[0] == '?' || p[0] == '*' then "" else [p[0]];
      OneDenotes(p[0], [c]);
      OneDenotes(c, lit);
      ConcatDenotes([p[0]], p[1..], [c], Widen(p[1..]));
      ConcatDenotes([c], Widen(p[1..]), lit, Literals(p[1..]));
      assert p == [p[0]] + p[1..];
    }
  }

  lemma {:induction false} LongEnough(p: string, v: string)
    requires Denotes(p, v)
    ensures |v| >= Required(p)
  {
    if p != "" {
      assert p == [p[0]] + p[1..];
      var k := SplitDenotes([p[0]], p[1..], v);
      OneDenotes(p[0], v[..k]);
      LongEnough(p[1..], v[k..]);
    }
  }

  ghost predicate Subsumes(p: string, q: string) {
    forall v :: Denotes(q, v) ==> Denotes(p, v)
  }

  /** Matching a pattern's text is a sound test for covering the pattern exactly for the
      patterns without `?`. */
  lemma SubsumptionExact(p: string)
    ensures '?' !in p <==> forall q :: Denotes(p, q) ==> Subsumes(p, q)
  {
    if '?' !in p {
      forall q, v | Denotes(p, q) && Denotes(q, v) ensures Denotes(p, v) {
        Subsumption(p, q, v);
      }
    } else {
      WidenDenoted(p);
      if Denotes(p, Literals(p)) {
        LongEnough(p, Literals(p));
      }
      assert !Subsumes(p, Widen(p));
    }
  }
}
