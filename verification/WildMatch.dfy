/** `ACE::wild_match` without bracket classes: the loop, what a pattern means, and for which patterns
    the loop finds every match. */
module WildMatch {
  import opened Wrappers

  // ----- what a pattern means -----

  /** One character for another: the same, or, if case does not matter, the same letter of the alphabet. */
  predicate SameChar(a: char, b: char, case_sensitive: bool)
  {
    a == b || (!case_sensitive && (SmallOf(a, b) || SmallOf(b, a)))
  }

  /** The small letter of a capital one. */
  predicate SmallOf(capital: char, small: char)
  {
    'A' <= capital <= 'Z' && small as int - 'a' as int == capital as int - 'A' as int
  }

  /** `*` stands for any text, `?` for any character, a backslash takes the next character
      literally; nothing matches a backslash at the end. */
  predicate Glob(s: string, p: string, case_sensitive: bool)
    decreases |p|, |s|
  {
    if p == [] then s == []
    else if p[0] == '*' then Glob(s, p[1..], case_sensitive) || (s != [] && Glob(s[1..], p, case_sensitive))
    else if s == [] then false
    else if p[0] == '?' then Glob(s[1..], p[1..], case_sensitive)
    else if p[0] == '\\' then |p| > 1 && SameChar(s[0], p[1], case_sensitive) && Glob(s[1..], p[2..], case_sensitive)
    else SameChar(s[0], p[0], case_sensitive) && Glob(s[1..], p[1..], case_sensitive)
  }

  // ----- the same on tokens -----

  function Fold(c: char, case_sensitive: bool): char
  {
    if !case_sensitive && 'A' <= c <= 'Z' then (c as int + 32) as char else c
  }

  /** Folded characters are equal just when one may stand for the other. */
  lemma FoldIsSame(a: char, b: char, case_sensitive: bool)
    ensures Fold(a, case_sensitive) == Fold(b, case_sensitive) <==> SameChar(a, b, case_sensitive)
  {
  }

  function Folded(s: string, case_sensitive: bool): (r: string)
    ensures |r| == |s|
  {
    seq(|s|, i requires 0 <= i < |s| => Fold(s[i], case_sensitive))
  }

  datatype Token = Literal(c: char) | Any | Star | Dangling

  function Tokens(p: string, case_sensitive: bool): seq<Token>
  {
    if p == [] then []
    else if p[0] == '*' then [Star] + Tokens(p[1..], case_sensitive)
    else if p[0] == '?' then [Any] + Tokens(p[1..], case_sensitive)
    else if p[0] == '\\' then AfterBackslash(p[1..], case_sensitive)
    else [Literal(Fold(p[0], case_sensitive))] + Tokens(p[1..], case_sensitive)
  }

  function AfterBackslash(p: string, case_sensitive: bool): seq<Token>
  {
    if p == [] then [Dangling] else [Literal(Fold(p[0], case_sensitive))] + Tokens(p[1..], case_sensitive)
  }

  predicate Hit(t: Token, c: char) { t.Any? || t == Literal(c) }

  /** The same meaning on tokens and folded text. */
  predicate Fits(s: string, t: seq<Token>)
    decreases |t|, |s|
  {
    if t == [] then s == []
    else if t[0].Star? then Fits(s, t[1..]) || (s != [] && Fits(s[1..], t))
    else s != [] && Hit(t[0], s[0]) && Fits(s[1..], t[1..])
  }

  lemma {:induction false} GlobIsFits(s: string, p: string, case_sensitive: bool)
    ensures Glob(s, p, case_sensitive) == Fits(Folded(s, case_sensitive), Tokens(p, case_sensitive))
    decreases |p|, |s|
  {
    if p != [] {
      if s != [] {
        assert Folded(s, case_sensitive)[1..] == Folded(s[1..], case_sensitive);
        FoldIsSame(s[0], p[0], case_sensitive);
        if |p| > 1 { FoldIsSame(s[0], p[1], case_sensitive); }
      }
      hide SameChar; hide Fold;
      if p[0] == '*' {
        GlobIsFits(s, p[1..], case_sensitive);
        if s != [] { GlobIsFits(s[1..], p, case_sensitive); }
      } else if p[0] == '\\' {
        if |p| > 1 {
          assert p[1..][1..] == p[2..];
          if s != [] { GlobIsFits(s[1..], p[2..], case_sensitive); }
        }
      } else if s != [] {
        GlobIsFits(s[1..], p[1..], case_sensitive);
      }
    }
  }

  // ----- what the loop does -----

  function SkipStars(t: seq<Token>): (r: seq<Token>)
    ensures |r| <= |t| && (t != [] && t[0].Star? ==> |r| < |t|) && (r != [] ==> !r[0].Star?)
  {
    if t != [] && t[0].Star? then SkipStars(t[1..]) else t
  }

  /** The pattern to go back to: what followed the last star. */
  datatype Mark = NoStar | After(pattern: seq<Token>)

  /** The outcome with text `s` and pattern `t` left.  A mismatch goes back to the mark, but never back
      in the text. */
  predicate Scan(s: string, t: seq<Token>, mark: Mark)
    decreases |s|, |t|
  {
    if s == [] then SkipStars(t) == []
    else if t != [] && t[0].Star? then
      var r := SkipStars(t);
      r == [] || Scan(s, r, After(r))
    else if t != [] && Hit(t[0], s[0]) then Scan(s[1..], t[1..], mark)
    else mark.After? && Scan(s[1..], mark.pattern, mark)
  }

  function Matched(str: string, pat: string, case_sensitive: bool): bool
  {
    Scan(Folded(str, case_sensitive), Tokens(pat, case_sensitive), NoStar)
  }

  /** A C string: no NUL before its end. */
  predicate NoNul(s: string) { forall i :: 0 <= i < |s| ==> s[i] != '\0' }

  function At(s: string, i: nat): char { if i < |s| then s[i] else '\0' }

  /** The rest of the pattern, seen from the loop. */
  function Ahead(pat: string, p: nat, escape: bool, case_sensitive: bool): seq<Token>
    requires p <= |pat|
  {
    if escape then AfterBackslash(pat[p..], case_sensitive) else Tokens(pat[p..], case_sensitive)
  }

  // ----- what it finds is a match -----

  /** The text from some position on fits. */
  ghost predicate Somewhere(s: string, t: seq<Token>) { Fits(s, [Star] + t) }

  lemma SomewhereLater(s: string, t: seq<Token>)
    requires s != []
    ensures Somewhere(s, t) == (Fits(s, t) || Somewhere(s[1..], t))
  {
    assert ([Star] + t)[1..] == t;
  }

  lemma SomewhereHere(s: string, t: seq<Token>)
    requires Fits(s, t)
    ensures Somewhere(s, t)
  {
    assert ([Star] + t)[1..] == t;
  }

  lemma {:induction false} StarsAreOne(s: string, t: seq<Token>)
    requires t != [] && t[0].Star?
    ensures Fits(s, t) == Somewhere(s, SkipStars(t))
    decreases |t|, |s|
  {
    if |t| > 1 && t[1].Star? {
      StarsAreOne(s, t[1..]);
      assert SkipStars(t) == SkipStars(t[1..]);
      if s != [] {
        StarsAreOne(s[1..], t);
        SomewhereLater(s, SkipStars(t));
      }
    } else {
      assert t == [Star] + SkipStars(t);
    }
  }

  lemma {:induction false} StarTakesAll(s: string)
    ensures Somewhere(s, [])
  {
    assert ([Star] + [])[1..] == [];
    if s != [] {
      StarTakesAll(s[1..]);
      SomewhereLater(s, []);
    }
  }

  lemma {:induction false} OnlyStars(t: seq<Token>)
    ensures Fits([], t) <==> SkipStars(t) == []
  {
    if t != [] && t[0].Star? { OnlyStars(t[1..]); }
  }

  lemma {:induction false} ScanIsSound(s: string, t: seq<Token>, mark: Mark)
    requires Scan(s, t, mark)
    ensures Fits(s, t) || (mark.After? && Somewhere(s, mark.pattern))
    decreases |s|, |t|
  {
    if s == [] {
      OnlyStars(t);
    } else if t != [] && t[0].Star? {
      var r := SkipStars(t);
      StarsAreOne(s, t);
      if r == [] {
        StarTakesAll(s);
      } else {
        ScanIsSound(s, r, After(r));
        if Fits(s, r) { SomewhereHere(s, r); }
      }
    } else if t != [] && Hit(t[0], s[0]) {
      ScanIsSound(s[1..], t[1..], mark);
      if mark.After? { SomewhereLater(s, mark.pattern); }
    } else {
      ScanIsSound(s[1..], mark.pattern, mark);
      if Fits(s[1..], mark.pattern) { SomewhereHere(s[1..], mark.pattern); }
      SomewhereLater(s, mark.pattern);
    }
  }

  /** A reported match is one. */
  lemma MatchedIsSound(str: string, pat: string, case_sensitive: bool)
    requires Matched(str, pat, case_sensitive)
    ensures Glob(str, pat, case_sensitive)
  {
    ScanIsSound(Folded(str, case_sensitive), Tokens(pat, case_sensitive), NoStar);
    GlobIsFits(str, pat, case_sensitive);
  }

  // ----- which patterns it gets right -----

  /** How many tokens come before the first star. */
  function Lead(t: seq<Token>): (k: nat)
    ensures k <= |t| && (k < |t| ==> t[k].Star?) && forall i :: 0 <= i < k ==> !t[i].Star?
  {
    if t == [] || t[0].Star? then 0 else 1 + Lead(t[1..])
  }

  /** One literal some number of times, then only `?`. */
  predicate Uniform(t: seq<Token>)
  {
    forall i, j :: 0 <= i < j < |t| && t[j].Literal? ==> t[i] == t[j]
  }

  /** Every piece between two stars is uniform, and a star ends the pattern. */
  predicate Tame(t: seq<Token>)
    decreases |t|
  {
    var k := Lead(t);
    k < |t| && Uniform(t[..k]) && (SkipStars(t[k..]) == [] || Tame(SkipStars(t[k..])))
  }

  /** No star, or what follows the first one is nothing or tame. */
  predicate Orderly(t: seq<Token>)
  {
    var k := Lead(t);
    k == |t| || SkipStars(t[k..]) == [] || Tame(SkipStars(t[k..]))
  }

  predicate Free(t: seq<Token>) { forall i :: 0 <= i < |t| ==> !t[i].Star? && !t[i].Dangling? }

  predicate Hits(x: string, d: seq<Token>) { |x| == |d| && forall i :: 0 <= i < |x| ==> Hit(d[i], x[i]) }

  /** Tokens without stars take the text character by character. */
  lemma {:induction false} FitsFront(s: string, d: seq<Token>, t: seq<Token>)
    requires Free(d)
    ensures Fits(s, d + t) <==> |d| <= |s| && Hits(s[..|d|], d) && Fits(s[|d|..], t)
    decreases d
  {
    if d == [] {
      assert d + t == t && s[0..] == s;
    } else {
      assert (d + t)[1..] == d[1..] + t;
      if s != [] {
        FitsFront(s[1..], d[1..], t);
        if |d| <= |s| {
          assert s[1..][|d| - 1..] == s[|d|..];
          assert s[..|d|] == [s[0]] + s[1..][..|d| - 1];
          assert d == [d[0]] + d[1..];
        }
      }
    }
  }

  lemma {:induction false} Place(s: string, t: seq<Token>) returns (k: nat)
    requires Somewhere(s, t)
    ensures k <= |s| && Fits(s[k..], t)
  {
    assert ([Star] + t)[1..] == t;
    if Fits(s, t) {
      k := 0;
      assert s[0..] == s;
    } else {
      SomewhereLater(s, t);
      k := Place(s[1..], t);
      k := k + 1;
      assert s[1..][k - 1..] == s[k..];
    }
  }

  lemma {:induction false} SomewhereFrom(s: string, k: nat, t: seq<Token>)
    requires k <= |s| && Fits(s[k..], t)
    ensures Somewhere(s, t)
    decreases k
  {
    if k == 0 {
      assert s[0..] == s;
      SomewhereHere(s, t);
    } else {
      assert s[1..][k - 1..] == s[k..];
      SomewhereFrom(s[1..], k - 1, t);
      SomewhereLater(s, t);
    }
  }

  /** A star also takes what comes before. */
  lemma {:induction false} Absorb(s: string, k: nat, t: seq<Token>)
    requires k <= |s| && t != [] && t[0].Star? && Fits(s[k..], t)
    ensures Fits(s, t)
    decreases k
  {
    if k == 0 {
      assert s[0..] == s;
    } else {
      assert s[1..][k - 1..] == s[k..];
      Absorb(s[1..], k - 1, t);
    }
  }

  predicate Alive(t: seq<Token>) { Dangling !in t }

  /** A try of pattern `d + u` whose tokens `d` have taken `x`, with a match in `x` and the text `s`
      after it. */
  ghost predicate Trying(x: string, s: string, d: seq<Token>, u: seq<Token>)
  {
    var r := d + u;
    Tame(r) && Alive(r) && !r[0].Star? && |d| <= Lead(r) && Hits(x, d) && Somewhere(x + s, r)
  }

  /** In a tame pattern no match is missed. */
  lemma {:induction false} Finds(x: string, s: string, d: seq<Token>, u: seq<Token>)
    requires Trying(x, s, d, u)
    ensures Scan(s, u, After(d + u))
    decreases |s|, |u|
  {
    hide Trying; hide SkipStars;
    TryGoesOn(x, s, d, u);
    if s == [] || u[0].Star? {
      TryEnds(x, s, d, u);
      if s != [] && SkipStars(u) != [] {
        assert [] + SkipStars(u) == SkipStars(u);
        Finds("", s, [], SkipStars(u));
      }
    } else if Hit(u[0], s[0]) {
      TryHits(x, s, d, u);
      assert (d + [u[0]]) + u[1..] == d + u;
      Finds(x + [s[0]], s[1..], d + [u[0]], u[1..]);
    } else {
      TryMisses(x, s, d, u);
      assert [] + (d + u) == d + u;
      Finds("", s[1..], [], d + u);
    }
  }

  lemma TryGoesOn(x: string, s: string, d: seq<Token>, u: seq<Token>)
    requires Trying(x, s, d, u)
    ensures u != []
  {
  }

  /** The place of the match, behind the tokens already taken. */
  lemma PlaceBehind(x: string, s: string, d: seq<Token>, u: seq<Token>) returns (k: nat)
    requires Trying(x, s, d, u)
    ensures k <= |s| && Fits((x + s)[k..], d + u) && Fits(s[k..], u)
  {
    hide Tame; hide Fits; hide Somewhere; hide Lead;
    k := Place(x + s, d + u);
    FreeFront(d + u, |d|);
    assert (d + u)[..|d|] == d;
    FitsFront((x + s)[k..], d, u);
    assert (x + s)[k..][|d|..] == s[k..];
  }

  lemma TryEnds(x: string, s: string, d: seq<Token>, u: seq<Token>)
    requires Trying(x, s, d, u) && u != [] && (s == [] || u[0].Star?)
    ensures s == [] ==> SkipStars(u) == []
    ensures s != [] && SkipStars(u) != [] ==> Trying("", s, [], SkipStars(u))
  {
    hide Tame; hide Somewhere; hide Fits; hide Lead; hide SkipStars;
    var k := PlaceBehind(x, s, d, u);
    if s == [] {
      OnlyStars(u);
    } else if SkipStars(u) != [] {
      Absorb(s, k, u);
      StarsAreOne(s, u);
      assert (d + u)[|d|..] == u;
      TameNext(d + u, |d|);
      assert "" + s == s && [] + SkipStars(u) == SkipStars(u);
    }
  }

  lemma TryHits(x: string, s: string, d: seq<Token>, u: seq<Token>)
    requires Trying(x, s, d, u) && u != [] && !u[0].Star? && s != [] && Hit(u[0], s[0])
    ensures Trying(x + [s[0]], s[1..], d + [u[0]], u[1..])
  {
    hide Tame; hide Somewhere; hide Lead;
    assert (d + [u[0]]) + u[1..] == d + u && (x + [s[0]]) + s[1..] == x + s;
  }

  lemma TryMisses(x: string, s: string, d: seq<Token>, u: seq<Token>)
    requires Trying(x, s, d, u) && u != [] && !u[0].Star? && s != [] && !Hit(u[0], s[0])
    ensures Trying("", s[1..], [], d + u)
  {
    hide Tame; hide Somewhere; hide Fits; hide Lead;
    var k := PlaceBehind(x, s, d, u);
    NoneBefore(x, s, d, u, k);
    assert (x + s)[k..] == s[1..][k - |x| - 1..];
    SomewhereFrom(s[1..], k - |x| - 1, d + u);
    assert "" + s[1..] == s[1..] && [] + (d + u) == d + u;
  }

  lemma FreeFront(r: seq<Token>, k: nat)
    requires Alive(r) && k <= Lead(r)
    ensures Free(r[..k])
  {
    forall i | 0 <= i < k ensures !r[..k][i].Dangling? {
      assert r[i] in r;
    }
  }

  lemma TameNext(r: seq<Token>, k: nat)
    requires Tame(r) && Alive(r) && k <= Lead(r) && k < |r| && r[k].Star? && SkipStars(r[k..]) != []
    ensures Tame(SkipStars(r[k..])) && Alive(SkipStars(r[k..]))
  {
    SkipStarsIsSuffix(r[k..]);
  }

  lemma {:induction false} SkipStarsIsSuffix(t: seq<Token>)
    ensures SkipStars(t) == t[|t| - |SkipStars(t)|..]
  {
    if t != [] && t[0].Star? {
      SkipStarsIsSuffix(t[1..]);
    }
  }

  /** A mismatch after part of a uniform piece: no match starts at or before the character. */
  lemma NoneBefore(x: string, s: string, d: seq<Token>, u: seq<Token>, k: nat)
    requires Tame(d + u) && Alive(d + u) && |d| < Lead(d + u) && s != [] && u != [] && !Hit(u[0], s[0])
    requires k <= |x + s| && |x| == |d| && Fits((x + s)[k..], d + u)
    ensures k > |x|
  {
    var r := d + u;
    if k <= |x| {
      var m := |x| - k;
      LaterLiteral(r, m, |d|);
      FreeFront(r, m + 1);
      hide Tame; hide Fits; hide Lead; hide Alive;
      assert (x + s)[k..][m] == s[0];
      TakenBy((x + s)[k..], r, m);
    }
  }

  /** In a tame piece the tokens before a literal are that literal. */
  lemma LaterLiteral(r: seq<Token>, m: nat, j: nat)
    requires Tame(r) && Alive(r) && m <= j < Lead(r) && !r[j].Any?
    ensures r[m] == r[j]
  {
    assert r[j] in r;
    assert r[..Lead(r)][m] == r[m] && r[..Lead(r)][j] == r[j];
  }

  /** A token without stars before it takes the character at its place. */
  lemma TakenBy(y: string, r: seq<Token>, m: nat)
    requires Fits(y, r) && m < |r| && Free(r[..m + 1])
    ensures m < |y| && Hit(r[m], y[m])
  {
    assert r == r[..m + 1] + r[m + 1..];
    FitsFront(y, r[..m + 1], r[m + 1..]);
    assert Hit(r[..m + 1][m], y[..m + 1][m]);
  }

  lemma {:induction false} OrderlyIsComplete(s: string, t: seq<Token>)
    requires Orderly(t) && Alive(t) && Fits(s, t)
    ensures Scan(s, t, NoStar)
    decreases |t|
  {
    hide Orderly; hide Tame; hide Somewhere;
    if s == [] {
      OnlyStars(t);
    } else if t[0].Star? {
      StarsAreOne(s, t);
      if SkipStars(t) != [] {
        OrderlyStar(t);
        assert "" + s == s && [] + SkipStars(t) == SkipStars(t);
        Finds("", s, [], SkipStars(t));
      }
    } else {
      OrderlyTail(t);
      OrderlyIsComplete(s[1..], t[1..]);
    }
  }

  lemma OrderlyStar(t: seq<Token>)
    requires Orderly(t) && Alive(t) && t != [] && t[0].Star? && SkipStars(t) != []
    ensures Tame(SkipStars(t)) && Alive(SkipStars(t))
  {
    assert t[0..] == t;
    SkipStarsIsSuffix(t);
  }

  lemma OrderlyTail(t: seq<Token>)
    requires Orderly(t) && Alive(t) && t != [] && !t[0].Star?
    ensures Orderly(t[1..]) && Alive(t[1..])
  {
    assert t[Lead(t)..] == t[1..][Lead(t[1..])..];
  }

  // ----- which patterns it gets wrong -----

  /** The number of characters a pattern needs at least. */
  function Need(t: seq<Token>): nat
  {
    if t == [] then 0 else (if t[0].Star? then 0 else 1) + Need(t[1..])
  }

  lemma {:induction false} FitsNeeds(s: string, t: seq<Token>)
    requires Fits(s, t)
    ensures |s| >= Need(t)
    decreases |t|, |s|
  {
    if t != [] {
      if !t[0].Star? {
        FitsNeeds(s[1..], t[1..]);
      } else if Fits(s, t[1..]) {
        FitsNeeds(s, t[1..]);
      } else {
        FitsNeeds(s[1..], t);
      }
    }
  }

  lemma {:induction false} NeedConcat(a: seq<Token>, b: seq<Token>)
    ensures Need(a + b) == Need(a) + Need(b)
  {
    if a == [] {
      assert a + b == b;
    } else {
      assert (a + b)[1..] == a[1..] + b;
      NeedConcat(a[1..], b);
    }
  }

  lemma {:induction false} NeedOfFree(t: seq<Token>)
    requires Free(t)
    ensures Need(t) == |t|
  {
    if t != [] { NeedOfFree(t[1..]); }
  }

  /** A character for a token, and a shortest text for a pattern. */
  function Letter(t: Token): char { if t.Literal? then t.c else 'a' }

  function Word(t: seq<Token>): string
  {
    if t == [] then [] else (if t[0].Star? then [] else [Letter(t[0])]) + Word(t[1..])
  }

  lemma {:induction false} WordFits(t: seq<Token>)
    requires Alive(t)
    ensures Fits(Word(t), t) && |Word(t)| == Need(t)
  {
    if t != [] {
      WordFits(t[1..]);
      assert t[0] in t;
      if t[0].Star? {
        assert Word(t) == Word(t[1..]);
      } else {
        assert Word(t)[1..] == Word(t[1..]);
      }
    }
  }

  lemma {:induction false} WordHits(d: seq<Token>)
    requires Free(d)
    ensures Hits(Word(d), d)
  {
    if d != [] {
      WordHits(d[1..]);
      assert Word(d) == [Letter(d[0])] + Word(d[1..]);
    }
  }

  /** A text that is its own folded form and holds no NUL. */
  predicate Proper(s: string, case_sensitive: bool)
  {
    forall i :: 0 <= i < |s| ==> s[i] != '\0' && Fold(s[i], case_sensitive) == s[i]
  }

  predicate ProperTokens(t: seq<Token>, case_sensitive: bool)
  {
    forall i :: 0 <= i < |t| && t[i].Literal? ==> t[i].c != '\0' && Fold(t[i].c, case_sensitive) == t[i].c
  }

  lemma {:induction false} TokensAreProper(p: string, case_sensitive: bool)
    requires NoNul(p)
    ensures ProperTokens(Tokens(p, case_sensitive), case_sensitive)
    decreases |p|
  {
    if p != [] {
      assert NoNul(p[1..]);
      if p[0] == '\\' {
        if |p| > 1 {
          assert p[1..][1..] == p[2..] && p[1..][0] == p[1];
          TokensAreProper(p[2..], case_sensitive);
        }
      } else {
        TokensAreProper(p[1..], case_sensitive);
      }
    }
  }

  lemma {:induction false} WordIsProper(t: seq<Token>, case_sensitive: bool)
    requires ProperTokens(t, case_sensitive)
    ensures Proper(Word(t), case_sensitive)
  {
    if t != [] { WordIsProper(t[1..], case_sensitive); }
  }

  /** Hits move the loop on, whatever follows. */
  lemma {:induction false} Walk(x: string, s: string, d: seq<Token>, u: seq<Token>, mark: Mark)
    requires Hits(x, d) && Free(d)
    ensures Scan(x + s, d + u, mark) == Scan(s, u, mark)
    decreases |x|
  {
    if x == [] {
      assert x + s == s && d + u == u;
    } else {
      assert (x + s)[1..] == x[1..] + s && (d + u)[1..] == d[1..] + u;
      Walk(x[1..], s, d[1..], u, mark);
    }
  }

  /** A mismatch with too little text behind it is final. */
  lemma Stuck(s: string, u: seq<Token>, r: seq<Token>)
    requires s != [] && |s| <= Need(r) && (u == [] || (!u[0].Star? && !Hit(u[0], s[0])))
    ensures !Scan(s, u, After(r))
  {
    if Scan(s[1..], r, After(r)) {
      ScanIsSound(s[1..], r, After(r));
      if Fits(s[1..], r) { SomewhereHere(s[1..], r); }
      var k := Place(s[1..], r);
      FitsNeeds(s[1..][k..], r);
    }
  }

  /** Text `x + y` fits from somewhere on, but the loop takes `x` for the tokens `d`, mismatches at
      the first character of `y` and has too little text left. */
  lemma Misled(x: string, y: string, d: seq<Token>, u: seq<Token>)
    requires Hits(x, d) && Free(d) && y != [] && |y| <= Need(d + u)
    requires u == [] || (!u[0].Star? && !Hit(u[0], y[0]))
    ensures !Scan(x + y, d + u, After(d + u))
  {
    Walk(x, y, d, u, After(d + u));
    Stuck(y, u, d + u);
  }

  ghost predicate Missed(s: string, r: seq<Token>, case_sensitive: bool)
  {
    Somewhere(s, r) && !Scan(s, r, After(r)) && Proper(s, case_sensitive)
  }

  predicate Candidate(r: seq<Token>, case_sensitive: bool)
  {
    r != [] && !r[0].Star? && Alive(r) && ProperTokens(r, case_sensitive)
  }

  /** A pattern that ends without a star, on its word written twice. */
  lemma MissedAtTheEnd(r: seq<Token>, case_sensitive: bool) returns (s: string)
    requires Candidate(r, case_sensitive) && Lead(r) == |r|
    ensures Missed(s, r, case_sensitive)
  {
    var w := Word(r);
    s := w + w;
    assert r[..|r|] == r && r + [] == r;
    FreeFront(r, |r|);
    WordHits(r);
    WordFits(r);
    NeedOfFree(r);
    WordIsProper(r, case_sensitive);
    Misled(w, w, r, []);
    assert s[|w|..] == w;
    SomewhereFrom(s, |w|, r);
  }

  /** A piece whose first token takes a character that a later one does not: that character
      starts a match in the middle of a try. */
  lemma MissedByFirst(r: seq<Token>, j: nat, c: char, case_sensitive: bool) returns (s: string)
    requires Candidate(r, case_sensitive) && 0 < j < Lead(r) && Hit(r[0], c) && !Hit(r[j], c)
    requires Proper([c], case_sensitive)
    ensures Missed(s, r, case_sensitive)
  {
    hide Fits; hide Scan; hide Lead; hide Word; hide Somewhere;
    var d, u := r[..j], r[j..];
    assert r == d + u && r == [r[0]] + r[1..];
    var x, y := Word(d), [c] + Word(r[1..]);
    s := x + y;
    FreeFront(r, j);
    WordHits(d);
    WordFits(r[1..]);
    Misled(x, y, d, u);
    assert y[..1] == [c] && y[1..] == Word(r[1..]);
    FitsFront(y, [r[0]], r[1..]);
    assert s[|x|..] == y;
    SomewhereFrom(s, |x|, r);
    WordIsProper(d, case_sensitive);
    WordIsProper(r[1..], case_sensitive);
  }

  /** A piece with a literal behind `?`, all of its literals `a`: text a..ac with c at the literal,
      where the match is one further on. */
  lemma MissedByShift(r: seq<Token>, j: nat, case_sensitive: bool) returns (s: string)
    requires Candidate(r, case_sensitive) && 0 < j < Lead(r) && r[j].Literal? && r[j - 1].Any?
    requires forall i :: 0 <= i < j ==> r[i] == r[j] || r[i].Any?
    ensures Missed(s, r, case_sensitive)
  {
    hide Fits; hide Scan; hide Lead; hide Word; hide Somewhere; hide Need;
    var a := r[j].c;
    var c := if a == 'x' then 'y' else 'x';
    var d, u := r[..j], r[j..];
    assert r == d + u;
    var x := seq(j, i => a);
    var y := [c] + Word(u);
    s := x + y;
    FreeFront(r, j);
    WordFits(u);
    NeedConcat(d, u);
    NeedOfFree(d);
    assert Hits(x, d);
    Misled(x, y, d, u);
    var front := x[1..] + [c];
    assert s[1..] == front + Word(u);
    assert Hits(front, d);
    assert s[1..][..j] == front && s[1..][j..] == Word(u);
    FitsFront(s[1..], d, u);
    SomewhereFrom(s, 1, r);
    WordIsProper(u, case_sensitive);
  }

  /** A piece that is not uniform has a text on which it is missed. */
  lemma MissedByPiece(r: seq<Token>, case_sensitive: bool) returns (s: string)
    requires Candidate(r, case_sensitive) && !Uniform(r[..Lead(r)])
    ensures Missed(s, r, case_sensitive)
  {
    var k := Lead(r);
    FreeFront(r, k);
    var i, j :| 0 <= i < j < k && r[..k][j].Literal? && r[..k][i] != r[..k][j];
    assert r[..k][i] == r[i] && r[..k][j] == r[j] && r[..k][0] == r[0];
    if h :| 0 < h < k && r[h].Literal? && r[0] != r[h] {
      var a := r[h].c;
      var c := if r[0].Literal? then r[0].c else if a == 'x' then 'y' else 'x';
      s := MissedByFirst(r, h, c, case_sensitive);
    } else {
      assert r[i] != r[j];
      var h := i + 1;
      while !r[h].Literal?
        invariant i < h <= j && r[h - 1].Any?
        decreases j - h
      {
        assert r[..k][h] == r[h];
        h := h + 1;
      }
      forall m | 0 <= m < h ensures r[m] == r[h] || r[m].Any? {
        assert r[..k][m] == r[m];
      }
      s := MissedByShift(r, h, case_sensitive);
    }
  }

  /** Every pattern that is not tame is missed on some text. */
  lemma {:induction false} WildIsMissed(r: seq<Token>, case_sensitive: bool) returns (s: string)
    requires Candidate(r, case_sensitive) && !Tame(r)
    ensures Missed(s, r, case_sensitive)
    decreases |r|
  {
    var k := Lead(r);
    if k == |r| {
      s := MissedAtTheEnd(r, case_sensitive);
    } else if !Uniform(r[..k]) {
      s := MissedByPiece(r, case_sensitive);
    } else {
      var n := SkipStars(r[k..]);
      SkipStarsIsSuffix(r[k..]);
      s := WildIsMissed(n, case_sensitive);
      s := Prefixed(r, s, After(r), case_sensitive);
      SomewhereHere(s, r);
    }
  }

  /** Text for what comes before a star goes in front. */
  lemma Prefixed(t: seq<Token>, s2: string, mark: Mark, case_sensitive: bool) returns (s: string)
    requires Alive(t) && ProperTokens(t, case_sensitive) && Lead(t) < |t|
    requires var n := SkipStars(t[Lead(t)..]); n != [] && Missed(s2, n, case_sensitive)
    ensures Fits(s, t) && !Scan(s, t, mark) && Proper(s, case_sensitive)
  {
    var k := Lead(t);
    var d, u := t[..k], t[k..];
    var n := SkipStars(u);
    assert t == d + u;
    FreeFront(t, k);
    s := Word(d) + s2;
    WordHits(d);
    WordIsProper(d, case_sensitive);
    StarsAreOne(s2, u);
    assert s[..k] == Word(d) && s[k..] == s2;
    FitsFront(s, d, u);
    Walk(Word(d), s2, d, u, mark);
    if s2 == [] { OnlyStars(u); }
  }

  /** The patterns on which the loop reports exactly the matches: nothing matches them at all (a
      backslash at the end), they have no star, or a star ends them and between two stars there
      is one literal some number of times followed by any number of `?`. */
  lemma ExactIff(pat: string, case_sensitive: bool)
    requires NoNul(pat)
    ensures (forall str | NoNul(str) :: Matched(str, pat, case_sensitive) == Glob(str, pat, case_sensitive))
       <==> (var t := Tokens(pat, case_sensitive); Dangling in t || Orderly(t))
  {
    var t := Tokens(pat, case_sensitive);
    if Dangling in t || Orderly(t) {
      forall str: string | NoNul(str) ensures Matched(str, pat, case_sensitive) == Glob(str, pat, case_sensitive) {
        if Matched(str, pat, case_sensitive) { MatchedIsSound(str, pat, case_sensitive); }
        GlobIsFits(str, pat, case_sensitive);
        if Glob(str, pat, case_sensitive) {
          if Dangling in t { DeadFitsNothing(Folded(str, case_sensitive), t); }
          OrderlyIsComplete(Folded(str, case_sensitive), t);
        }
      }
    } else {
      TokensAreProper(pat, case_sensitive);
      var n := SkipStars(t[Lead(t)..]);
      SkipStarsIsSuffix(t[Lead(t)..]);
      var s2 := WildIsMissed(n, case_sensitive);
      var s := Prefixed(t, s2, NoStar, case_sensitive);
      assert Folded(s, case_sensitive) == s;
      GlobIsFits(s, pat, case_sensitive);
      assert NoNul(s) && Matched(s, pat, case_sensitive) != Glob(s, pat, case_sensitive);
    }
  }

  /** No wildcard and no backslash. */
  predicate Plain(pat: string) { forall i :: 0 <= i < |pat| ==> pat[i] !in "*?\\" }

  /** A plain pattern matches just the texts with the same characters: if case matters, itself only. */
  lemma PlainIff(str: string, pat: string, case_sensitive: bool)
    requires NoNul(str) && NoNul(pat) && Plain(pat)
    ensures Matched(str, pat, case_sensitive)
       <==> |str| == |pat| && forall i :: 0 <= i < |str| ==> SameChar(str[i], pat[i], case_sensitive)
    ensures case_sensitive ==> (Matched(str, pat, case_sensitive) <==> str == pat)
  {
    PlainTokens(pat, case_sensitive);
    ExactIff(pat, case_sensitive);
    GlobOfPlain(str, pat, case_sensitive);
  }

  lemma {:induction false} PlainTokens(pat: string, case_sensitive: bool)
    requires Plain(pat)
    ensures var t := Tokens(pat, case_sensitive); Lead(t) == |t| && Dangling !in t
  {
    if pat != [] { PlainTokens(pat[1..], case_sensitive); }
  }

  lemma {:induction false} GlobOfPlain(str: string, pat: string, case_sensitive: bool)
    requires Plain(pat)
    ensures Glob(str, pat, case_sensitive)
       <==> |str| == |pat| && forall i :: 0 <= i < |str| ==> SameChar(str[i], pat[i], case_sensitive)
  {
    hide SameChar;
    if pat != [] && str != [] {
      GlobOfPlain(str[1..], pat[1..], case_sensitive);
      assert pat[0] !in "*?\\";
      if Glob(str, pat, case_sensitive) {
        forall i | 0 <= i < |str| ensures SameChar(str[i], pat[i], case_sensitive) {
          if i > 0 { assert str[1..][i - 1] == str[i] && pat[1..][i - 1] == pat[i]; }
        }
      }
    }
  }

  /** For instance "abb" against "*b": after the first b the second one is a mismatch. */
  lemma SecondTryIsLost()
    ensures Glob("abb", "*b", true) && !Matched("abb", "*b", true)
  {
    var t := [Literal('b')];
    assert Tokens("b", true) == t && Tokens("*b", true) == [Star] + t by {
      assert "*b"[1..] == "b" && "b"[1..] == "";
      assert Tokens("", true) == [];
    }
    assert Folded("abb", true) == "abb" && "abb"[1..] == "bb" && "bb"[1..] == "b" && "b"[1..] == "";
    assert ([Star] + t)[1..] == t && t[1..] == [];
    assert SkipStars(t) == t;
    assert !Scan("", t, After(t));
    assert !Scan("b", [], After(t));
    assert !Scan("bb", t, After(t));
    assert !Scan("abb", t, After(t));
    assert Fits("b", t) by { assert Fits("", []); }
    SomewhereFrom("abb", 2, t) by { assert "abb"[2..] == "b"; }
    GlobIsFits("abb", "*b", true);
  }

  lemma {:induction false} DeadFitsNothing(s: string, t: seq<Token>)
    requires Dangling in t
    ensures !Fits(s, t)
    decreases |t|, |s|
  {
    if t[0].Star? {
      DeadFitsNothing(s, t[1..]);
      if s != [] { DeadFitsNothing(s[1..], t); }
    } else if s != [] && t[0] != Dangling {
      DeadFitsNothing(s[1..], t[1..]);
    }
  }

  // ----- one turn of the loop -----

  /** The outcome from the loop's position. */
  predicate Outlook(str: string, s: nat, pat: string, p: nat, escape: bool, mark: Mark, case_sensitive: bool)
    requires s <= |str| && p <= |pat|
  {
    Scan(Folded(str[s..], case_sensitive), Ahead(pat, p, escape, case_sensitive), mark)
  }

  lemma Tail(s: string, i: nat, case_sensitive: bool)
    requires i < |s|
    ensures s[i..][0] == s[i] && s[i..][1..] == s[i + 1..]
    ensures Folded(s[i..], case_sensitive)[0] == Fold(s[i], case_sensitive)
    ensures Folded(s[i..], case_sensitive)[1..] == Folded(s[i + 1..], case_sensitive)
  {
  }

  lemma BackslashTurn(str: string, s: nat, pat: string, p: nat, mark: Mark, case_sensitive: bool)
    requires s <= |str| && p < |pat| && pat[p] == '\\'
    ensures Outlook(str, s, pat, p, false, mark, case_sensitive) ==
            Outlook(str, s, pat, p + 1, true, mark, case_sensitive)
  {
    Tail(pat, p, case_sensitive);
  }

  lemma StarTurn(str: string, s: nat, pat: string, p: nat, mark: Mark, case_sensitive: bool, q: nat)
    requires s < |str| && p < q <= |pat| && pat[p] == '*'
    requires Tokens(pat[q..], case_sensitive) == SkipStars(Tokens(pat[p..], case_sensitive))
    ensures var r := Tokens(pat[q..], case_sensitive);
            Outlook(str, s, pat, p, false, mark, case_sensitive) ==
              (r == [] || Outlook(str, s, pat, q, false, After(r), case_sensitive))
  {
    Tail(pat, p, case_sensitive);
  }

  lemma StepTurn(str: string, s: nat, pat: string, p: nat, escape: bool, mark: Mark, case_sensitive: bool)
    requires s < |str| && p < |pat| && (!escape ==> pat[p] != '*' && pat[p] != '\\')
    requires (!escape && pat[p] == '?') || Fold(str[s], case_sensitive) == Fold(pat[p], case_sensitive)
    ensures Outlook(str, s, pat, p, escape, mark, case_sensitive) ==
            Outlook(str, s + 1, pat, p + 1, false, mark, case_sensitive)
  {
    Tail(pat, p, case_sensitive);
    Tail(str, s, case_sensitive);
    HeadToken(pat, p, escape, case_sensitive);
  }

  /** The token under a pattern position that is neither a star nor a fresh backslash. */
  lemma HeadToken(pat: string, p: nat, escape: bool, case_sensitive: bool)
    requires p < |pat| && (!escape ==> pat[p] != '*' && pat[p] != '\\')
    ensures Ahead(pat, p, escape, case_sensitive) ==
            [if !escape && pat[p] == '?' then Any else Literal(Fold(pat[p], case_sensitive))] +
              Tokens(pat[p + 1..], case_sensitive)
  {
    Tail(pat, p, case_sensitive);
  }

  lemma MissTurn(str: string, s: nat, pat: string, p: nat, escape: bool, mark: Mark, case_sensitive: bool)
    requires s < |str| && p <= |pat|
    requires p < |pat| ==>
             (!escape ==> pat[p] != '*' && pat[p] != '\\' && pat[p] != '?') &&
             Fold(str[s], case_sensitive) != Fold(pat[p], case_sensitive)
    ensures Outlook(str, s, pat, p, escape, mark, case_sensitive) ==
            (mark.After? && Scan(Folded(str[s + 1..], case_sensitive), mark.pattern, mark))
  {
    Tail(str, s, case_sensitive);
    if p < |pat| { HeadToken(pat, p, escape, case_sensitive); }
  }

  /** Null pointers are `None`; `samePointer` says that the caller passed one pointer twice, which matches
      without a look at the string. */
  method WildMatch(str: Option<string>, pat: Option<string>, samePointer: bool, case_sensitive: bool)
    returns (result: bool)
    requires str.Some? ==> NoNul(str.value)
    requires pat.Some? ==> NoNul(pat.value)
    requires samePointer ==> str == pat
    ensures result <==> samePointer || (str.Some? && pat.Some? && Matched(str.value, pat.value, case_sensitive))
  {
    if samePointer {
      return true;
    }
    if pat == None || str == None {
      return false;
    }
    result := MatchLoop(str.value, pat.value, case_sensitive);
  }

  /** Neither pointer moves past the end of its string, and the outcome is `Matched`. */
  method MatchLoop(str: string, pat0: string, case_sensitive: bool) returns (result: bool)
    requires NoNul(str) && NoNul(pat0)
    ensures result == Matched(str, pat0, case_sensitive)
  {
    hide Scan; hide Tokens; hide AfterBackslash; hide Fold; hide Folded; hide Outlook;
    var star, escape := false, false;
    var s, p, pat := 0, 0, 0;
    ghost var mark := NoStar;
    Begin(str, pat0, case_sensitive);
    while At(str, s) != '\0'
      invariant s <= |str| && p <= |pat0| && pat <= |pat0| && (escape ==> s < |str|)
      invariant mark == if star then After(Tokens(pat0[pat..], case_sensitive)) else NoStar
      invariant Matched(str, pat0, case_sensitive) == Outlook(str, s, pat0, p, escape, mark, case_sensitive)
      decreases |str| - s, |pat0| - p
    {
      if !escape && At(pat0, p) == '\\' {
        BackslashTurn(str, s, pat0, p, mark, case_sensitive);
        p := p + 1;
        escape := true;
      } else if !escape && At(pat0, p) == '*' {
        star := true;
        pat := SkipRun(pat0, p, case_sensitive);
        StarTurn(str, s, pat0, p, mark, case_sensitive, pat);
        EmptyTokens(pat0, pat, case_sensitive);
        if At(pat0, pat) == '\0' {
          return true;
        }
        p := pat;
        mark := After(Tokens(pat0[pat..], case_sensitive));
      } else if !escape && At(pat0, p) == '?' {
        StepTurn(str, s, pat0, p, escape, mark, case_sensitive);
        s := s + 1;
        p := p + 1;
      } else if Fold(str[s], case_sensitive) != Fold(At(pat0, p), case_sensitive) {
        MissTurn(str, s, pat0, p, escape, mark, case_sensitive);
        if !star {
          return false;
        }
        s := s + 1;
        p := pat;
        escape := false;
        BackAtMark(str, s, pat0, pat, case_sensitive);
      } else {
        NulFoldsAlone(str[s], At(pat0, p), case_sensitive);
        StepTurn(str, s, pat0, p, escape, mark, case_sensitive);
        s := s + 1;
        p := p + 1;
        escape := false;
      }
    }
    AtTheEnd(str, pat0, p, mark, case_sensitive);
    if At(pat0, p) == '*' {
      p := SkipRun(pat0, p, case_sensitive);
    }
    EmptyTokens(pat0, p, case_sensitive);
    return At(pat0, p) == '\0';
  }

  lemma Begin(str: string, pat: string, case_sensitive: bool)
    ensures Matched(str, pat, case_sensitive) == Outlook(str, 0, pat, 0, false, NoStar, case_sensitive)
  {
    assert str[0..] == str && pat[0..] == pat;
  }

  lemma BackAtMark(str: string, s: nat, pat: string, p: nat, case_sensitive: bool)
    requires s <= |str| && p <= |pat|
    ensures var mark := After(Tokens(pat[p..], case_sensitive));
            Outlook(str, s, pat, p, false, mark, case_sensitive) ==
              Scan(Folded(str[s..], case_sensitive), mark.pattern, mark)
  {
  }

  lemma NulFoldsAlone(c: char, d: char, case_sensitive: bool)
    requires c != '\0' && Fold(c, case_sensitive) == Fold(d, case_sensitive)
    ensures d != '\0'
  {
  }

  lemma EmptyTokens(pat: string, p: nat, case_sensitive: bool)
    requires NoNul(pat) && p <= |pat|
    ensures Tokens(pat[p..], case_sensitive) == [] <==> At(pat, p) == '\0'
  {
    if p < |pat| { Tail(pat, p, case_sensitive); }
  }

  lemma AtTheEnd(str: string, pat: string, p: nat, mark: Mark, case_sensitive: bool)
    requires p <= |pat|
    ensures Outlook(str, |str|, pat, p, false, mark, case_sensitive) ==
            (SkipStars(Tokens(pat[p..], case_sensitive)) == [])
    ensures At(pat, p) != '*' ==> SkipStars(Tokens(pat[p..], case_sensitive)) == Tokens(pat[p..], case_sensitive)
  {
    if p < |pat| { Tail(pat, p, case_sensitive); }
  }

  /** Past a run of stars. */
  method SkipRun(pat: string, p0: nat, case_sensitive: bool) returns (p: nat)
    requires p0 < |pat| && pat[p0] == '*' && NoNul(pat)
    ensures p0 < p <= |pat| && At(pat, p) != '*'
    ensures Tokens(pat[p..], case_sensitive) == SkipStars(Tokens(pat[p0..], case_sensitive))
  {
    p := p0 + 1;
    assert pat[p0..][1..] == pat[p..];
    while At(pat, p) == '*'
      invariant p0 < p <= |pat|
      invariant SkipStars(Tokens(pat[p..], case_sensitive)) == SkipStars(Tokens(pat[p0..], case_sensitive))
      decreases |pat| - p
    {
      assert pat[p..][1..] == pat[p + 1..];
      p := p + 1;
    }
    if p < |pat| { assert pat[p..][0] == pat[p]; }
  }
}
