/**
 * Rule matching in background.js: `wildcardToRegex` and `urlMatchesRule`.
 */
module Matching {
  import opened Wrappers
  import opened Text
  import opened RegexFragment
  import opened RuleModel

  /** The characters of the class `[.+^${}()|[\]\\]` that the first replace escapes. */
  predicate IsEscaped(c: char) {
    c in ".+^${}()|[]\\"
  }

  /** The first replace: a backslash is put before every character of that class. */
  function EscapeMeta(p: string): string {
    if p == [] then [] else (if IsEscaped(p[0]) then ['\\', p[0]] else [p[0]]) + EscapeMeta(p[1..])
  }

  /** The second replace: every `?` becomes `.`. */
  function QuestionToDot(s: string): string {
    if s == [] then [] else [if s[0] == '?' then '.' else s[0]] + QuestionToDot(s[1..])
  }

  /** The third replace: every star becomes `.` followed by a star. */
  function StarToDotStar(s: string): string {
    if s == [] then [] else (if s[0] == '*' then ".*" else [s[0]]) + StarToDotStar(s[1..])
  }

  /** The source text of `wildcardToRegex(pattern)`: the translated pattern, anchored at both ends. */
  function WildcardToRegex(pattern: string): (src: string)
    ensures |src| >= 2 && src[0] == '^' && src[|src| - 1] == '$'
  {
    "^" + StarToDotStar(QuestionToDot(EscapeMeta(pattern))) + "$"
  }

  /**
   * `wildcardToRegex(pattern).test(url)`. The None branch stands for a
   * source outside the fragment; WildcardCompiles shows that it is never
   * taken, so in wildcard mode the `catch` of `urlMatchesRule` is not reached.
   */
  predicate WildcardTest(pattern: string, url: string) {
    match Compile(WildcardToRegex(pattern))
    case Some(ps) => Matches(ps, url)
    case None => false
  }

  // ---------------------------------------------------------------------
  // The glob reading of a wildcard pattern

  /** What a single pattern character stands for. */
  function GlobPiece(c: char): Piece {
    if c == '?' then Once(AnyChar)
    else if c == '*' then Repeat(AnyChar)
    else Once(Literal(c))
  }

  function GlobPieces(p: string): (ps: seq<Piece>)
    ensures |ps| == |p| && forall i :: 0 <= i < |p| ==> ps[i] == GlobPiece(p[i])
  {
    if p == [] then [] else [GlobPiece(p[0])] + GlobPieces(p[1..])
  }

  /**
   * The reference meaning of a wildcard pattern: `?` is one character, `*`
   * any run of characters, every other character itself, and the whole
   * address must be consumed (`?` and `*` follow JavaScript's `.`, so they
   * never consume a line terminator).
   */
  predicate GlobMatch(pattern: string, url: string) {
    Matches(GlobPieces(pattern), url)
  }

  predicate HasWildcard(p: string) {
    '?' in p || '*' in p
  }

  // ---------------------------------------------------------------------
  // The escaped source parses back to the glob pieces

  /** The regex text the three replaces produce for one pattern character. */
  function CharSource(c: char): string {
    if IsEscaped(c) then ['\\', c]
    else if c == '?' then "."
    else if c == '*' then ".*"
    else [c]
  }

  function Body(p: string): string {
    StarToDotStar(QuestionToDot(EscapeMeta(p)))
  }

  lemma {:induction false} QuestionToDotAppend(a: string, b: string)
    ensures QuestionToDot(a + b) == QuestionToDot(a) + QuestionToDot(b)
  {
    if a != [] {
      assert (a + b)[1..] == a[1..] + b;
      QuestionToDotAppend(a[1..], b);
    } else {
      assert a + b == b;
    }
  }

  lemma {:induction false} StarToDotStarAppend(a: string, b: string)
    ensures StarToDotStar(a + b) == StarToDotStar(a) + StarToDotStar(b)
  {
    if a != [] {
      assert (a + b)[1..] == a[1..] + b;
      StarToDotStarAppend(a[1..], b);
    } else {
      assert a + b == b;
    }
  }

  /** The three global replaces act character by character on the pattern. */
  lemma BodyCons(p: string)
    requires p != []
    ensures Body(p) == CharSource(p[0]) + Body(p[1..])
  {
    var e := if IsEscaped(p[0]) then ['\\', p[0]] else [p[0]];
    assert EscapeMeta(p) == e + EscapeMeta(p[1..]);
    QuestionToDotAppend(e, EscapeMeta(p[1..]));
    StarToDotStarAppend(QuestionToDot(e), QuestionToDot(EscapeMeta(p[1..])));
    if IsEscaped(p[0]) {
      assert QuestionToDot(e) == e;
      assert StarToDotStar(e) == e;
    } else {
      assert QuestionToDot(e) == [if p[0] == '?' then '.' else p[0]];
    }
  }

  lemma {:induction false} BodyShape(p: string)
    ensures Body(p) == [] || Body(p)[0] != '*'
  {
    if p != [] {
      BodyCons(p);
    }
  }

  /** The source of one pattern character, before a body that does not start with a star, parses to its glob piece. */
  lemma ParseCharSource(c: char, rest: string, ps: seq<Piece>)
    requires ParsePieces(rest) == Some(ps)
    requires rest == [] || rest[0] != '*'
    ensures ParsePieces(CharSource(c) + rest) == Some([GlobPiece(c)] + ps)
  {
    var src := CharSource(c) + rest;
    if IsEscaped(c) {
      assert src[0] == '\\' && src[1] == c && IsSyntaxChar(c);
      assert ParseAtom(src) == Some((Literal(c), 2));
      assert src[2..] == rest;
    } else if c == '?' {
      assert ParseAtom(src) == Some((AnyChar, 1));
      assert src[1..] == rest;
    } else if c == '*' {
      assert ParseAtom(src) == Some((AnyChar, 1));
      assert src[1..][0] == '*';
      assert src[1..][1..] == rest;
    } else {
      assert !IsSyntaxChar(c);
      assert ParseAtom(src) == Some((Literal(c), 1));
      assert src[1..] == rest;
    }
  }

  /** Parsing the translated body of `p` yields exactly the glob pieces of `p`. */
  lemma {:induction false} ParseBody(p: string)
    ensures ParsePieces(Body(p)) == Some(GlobPieces(p))
  {
    if p != [] {
      BodyCons(p);
      BodyShape(p[1..]);
      ParseBody(p[1..]);
      ParseCharSource(p[0], Body(p[1..]), GlobPieces(p[1..]));
    }
  }

  /** `new RegExp('^' + escaped + '$')` never throws and denotes the glob reading. */
  lemma WildcardCompiles(p: string)
    ensures Compile(WildcardToRegex(p)) == Some(GlobPieces(p))
  {
    var src := WildcardToRegex(p);
    assert src[1..|src| - 1] == Body(p);
    ParseBody(p);
  }

  /** The regex built by `wildcardToRegex` matches exactly the addresses the glob reading accepts. */
  lemma WildcardTestIsGlob(p: string, url: string)
    ensures WildcardTest(p, url) == GlobMatch(p, url)
  {
    WildcardCompiles(p);
  }

  // ---------------------------------------------------------------------
  // Properties of the glob reading

  lemma {:induction false} GlobPiecesAppend(a: string, b: string)
    ensures GlobPieces(a + b) == GlobPieces(a) + GlobPieces(b)
  {
  }

  /** Without `?` or `*`, a pattern matches an address exactly when the two are equal. */
  lemma {:induction false} LiteralPatternMatchesOnlyItself(p: string, url: string)
    requires !HasWildcard(p)
    ensures GlobMatch(p, url) <==> url == p
  {
    if p != [] {
      assert !HasWildcard(p[1..]) by {
        assert forall c :: c in p[1..] ==> c in p;
      }
      LiteralPatternMatchesOnlyItself(p[1..], if url == [] then url else url[1..]);
      var ps := GlobPieces(p);
      assert ps[1..] == GlobPieces(p[1..]);
      if url == p {
        assert url[1..] == p[1..];
      }
      if GlobMatch(p, url) {
        assert url == [url[0]] + url[1..];
      }
    }
  }

  /** A leading `?` consumes exactly one character, which must not be a line terminator. */
  lemma QuestionConsumesOne(p: string, url: string)
    ensures GlobMatch("?" + p, url)
        <==> url != [] && !IsLineTerminator(url[0]) && GlobMatch(p, url[1..])
  {
    assert GlobPieces("?" + p)[1..] == GlobPieces(p);
  }

  /** A leading `*` consumes any run of characters, the empty run included. */
  lemma StarConsumesAnyRun(p: string, url: string)
    ensures GlobMatch("*" + p, url)
        <==> exists k :: 0 <= k <= |url| && AllAccepted(AnyChar, url[..k]) && GlobMatch(p, url[k..])
  {
    assert GlobPieces("*" + p) == [Repeat(AnyChar)] + GlobPieces(p);
    RepeatSplit(AnyChar, GlobPieces(p), url);
  }

  /** A literal prefix of the pattern is matched against the same prefix of the address. */
  lemma {:induction false} LiteralPrefix(lit: string, p: string, url: string)
    requires !HasWildcard(lit)
    ensures GlobMatch(lit + p, lit + url) <==> GlobMatch(p, url)
  {
    if lit != [] {
      assert !HasWildcard(lit[1..]) by {
        assert forall c :: c in lit[1..] ==> c in lit;
      }
      assert (lit + p)[1..] == lit[1..] + p;
      assert (lit + url)[1..] == lit[1..] + url;
      LiteralPrefix(lit[1..], p, url);
    } else {
      assert lit + p == p && lit + url == url;
    }
  }

  /** A literal followed by a star matches the literal followed by one more character. */
  lemma StarAfterLiteral(lit: string, c: char)
    requires !HasWildcard(lit) && !IsLineTerminator(c)
    ensures GlobMatch(lit + "*", lit + [c])
  {
    LiteralPrefix(lit, "*", [c]);
    StarConsumesAnyRun("", [c]);
    assert "*" + "" == "*";
    assert AllAccepted(AnyChar, [c][..1]) && GlobMatch("", [c][1..]);
  }

  /** A literal followed by `?` matches the literal followed by one character, and not by two. */
  lemma QuestionAfterLiteral(lit: string, c: char, d: char)
    requires !HasWildcard(lit) && !IsLineTerminator(c)
    ensures GlobMatch(lit + "?", lit + [c])
    ensures !GlobMatch(lit + "?", lit + [c, d])
  {
    LiteralPrefix(lit, "?", [c]);
    LiteralPrefix(lit, "?", [c, d]);
    QuestionConsumesOne("", [c]);
    QuestionConsumesOne("", [c, d]);
    assert "?" + "" == "?";
    assert [c][1..] == [];
    assert [c, d][1..] == [d];
  }

  /** The pattern `https://x.com/` followed by a star matches `https://x.com/a`. */
  lemma StarExample()
    ensures GlobMatch("https://x.com/*", "https://x.com/a")
  {
    var lit := "https://x.com/";
    assert !HasWildcard(lit);
    assert "https://x.com/*" == lit + "*";
    assert "https://x.com/a" == lit + ['a'];
    StarAfterLiteral(lit, 'a');
  }

  /** `https://x.com/a?` matches `https://x.com/ab` but not `https://x.com/abc`. */
  lemma QuestionExamples()
    ensures GlobMatch("https://x.com/a?", "https://x.com/ab")
    ensures !GlobMatch("https://x.com/a?", "https://x.com/abc")
  {
    var lit := "https://x.com/a";
    assert !HasWildcard(lit);
    assert "https://x.com/a?" == lit + "?";
    assert "https://x.com/ab" == lit + ['b'];
    assert "https://x.com/abc" == lit + ['b', 'c'];
    QuestionAfterLiteral(lit, 'b', 'c');
  }

  // ---------------------------------------------------------------------
  // urlMatchesRule

  /** The outcome of `new RegExp(pattern).test(url)` in the JavaScript engine. */
  datatype RegexOutcome = Threw | Tested(found: bool)

  /**
   * `urlMatchesRule(url, rule)`. Regex mode is delegated to `engine`, which
   * stands for the JavaScript `RegExp` implementation; an exception it
   * raises is absorbed as `false`.
   */
  predicate UrlMatchesRule(url: string, rule: Rule, engine: (string, string) -> RegexOutcome)
  {
    if rule.matcher == "" then false
    else if rule.matcherMode == Some("regex") then
      match engine(rule.matcher, url)
      case Threw => false
      case Tested(found) => found
    else WildcardTest(rule.matcher, url)
  }

  /**
   * An empty matcher matches nothing; exactly the mode "regex" consults the
   * engine and anything it throws counts as no match; every other mode,
   * a missing one included, is the glob reading of the matcher.
   */
  lemma UrlMatchesRuleCases(url: string, rule: Rule, engine: (string, string) -> RegexOutcome)
    ensures rule.matcher == "" ==> !UrlMatchesRule(url, rule, engine)
    ensures rule.matcher != "" && rule.matcherMode == Some("regex") ==>
      (UrlMatchesRule(url, rule, engine) <==> engine(rule.matcher, url) == Tested(true))
    ensures rule.matcher != "" && rule.matcherMode != Some("regex") ==>
      UrlMatchesRule(url, rule, engine) == GlobMatch(rule.matcher, url)
  {
    WildcardTestIsGlob(rule.matcher, url);
  }
}
