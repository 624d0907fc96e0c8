/**
 * The part of JavaScript regular-expression syntax that the wildcard
 * translation of background.js emits, with its meaning.
 *
 * A source text in this fragment is `^`, a sequence of pieces, then `$`.
 * A piece is an atom, optionally followed by `*`; an atom is `.`, an
 * escaped syntax character `\c`, or any other character standing for
 * itself. Without flags, `.` matches any character except a line
 * terminator, and `^ … $` make `test` succeed only on a whole-string match.
 */
module RegexFragment {
  import opened Wrappers
  import opened Text

  datatype Atom = Literal(c: char) | AnyChar

  datatype Piece = Once(atom: Atom) | Repeat(atom: Atom)

  predicate Accepts(a: Atom, c: char) {
    match a
    case Literal(l) => c == l
    case AnyChar => !IsLineTerminator(c)
  }

  /** Characters with a syntactic role in a pattern; `\c` writes one literally. */
  predicate IsSyntaxChar(c: char) {
    c in "^$\\.*+?()[]{}|"
  }

  /** Reads one atom at the start of `src`, with the number of characters it used. */
  function ParseAtom(src: string): (r: Option<(Atom, nat)>)
    requires src != []
    ensures r.Some? ==> 1 <= r.value.1 <= |src|
  {
    if src[0] == '\\' then
      if |src| >= 2 && IsSyntaxChar(src[1]) then Some((Literal(src[1]), 2)) else None
    else if src[0] == '.' then Some((AnyChar, 1))
    else if IsSyntaxChar(src[0]) then None
    else Some((Literal(src[0]), 1))
  }

  /** The pieces of a pattern body, or None when the body is outside the fragment. */
  function ParsePieces(src: string): Option<seq<Piece>>
    decreases |src|
  {
    if src == [] then Some([])
    else
      match ParseAtom(src)
      case None => None
      case Some((a, k)) =>
        var rest := src[k..];
        if rest != [] && rest[0] == '*' then
          match ParsePieces(rest[1..])
          case None => None
          case Some(ps) => Some([Repeat(a)] + ps)
        else
          match ParsePieces(rest)
          case None => None
          case Some(ps) => Some([Once(a)] + ps)
  }

  /**
   * `new RegExp(src)` for a source of the form `^body$` whose body lies in
   * the fragment. None means only that the source is outside what this
   * model reads; it does not say that JavaScript's `RegExp` would throw.
   */
  function Compile(src: string): Option<seq<Piece>> {
    if |src| >= 2 && src[0] == '^' && src[|src| - 1] == '$' then ParsePieces(src[1..|src| - 1])
    else None
  }

  /** Whether the pieces, in order, consume all of `s`. */
  predicate Matches(ps: seq<Piece>, s: string)
    decreases |s|, |ps|
  {
    if ps == [] then s == []
    else
      match ps[0]
      case Once(a) => s != [] && Accepts(a, s[0]) && Matches(ps[1..], s[1..])
      case Repeat(a) => Matches(ps[1..], s) || (s != [] && Accepts(a, s[0]) && Matches(ps, s[1..]))
  }

  predicate AllAccepted(a: Atom, s: string) {
    forall i :: 0 <= i < |s| ==> Accepts(a, s[i])
  }

  /** `a*` followed by `ps` matches `s` exactly when some prefix of `s` made of characters `a` accepts is followed by a match of `ps`. */
  lemma {:induction false} RepeatSplit(a: Atom, ps: seq<Piece>, s: string)
    ensures Matches([Repeat(a)] + ps, s)
        <==> exists k :: 0 <= k <= |s| && AllAccepted(a, s[..k]) && Matches(ps, s[k..])
  {
    var rp := [Repeat(a)] + ps;
    assert rp[1..] == ps;
    if Matches(rp, s) {
      if Matches(ps, s) {
        assert s[..0] == [] && s[0..] == s;
      } else {
        RepeatSplit(a, ps, s[1..]);
        var k :| 0 <= k <= |s[1..]| && AllAccepted(a, s[1..][..k]) && Matches(ps, s[1..][k..]);
        assert s[1..][k..] == s[k + 1..];
        var pre := s[..k + 1];
        assert AllAccepted(a, pre) by {
          forall i | 0 <= i < |pre| ensures Accepts(a, pre[i]) {
            if i > 0 { assert pre[i] == s[1..][..k][i - 1]; }
          }
        }
      }
    }
    if exists k :: 0 <= k <= |s| && AllAccepted(a, s[..k]) && Matches(ps, s[k..]) {
      var k :| 0 <= k <= |s| && AllAccepted(a, s[..k]) && Matches(ps, s[k..]);
      if k == 0 {
        assert s[0..] == s;
      } else {
        assert Accepts(a, s[..k][0]);
        var pre := s[1..][..k - 1];
        assert AllAccepted(a, pre) by {
          forall i | 0 <= i < |pre| ensures Accepts(a, pre[i]) {
            assert pre[i] == s[..k][i + 1];
          }
        }
        assert s[1..][k - 1..] == s[k..];
        RepeatSplit(a, ps, s[1..]);
      }
    }
  }
}
