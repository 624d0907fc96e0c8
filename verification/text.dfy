/**
 * String helpers the extension relies on from the JavaScript runtime:
 * `String.prototype.trim`, `startsWith`, the decimal form of a
 * non-negative integer (`'' + n`) and `parseInt(digits, 10)`.
 */
module Text {

  /** A JavaScript line terminator: LF, CR, LINE SEPARATOR, PARAGRAPH SEPARATOR. */
  predicate IsLineTerminator(c: char) {
    var k := c as int;
    k == 0x0A || k == 0x0D || k == 0x2028 || k == 0x2029
  }

  /**
   * The characters `String.prototype.trim` strips: the ECMAScript WhiteSpace
   * set (TAB, VT, FF, SPACE, NBSP, ZWNBSP and the Space_Separator category)
   * together with the line terminators.
   */
  predicate IsSpace(c: char) {
    var k := c as int;
    IsLineTerminator(c)
    || k == 0x09 || k == 0x0B || k == 0x0C || k == 0x20 || k == 0xA0 || k == 0xFEFF
    || k == 0x1680 || (0x2000 <= k <= 0x200A) || k == 0x202F || k == 0x205F || k == 0x3000
  }

  /** A string is blank when it is empty or holds only trimmable characters. */
  predicate IsBlank(s: string) {
    forall i :: 0 <= i < |s| ==> IsSpace(s[i])
  }

  /**
   * `s.trim()`: whitespace removed from both ends, one character at a time.
   * The result is empty exactly when `s` is blank, and otherwise neither
   * begins nor ends with whitespace.
   */
  function Trim(s: string): (r: string)
    ensures |r| <= |s|
    ensures r == [] <==> IsBlank(s)
    ensures r != [] ==> !IsSpace(r[0]) && !IsSpace(r[|r| - 1])
    decreases |s|
  {
    if s != [] && IsSpace(s[0]) then
      assert IsBlank(s) <==> IsBlank(s[1..]) by { BlankCons(s); }
      Trim(s[1..])
    else if s != [] && IsSpace(s[|s| - 1]) then
      assert IsBlank(s) <==> IsBlank(s[..|s| - 1]) by { BlankSnoc(s); }
      Trim(s[..|s| - 1])
    else
      s
  }

  /** A string that starts with whitespace is blank exactly when the rest is. */
  lemma BlankCons(s: string)
    requires s != [] && IsSpace(s[0])
    ensures IsBlank(s) <==> IsBlank(s[1..])
  {
    if IsBlank(s[1..]) {
      forall i | 0 <= i < |s|
        ensures IsSpace(s[i])
      {
        if i > 0 {
          assert s[i] == s[1..][i - 1];
        }
      }
    }
  }

  /** A string that ends with whitespace is blank exactly when the rest is. */
  lemma BlankSnoc(s: string)
    requires s != [] && IsSpace(s[|s| - 1])
    ensures IsBlank(s) <==> IsBlank(s[..|s| - 1])
  {
    if IsBlank(s[..|s| - 1]) {
      forall i | 0 <= i < |s|
        ensures IsSpace(s[i])
      {
        if i < |s| - 1 {
          assert s[i] == s[..|s| - 1][i];
        }
      }
    }
  }

  /** `Trim` cuts `s` at `i` and `j`, with only whitespace outside the cut. */
  ghost predicate TrimsAt(s: string, i: int, j: int) {
    0 <= i <= j <= |s| && Trim(s) == s[i..j] && IsBlank(s[..i]) && IsBlank(s[j..])
  }

  /** A leading blank moves the cut one place right. */
  lemma TrimsAtCons(s: string, i: int, j: int)
    requires s != [] && IsSpace(s[0]) && TrimsAt(s[1..], i, j)
    ensures TrimsAt(s, i + 1, j + 1)
  {
    var t := s[1..];
    assert t[i..j] == s[i + 1..j + 1] && t[j..] == s[j + 1..];
    BlankCons(s[..i + 1]);
    assert s[..i + 1][1..] == t[..i];
  }

  /** A trailing blank leaves the cut where it is. */
  lemma TrimsAtSnoc(s: string, i: int, j: int)
    requires s != [] && !IsSpace(s[0]) && IsSpace(s[|s| - 1]) && TrimsAt(s[..|s| - 1], i, j)
    ensures TrimsAt(s, i, j)
  {
    var t := s[..|s| - 1];
    assert t[i..j] == s[i..j] && t[..i] == s[..i];
    BlankSnoc(s[j..]);
    assert s[j..][..|s[j..]| - 1] == t[j..];
  }

  /** What `Trim` removes is whitespace only: the result is a slice of `s` with blanks on either side. */
  lemma {:induction false} TrimIsInterior(s: string)
    ensures exists i, j :: TrimsAt(s, i, j)
    decreases |s|
  {
    if s != [] && IsSpace(s[0]) {
      TrimIsInterior(s[1..]);
      var i, j :| TrimsAt(s[1..], i, j);
      TrimsAtCons(s, i, j);
    } else if s != [] && IsSpace(s[|s| - 1]) {
      TrimIsInterior(s[..|s| - 1]);
      var i, j :| TrimsAt(s[..|s| - 1], i, j);
      TrimsAtSnoc(s, i, j);
    } else {
      assert s[0..|s|] == s;
      assert TrimsAt(s, 0, |s|);
    }
  }

  /** A string that neither begins nor ends with whitespace is its own trim. */
  lemma TrimOfTrimmed(s: string)
    requires s == [] || (!IsSpace(s[0]) && !IsSpace(s[|s| - 1]))
    ensures Trim(s) == s
  {
  }

  /** Trimming is idempotent. */
  lemma TrimIdempotent(s: string)
    ensures Trim(Trim(s)) == Trim(s)
  {
    TrimOfTrimmed(Trim(s));
  }

  predicate StartsWith(s: string, prefix: string) {
    |prefix| <= |s| && s[..|prefix|] == prefix
  }

  predicate IsDigit(c: char) {
    '0' <= c <= '9'
  }

  predicate AllDigits(s: string) {
    forall i :: 0 <= i < |s| ==> IsDigit(s[i])
  }

  function DigitChar(d: nat): (c: char)
    requires d < 10
    ensures IsDigit(c) && (c as int) - ('0' as int) == d
  {
    (('0' as int) + d) as char
  }

  /** The decimal spelling of `n`, as JavaScript writes a safe integer. */
  function NatToDecimal(n: nat): (s: string)
    ensures s != [] && AllDigits(s)
    ensures n > 0 ==> s[0] != '0'
  {
    if n < 10 then [DigitChar(n)] else NatToDecimal(n / 10) + [DigitChar(n % 10)]
  }

  /** `parseInt(s, 10)` for a string made only of decimal digits. */
  function DecimalValue(s: string): nat
    requires AllDigits(s)
  {
    if s == [] then 0
    else 10 * DecimalValue(s[..|s| - 1]) + ((s[|s| - 1] as int) - ('0' as int))
  }

  /** Reading back the decimal spelling of `n` gives `n`. */
  lemma {:induction false} DecimalRoundTrip(n: nat)
    ensures DecimalValue(NatToDecimal(n)) == n
  {
    if n >= 10 {
      var s := NatToDecimal(n);
      assert s[..|s| - 1] == NatToDecimal(n / 10);
      DecimalRoundTrip(n / 10);
    }
  }
}
