/**
 * Text helpers with the semantics of the JavaScript string methods the
 * application relies on: `trim`, `toLowerCase`, `includes`, and `split`
 * with a one-character separator.
 */
module Strings {

  /** JavaScript WhiteSpace and LineTerminator code points: what `String.prototype.trim` removes. */
  predicate IsJsSpace(c: char) {
    || c == '\t' || c == '\n' || c == '\U{000B}' || c == '\U{000C}' || c == '\r'
    || c == ' ' || c == '\U{00A0}' || c == '\U{1680}'
    || ('\U{2000}' <= c <= '\U{200A}')
    || c == '\U{2028}' || c == '\U{2029}' || c == '\U{202F}' || c == '\U{205F}'
    || c == '\U{3000}' || c == '\U{FEFF}'
  }

  /** The characters a `.` in a JavaScript regular expression refuses to match. */
  predicate IsLineTerminator(c: char) {
    c == '\n' || c == '\r' || c == '\U{2028}' || c == '\U{2029}'
  }

  /** Drops leading white space: the result is a suffix of `s` and the dropped part is all space. */
  function TrimStart(s: string): (r: string)
    ensures |r| <= |s| && r == s[|s| - |r|..]
    ensures forall k :: 0 <= k < |s| - |r| ==> IsJsSpace(s[k])
    ensures r == [] || !IsJsSpace(r[0])
  {
    if s != [] && IsJsSpace(s[0]) then TrimStart(s[1..]) else s
  }

  /** Drops trailing white space: the result is a prefix of `s` and the dropped part is all space. */
  function TrimEnd(s: string): (r: string)
    ensures |r| <= |s| && r == s[..|r|]
    ensures forall k :: |r| <= k < |s| ==> IsJsSpace(s[k])
    ensures r == [] || !IsJsSpace(r[|r| - 1])
  {
    if s != [] && IsJsSpace(s[|s| - 1]) then TrimEnd(s[..|s| - 1]) else s
  }

  /**
   * `String.prototype.trim`: white space removed from both ends; what remains
   * neither starts nor ends with white space.
   */
  function Trim(s: string): (r: string)
    ensures |r| <= |s|
    ensures r == [] || (!IsJsSpace(r[0]) && !IsJsSpace(r[|r| - 1]))
  {
    TrimEnd(TrimStart(s))
  }

  /**
   * Trimming removes only white space, and only at the two ends: the result is
   * the slice of `s` that starts where `TrimStart` stops.
   */
  lemma TrimSlice(s: string)
    ensures var i, r := |s| - |TrimStart(s)|, Trim(s);
      && 0 <= i <= |s| - |r| && r == s[i..][..|r|]
      && (forall k :: 0 <= k < i ==> IsJsSpace(s[k]))
      && (forall k :: i + |r| <= k < |s| ==> IsJsSpace(s[k]))
  {
    var u := TrimStart(s);
    var r := TrimEnd(u);
    assert r == Trim(s);
    var i := |s| - |u|;
    assert u == s[i..];
    assert r == s[i..][..|r|];
    assert forall k :: i + |r| <= k < |s| ==> IsJsSpace(s[k]) by {
      forall k | i + |r| <= k < |s|
        ensures IsJsSpace(s[k])
      {
        assert s[k] == u[k - i];
      }
    }
  }

  /** The capitals the model lower-cases: ASCII `A`-`Z` and the Latin-1 capitals except the multiplication sign. */
  predicate IsUpper(c: char) {
    'A' <= c <= 'Z' || ('\U{00C0}' <= c <= '\U{00DE}' && c != '\U{00D7}')
  }

  /** Lower-case mapping of one character (ASCII and Latin-1 capitals; every other character is kept). */
  function LowerChar(c: char): (r: char)
    ensures !IsUpper(r)
    ensures !IsUpper(c) ==> r == c
    ensures IsJsSpace(r) <==> IsJsSpace(c)
    ensures 'A' <= c <= 'Z' ==> r == (c as int - 'A' as int + 'a' as int) as char
    ensures '\U{00C0}' <= c <= '\U{00DE}' && c != '\U{00D7}' ==> r == (c as int - 0xC0 + 0xE0) as char
  {
    if IsUpper(c) then
      (c as int + 32) as char
    else
      c
  }

  /**
   * Two characters lower-case alike exactly when they are equal or one of them
   * is the capital of the other.
   */
  lemma LowerCharEqual(c: char, d: char)
    ensures LowerChar(c) == LowerChar(d) <==>
      || c == d
      || (IsUpper(c) && d == (c as int + 32) as char)
      || (IsUpper(d) && c == (d as int + 32) as char)
  {
  }

  /** `String.prototype.toLowerCase`, character by character. */
  function Lower(s: string): (r: string)
    ensures |r| == |s|
    ensures forall i :: 0 <= i < |s| ==> r[i] == LowerChar(s[i])
    ensures forall i :: 0 <= i < |r| ==> !IsUpper(r[i])
  {
    seq(|s|, i requires 0 <= i < |s| => LowerChar(s[i]))
  }

  /** The key normalization of the search tree: trim, then lower-case. */
  function Normalize(s: string): (r: string)
    ensures |r| <= |s|
    ensures r == [] || (!IsJsSpace(r[0]) && !IsJsSpace(r[|r| - 1]))
    ensures Lower(r) == r
    ensures exists i :: 0 <= i <= |s| - |r| && r == Lower(s[i..][..|r|])
                        && (forall k :: 0 <= k < i ==> IsJsSpace(s[k]))
                        && (forall k :: i + |r| <= k < |s| ==> IsJsSpace(s[k]))
  {
    var t := Trim(s);
    TrimSlice(s);
    LowerUnspaced(t);
    LowerIdempotent(t);
    ghost var i := |s| - |TrimStart(s)|;
    assert Lower(t) == Lower(s[i..][..|t|]);
    Lower(t)
  }

  /** Trimming a string that neither starts nor ends with white space changes nothing. */
  lemma TrimUnspaced(s: string)
    requires s == [] || (!IsJsSpace(s[0]) && !IsJsSpace(s[|s| - 1]))
    ensures Trim(s) == s
  {
    assert TrimStart(s) == s;
  }

  /** Lower-casing keeps the first and last characters non-space when they were. */
  lemma LowerUnspaced(s: string)
    requires s == [] || (!IsJsSpace(s[0]) && !IsJsSpace(s[|s| - 1]))
    ensures var l := Lower(s); l == [] || (!IsJsSpace(l[0]) && !IsJsSpace(l[|l| - 1]))
  {
  }

  /** Lower-casing twice is lower-casing once. */
  lemma LowerIdempotent(s: string)
    ensures Lower(Lower(s)) == Lower(s)
  {
    var l := Lower(s);
    forall i | 0 <= i < |l|
      ensures LowerChar(l[i]) == l[i]
    {
    }
  }

  /** Normalizing twice is normalizing once. */
  lemma NormalizeIdempotent(s: string)
    ensures Normalize(Normalize(s)) == Normalize(s)
  {
    var t := Trim(s);
    LowerUnspaced(t);
    TrimUnspaced(Lower(t));
    LowerIdempotent(t);
  }

  /** `haystack.includes(needle)`: `needle` occurs at some position of `haystack`. */
  predicate Includes(haystack: string, needle: string): (r: bool)
    ensures needle == [] ==> r
    ensures needle <= haystack ==> r
    ensures r ==> |needle| <= |haystack|
  {
    assert haystack[0..] == haystack;
    exists i | 0 <= i <= |haystack| :: needle <= haystack[i..]
  }

  /**
   * The pieces of `[c] + s` from the pieces `r` of `s`: a separator opens a
   * new, empty first piece; any other character joins the first piece.
   */
  function Push(c: char, sep: char, r: seq<string>): (t: seq<string>)
    requires |r| >= 1
    ensures |t| >= 1
  {
    if c == sep then [[]] + r else [[c] + r[0]] + r[1..]
  }

  /** `s.split(sep)` with a one-character separator, read from the back. */
  function Split(s: string, sep: char): (r: seq<string>)
    ensures |r| >= 1
  {
    if s == [] then [[]] else Push(s[0], sep, Split(s[1..], sep))
  }

  /** Pushing a character onto a piece list touches only its first piece. */
  lemma PushAppend(c: char, sep: char, p: seq<string>, q: seq<string>)
    requires |p| >= 1
    ensures Push(c, sep, p + q) == Push(c, sep, p) + q
  {
    if c != sep {
      assert (p + q)[0] == p[0];
      assert (p + q)[1..] == p[1..] + q;
    }
  }

  /** No piece of a split contains the separator. */
  lemma {:induction false} SplitPieces(s: string, sep: char)
    ensures forall i :: 0 <= i < |Split(s, sep)| ==> sep !in Split(s, sep)[i]
  {
    if s != [] {
      SplitPieces(s[1..], sep);
    }
  }

  /** Joins pieces with the separator between consecutive pieces; `Split` undoes it. */
  function Join(pieces: seq<string>, sep: char): string
    requires |pieces| >= 1
  {
    if |pieces| == 1 then pieces[0] else pieces[0] + [sep] + Join(pieces[1..], sep)
  }

  /** Splitting a text with one more character in front pushes that character onto its pieces. */
  lemma SplitCons(c: char, sep: char, t: string)
    ensures Split([c] + t, sep) == Push(c, sep, Split(t, sep))
  {
    assert ([c] + t)[1..] == t;
  }

  /** `SplitAppend` for a left text one character longer, given it for the shorter one. */
  lemma SplitAppendCons(c: char, a: string, sep: char, b: string)
    requires Split(a + [sep] + b, sep) == Split(a, sep) + Split(b, sep)
    ensures Split([c] + a + [sep] + b, sep) == Split([c] + a, sep) + Split(b, sep)
  {
    assert [c] + a + [sep] + b == [c] + (a + [sep] + b);
    SplitCons(c, sep, a + [sep] + b);
    SplitCons(c, sep, a);
    PushAppend(c, sep, Split(a, sep), Split(b, sep));
  }

  /** Splitting at a separator splits the piece list there too. */
  lemma {:induction false} SplitAppend(a: string, sep: char, b: string)
    ensures Split(a + [sep] + b, sep) == Split(a, sep) + Split(b, sep)
  {
    if a == [] {
      assert a + [sep] + b == [sep] + b;
      SplitCons(sep, sep, b);
    } else {
      SplitAppend(a[1..], sep, b);
      SplitAppendCons(a[0], a[1..], sep, b);
      assert [a[0]] + a[1..] == a;
    }
  }

  /** A string without the separator splits into itself. */
  lemma {:induction false} SplitNoSeparator(s: string, sep: char)
    requires sep !in s
    ensures Split(s, sep) == [s]
  {
    if s != [] {
      assert sep !in s[1..] by {
        assert forall k :: 0 <= k < |s| - 1 ==> s[1..][k] == s[k + 1];
      }
      SplitNoSeparator(s[1..], sep);
      assert [s[0]] + s[1..] == s;
    }
  }

  /** Round trip: splitting a join of separator-free pieces gives the pieces back. */
  lemma {:induction false} SplitJoin(pieces: seq<string>, sep: char)
    requires |pieces| >= 1
    requires forall i :: 0 <= i < |pieces| ==> sep !in pieces[i]
    ensures Split(Join(pieces, sep), sep) == pieces
    decreases |pieces|
  {
    SplitNoSeparator(pieces[0], sep);
    if |pieces| > 1 {
      SplitJoin(pieces[1..], sep);
      SplitAppend(pieces[0], sep, Join(pieces[1..], sep));
      assert [pieces[0]] + pieces[1..] == pieces;
    }
  }
}
