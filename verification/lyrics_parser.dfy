/**
 * The LRC lyric parser: a text of `[mm:ss.xx]words` lines becomes a list of
 * timed lines. A line is accepted when it matches the regular expression
 * `^\[(\d{2}):(\d{2})\.(\d{2,3})\](.*)$` (no flags), which this module states
 * both as a recognizer (`Match`) and declaratively (`Matches`).
 */
module LyricsParser {
  import opened Options
  import opened Strings
  import opened Decimal

  /** A timed lyric line: its start in milliseconds and its text. */
  datatype LyricLine = LyricLine(time: nat, text: string)

  /** The four capture groups of a match. */
  datatype Groups = Groups(minutes: string, seconds: string, fraction: string, rest: string)

  /** The latest time a line can carry: 99 minutes, 99 seconds and 999 milliseconds. */
  const MaxTime: nat := 99 * 60000 + 99 * 1000 + 999

  /** `.*` followed by `$`: the remainder runs to the end of the line without a line terminator. */
  predicate NoLineTerminator(s: string) {
    forall i :: 0 <= i < |s| ==> !IsLineTerminator(s[i])
  }

  /** The digit groups have the lengths the pattern demands. */
  predicate WellFormed(g: Groups) {
    && |g.minutes| == 2 && AllDigits(g.minutes)
    && |g.seconds| == 2 && AllDigits(g.seconds)
    && 2 <= |g.fraction| <= 3 && AllDigits(g.fraction)
  }

  /** `line` matches the pattern with the groups `g`: the declarative reading of the regular expression. */
  predicate Matches(line: string, g: Groups) {
    && WellFormed(g)
    && NoLineTerminator(g.rest)
    && line == "[" + g.minutes + ":" + g.seconds + "." + g.fraction + "]" + g.rest
  }

  /**
   * `line.match(regex)`: the fixed prefix is checked position by position; the
   * fraction takes three digits when a third digit is followed by `]`, and two
   * when `]` follows the second.
   */
  function Match(line: string): (m: Option<Groups>)
    ensures m.Some? ==> Matches(line, m.value)
  {
    if || |line| < 10 || line[0] != '[' || !IsDigit(line[1]) || !IsDigit(line[2]) || line[3] != ':'
       || !IsDigit(line[4]) || !IsDigit(line[5]) || line[6] != '.' || !IsDigit(line[7]) || !IsDigit(line[8])
    then None
    else if line[9] != ']' && (|line| < 11 || !IsDigit(line[9]) || line[10] != ']') then None
    else
      var n := if line[9] == ']' then 2 else 3;
      var g := Groups(line[1..3], line[4..6], line[7..7 + n], line[8 + n..]);
      if !NoLineTerminator(g.rest) then None
      else
        Rebuild(line, n);
        Some(g)
  }

  /** A line with the fixed characters in place is the concatenation of its pieces. */
  lemma Rebuild(line: string, n: nat)
    requires 8 + n <= |line| && line[0] == '[' && line[3] == ':' && line[6] == '.' && line[7 + n] == ']'
    ensures line == "[" + line[1..3] + ":" + line[4..6] + "." + line[7..7 + n] + "]" + line[8 + n..]
  {
    var p := "[" + line[1..3] + ":" + line[4..6] + "." + line[7..7 + n] + "]";
    assert |p| == 8 + n;
    forall i | 0 <= i < 8 + n
      ensures p[i] == line[i]
    {
      if i == 0 || i == 3 || i == 6 || i == 7 + n {
      } else if i < 3 {
        assert p[i] == line[1..3][i - 1];
      } else if i < 6 {
        assert p[i] == line[4..6][i - 4];
      } else {
        assert p[i] == line[7..7 + n][i - 7];
      }
    }
    assert p == line[..8 + n];
    assert line == line[..8 + n] + line[8 + n..];
  }

  /** Where each group of a match sits in the line. */
  lemma MatchesAt(line: string, g: Groups)
    requires Matches(line, g)
    ensures var n := |g.fraction|;
      && |line| == 8 + n + |g.rest|
      && line[0] == '[' && line[1..3] == g.minutes && line[3] == ':'
      && line[4..6] == g.seconds && line[6] == '.'
      && line[7..7 + n] == g.fraction && line[7 + n] == ']' && line[8 + n..] == g.rest
  {
    var n := |g.fraction|;
    var p := "[" + g.minutes + ":" + g.seconds + "." + g.fraction + "]";
    assert line == p + g.rest;
    assert line[..8 + n] == p;
    assert p[1..3] == g.minutes && p[4..6] == g.seconds && p[7..7 + n] == g.fraction;
  }

  /** The recognizer finds every match there is, and a match is unique: `Match` accepts exactly the lines of the pattern. */
  lemma MatchComplete(line: string, g: Groups)
    requires Matches(line, g)
    ensures Match(line) == Some(g)
  {
    MatchesAt(line, g);
    var n := |g.fraction|;
    assert IsDigit(g.minutes[0]) && IsDigit(g.minutes[1]) && IsDigit(g.seconds[0]) && IsDigit(g.seconds[1]);
    assert line[1] == g.minutes[0] && line[2] == g.minutes[1];
    assert line[4] == g.seconds[0] && line[5] == g.seconds[1];
    assert line[7] == g.fraction[0] && line[8] == g.fraction[1];
    assert IsDigit(line[7]) && IsDigit(line[8]);
    if n == 3 {
      assert line[9] == g.fraction[2];
      assert IsDigit(line[9]);
    }
  }

  /** `s.padEnd(n, c)`: `s` followed by enough copies of `c` to reach length `n`. */
  function PadEnd(s: string, n: nat, c: char): (r: string)
    ensures |r| == if |s| >= n then |s| else n
    ensures r[..|s|] == s
    ensures forall i :: |s| <= i < |r| ==> r[i] == c
    decreases n - |s|
  {
    if |s| >= n then s else PadEnd(s + [c], n, c)
  }

  /** The milliseconds of the fraction group, read after padding it to three digits. */
  function FractionMillis(f: string): nat
    requires 2 <= |f| <= 3 && AllDigits(f)
  {
    var p := PadEnd(f, 3, '0');
    assert AllDigits(p) by {
      assert forall i :: 0 <= i < |p| ==> (i < |f| ==> p[i] == f[i]);
    }
    DecimalValue(p)
  }

  /** A two-digit fraction counts hundredths (`.45` is 450 ms), a three-digit one milliseconds; both stay below a second. */
  lemma FractionMillisValue(f: string)
    requires 2 <= |f| <= 3 && AllDigits(f)
    ensures |f| == 2 ==> FractionMillis(f) == 10 * DecimalValue(f)
    ensures |f| == 3 ==> FractionMillis(f) == DecimalValue(f)
    ensures FractionMillis(f) < 1000
  {
    var p := PadEnd(f, 3, '0');
    assert |p| == 3;
    if |f| == 2 {
      assert p == f + ['0'];
      assert p[..2] == f;
      assert f == [f[0], f[1]];
      TwoDigitValue(f[0], f[1]);
    } else {
      assert p == f;
      assert f == [f[0], f[1], f[2]];
      ThreeDigitValue(f[0], f[1], f[2]);
    }
  }

  /** The value of a two-digit group is at most 99. */
  lemma TwoDigitsBound(s: string)
    requires |s| == 2 && AllDigits(s)
    ensures DecimalValue(s) <= 99
  {
    assert s == [s[0], s[1]];
    TwoDigitValue(s[0], s[1]);
  }

  /** `minutes * 60 * 1000 + seconds * 1000 + milliseconds`. */
  function GroupsTime(g: Groups): (t: nat)
    requires WellFormed(g)
    ensures t <= MaxTime
  {
    TwoDigitsBound(g.minutes);
    TwoDigitsBound(g.seconds);
    FractionMillisValue(g.fraction);
    DecimalValue(g.minutes) * 60 * 1000 + DecimalValue(g.seconds) * 1000 + FractionMillis(g.fraction)
  }

  /** The `map` step of `parseLRC`: a matching line becomes its time and its trimmed remainder. */
  function ParseLine(line: string): (r: Option<LyricLine>)
    ensures r.Some? ==> r.value.time <= MaxTime
    ensures r.Some? ==> r.value.text == [] || (!IsJsSpace(r.value.text[0]) && !IsJsSpace(r.value.text[|r.value.text| - 1]))
  {
    match Match(line)
    case None => None
    case Some(g) => Some(LyricLine(GroupsTime(g), Trim(g.rest)))
  }

  /**
   * What a line parses to, in terms of its match: the time counts minutes,
   * seconds (not range-checked) and the padded fraction; the text is the
   * trimmed remainder. A line parses exactly when it matches.
   */
  lemma ParseLineMatches(line: string, g: Groups, time: nat, text: string)
    requires Matches(line, g)
    requires time == 60000 * DecimalValue(g.minutes) + 1000 * DecimalValue(g.seconds)
      + (if |g.fraction| == 2 then 10 * DecimalValue(g.fraction) else DecimalValue(g.fraction))
    requires text == Trim(g.rest)
    ensures ParseLine(line) == Some(LyricLine(time, text))
  {
    MatchComplete(line, g);
    assert ParseLine(line) == Some(LyricLine(GroupsTime(g), Trim(g.rest)));
    FractionMillisValue(g.fraction);
    assert GroupsTime(g) == time;
  }

  /** A line that matches no way parses to nothing. */
  lemma ParseLineRejects(line: string)
    requires forall g :: !Matches(line, g)
    ensures ParseLine(line) == None
  {
  }

  /** A line still carrying the `'\r'` of a CRLF file is dropped: `.` refuses it and `$` needs the end. */
  lemma CarriageReturnDropped(line: string)
    requires |line| > 0 && line[|line| - 1] == '\r'
    ensures ParseLine(line) == None
  {
    if Match(line).Some? {
      MatchesAt(line, Match(line).value);
    }
  }

  /** The `filter` step: a parsed line with non-empty text, or nothing. */
  function Kept(line: string): (r: seq<LyricLine>)
    ensures |r| <= 1
    ensures forall i :: 0 <= i < |r| ==> r[i].text != "" && r[i].time <= MaxTime
  {
    match ParseLine(line)
    case Some(l) => if l.text != "" then [l] else []
    case None => []
  }

  /** `lines.map(...).filter(...)`: the kept lines, in input order. */
  function KeepAll(lines: seq<string>): (r: seq<LyricLine>)
    ensures |r| <= |lines|
    ensures forall i :: 0 <= i < |r| ==> r[i].text != "" && r[i].time <= MaxTime
  {
    if lines == [] then [] else Kept(lines[0]) + KeepAll(lines[1..])
  }

  /** `parseLRC`: split on `'\n'`, parse each piece, drop the failures and the empty texts. */
  function ParseLrc(s: string): (r: seq<LyricLine>)
    ensures |r| <= |Split(s, '\n')|
    ensures forall i :: 0 <= i < |r| ==> r[i].text != "" && r[i].time <= MaxTime
  {
    KeepAll(Split(s, '\n'))
  }

  lemma {:induction false} KeepAllAppend(a: seq<string>, b: seq<string>)
    ensures KeepAll(a + b) == KeepAll(a) + KeepAll(b)
    decreases |a|
  {
    if a != [] {
      assert (a + b)[1..] == a[1..] + b;
      KeepAllAppend(a[1..], b);
    } else {
      assert a + b == b;
    }
  }

  /** Parsing is line by line and keeps input order: the lyrics of two texts joined by a newline are the two lyrics in turn. */
  lemma ParseLrcAppend(a: string, b: string)
    ensures ParseLrc(a + "\n" + b) == ParseLrc(a) + ParseLrc(b)
  {
    SplitAppend(a, '\n', b);
    KeepAllAppend(Split(a, '\n'), Split(b, '\n'));
  }

  /** A text of one line yields that line's parse when its text is non-empty, and nothing otherwise. */
  lemma ParseLrcSingleLine(line: string)
    requires '\n' !in line
    ensures ParseLrc(line) == if ParseLine(line).Some? && ParseLine(line).value.text != "" then [ParseLine(line).value] else []
  {
    SplitNoSeparator(line, '\n');
    assert KeepAll([line]) == Kept(line) + KeepAll([]);
  }

  /** `[01:02.45]Hi`, the line with these groups, starts at 62450 ms: the two-digit fraction is hundredths. */
  lemma ExampleHundredths(line: string)
    requires Matches(line, Groups("01", "02", "45", "Hi"))
    ensures ParseLine(line) == Some(LyricLine(62450, "Hi"))
  {
    TwoDigitValue('0', '1');
    TwoDigitValue('0', '2');
    TwoDigitValue('4', '5');
    TrimUnspaced("Hi");
    ParseLineMatches(line, Groups("01", "02", "45", "Hi"), 62450, "Hi");
  }

  /** Seconds are not range-checked: `[00:75.000]x` starts at 75000 ms. */
  lemma ExampleSecondsUnchecked(line: string)
    requires Matches(line, Groups("00", "75", "000", "x"))
    ensures ParseLine(line) == Some(LyricLine(75000, "x"))
  {
    TwoDigitValue('0', '0');
    TwoDigitValue('7', '5');
    ThreeDigitValue('0', '0', '0');
    TrimUnspaced("x");
    ParseLineMatches(line, Groups("00", "75", "000", "x"), 75000, "x");
  }

  /** `[00:01.00]` followed by blanks parses, but the filter of `parseLRC` drops it for its empty text. */
  lemma ExampleBlankDropped(line: string)
    requires Matches(line, Groups("00", "01", "00", "  "))
    ensures ParseLine(line) == Some(LyricLine(1000, "")) && Kept(line) == []
  {
    TwoDigitValue('0', '0');
    TwoDigitValue('0', '1');
    assert TrimStart("  ") == [];
    ParseLineMatches(line, Groups("00", "01", "00", "  "), 1000, []);
  }
}
