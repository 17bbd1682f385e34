/**
 * The board text parser, `SudokuBoard.__create_board`: nine lines of nine
 * digit characters become a 9x9 grid of numbers 0..9, 0 meaning an empty
 * cell. Lines are checked one by one as they are read; the line count is
 * checked only after the last line.
 */
module Board {
  import opened Wrappers
  import opened Grid

  /** The three ways `__create_board` raises `SudokuError`. */
  datatype FormatError =
    | BadLineLength   // a stripped line is not 9 characters long
    | BadCharacter    // a character of a line is not a digit
    | BadLineCount    // the text does not hold exactly 9 lines

  /** ASCII whitespace, the characters `str.strip()` removes: space and tab .. carriage return. */
  predicate IsSpace(ch: char) {
    ch == ' ' || '\t' <= ch <= '\r'
  }

  /** ASCII `str.isdigit()`. */
  predicate IsDigit(ch: char) {
    '0' <= ch <= '9'
  }

  /** `int(c)` for a digit character. */
  function DigitValue(ch: char): (v: int)
    requires IsDigit(ch)
    ensures 0 <= v <= 9
  {
    ch as int - '0' as int
  }

  /** The character `int` reads back as `v`. */
  function DigitChar(v: int): (ch: char)
    requires 0 <= v <= 9
    ensures IsDigit(ch) && DigitValue(ch) == v
  {
    ('0' as int + v) as char
  }

  /** Drops the leading whitespace: what remains is a suffix of `s` that does not start with whitespace. */
  function TrimLeft(s: string): (t: string)
    ensures |t| <= |s| && t == s[|s| - |t|..]
    ensures forall k :: 0 <= k < |s| - |t| ==> IsSpace(s[k])
    ensures t == [] || !IsSpace(t[0])
  {
    if s != [] && IsSpace(s[0]) then
      var t := TrimLeft(s[1..]);
      assert s[1..][|s| - 1 - |t|..] == s[|s| - |t|..];
      assert forall k :: 1 <= k < |s| - |t| ==> s[k] == s[1..][k - 1];
      t
    else
      s
  }

  /** Drops the trailing whitespace: what remains is a prefix of `s` that does not end with whitespace. */
  function TrimRight(s: string): (t: string)
    ensures |t| <= |s| && t == s[..|t|]
    ensures forall k :: |t| <= k < |s| ==> IsSpace(s[k])
    ensures t == [] || !IsSpace(t[|t| - 1])
  {
    if s != [] && IsSpace(s[|s| - 1]) then
      var t := TrimRight(s[..|s| - 1]);
      assert s[..|s| - 1][..|t|] == s[..|t|];
      assert forall k :: |t| <= k < |s| - 1 ==> s[k] == s[..|s| - 1][k];
      t
    else
      s
  }

  /** `t` is `s[i..j]` and everything of `s` outside that slice is whitespace. */
  predicate SliceInSpace(s: string, t: string, i: int, j: int) {
    && 0 <= i <= j <= |s| && t == s[i..j]
    && (forall k :: 0 <= k < i ==> IsSpace(s[k]))
    && (forall k :: j <= k < |s| ==> IsSpace(s[k]))
  }

  /** Cutting whitespace off the front of `s`, giving `l`, then off the back of `l`, giving `t`, leaves a slice of `s` in whitespace. */
  lemma TrimmedSlice(s: string, l: string, t: string)
    requires |l| <= |s| && l == s[|s| - |l|..] && forall k :: 0 <= k < |s| - |l| ==> IsSpace(s[k])
    requires |t| <= |l| && t == l[..|t|] && forall k :: |t| <= k < |l| ==> IsSpace(l[k])
    ensures SliceInSpace(s, t, |s| - |l|, |s| - |l| + |t|)
  {
    var i := |s| - |l|;
    forall k | i + |t| <= k < |s|
      ensures IsSpace(s[k])
    {
      assert s[k] == l[k - i];
    }
  }

  /** `line.strip()`: the slice of `s` left after removing whitespace at both ends, which neither starts nor ends with whitespace. */
  function Strip(s: string): (t: string)
    ensures exists i, j :: SliceInSpace(s, t, i, j)
    ensures t == [] || (!IsSpace(t[0]) && !IsSpace(t[|t| - 1]))
  {
    var l := TrimLeft(s);
    var t := TrimRight(l);
    TrimmedSlice(s, l, t);
    t
  }

  /** A line the parser accepts: nine digit characters once stripped. */
  predicate WellFormedLine(line: string) {
    var s := Strip(line);
    |s| == N && forall k :: 0 <= k < N ==> IsDigit(s[k])
  }

  /** The error a malformed line raises: the length is checked before the characters. */
  function LineError(line: string): FormatError {
    if |Strip(line)| != N then BadLineLength else BadCharacter
  }

  /** The inner loop over the characters of a stripped line, stopping at the first non-digit. */
  function ReadDigits(s: string): (r: Result<seq<int>, FormatError>)
    ensures r.Ok? <==> forall k :: 0 <= k < |s| ==> IsDigit(s[k])
    ensures r.Ok? ==> |r.value| == |s| && forall k :: 0 <= k < |s| ==> r.value[k] == DigitValue(s[k])
    ensures r.Err? ==> r.error == BadCharacter
  {
    if s == [] then Ok([])
    else if !IsDigit(s[0]) then Err(BadCharacter)
    else
      match ReadDigits(s[1..])
      case Err(e) => Err(e)
      case Ok(rest) => Ok([DigitValue(s[0])] + rest)
  }

  /** One iteration of the outer loop: strip the line, check its length, then read its digits. */
  function ParseLine(line: string): (r: Result<seq<int>, FormatError>)
    ensures r.Ok? <==> WellFormedLine(line)
    ensures r.Err? ==> r.error == LineError(line)
    ensures r.Ok? ==> (|r.value| == N &&
      forall k :: 0 <= k < N ==> 0 <= r.value[k] <= 9 && r.value[k] == DigitValue(Strip(line)[k]))
  {
    var s := Strip(line);
    if |s| != N then Err(BadLineLength) else ReadDigits(s)
  }

  /** Reading stops at line `i`, the first that `read` rejects, with error `e`. */
  ghost predicate StopsAt<T, E>(read: string -> Result<T, E>, lines: seq<string>, i: int, e: E) {
    && 0 <= i < |lines|
    && (forall k :: 0 <= k < i ==> read(lines[k]).Ok?)
    && read(lines[i]).Err? && read(lines[i]).error == e
  }

  /**
   * The outer loop over the lines: reads them in order with `read` and
   * stops at the first line `read` rejects, with that line's error.
   */
  function ReadLines<T, E>(read: string -> Result<T, E>, lines: seq<string>): (r: Result<seq<T>, E>)
    ensures r.Ok? <==> forall i :: 0 <= i < |lines| ==> read(lines[i]).Ok?
    ensures r.Ok? ==> (|r.value| == |lines| &&
      forall i :: 0 <= i < |lines| ==> r.value[i] == read(lines[i]).value)
    ensures r.Err? ==> exists i :: StopsAt(read, lines, i, r.error)
  {
    if lines == [] then Ok([])
    else
      var head := read(lines[0]);
      if head.Err? then
        assert StopsAt(read, lines, 0, head.error);
        Err(head.error)
      else
        var tail := lines[1..];
        var rest := ReadLines(read, tail);
        assert forall i :: 1 <= i < |lines| ==> lines[i] == tail[i - 1];
        if rest.Err? then
          assert exists i :: StopsAt(read, lines, i, rest.error) by {
            var j :| StopsAt(read, tail, j, rest.error);
            assert StopsAt(read, lines, j + 1, rest.error);
          }
          Err(rest.error)
        else
          var rows := [head.value] + rest.value;
          assert forall i :: 1 <= i < |lines| ==> rows[i] == rest.value[i - 1];
          Ok(rows)
  }

  /** Line `i` is the first malformed one and raises `e`. */
  predicate FirstMalformedAt(lines: seq<string>, e: FormatError, i: int) {
    0 <= i < |lines| && !WellFormedLine(lines[i]) &&
    (forall k :: 0 <= k < i ==> WellFormedLine(lines[k])) && e == LineError(lines[i])
  }

  /** Some line is malformed, and the first of them raises `e`. */
  predicate FirstMalformed(lines: seq<string>, e: FormatError) {
    exists i :: 0 <= i < |lines| && FirstMalformedAt(lines, e, i)
  }

  /** Reading the lines with `ParseLine` accepts exactly the texts whose lines are all well formed, and yields their digits. */
  lemma ParsedLines(lines: seq<string>)
    ensures ReadLines(ParseLine, lines).Ok? <==> forall i :: 0 <= i < |lines| ==> WellFormedLine(lines[i])
    ensures var r := ReadLines(ParseLine, lines);
      r.Ok? ==> (|r.value| == |lines| &&
        forall i, k :: 0 <= i < |lines| && 0 <= k < N ==>
          |r.value[i]| == N && 0 <= r.value[i][k] <= 9 && r.value[i][k] == DigitValue(Strip(lines[i])[k]))
  {
    var r := ReadLines(ParseLine, lines);
    forall i | 0 <= i < |lines|
      ensures ParseLine(lines[i]).Ok? <==> WellFormedLine(lines[i])
    {
    }
    if r.Ok? {
      forall i, k | 0 <= i < |lines| && 0 <= k < N
        ensures |r.value[i]| == N && 0 <= r.value[i][k] <= 9 && r.value[i][k] == DigitValue(Strip(lines[i])[k])
      {
        assert r.value[i] == ParseLine(lines[i]).value;
      }
    }
  }

  /**
   * `SudokuBoard.__create_board`: every line is checked as it is read, and
   * only when all of them are well formed is their number checked.
   */
  function CreateBoard(lines: seq<string>): (r: Result<Grid, FormatError>)
    ensures r.Ok? <==> |lines| == N && forall i :: 0 <= i < N ==> WellFormedLine(lines[i])
    ensures r.Ok? ==> (IsGrid(r.value) &&
      forall i, k :: 0 <= i < N && 0 <= k < N ==>
        0 <= r.value[i][k] <= 9 && r.value[i][k] == DigitValue(Strip(lines[i])[k]))
    ensures (forall i :: 0 <= i < |lines| ==> WellFormedLine(lines[i])) && |lines| != N ==>
      r == Err(BadLineCount)
    ensures (exists i :: 0 <= i < |lines| && !WellFormedLine(lines[i])) ==>
      r.Err? && FirstMalformed(lines, r.error)
  {
    var read := ReadLines(ParseLine, lines);
    ParsedLines(lines);
    if read.Err? then
      assert FirstMalformed(lines, read.error) by {
        var j :| StopsAt(ParseLine, lines, j, read.error);
        assert FirstMalformedAt(lines, read.error, j);
      }
      Err(read.error)
    else if |read.value| != N then
      Err(BadLineCount)
    else
      read
  }

  /** The text of one row as a line of a board file, newline included. */
  function RenderRow(row: seq<int>): (line: string)
    requires forall k :: 0 <= k < |row| ==> 0 <= row[k] <= 9
    ensures |line| == |row| + 1 && line[|row|] == '\n'
    ensures forall k :: 0 <= k < |row| ==> IsDigit(line[k]) && DigitValue(line[k]) == row[k]
  {
    if row == [] then "\n" else [DigitChar(row[0])] + RenderRow(row[1..])
  }

  /** The lines of a board file holding `g`. */
  function Render(g: Grid): (lines: seq<string>)
    requires IsGrid(g) && forall r, c :: 0 <= r < N && 0 <= c < N ==> 0 <= g[r][c] <= 9
    ensures |lines| == N && forall i :: 0 <= i < N ==> lines[i] == RenderRow(g[i])
  {
    seq(N, i requires 0 <= i < N => RenderRow(g[i]))
  }

  /** A line made of `n` > 0 non-whitespace characters followed by whitespace strips to those `n` characters. */
  lemma StripPadded(s: string, n: int)
    requires 0 < n <= |s|
    requires forall k :: 0 <= k < n ==> !IsSpace(s[k])
    requires forall k :: n <= k < |s| ==> IsSpace(s[k])
    ensures Strip(s) == s[..n]
  {
    var t := Strip(s);
    var i, j :| SliceInSpace(s, t, i, j);
    assert i == 0 by {
      assert !IsSpace(s[0]);
    }
    assert j >= n by {
      assert !IsSpace(s[n - 1]);
    }
    assert j <= n by {
      assert t[|t| - 1] == s[j - 1];
    }
  }

  /** Stripping a rendered row removes exactly its newline. */
  lemma StripRenderedRow(row: seq<int>)
    requires |row| == N && forall k :: 0 <= k < N ==> 0 <= row[k] <= 9
    ensures WellFormedLine(RenderRow(row))
    ensures forall k :: 0 <= k < N ==> DigitValue(Strip(RenderRow(row))[k]) == row[k]
  {
    StripPadded(RenderRow(row), N);
  }

  /** Parsing the text of a board gives the board back. */
  lemma RenderRoundTrip(g: Grid)
    requires IsGrid(g) && forall r, c :: 0 <= r < N && 0 <= c < N ==> 0 <= g[r][c] <= 9
    ensures CreateBoard(Render(g)) == Ok(g)
  {
    var lines := Render(g);
    forall i | 0 <= i < N
      ensures WellFormedLine(lines[i])
      ensures forall k :: 0 <= k < N ==> DigitValue(Strip(lines[i])[k]) == g[i][k]
    {
      StripRenderedRow(g[i]);
    }
    var r := CreateBoard(lines);
    assert r.Ok?;
    forall i | 0 <= i < N
      ensures r.value[i] == g[i]
    {
      assert forall k :: 0 <= k < N ==> r.value[i][k] == g[i][k];
    }
    assert r.value == g;
  }

  /** A board file missing its last line is rejected for its line count, its lines being fine. */
  lemma MissingLineRejected(g: Grid)
    requires IsGrid(g) && forall r, c :: 0 <= r < N && 0 <= c < N ==> 0 <= g[r][c] <= 9
    ensures CreateBoard(Render(g)[..N - 1]) == Err(BadLineCount)
  {
    var lines := Render(g)[..N - 1];
    forall i | 0 <= i < |lines|
      ensures WellFormedLine(lines[i])
    {
      StripRenderedRow(g[i]);
    }
  }

  /**
   * A rendered row with a character that is neither a digit nor whitespace
   * written over one digit keeps its stripped length but not its digits.
   */
  lemma LetterLine(row: seq<int>, k: int, ch: char)
    requires |row| == N && forall c :: 0 <= c < N ==> 0 <= row[c] <= 9
    requires 0 <= k < N && !IsSpace(ch) && !IsDigit(ch)
    ensures !WellFormedLine(RenderRow(row)[k := ch])
    ensures LineError(RenderRow(row)[k := ch]) == BadCharacter
  {
    var bad := RenderRow(row)[k := ch];
    StripPadded(bad, N);
    assert Strip(bad)[k] == ch;
  }

  /**
   * The error raised is the first malformed line's own, whatever follows it
   * and however many lines there are.
   */
  lemma FirstBadLineDecides(lines: seq<string>, i: int)
    requires 0 <= i < |lines| && !WellFormedLine(lines[i])
    requires forall k :: 0 <= k < i ==> WellFormedLine(lines[k])
    ensures CreateBoard(lines) == Err(LineError(lines[i]))
  {
    var r := CreateBoard(lines);
    var j :| 0 <= j < |lines| && FirstMalformedAt(lines, r.error, j);
    assert j == i;
  }

  /**
   * Writing a character that is neither a digit nor whitespace over any digit
   * of a board file is reported as a bad character, not as a bad length.
   */
  lemma LetterRejected(g: Grid, i: int, k: int, ch: char)
    requires IsGrid(g) && forall r, c :: 0 <= r < N && 0 <= c < N ==> 0 <= g[r][c] <= 9
    requires 0 <= i < N && 0 <= k < N && !IsSpace(ch) && !IsDigit(ch)
    ensures CreateBoard(Render(g)[i := RenderRow(g[i])[k := ch]]) == Err(BadCharacter)
  {
    var good := Render(g);
    var lines := good[i := RenderRow(g[i])[k := ch]];
    forall j | 0 <= j < i
      ensures WellFormedLine(lines[j])
    {
      assert lines[j] == RenderRow(g[j]);
      StripRenderedRow(g[j]);
    }
    LetterLine(g[i], k, ch);
    FirstBadLineDecides(lines, i);
  }
}
