/**
 * The line and cell splitter shared by `readCSVFile` and `readAmazonDataFile`: the
 * decoded text is split on line feeds, blank lines are skipped, and every other line
 * becomes one row of cleaned cells.
 */
module RowParsing {
  import opened JsText

  /** Carrier manifests are split on tabs with a comma fallback; order files on tabs only. */
  datatype RowFormat = TabOrComma | TabOnly

  predicate IsQuote(c: char) { c == '"' || c == '\'' }

  /** A line made only of white space, whose `trim()` is empty, so that it yields no row. */
  predicate IsBlank(line: string)
  {
    forall i :: 0 <= i < |line| ==> IsSpace(line[i])
  }

  /**
   * The raw cells of a line: tabs first, and commas when there was no tab to split on.
   * The comma fallback applies exactly to manifest lines without a tab; order files never
   * fall back.
   */
  function SplitCells(line: string, format: RowFormat): (cells: seq<string>)
    ensures |cells| >= 1
    ensures format == TabOrComma && '\t' in line ==> cells == Split(line, '\t')
    ensures format == TabOrComma && '\t' !in line ==> cells == Split(line, ',')
    ensures format == TabOnly ==> cells == Split(line, '\t')
  {
    SplitSingle(line, '\t');
    var cols := Split(line, '\t');
    if format == TabOrComma && |cols| == 1 then Split(line, ',') else cols
  }

  /**
   * `col.replace(/^["']|["']$/g, '')`: a quote at the start and a quote at the end are
   * removed, one each; a lone quote is removed once.
   */
  function StripQuotes(col: string): (r: string)
    ensures |col| - |r| == (if |col| >= 1 && IsQuote(col[0]) then 1 else 0)
                           + (if |col| >= 2 && IsQuote(col[|col| - 1]) then 1 else 0)
    ensures |col| >= 1 && IsQuote(col[0]) ==> r == col[1..1 + |r|]
    ensures |col| >= 1 && !IsQuote(col[0]) ==> r == col[..|r|]
  {
    var a := if |col| >= 1 && IsQuote(col[0]) then 1 else 0;
    var b := if |col| >= 1 && |col| - 1 >= a && IsQuote(col[|col| - 1]) then |col| - 1 else |col|;
    col[a..b]
  }

  /**
   * `col[i..j]` is what remains of `col` once white space and at most one quote are
   * dropped at each end: before `i` a possible quote in front, then white space; from
   * `j` on white space, then a possible quote at the very end. A quote in front, and a
   * quote at the end of a cell of two or more characters, are always dropped.
   */
  predicate QuotedAround(col: string, i: int, j: int)
  {
    && 0 <= i <= j <= |col|
    && (forall k :: 0 <= k < i ==> IsSpace(col[k]) || (k == 0 && IsQuote(col[k])))
    && (forall k :: j <= k < |col| ==> IsSpace(col[k]) || (k == |col| - 1 && IsQuote(col[k])))
    && (|col| >= 1 && IsQuote(col[0]) ==> 1 <= i)
    && (|col| >= 2 && IsQuote(col[|col| - 1]) ==> j <= |col| - 1)
  }

  /** One cleaned cell: quotes stripped, then trimmed. */
  function CleanCell(col: string): (r: string)
    ensures IsTrimmed(r)
    ensures exists i, j :: QuotedAround(col, i, j) && r == col[i..j]
  {
    var a := if |col| >= 1 && IsQuote(col[0]) then 1 else 0;
    var b := if |col| >= 1 && |col| - 1 >= a && IsQuote(col[|col| - 1]) then |col| - 1 else |col|;
    assert StripQuotes(col) == col[a..b];
    CleanSlice(col, a, b);
    Trim(StripQuotes(col))
  }

  /** The quotes go first, then the white space inside them. */
  lemma CleanSlice(col: string, a: nat, b: nat)
    requires a == if |col| >= 1 && IsQuote(col[0]) then 1 else 0
    requires b == if |col| >= 1 && |col| - 1 >= a && IsQuote(col[|col| - 1]) then |col| - 1 else |col|
    ensures a <= b <= |col|
    ensures exists i, j :: QuotedAround(col, i, j) && Trim(col[a..b]) == col[i..j]
  {
    var t := col[a..b];
    var i', j' := TrimBounds(t);
    SpaceInsideSlice(col, a, b, i', j');
    QuotedFrom(col, a, b, a + i', a + j');
    assert QuotedAround(col, a + i', a + j') && Trim(t) == col[a + i'..a + j'];
  }

  /** White space around a slice of `s[a..b]` is white space of `s` itself. */
  lemma SpaceInsideSlice(s: string, a: nat, b: nat, i': nat, j': nat)
    requires a <= b <= |s| && SpaceAround(s[a..b], i', j')
    ensures forall k :: a <= k < a + i' ==> IsSpace(s[k])
    ensures forall k :: a + j' <= k < b ==> IsSpace(s[k])
    ensures s[a..b][i'..j'] == s[a + i'..a + j']
  {
    var t := s[a..b];
    forall k | a <= k < a + i'
      ensures IsSpace(s[k])
    {
      assert s[k] == t[k - a];
    }
    forall k | a + j' <= k < b
      ensures IsSpace(s[k])
    {
      assert s[k] == t[k - a];
    }
    forall n | 0 <= n < j' - i'
      ensures t[i'..j'][n] == s[a + i'..a + j'][n]
    {
      assert t[i'..j'][n] == t[i' + n] == s[a + i' + n];
    }
    assert t[i'..j'] == s[a + i'..a + j'];
  }

  /** Dropping the quotes, then white space on each side, leaves a quoted-around slice. */
  lemma QuotedFrom(col: string, a: nat, b: nat, i: nat, j: nat)
    requires a == if |col| >= 1 && IsQuote(col[0]) then 1 else 0
    requires b == if |col| >= 1 && |col| - 1 >= a && IsQuote(col[|col| - 1]) then |col| - 1 else |col|
    requires a <= i <= j <= b
    requires forall k :: a <= k < i ==> IsSpace(col[k])
    requires forall k :: j <= k < b ==> IsSpace(col[k])
    ensures QuotedAround(col, i, j)
  {
    forall k | 0 <= k < i
      ensures IsSpace(col[k]) || (k == 0 && IsQuote(col[k]))
    {
      if k < a {
        assert k == 0 && IsQuote(col[0]);
      }
    }
    forall k | j <= k < |col|
      ensures IsSpace(col[k]) || (k == |col| - 1 && IsQuote(col[k]))
    {
      if k >= b {
        assert k == |col| - 1 && IsQuote(col[|col| - 1]);
      }
    }
  }

  /** `columns.map(...)`: every cell cleaned, in order. */
  function CleanRow(cols: seq<string>): seq<string>
  {
    ArrayMap(CleanCell, cols)
  }

  /** The row a non-blank line yields. */
  function LineRow(line: string, format: RowFormat): seq<string>
  {
    CleanRow(SplitCells(line, format))
  }

  /** The rows a list of lines yields: one per non-blank line, in order. */
  function ParseLines(lines: seq<string>, format: RowFormat): seq<seq<string>>
  {
    if lines == [] then []
    else
      var last := lines[|lines| - 1];
      ParseLines(lines[..|lines| - 1], format) + (if IsBlank(last) then [] else [LineRow(last, format)])
  }

  /** The row loop of the two readers, over the winning decoded text. */
  method ParseRows(content: string, format: RowFormat) returns (data: seq<seq<string>>)
    ensures data == ParseLines(Split(content, '\n'), format)
  {
    var lines := Split(content, '\n');
    data := [];
    for i := 0 to |lines|
      invariant data == ParseLines(lines[..i], format)
    {
      ParseLinesStep(lines, i, format);
      if Trim(lines[i]) != [] {
        var columns := Split(lines[i], '\t');
        if format == TabOrComma && |columns| == 1 {
          columns := Split(lines[i], ',');
        }
        var cleaned := CleanColumns(columns);
        data := data + [cleaned];
      }
    }
    assert lines[..|lines|] == lines;
  }

  /** The rows of one more line. */
  lemma ParseLinesStep(lines: seq<string>, i: nat, format: RowFormat)
    requires i < |lines|
    ensures ParseLines(lines[..i + 1], format)
            == ParseLines(lines[..i], format) + (if IsBlank(lines[i]) then [] else [LineRow(lines[i], format)])
  {
    assert lines[..i + 1][..i] == lines[..i];
  }

  /** `columns.map(col => ...)`. */
  method CleanColumns(columns: seq<string>) returns (cleaned: seq<string>)
    ensures cleaned == CleanRow(columns)
  {
    cleaned := [];
    for k := 0 to |columns|
      invariant cleaned == ArrayMap(CleanCell, columns[..k])
    {
      assert columns[..k + 1][..k] == columns[..k];
      cleaned := cleaned + [CleanCell(columns[k])];
    }
    assert columns[..|columns|] == columns;
  }

  lemma {:induction false} ParseLinesAppend(a: seq<string>, b: seq<string>, format: RowFormat)
    ensures ParseLines(a + b, format) == ParseLines(a, format) + ParseLines(b, format)
    decreases |b|
  {
    if b == [] {
      assert a + b == a;
    } else {
      var b' := b[..|b| - 1];
      assert (a + b)[..|a + b| - 1] == a + b';
      assert (a + b)[|a + b| - 1] == b[|b| - 1];
      ParseLinesLast(a + b, format);
      ParseLinesLast(b, format);
      ParseLinesAppend(a, b', format);
    }
  }

  lemma ParseLinesLast(lines: seq<string>, format: RowFormat)
    requires lines != []
    ensures ParseLines(lines, format) == ParseLines(lines[..|lines| - 1], format) + ParseLines([lines[|lines| - 1]], format)
  {
    assert [lines[|lines| - 1]][..0] == [];
  }

  /** A single line yields one row when it is not blank and none when it is. */
  lemma OneLine(line: string, format: RowFormat)
    ensures IsBlank(line) ==> ParseLines([line], format) == []
    ensures !IsBlank(line) ==> ParseLines([line], format) == [LineRow(line, format)]
  {
    assert [line][..0] == [];
  }

  /** The positions of the non-blank lines. */
  function NonBlankLines(lines: seq<string>): set<nat>
  {
    set k: nat | k < |lines| && !IsBlank(lines[k])
  }

  /** Rows come one per non-blank line: the count of rows is the count of such lines. */
  lemma {:induction false} RowCount(lines: seq<string>, format: RowFormat)
    ensures |ParseLines(lines, format)| == |NonBlankLines(lines)|
  {
    if lines != [] {
      var n := |lines| - 1;
      RowCount(lines[..n], format);
      NonBlankStep(lines);
    }
  }

  lemma NonBlankStep(lines: seq<string>)
    requires lines != []
    ensures var n := |lines| - 1;
            |NonBlankLines(lines)| == |NonBlankLines(lines[..n])| + (if IsBlank(lines[n]) then 0 else 1)
  {
    var n := |lines| - 1;
    var init := lines[..n];
    var before, after := NonBlankLines(init), NonBlankLines(lines);
    var last: set<nat> := if IsBlank(lines[n]) then {} else {n};
    forall k: nat ensures k in after <==> k in before + last {
      if k < n {
        assert init[k] == lines[k];
      }
    }
    assert after == before + last;
    assert before !! last;
  }

  /** No cell of any row has white space at either end. */
  lemma CellsTrimmed(lines: seq<string>, format: RowFormat, r: nat, c: nat)
    requires r < |ParseLines(lines, format)| && c < |ParseLines(lines, format)[r]|
    ensures IsTrimmed(ParseLines(lines, format)[r][c])
  {
    RowOfLine(lines, format, r);
    var k :| 0 <= k < |lines| && !IsBlank(lines[k]) && ParseLines(lines, format)[r] == LineRow(lines[k], format);
    ArrayMapAt(CleanCell, SplitCells(lines[k], format), c);
  }

  /** Every row is the row of some non-blank line. */
  lemma {:induction false} RowOfLine(lines: seq<string>, format: RowFormat, r: nat)
    requires r < |ParseLines(lines, format)|
    ensures exists k :: 0 <= k < |lines| && !IsBlank(lines[k]) && ParseLines(lines, format)[r] == LineRow(lines[k], format)
  {
    var n := |lines| - 1;
    var init := lines[..n];
    if r < |ParseLines(init, format)| {
      RowOfLine(init, format, r);
      var k :| 0 <= k < |init| && !IsBlank(init[k]) && ParseLines(init, format)[r] == LineRow(init[k], format);
      assert lines[k] == init[k];
    } else {
      assert !IsBlank(lines[n]) && ParseLines(lines, format)[r] == LineRow(lines[n], format);
    }
  }

  /** Joining a tab-only row's raw cells with tabs gives back the line. */
  lemma TabCellsJoin(line: string)
    ensures Join(SplitCells(line, TabOnly), '\t') == line
  {
    JoinSplit(line, '\t');
  }

  /** A trimmed cell that neither starts nor ends with a quote is kept as it is. */
  lemma CleanCellKeeps(col: string)
    requires IsTrimmed(col)
    requires col == [] || (!IsQuote(col[0]) && !IsQuote(col[|col| - 1]))
    ensures CleanCell(col) == col
  {
    assert StripQuotes(col) == col[0..|col|] == col;
  }

  /** A quoted cell whose text inside the quotes is trimmed loses exactly its two quotes. */
  lemma CleanCellUnquotes(q1: char, x: string, q2: char)
    requires IsQuote(q1) && IsQuote(q2) && IsTrimmed(x)
    ensures CleanCell([q1] + x + [q2]) == x
  {
    var col := [q1] + x + [q2];
    assert StripQuotes(col) == col[1..|col| - 1] == x;
  }

  /**
   * A quoted last cell of a line that ends in a carriage return keeps its closing
   * quote: the quote is not the last character when the pattern is applied, and the
   * carriage return is trimmed only afterwards.
   */
  lemma CarriageReturnKeepsClosingQuote(x: string)
    requires x != [] && IsTrimmed(x) && !IsQuote(x[0])
    ensures CleanCell(['"'] + x + ['"', '\r']) == x + ['"']
  {
    OnlyLeadingQuote(x);
    var t := x + ['"'];
    assert t[0] == x[0];
    assert t + ['\r'] == x + ['"', '\r'];
    TrimDropsReturn(t);
  }

  /**
   * An opening quote after white space is not at the start when the pattern is applied,
   * so it stays, while the closing quote goes: ` "x"` becomes `"x`.
   */
  lemma SpaceBeforeQuoteKept(x: string)
    requires IsTrimmed(x)
    ensures CleanCell([' ', '"'] + x + ['"']) == ['"'] + x
  {
    var col := [' ', '"'] + x + ['"'];
    var t := ['"'] + x;
    var u := [' '] + t;
    assert StripQuotes(col) == col[..|col| - 1] == u;
    assert u[1..|u|] == t;
    assert t[|t| - 1] == if x == [] then '"' else x[|x| - 1];
    TrimOfSpaceAround(u, 1, |u|);
  }

  lemma OnlyLeadingQuote(x: string)
    requires x != [] && !IsQuote(x[0])
    ensures StripQuotes(['"'] + x + ['"', '\r']) == x + ['"', '\r']
  {
    var col := ['"'] + x + ['"', '\r'];
    assert col[1..] == x + ['"', '\r'];
  }

  /** A trailing carriage return after a trimmed text is trimmed away. */
  lemma TrimDropsReturn(t: string)
    requires t != [] && IsTrimmed(t)
    ensures Trim(t + ['\r']) == t
  {
    var s := t + ['\r'];
    assert s[0..|t|] == t;
    TrimOfSpaceAround(s, 0, |t|);
  }
}
