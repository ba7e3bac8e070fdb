/**
 * What `toString` and `importMaze` promise together: the text `toString`
 * writes imports back as the same grid, the import only looks at the row
 * lines, and a text that is missing a row line is refused.
 */
module RoundTrip {
  import opened Options
  import opened IntStream
  import opened LineStream
  import opened MazeFormat
  import opened MazeProperties
  import opened RowReading

  /** The text of a row holds no newline. */
  lemma {:induction false} RowUpToNoNewline(row: seq<int32>, k: nat)
    requires k <= |row|
    ensures NoNewline(RowUpTo(row, k))
    decreases k
  {
    if k > 0 {
      RowUpToNoNewline(row, k - 1);
      var a, f, sp := RowUpTo(row, k - 1), Format(row[k - 1]), if k < |row| then " " else "";
      var t := a + f + sp;
      FormatShape(row[k - 1]);
      forall i | 0 <= i < |t| ensures t[i] != '\n' {
        if i < |a| {
          assert t[i] == a[i];
        } else if i < |a| + |f| {
          assert t[i] == f[i - |a|];
        }
      }
    }
  }

  /** No line `toString` writes holds a newline of its own. */
  lemma {:induction false} RenderedLinesNoNewline(g: Grid)
    ensures forall i :: 0 <= i < |RenderedLines(g)| ==> NoNewline(RenderedLines(g)[i])
  {
    forall i | 0 <= i < LineCount ensures NoNewline(RenderedLines(g)[i]) {
      if i % 6 != YSize {
        var r := i - i / 6;
        RowUpToNoNewline(g[5 * r..5 * r + ZSize], ZSize);
      }
    }
  }

  /** Line 6 * x + y of what `toString` writes is row y of layer x, maze[x][y][0..ZSize], joined by spaces. */
  lemma {:induction false} RenderedRow(g: Grid, x: nat, y: nat)
    requires x < XSize && y < YSize
    ensures 6 * x + y < LineCount && RenderedLines(g)[6 * x + y] == JoinSpaces(RowOf(g, x, y))
  {
    LineOfLayerRow(x, y);
    LayoutRow(Rows(g), BlankSeparators, 5 * x + y);
    assert RowStart(x, y) == 5 * (5 * x + y);
  }

  /** The line `importMaze` reads for row y of layer x, in the text `toString` wrote, is that row's text. */
  lemma {:induction false} RenderedRowLine(g: Grid, x: nat, y: nat)
    requires x < XSize && y < YSize
    ensures RowLine(Render(g), x, y) == JoinSpaces(RowOf(g, x, y))
  {
    var ls := RenderedLines(g);
    RenderedLinesNoNewline(g);
    assert Render(g) == LinesText(ls) + "";
    GetLinesOf(ls, "", 6 * x + y);
    RenderedRow(g, x, y);
  }

  /** That line reads as the ZSize cells of the row. */
  lemma {:induction false} RenderedRowReads(g: Grid, x: nat, y: nat)
    requires x < XSize && y < YSize
    ensures ReadRow(RowLine(Render(g), x, y)) == Some(RowOf(g, x, y))
  {
    var row := RowOf(g, x, y);
    RenderedRowLine(g, x, y);
    ReadRowJoined(row, "");
    assert JoinSpaces(row) + "" == JoinSpaces(row);
  }

  /** Importing the text that `toString` wrote for the grid g yields g. */
  lemma {:induction false} ImportRendered(g: Grid)
    ensures ParseMaze(Render(g)) == Some(g)
  {
    forall x: nat, y: nat | x < XSize && y < YSize
      ensures ReadRow(RowLine(Render(g), x, y)) == Some(RowOf(g, x, y))
    {
      RenderedRowReads(g, x, y);
    }
    ParseMazeRows(Render(g), g);
  }

  /**
   * The import looks only at the row lines: two texts whose row lines are
   * the same (whatever their separator lines and whatever follows the last
   * row) import alike.
   */
  lemma {:induction false} ImportSeesRowLinesOnly(t1: string, t2: string)
    requires forall x: nat, y: nat :: x < XSize && y < YSize ==> RowLine(t1, x, y) == RowLine(t2, x, y)
    ensures ParseMaze(t1) == ParseMaze(t2)
  {
    ParseMazeFails(t1);
    ParseMazeFails(t2);
    if ParseMaze(t1).Some? {
      ParseMazeRows(t1, ParseMaze(t1).value);
      ParseMazeRows(t2, ParseMaze(t1).value);
    }
  }

  /** An empty line holds no values, so it does not read as a row. */
  lemma {:induction false} EmptyLineFails()
    ensures ReadRow("").None?
  {
    ReadRowShort([]);
    assert JoinSpaces([]) == "";
  }

  /**
   * A file of fewer than LineCount lines, each terminated, lacks the line of
   * the last row (call LineCount - 1 of `getline` yields ""), so the import
   * fails.
   */
  lemma {:induction false} ImportTooFewLines(ls: seq<string>)
    requires forall i :: 0 <= i < |ls| ==> NoNewline(ls[i])
    requires |ls| < LineCount
    ensures ParseMaze(LinesText(ls)).None?
  {
    var text := LinesText(ls);
    assert text == LinesText(ls) + "";
    GetLinesOf(ls, "", 6 * (XSize - 1) + (YSize - 1));
    assert RowLine(text, XSize - 1, YSize - 1) == "";
    EmptyLineFails();
    ParseMazeFails(text);
  }
}
