/**
 * The text of a maze: the layout `Pathfinder::toString` writes and the
 * reading `Pathfinder::importMaze` does, as functions of the grid's cells and
 * of the file's contents.
 */
module MazeFormat {
  import opened Options
  import opened IntStream
  import opened LineStream

  /** The extents of maze[x][y][z] (X_SIZE, Y_SIZE and Z_SIZE of the header). */
  const XSize: nat := 5
  const YSize: nat := 5
  const ZSize: nat := 5

  const CellCount: nat := 125
  /** One text row per (x, y), holding the ZSize cells maze[x][y][0..]. */
  const RowCount: nat := 25
  /** YSize rows per layer and a separator line between two layers. */
  const LineCount: nat := 29

  /** The cells in storage order: maze[x][y][z] is at Index(x, y, z). */
  type Grid = g: seq<int32> | |g| == CellCount witness seq(CellCount, _ => 0)

  /** Row-major position of maze[x][y][z]; a bijection onto [0, CellCount). */
  function Index(x: nat, y: nat, z: nat): (k: nat)
    requires x < XSize && y < YSize && z < ZSize
    ensures k < CellCount
    ensures k / (YSize * ZSize) == x && k / ZSize % YSize == y && k % ZSize == z
  {
    (x * YSize + y) * ZSize + z
  }

  /** Cell z of text row 5 * x + y. */
  lemma {:induction false} IndexInRow(x: nat, y: nat, z: nat)
    requires x < XSize && y < YSize && z < ZSize
    ensures Index(x, y, z) == 5 * (5 * x + y) + z
  {
  }

  /** The grid `wipeMaze` leaves: every cell 1. */
  function AllOnes(): Grid
  {
    seq(CellCount, _ => 1)
  }

  // ---------------------------------------------------------------- writing

  /**
   * The text of a row once its first z values have been written, each
   * followed by a space unless it is the last value of the row.
   */
  function RowUpTo(row: seq<int32>, z: nat): string
    requires z <= |row|
    decreases z, row
  {
    if z == 0 then "" else RowUpTo(row, z - 1) + Format(row[z - 1]) + if z < |row| then " " else ""
  }

  /** The values of vs in order, one space between neighbours, none at either end. */
  function JoinSpaces(vs: seq<int32>): string
  {
    RowUpTo(vs, |vs|)
  }

  /** Text row r holds the cells maze[r / 5][r % 5][0..ZSize]. */
  function RowText(g: Grid, r: nat): string
    requires r < RowCount
  {
    JoinSpaces(g[5 * r..5 * r + ZSize])
  }

  function Rows(g: Grid): seq<string>
  {
    seq(RowCount, r requires 0 <= r < RowCount => RowText(g, r))
  }

  /** The line (from 0) of the text that row r occupies. */
  function LineOfRow(r: nat): nat
    requires r < RowCount
  {
    r + r / 5
  }

  lemma {:induction false} LineOfRowPlace(r: nat)
    requires r < RowCount
    ensures LineOfRow(r) < LineCount
    ensures LineOfRow(r) % 6 == r % 5 < YSize
    ensures LineOfRow(r) / 6 == r / 5
  {
    var q, m := r / 5, r % 5;
    assert r == 5 * q + m;
    assert LineOfRow(r) == 6 * q + m;
  }

  lemma {:induction false} LineOfLayerRow(x: nat, y: nat)
    requires x < XSize && y < YSize
    ensures 5 * x + y < RowCount && LineOfRow(5 * x + y) == 6 * x + y
  {
    assert (5 * x + y) / 5 == x;
  }

  lemma {:induction false} SeparatorPlace(x: nat)
    requires x < XSize - 1
    ensures 6 * x + YSize < LineCount
    ensures (6 * x + YSize) % 6 == YSize
    ensures (6 * x + YSize) / 6 == x
  {
    assert 6 * x + YSize == 6 * x + 5;
  }

  /**
   * The lines of a maze text: the rows of layer 0, the line seps[0], the
   * rows of layer 1, ..., seps[3], the rows of layer 4.
   */
  function Layout(rows: seq<string>, seps: seq<string>): (ls: seq<string>)
    requires |rows| == RowCount && |seps| == XSize - 1
    ensures |ls| == LineCount
  {
    seq(LineCount, i requires 0 <= i < LineCount =>
      if i % 6 == YSize then seps[i / 6] else rows[i - i / 6])
  }

  /** Row r sits on line LineOfRow(r) of the layout. */
  lemma {:induction false} LayoutRow(rows: seq<string>, seps: seq<string>, r: nat)
    requires |rows| == RowCount && |seps| == XSize - 1 && r < RowCount
    ensures LineOfRow(r) < LineCount && Layout(rows, seps)[LineOfRow(r)] == rows[r]
  {
    LineOfRowPlace(r);
  }

  /** The separator after layer x sits on the line after that layer's last row. */
  lemma {:induction false} LayoutSeparator(rows: seq<string>, seps: seq<string>, x: nat)
    requires |rows| == RowCount && |seps| == XSize - 1 && x < XSize - 1
    ensures 6 * x + YSize < LineCount && Layout(rows, seps)[6 * x + YSize] == seps[x]
  {
    SeparatorPlace(x);
  }

  const BlankSeparators: seq<string> := ["", "", "", ""]

  /** The 29 lines `toString` writes: the 25 rows, with an empty line after each layer but the last. */
  function RenderedLines(g: Grid): (ls: seq<string>)
    ensures |ls| == LineCount
  {
    Layout(Rows(g), BlankSeparators)
  }

  /** What `toString` returns for the grid g: its lines, each followed by a newline. */
  function Render(g: Grid): string
  {
    LinesText(RenderedLines(g))
  }

  /** Writing row 5 * x + y and its newline adds one line to the text. */
  lemma {:induction false} RenderRowStep(g: Grid, x: nat, y: nat)
    requires x < XSize && y < YSize
    ensures 6 * x + y < LineCount
    ensures LinesText(RenderedLines(g)[..6 * x + y + 1])
         == LinesText(RenderedLines(g)[..6 * x + y]) + RowText(g, 5 * x + y) + "\n"
  {
    LineOfLayerRow(x, y);
    LayoutRow(Rows(g), BlankSeparators, 5 * x + y);
    LinesTextSnoc(RenderedLines(g), 6 * x + y);
  }

  /** The newline after layer x adds the empty separator line. */
  lemma {:induction false} RenderSeparatorStep(g: Grid, x: nat)
    requires x < XSize - 1
    ensures 6 * x + YSize < LineCount
    ensures LinesText(RenderedLines(g)[..6 * x + YSize + 1])
         == LinesText(RenderedLines(g)[..6 * x + YSize]) + "\n"
  {
    LayoutSeparator(Rows(g), BlankSeparators, x);
    LinesTextSnoc(RenderedLines(g), 6 * x + YSize);
  }

  lemma {:induction false} RenderWhole(g: Grid)
    ensures Render(g) == LinesText(RenderedLines(g)[..LineCount])
  {
    assert RenderedLines(g)[..LineCount] == RenderedLines(g);
  }

  // ---------------------------------------------------------------- reading

  /**
   * The state of a string stream over a row line after some `ss >> value`
   * reads: the values read, the read position, and whether the stream is
   * still good (no read has failed).
   */
  datatype Reads = Reads(values: seq<int32>, pos: nat, good: bool)

  /**
   * n successive `ss >> value` on a string stream over line. The first read
   * that fails leaves the stream failed, and a failed stream reads nothing
   * more: values holds what was read before the failure.
   */
  function ReadUpTo(line: string, n: nat): (r: Reads)
    ensures |r.values| <= n && r.pos <= |line|
    ensures r.good ==> |r.values| == n
    ensures !r.good ==> |r.values| < n
    decreases n, line
  {
    if n == 0 then Reads([], 0, true)
    else
      var r := ReadUpTo(line, n - 1);
      if !r.good then r
      else match ReadInt(line, r.pos)
        case None => r.(good := false)
        case Some((v, q)) => Reads(r.values + [v], q, true)
  }

  /** The ZSize values one row line yields, or None if a read fails. */
  function ReadRow(line: string): (r: Option<seq<int32>>)
    ensures r.Some? ==> |r.value| == ZSize
  {
    var r := ReadUpTo(line, ZSize);
    if r.good then Some(r.values) else None
  }

  /** The first cell of row y of layer x, that is of maze[x][y][0]; the end of the grid for (XSize, 0). */
  function RowStart(x: nat, y: nat): nat
  {
    (x * YSize + y) * ZSize
  }

  /** The next row starts ZSize cells on, the next layer YSize rows on. */
  lemma {:induction false} RowStartNext(x: nat, y: nat)
    ensures RowStart(x, y + 1) == RowStart(x, y) + ZSize
    ensures RowStart(x, YSize) == RowStart(x + 1, 0)
    ensures x < XSize && y < YSize ==> RowStart(x, y) + ZSize <= CellCount && RowStart(x, y) == Index(x, y, 0)
  {
    assert RowStart(x, y) == 25 * x + 5 * y;
    assert RowStart(x, y + 1) == 25 * x + 5 * y + 5;
    assert RowStart(x + 1, 0) == 25 * x + 25;
  }

  /** The cells maze[x][y][0..ZSize]. */
  function RowOf(g: Grid, x: nat, y: nat): (row: seq<int32>)
    requires x < XSize && y < YSize
    ensures |row| == ZSize
  {
    RowStartNext(x, y);
    g[RowStart(x, y)..RowStart(x, y) + ZSize]
  }

  /**
   * The `line` that row y of layer x is parsed from: importMaze calls
   * getline once per row and once more after each layer, so that row is
   * read by call 6 * x + y (from 0).
   */
  function RowLine(text: string, x: nat, y: nat): string
  {
    GetLines(text, 6 * x + y + 1).line
  }

  /** The values p read so far, followed by the values still to come, if those can be read. */
  function Prepend(p: seq<int32>, rest: Option<seq<int32>>): Option<seq<int32>>
  {
    match rest
    case None => None
    case Some(vs) => Some(p + vs)
  }

  lemma {:induction false} PrependNothing(rest: Option<seq<int32>>)
    ensures Prepend([], rest) == rest
  {
    if rest.Some? {
      assert [] + rest.value == rest.value;
    }
  }

  lemma {:induction false} PrependPrepend(p: seq<int32>, q: seq<int32>, rest: Option<seq<int32>>)
    ensures Prepend(p, Prepend(q, rest)) == Prepend(p + q, rest)
  {
    if rest.Some? {
      assert p + (q + rest.value) == p + q + rest.value;
    }
  }

  /** A way of reading a row line: when it succeeds, it yields ZSize values. */
  ghost predicate RowReader(read: string -> Option<seq<int32>>)
  {
    forall line :: read(line).Some? ==> |read(line).value| == ZSize
  }

  /**
   * The rest of `importMaze`'s loops on the stream f, from row y of layer x
   * on: per row one `getline` and a row of reads (`read`, which is ReadRow
   * for the import), after each layer one more `getline`. The values of the
   * remaining rows, or None at the first row whose read fails. This is the
   * row-by-row reading; ReadMaze runs the same loops a layer at a time.
   */
  function ReadLayers(f: Source, x: nat, y: nat, read: string -> Option<seq<int32>>): (r: Option<seq<int32>>)
    requires f.pos <= |f.text| && x <= XSize && y <= YSize && (x < XSize || y == 0)
    requires RowReader(read)
    ensures r.Some? ==> |r.value| == ZSize * ((XSize - x) * YSize - y)
    decreases XSize - x, YSize - y, f
  {
    if x == XSize then Some([])
    else if y == YSize then ReadLayers(GetLine(f), x + 1, 0, read)
    else
      var g := GetLine(f);
      match read(g.line)
      case None => None
      case Some(row) => Prepend(row, ReadLayers(g, x, y + 1, read))
  }

  /**
   * One pass of the outer loop of `importMaze` on the stream f, from row y
   * of the layer on: per row one `getline` and a row of reads (`read`), then
   * the `getline` after the layer. The values of those rows and the stream
   * after the last call, or None at the first row whose read fails.
   */
  function ReadLayer(f: Source, y: nat, read: string -> Option<seq<int32>>): (r: Option<(seq<int32>, Source)>)
    requires f.pos <= |f.text| && y <= YSize && RowReader(read)
    ensures r.Some? ==> |r.value.0| == ZSize * (YSize - y) && r.value.1.pos <= |r.value.1.text|
    decreases YSize - y
  {
    if y == YSize then Some(([], GetLine(f)))
    else
      var g := GetLine(f);
      match read(g.line)
      case None => None
      case Some(row) => PrependLayer(row, ReadLayer(g, y + 1, read))
  }

  /** The values p read so far, followed by the values of the rows still to come and the stream they leave, if those can be read. */
  function PrependLayer(p: seq<int32>, rest: Option<(seq<int32>, Source)>): Option<(seq<int32>, Source)>
  {
    match rest
    case None => None
    case Some((vs, g)) => Some((p + vs, g))
  }

  /**
   * The outer loop of `importMaze` on the stream f, from layer x on, one
   * layer (ReadLayer) at a time. The values of the remaining layers, or None
   * at the first layer that fails.
   */
  function ReadMaze(f: Source, x: nat, read: string -> Option<seq<int32>>): (r: Option<seq<int32>>)
    requires f.pos <= |f.text| && x <= XSize && RowReader(read)
    ensures r.Some? ==> |r.value| == (XSize - x) * (YSize * ZSize)
    decreases XSize - x
  {
    if x == XSize then Some([])
    else
      match ReadLayer(f, 0, read)
      case None => None
      case Some((vs, g)) => Prepend(vs, ReadMaze(g, x + 1, read))
  }

  /** Row (x2, y2) of the grid is row (x, y) or one that the loops read after it. */
  predicate AtOrAfter(x: nat, y: nat, x2: nat, y2: nat)
  {
    x2 < XSize && y2 < YSize && (x2 > x || (x2 == x && y2 >= y))
  }

  /** The grid importMaze reads from an opened file with contents text, or None if it fails. */
  function ParseMaze(text: string): Option<Grid>
  {
    match ReadMaze(Open(text), 0, ReadRow)
    case None => None
    case Some(vs) => Some(vs)
  }
}
