/**
 * What the maze text layout and its reading promise: the round trip, the
 * inputs that are accepted, the ones that make the import fail, and the
 * order in which the cells appear in the text.
 */
module MazeProperties {
  import opened Options
  import opened IntStream
  import opened LineStream
  import opened MazeFormat

  /** A read that succeeds on a good stream adds its value and moves the read position past it. */
  lemma {:induction false} ReadUpToNext(line: string, k: nat, vs: seq<int32>, p: nat, v: int32, q: nat)
    requires ReadUpTo(line, k) == Reads(vs, p, true) && p <= |line|
    requires ReadInt(line, p) == Some((v, q))
    ensures ReadUpTo(line, k + 1) == Reads(vs + [v], q, true)
  {
  }

  /** A read that fails on a good stream leaves it failed, with the values it had. */
  lemma {:induction false} ReadUpToFails(line: string, k: nat, vs: seq<int32>, p: nat)
    requires ReadUpTo(line, k) == Reads(vs, p, true) && p <= |line|
    requires ReadInt(line, p).None?
    ensures ReadUpTo(line, k + 1) == Reads(vs, p, false)
  {
  }

  /** Once a read has failed, further reads change nothing. */
  lemma {:induction false} ReadUpToStaysFailed(line: string, m: nat, n: nat)
    requires m <= n && !ReadUpTo(line, m).good
    ensures ReadUpTo(line, n) == ReadUpTo(line, m)
    decreases n
  {
    if m < n {
      ReadUpToStaysFailed(line, m, n - 1);
    }
  }

  /**
   * The loops of `importMaze` from row y of layer x on: the rest of layer
   * x, then the layers after it from the stream that layer leaves.
   */
  lemma {:induction false} LayerThenRest(f: Source, x: nat, y: nat)
    requires f.pos <= |f.text| && x < XSize && y <= YSize
    ensures ReadLayer(f, y, ReadRow).None? ==> ReadLayers(f, x, y, ReadRow).None?
    ensures ReadLayer(f, y, ReadRow).Some? ==>
      ReadLayers(f, x, y, ReadRow) == Prepend(ReadLayer(f, y, ReadRow).value.0, ReadLayers(ReadLayer(f, y, ReadRow).value.1, x + 1, 0, ReadRow))
    decreases YSize - y
  {
    if y == YSize {
      PrependNothing(ReadLayers(GetLine(f), x + 1, 0, ReadRow));
    } else {
      var g := GetLine(f);
      LayerThenRest(g, x, y + 1);
      if ReadRow(g.line).Some? && ReadLayer(g, y + 1, ReadRow).Some? {
        var (vs, h) := ReadLayer(g, y + 1, ReadRow).value;
        PrependPrepend(ReadRow(g.line).value, vs, ReadLayers(h, x + 1, 0, ReadRow));
      }
    }
  }

  /** Layer by layer or row by row, the loops of `importMaze` read the same from layer x on. */
  lemma {:induction false} ReadMazeRows(f: Source, x: nat)
    requires f.pos <= |f.text| && x <= XSize
    ensures ReadMaze(f, x, ReadRow) == ReadLayers(f, x, 0, ReadRow)
    decreases XSize - x
  {
    if x < XSize {
      LayerThenRest(f, x, 0);
      if ReadLayer(f, 0, ReadRow).Some? {
        ReadMazeRows(ReadLayer(f, 0, ReadRow).value.1, x + 1);
      }
    }
  }

  lemma {:induction false} PrependLayerNothing(rest: Option<(seq<int32>, Source)>)
    ensures PrependLayer([], rest) == rest
  {
    if rest.Some? {
      assert [] + rest.value.0 == rest.value.0;
    }
  }

  /** A row of the layer that reads adds its values to the ones done before the rest of the layer. */
  lemma {:induction false} PrependLayerRow(next: Source, y: nat, done: seq<int32>)
    requires next.pos <= |next.text| && y < YSize && ReadRow(GetLine(next).line).Some?
    ensures PrependLayer(done, ReadLayer(next, y, ReadRow))
        == PrependLayer(done + ReadRow(GetLine(next).line).value, ReadLayer(GetLine(next), y + 1, ReadRow))
  {
    var row := ReadRow(GetLine(next).line).value;
    if ReadLayer(GetLine(next), y + 1, ReadRow).Some? {
      var (vs, h) := ReadLayer(GetLine(next), y + 1, ReadRow).value;
      assert done + (row + vs) == (done + row) + vs;
    }
  }

  /** The stream after the getline calls that come before row y of layer x. */
  lemma {:induction false} LinesBeforeRow(text: string, x: nat, y: nat)
    ensures GetLine(GetLines(text, 6 * x + y)) == GetLines(text, 6 * x + y + 1)
    ensures GetLines(text, 6 * x + y + 1).line == RowLine(text, x, y)
  {
  }

  /**
   * From row y of layer x on, the loops of `importMaze` fail exactly when
   * the line of one of the remaining rows does not read as ZSize values.
   */
  lemma {:induction false} ReadLayersFails(text: string, x: nat, y: nat, read: string -> Option<seq<int32>>)
    requires x <= XSize && y <= YSize && (x < XSize || y == 0) && RowReader(read)
    ensures ReadLayers(GetLines(text, 6 * x + y), x, y, read).None?
        <==> exists x2: nat, y2: nat :: AtOrAfter(x, y, x2, y2) && read(RowLine(text, x2, y2)).None?
    decreases XSize - x, YSize - y
  {
    if x == XSize {
    } else if y == YSize {
      ReadLayersFails(text, x + 1, 0, read);
      LayerEndFails(text, x, read);
    } else {
      ReadLayersFails(text, x, y + 1, read);
      RowFails(text, x, y, read);
    }
  }

  /** The getline after the last row of layer x reads nothing the loops use. */
  lemma {:induction false} LayerEndFails(text: string, x: nat, read: string -> Option<seq<int32>>)
    requires x < XSize && RowReader(read)
    requires ReadLayers(GetLines(text, 6 * (x + 1)), x + 1, 0, read).None?
        <==> exists x2: nat, y2: nat :: AtOrAfter(x + 1, 0, x2, y2) && read(RowLine(text, x2, y2)).None?
    ensures ReadLayers(GetLines(text, 6 * x + YSize), x, YSize, read).None?
        <==> exists x2: nat, y2: nat :: AtOrAfter(x, YSize, x2, y2) && read(RowLine(text, x2, y2)).None?
  {
    LinesBeforeRow(text, x, YSize);
    forall x2: nat, y2: nat ensures AtOrAfter(x, YSize, x2, y2) == AtOrAfter(x + 1, 0, x2, y2) {
    }
  }

  /** Row y of layer x fails, or one of the rows after it. */
  lemma {:induction false} RowFails(text: string, x: nat, y: nat, read: string -> Option<seq<int32>>)
    requires x < XSize && y < YSize && RowReader(read)
    requires ReadLayers(GetLines(text, 6 * x + y + 1), x, y + 1, read).None?
        <==> exists x2: nat, y2: nat :: AtOrAfter(x, y + 1, x2, y2) && read(RowLine(text, x2, y2)).None?
    ensures ReadLayers(GetLines(text, 6 * x + y), x, y, read).None?
        <==> exists x2: nat, y2: nat :: AtOrAfter(x, y, x2, y2) && read(RowLine(text, x2, y2)).None?
  {
    LinesBeforeRow(text, x, y);
    forall x2: nat, y2: nat
      ensures AtOrAfter(x, y, x2, y2) == ((x2 == x && y2 == y) || AtOrAfter(x, y + 1, x2, y2))
    {
    }
  }

  lemma {:induction false} SplitAt(a: seq<int32>, b: seq<int32>, c: seq<int32>)
    requires |a| <= |c|
    ensures a + b == c <==> a == c[..|a|] && b == c[|a|..]
  {
    if a + b == c {
      assert c[..|a|] == a && c[|a|..] == b;
    }
  }

  /**
   * From row y of layer x on, the loops of `importMaze` read the rest of the
   * grid g exactly when the line of every remaining row reads as that row's
   * cells.
   */
  lemma {:induction false} ReadLayersValues(text: string, g: Grid, x: nat, y: nat, read: string -> Option<seq<int32>>)
    requires x <= XSize && y <= YSize && (x < XSize || y == 0) && RowReader(read)
    ensures ReadLayers(GetLines(text, 6 * x + y), x, y, read) == Some(g[RowStart(x, y)..])
        <==> forall x2: nat, y2: nat :: AtOrAfter(x, y, x2, y2) ==> read(RowLine(text, x2, y2)) == Some(RowOf(g, x2, y2))
    decreases XSize - x, YSize - y
  {
    if x == XSize {
      assert RowStart(XSize, 0) == CellCount;
      assert g[CellCount..] == [];
    } else if y == YSize {
      ReadLayersValues(text, g, x + 1, 0, read);
      LayerEndValues(text, g, x, read);
    } else {
      ReadLayersValues(text, g, x, y + 1, read);
      RowValues(text, g, x, y, read);
    }
  }

  lemma {:induction false} LayerEndValues(text: string, g: Grid, x: nat, read: string -> Option<seq<int32>>)
    requires x < XSize && RowReader(read)
    requires ReadLayers(GetLines(text, 6 * (x + 1)), x + 1, 0, read) == Some(g[RowStart(x + 1, 0)..])
        <==> forall x2: nat, y2: nat :: AtOrAfter(x + 1, 0, x2, y2) ==> read(RowLine(text, x2, y2)) == Some(RowOf(g, x2, y2))
    ensures ReadLayers(GetLines(text, 6 * x + YSize), x, YSize, read) == Some(g[RowStart(x, YSize)..])
        <==> forall x2: nat, y2: nat :: AtOrAfter(x, YSize, x2, y2) ==> read(RowLine(text, x2, y2)) == Some(RowOf(g, x2, y2))
  {
    LinesBeforeRow(text, x, YSize);
    RowStartNext(x, YSize);
    forall x2: nat, y2: nat ensures AtOrAfter(x, YSize, x2, y2) == AtOrAfter(x + 1, 0, x2, y2) {
    }
  }

  lemma {:induction false} RowValues(text: string, g: Grid, x: nat, y: nat, read: string -> Option<seq<int32>>)
    requires x < XSize && y < YSize && RowReader(read)
    requires ReadLayers(GetLines(text, 6 * x + y + 1), x, y + 1, read) == Some(g[RowStart(x, y + 1)..])
        <==> forall x2: nat, y2: nat :: AtOrAfter(x, y + 1, x2, y2) ==> read(RowLine(text, x2, y2)) == Some(RowOf(g, x2, y2))
    ensures ReadLayers(GetLines(text, 6 * x + y), x, y, read) == Some(g[RowStart(x, y)..])
        <==> forall x2: nat, y2: nat :: AtOrAfter(x, y, x2, y2) ==> read(RowLine(text, x2, y2)) == Some(RowOf(g, x2, y2))
  {
    forall x2: nat, y2: nat
      ensures AtOrAfter(x, y, x2, y2) == ((x2 == x && y2 == y) || AtOrAfter(x, y + 1, x2, y2))
    {
    }
    ReadLayersValuesStep(text, g, x, y, read);
  }

  /** One row of ReadLayersValues: the loops read the rest of g from row (x, y) iff that row and the rest after it read right. */
  lemma {:induction false} ReadLayersValuesStep(text: string, g: Grid, x: nat, y: nat, read: string -> Option<seq<int32>>)
    requires x < XSize && y < YSize && RowReader(read)
    ensures ReadLayers(GetLines(text, 6 * x + y), x, y, read) == Some(g[RowStart(x, y)..])
        <==> (read(RowLine(text, x, y)) == Some(RowOf(g, x, y))
          && ReadLayers(GetLines(text, 6 * x + y + 1), x, y + 1, read) == Some(g[RowStart(x, y + 1)..]))
  {
    LinesBeforeRow(text, x, y);
    RowStartNext(x, y);
    var s := RowStart(x, y);
    var row := read(RowLine(text, x, y));
    var rest := ReadLayers(GetLines(text, 6 * x + y + 1), x, y + 1, read);
    assert g[s..][..ZSize] == RowOf(g, x, y);
    assert g[s..][ZSize..] == g[RowStart(x, y + 1)..];
    if row.Some? && rest.Some? {
      SplitAt(row.value, rest.value, g[s..]);
    }
  }

  /** An import fails exactly when the line of some row does not read as ZSize values. */
  lemma {:induction false} ParseMazeFails(text: string)
    ensures ParseMaze(text).None? <==> exists x: nat, y: nat :: x < XSize && y < YSize && ReadRow(RowLine(text, x, y)).None?
  {
    ReadMazeRows(Open(text), 0);
    ReadLayersFails(text, 0, 0, ReadRow);
    forall x: nat, y: nat ensures AtOrAfter(0, 0, x, y) == (x < XSize && y < YSize) {
    }
  }

  /** An import yields the grid g exactly when the line of every row reads as that row's cells. */
  lemma {:induction false} ParseMazeRows(text: string, g: Grid)
    ensures ParseMaze(text) == Some(g)
        <==> forall x: nat, y: nat :: x < XSize && y < YSize ==> ReadRow(RowLine(text, x, y)) == Some(RowOf(g, x, y))
  {
    ReadMazeRows(Open(text), 0);
    ReadLayersValues(text, g, 0, 0, ReadRow);
    forall x: nat, y: nat ensures AtOrAfter(0, 0, x, y) == (x < XSize && y < YSize) {
    }
    assert g[RowStart(0, 0)..] == g;
  }
}
