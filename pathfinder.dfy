/**
 * The maze store of class Pathfinder: the grid `maze[x][y][z]` and the three
 * operations that read and write it.
 */
module MazeStore {
  import opened Options
  import opened IntStream
  import opened LineStream
  import opened MazeFormat
  import opened MazeProperties

  /** The sequence a with the values vs written over it from position s on. */
  function Splice(a: seq<int32>, s: nat, vs: seq<int32>): (r: seq<int32>)
    requires s + |vs| <= |a|
    ensures |r| == |a|
  {
    a[..s] + vs + a[s + |vs|..]
  }

  lemma {:induction false} SpliceNothing(a: seq<int32>, s: nat)
    requires s <= |a|
    ensures Splice(a, s, []) == a
  {
    assert a[..s] + a[s..] == a;
  }

  /** Writing one more value after the ones already written. */
  lemma {:induction false} SpliceSnoc(a: seq<int32>, s: nat, vs: seq<int32>, v: int32)
    requires s + |vs| < |a|
    ensures Splice(a, s, vs + [v]) == Splice(a, s, vs)[s + |vs| := v]
  {
    var k := s + |vs|;
    assert a[k..] == [a[k]] + a[k + 1..];
  }

  /**
   * Writing at most a row of values vs into row y of the layer stored,
   * done and rest hold (done being the rows before y) leaves the cells
   * before the layer and the cells after it as they were.
   */
  lemma {:induction false} LayerOutside(stored: seq<int32>, done: seq<int32>, rest: seq<int32>, y: nat, vs: seq<int32>)
    requires y < YSize && |done| == y * ZSize && |vs| <= ZSize && YSize * ZSize <= |rest|
    ensures Splice(stored + done + rest[y * ZSize..], |stored| + |done|, vs)[..|stored|] == stored
    ensures Splice(stored + done + rest[y * ZSize..], |stored| + |done|, vs)[|stored| + YSize * ZSize..] == rest[YSize * ZSize..]
  {
    var a := stored + done + rest[y * ZSize..];
    assert a[..|stored|] == stored;
    assert a[|stored| + YSize * ZSize..] == rest[YSize * ZSize..];
  }

  /** Writing a row after the values stored and done, over the cells of rest from position t on. */
  lemma {:induction false} SpliceRow(stored: seq<int32>, done: seq<int32>, rest: seq<int32>, t: nat, row: seq<int32>)
    requires t + |row| <= |rest|
    ensures Splice(stored + done + rest[t..], |stored| + |done|, row) == stored + (done + row) + rest[t + |row|..]
  {
    SpliceAfter(stored + done, rest[t..], row);
    assert rest[t..][|row|..] == rest[t + |row|..];
    assert stored + done + row == stored + (done + row);
  }

  /** Writing vs just after the part a of a sequence a + b. */
  lemma {:induction false} SpliceAfter(a: seq<int32>, b: seq<int32>, vs: seq<int32>)
    requires |vs| <= |b|
    ensures Splice(a + b, |a|, vs) == (a + vs) + b[|vs|..]
  {
    assert (a + b)[..|a|] == a;
    assert (a + b)[|a| + |vs|..] == b[|vs|..];
  }

  class Pathfinder {
    /** maze[x][y][z] is maze[Index(x, y, z)]. */
    const maze: array<int32>

    ghost predicate Valid()
    {
      maze.Length == CellCount
    }

    /** A store that has not generated or imported a maze shows all 1s. */
    constructor ()
      ensures Valid() && fresh(maze)
      ensures maze[..] == AllOnes()
    {
      maze := new int32[CellCount](_ => 1);
    }

    /** `wipeMaze`: every cell becomes 1. */
    method WipeMaze()
      requires Valid()
      modifies maze
      ensures maze[..] == AllOnes()
      ensures forall x: nat, y: nat, z: nat :: x < XSize && y < YSize && z < ZSize ==> maze[Index(x, y, z)] == 1
    {
      for x := 0 to XSize
        invariant forall k :: 0 <= k < 25 * x ==> maze[k] == 1
      {
        for y := 0 to YSize
          invariant forall k :: 0 <= k < 25 * x + 5 * y ==> maze[k] == 1
        {
          for z := 0 to ZSize
            invariant forall k :: 0 <= k < 25 * x + 5 * y + z ==> maze[k] == 1
          {
            maze[Index(x, y, z)] := 1;
          }
        }
      }
      assert maze[..] == AllOnes();
    }

    /**
     * The inner loop of `toString` for layer x, row y: the values
     * maze[x][y][0..ZSize] with a space after every one but the last.
     */
    method RowString(x: nat, y: nat) returns (t: string)
      requires Valid() && x < XSize && y < YSize
      ensures t == RowText(maze[..], 5 * x + y)
    {
      ghost var r := 5 * x + y;
      ghost var row := maze[..][5 * r..5 * r + ZSize];
      t := "";
      for z := 0 to ZSize
        invariant t == RowUpTo(row, z)
      {
        IndexInRow(x, y, z);
        var v := maze[Index(x, y, z)];
        assert v == row[z];
        t := t + Format(v);
        if z < ZSize - 1 {
          t := t + " ";
        }
      }
    }

    /**
     * `toString`: each row's values separated by single spaces, every row
     * followed by a newline, and one more newline after each layer but the
     * last, so the text ends with a newline. The grid is only read.
     */
    method ToString() returns (s: string)
      requires Valid()
      ensures s == Render(maze[..])
    {
      ghost var g: Grid := maze[..];
      s := "";
      for x := 0 to XSize
        invariant s == LinesText(RenderedLines(g)[..if x == XSize then LineCount else 6 * x])
      {
        for y := 0 to YSize
          invariant s == LinesText(RenderedLines(g)[..6 * x + y])
        {
          var t := RowString(x, y);
          s := s + t;
          RenderRowStep(g, x, y);
          s := s + "\n";
        }
        if x < XSize - 1 {
          RenderSeparatorStep(g, x);
          s := s + "\n";
        }
      }
      RenderWhole(g);
    }

    /**
     * The inner loop of `importMaze` for layer x, row y: ZSize `ss >> value`
     * on a string stream over line, each value stored in maze[x][y][z]
     * until a read fails. Only the cells of that row change: all of them
     * when the row reads, the ones read before the failing read otherwise.
     */
    method ReadRowInto(x: nat, y: nat, line: string) returns (ok: bool)
      requires Valid() && x < XSize && y < YSize
      modifies maze
      ensures ok == ReadRow(line).Some?
      ensures maze[..] == Splice(old(maze[..]), RowStart(x, y), ReadUpTo(line, ZSize).values)
    {
      RowStartNext(x, y);
      ghost var s := RowStart(x, y);
      ghost var before := maze[..];
      ghost var values: seq<int32> := [];
      SpliceNothing(before, s);
      var pos: nat := 0;
      for z := 0 to ZSize
        invariant ReadUpTo(line, z) == Reads(values, pos, true)
        invariant maze[..] == Splice(before, s, values)
      {
        var value := ReadInt(line, pos);
        if value.None? {
          assert ReadUpTo(line, ZSize) == Reads(values, pos, false) by {
            ReadUpToFails(line, z, values, pos);
            ReadUpToStaysFailed(line, z + 1, ZSize);
          }
          return false;
        }
        ReadUpToNext(line, z, values, pos, value.value.0, value.value.1);
        assert Index(x, y, z) == s + z;
        SpliceSnoc(before, s, values, value.value.0);
        ghost var cells := maze[..];
        maze[Index(x, y, z)] := value.value.0;
        assert maze[..] == cells[s + z := value.value.0];
        pos := value.value.1;
        values := values + [value.value.0];
      }
      return true;
    }

    /**
     * One pass of the outer loop of `importMaze`, for layer x: one `getline`
     * and one row of reads per row of the layer, then one more `getline`;
     * next is the stream after those calls. The cells before the layer hold
     * stored, the ones from it on hold rest. When every row reads, the
     * layer's cells hold the values ReadLayer reads and all other cells are
     * as they were; when a row fails, the cells outside the layer are as
     * they were.
     */
    method ImportLayer(x: nat, file: Source, ghost stored: seq<int32>, ghost rest: seq<int32>)
      returns (next: Source, ok: bool, ghost stored': seq<int32>, ghost rest': seq<int32>)
      requires Valid() && x < XSize && file.pos <= |file.text|
      requires maze[..] == stored + rest && |stored| == RowStart(x, 0)
      modifies maze
      ensures next.pos <= |next.text|
      ensures ok == ReadLayer(file, 0, ReadRow).Some?
      ensures ok ==> next == ReadLayer(file, 0, ReadRow).value.1
      ensures ok ==> stored' == stored + ReadLayer(file, 0, ReadRow).value.0 && rest' == rest[YSize * ZSize..]
      ensures ok ==> maze[..] == stored' + rest' && |stored'| == RowStart(x + 1, 0)
      ensures !ok ==> maze[..][..|stored|] == stored && maze[..][|stored| + YSize * ZSize..] == rest[YSize * ZSize..]
    {
      // The values read from the rows of the layer so far.
      ghost var done: seq<int32> := [];
      next := file;
      assert rest[0..] == rest;
      assert YSize * ZSize <= |rest| by {
        assert RowStart(x, 0) == 25 * x;
      }
      PrependLayerNothing(ReadLayer(file, 0, ReadRow));
      for y := 0 to YSize
        invariant next.pos <= |next.text|
        invariant |done| == y * ZSize && YSize * ZSize <= |rest|
        invariant maze[..] == stored + done + rest[y * ZSize..]
        invariant ReadLayer(file, 0, ReadRow) == PrependLayer(done, ReadLayer(next, y, ReadRow))
      {
        ghost var previous := next;
        ghost var a := maze[..];
        assert RowStart(x, y) == |stored| + |done| by {
          assert RowStart(x, 0) == 25 * x && RowStart(x, y) == 25 * x + 5 * y;
        }
        next := GetLine(next);
        var rowOk := ReadRowInto(x, y, next.line);
        if !rowOk {
          assert maze[..][..|stored|] == stored && maze[..][|stored| + YSize * ZSize..] == rest[YSize * ZSize..] by {
            LayerOutside(stored, done, rest, y, ReadUpTo(next.line, ZSize).values);
          }
          return next, false, stored, rest;
        }
        ghost var row := ReadRow(next.line).value;
        assert maze[..] == stored + (done + row) + rest[(y + 1) * ZSize..] by {
          assert maze[..] == Splice(a, |stored| + |done|, row);
          SpliceRow(stored, done, rest, y * ZSize, row);
        }
        assert ReadLayer(file, 0, ReadRow) == PrependLayer(done + row, ReadLayer(next, y + 1, ReadRow)) by {
          PrependLayerRow(previous, y, done);
        }
        done := done + row;
      }
      assert ReadLayer(file, 0, ReadRow) == Some((done, GetLine(next))) by {
        assert done + [] == done;
      }
      assert |stored + done| == RowStart(x + 1, 0) by {
        RowStartNext(x, YSize);
      }
      stored', rest' := stored + done, rest[YSize * ZSize..];
      next := GetLine(next);
      ok := true;
    }

    /**
     * `importMaze` on a file that opened (`isOpen`) with contents `contents`.
     * For each layer, one `getline` per row parsed with ZSize `ss >> value`
     * into the cells, then one more `getline` whose line is not looked at.
     * A failed read, or a file that did not open, wipes the grid and answers
     * false.
     */
    method ImportMaze(isOpen: bool, contents: string) returns (ok: bool)
      requires Valid()
      modifies maze
      ensures ok == (isOpen && ParseMaze(contents).Some?)
      ensures maze[..] == if ok then ParseMaze(contents).value else AllOnes()
    {
      if isOpen {
        var file := Open(contents);
        ghost var parsed := ReadMaze(file, 0, ReadRow);
        // The cells read so far, and the ones still to be read.
        ghost var stored: seq<int32> := [];
        ghost var rest := maze[..];
        PrependNothing(parsed);
        for x := 0 to XSize
          invariant file.pos <= |file.text|
          invariant maze[..] == stored + rest && |stored| == RowStart(x, 0)
          invariant parsed == Prepend(stored, ReadMaze(file, x, ReadRow))
        {
          ghost var layer := ReadLayer(file, 0, ReadRow);
          var layerOk;
          ghost var stored', rest';
          file, layerOk, stored', rest' := ImportLayer(x, file, stored, rest);
          if !layerOk {
            WipeMaze();
            return false;
          }
          assert parsed == Prepend(stored', ReadMaze(file, x + 1, ReadRow)) by {
            PrependPrepend(stored, layer.value.0, ReadMaze(file, x + 1, ReadRow));
          }
          stored, rest := stored', rest';
        }
        assert ParseMaze(contents) == Some(stored) by {
          assert stored + [] == stored;
        }
        assert rest == [] by {
          assert RowStart(XSize, 0) == CellCount;
        }
        return true;
      } else {
        WipeMaze();
        return false;
      }
    }
  }
}
