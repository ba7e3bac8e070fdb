# Pathfinder maze store, modelled in Dafny

`Pathfinder` keeps one maze: a 5×5×5 grid of `int` cells, `maze[x][y][z]`.
Three of its operations have bodies:

- `wipeMaze` sets every cell to 1.
- `toString` writes the grid as text. There is one block per layer `x`, and one line per row `y` inside a block. A row line holds the values `maze[x][y][0..4]` separated by single spaces. Every row line ends with a newline, and a further empty line follows each layer but the last.
- `importMaze` reads a file in that layout back into the grid:
  - for each layer, it calls `getline` once per row and `ss >> value` five times on that line;
  - after each layer, it calls `getline` once more and ignores the line;
  - a file that did not open, or any failed read, wipes the grid and returns false.

The model is imperative where the source is. Class `MazeStore.Pathfinder` holds the grid as a 125-cell `array<int32>`, with `maze[x][y][z]` at `Index(x, y, z) = 25x + 5y + z`. Its methods run the source's nested loops, and each is proved against a specification function:

- `Render` for `toString`;
- `ReadRow`, `ReadLayer`, `ReadMaze` and `ParseMaze` for `importMaze`. `ReadMaze` runs its loops a layer at a time, as the code does. `ReadLayers` reads the same loops row by row, and a lemma proves the two agree;
- `AllOnes` for `wipeMaze`.

The C++ library behaviour the code depends on is modelled in modules of its own:

- `LineStream`: `std::getline` on a file stream, including its state bits.
- `IntStream`: `operator<<` and `operator>>` for a 32-bit `int`.
  - The read skips leading whitespace and takes an optional sign, then the longest run of digits.
  - The read fails when there is no digit or the value is out of range, because C++11 sets failbit on overflow.

The lemmas prove the following:

- **Round trip:** importing what `toString` writes yields the original grid, for every grid of `int` values. It is not limited to 0 and 1.
- **Accepted files:** exactly the texts whose 25 row lines each start with five numbers are accepted.
  - Anything after the fifth number on a row is ignored.
  - The line read after each layer is ignored.
- **Refused files:** the import fails in these cases:
  - a row line is empty, or is fewer than five numbers joined by single spaces;
  - a row line holds fewer than five such numbers, then whitespace, then a token that is not a number (a token after the fifth number is ignored);
  - the file consists of fewer than 29 lines, each terminated by a newline.
  - A short file whose last line has no newline is not refused on that account: every later row "reads" that last line again (see below).

Where the code and its doc comments disagree, the model follows the code:

- The text `toString` writes ends with a newline (Pathfinder.cpp:42), although the comment at Pathfinder.cpp:20 says there is none.
- The cells are written with the last index varying fastest (Pathfinder.cpp:34-41). The comment at Pathfinder.cpp:23-27 describes the first coordinate as the one that varies fastest.
- A failed import wipes the grid to all 1s (Pathfinder.cpp:94-96, 105-107). The comment at Pathfinder.cpp:71 says a failed import "does nothing".
- The import does not check that values are 0 or 1, or that the entrance and exit cells hold 1 (Pathfinder.cpp:98). It does not reject extra content either.

Two consequences of `getline`'s behaviour are modelled faithfully:

- A file that ends early, with its last line terminated, makes every later `getline` yield an empty `line`, so the import fails.
- If the last line has no terminating newline, `getline` sets eofbit on that line. Every later call then fails before erasing `line`, so each later row "reads" that same last line again.

## Model

| member | source | states |
|---|---|---|
| MazeStore.Pathfinder.constructor | Pathfinder.cpp:16-17 | A new store holds a grid of all 1s (what `toString` is documented to show before any maze exists). |
| MazeStore.Pathfinder.WipeMaze | Pathfinder.cpp:3-11 | Afterwards every one of the 125 cells `maze[x][y][z]` is 1, and the array is exactly `AllOnes()`. |
| MazeStore.Pathfinder.RowString | Pathfinder.cpp:36-41 | The inner loop writes the five values of row `y` of layer `x`, each as `operator<<` writes it, with one space between neighbours and none after the last. |
| MazeStore.Pathfinder.ToString | Pathfinder.cpp:32-50 | The result is `Render` of the grid: 29 lines, each terminated by a newline. They are the 25 row texts, in order of `x` and then `y`, with an empty line after layers 0–3. The grid is not changed. |
| MazeStore.Pathfinder.ReadRowInto | Pathfinder.cpp:89-100 | The five `ss >> value` reads on a row line succeed exactly when `ReadRow(line)` does. The cells of that row receive, in order, the values read before the first failing read. No other cell changes. |
| MazeStore.Pathfinder.ImportLayer | Pathfinder.cpp:86-103 | One pass of the outer loop, for layer `x`. It succeeds exactly when `ReadLayer` reads the layer's row lines. Then the cells before the layer keep their values, the layer's cells hold the values read in order, the cells after it are unchanged, and the stream is where `ReadLayer` leaves it. When a row fails, `ReadLayer` fails, so the import fails, and every cell outside the layer keeps its value. |
| MazeStore.Pathfinder.ImportMaze | Pathfinder.cpp:81-109 | The result is true exactly when the file opened and its text parses. On success the grid is the parsed grid; otherwise every cell is 1. |
| MazeFormat.Index | Pathfinder.cpp:34-37 | `maze[x][y][z]` is token `25x + 5y + z` of the text. Conversely, token `k` is cell `[k / 25][(k / 5) % 5][k % 5]`. |
| MazeFormat.ReadRow | Pathfinder.cpp:90-100 | A row line that reads yields exactly five values. |
| MazeFormat.ReadLayer | Pathfinder.cpp:86-103 | A pass over the rest of a layer, from row `y`, that succeeds yields five values for each remaining row and leaves the stream inside its text. |
| MazeFormat.ReadMaze | Pathfinder.cpp:86-103 | When the outer loop from layer `x` on succeeds, it yields 25 values for each remaining layer. |
| MazeFormat.ReadUpTo | Pathfinder.cpp:90-99 | After `n` reads, the stream has either yielded `n` values and is still good, or has failed with fewer values. |
| MazeFormat.ReadLayers | Pathfinder.cpp:86-103 | A successful run of the loops from row `y` of layer `x` yields exactly the cells of the remaining rows. |
| MazeProperties.LayerThenRest | Pathfinder.cpp:86-103 | The loops from row `y` of layer `x` on are the rest of that layer, then the layers after it from the stream the layer leaves. When the rest of the layer fails, so do the loops. |
| MazeProperties.ReadMazeRows | Pathfinder.cpp:86-103 | Reading the loops a layer at a time gives the same result as reading them row by row, from any layer on. |
| MazeProperties.ReadUpToStaysFailed | Pathfinder.cpp:92-96 | Once a read of a string stream has failed, further reads change nothing. |
| MazeProperties.ReadLayersFails | Pathfinder.cpp:86-103 | From a given row on, the loops fail exactly when some remaining row line does not read as five values. |
| MazeProperties.ReadLayersValues | Pathfinder.cpp:86-103 | From a given row on, the loops yield the rest of a grid `g` exactly when every remaining row line reads as that row of `g`. |
| MazeProperties.ParseMazeFails | Pathfinder.cpp:86-104 | An import fails exactly when the line of some row does not read as five values. |
| MazeProperties.ParseMazeRows | Pathfinder.cpp:86-104 | An import yields grid `g` exactly when each of the 25 row lines reads as the five cells of that row of `g`. |
| RoundTrip.RenderedRowLine | Pathfinder.cpp:42-46 | In the text of the grid, the line that `importMaze` reads for row `y` of layer `x` (`getline` call `6x + y`) is the text of that row. |
| RoundTrip.ImportRendered | Pathfinder.cpp:32-50 | Importing the text `toString` writes for any grid of `int` values yields that grid. |
| RoundTrip.ImportSeesRowLinesOnly | Pathfinder.cpp:102 | Two texts with the same 25 row lines import alike, whatever their separator lines and whatever follows the last row. |
| RoundTrip.EmptyLineFails | Pathfinder.cpp:89-96 | An empty row line does not read as a row. |
| RoundTrip.ImportTooFewLines | Pathfinder.cpp:88-96 | A file with fewer than 29 terminated lines lacks the last row line, so the import fails. |
| RowReading.ReadRowJoined | Pathfinder.cpp:90-100 | A row of five values, written as `toString` writes it, reads back as those values. Whatever follows it after a non-digit is ignored. |
| RowReading.ReadRowShort | Pathfinder.cpp:90-96 | A row line of fewer than five values, possibly none, joined by single spaces, does not read as a row. |
| RowReading.ReadRowBadToken | Pathfinder.cpp:90-96 | A row line with fewer than five values, then whitespace, then a token that is not a number, does not read as a row. |
| RowReading.ReadRowPrefix | Pathfinder.cpp:90-92 | The first `k` reads on a line that holds a row's first `k` values yield exactly those values, and stop just after the `k`-th. |
| IntStream.DigitsRoundTrip | Pathfinder.cpp:37 | The decimal digits written for a number read back as that number. |
| IntStream.ReadFormatted | Pathfinder.cpp:37 | `in >> n`, after any whitespace, on what `out << n` wrote for an `int` `n`, with no digit after it, yields `n` and stops right after it. |
| IntStream.ReadSigned | Pathfinder.cpp:92 | For an optional sign and a run of digits, the read yields the signed value of the digits, or fails when that value does not fit in an `int`. |
| IntStream.ReadOutOfRange | Pathfinder.cpp:92-94 | A number outside the range of `int` fails the read. |
| IntStream.ReadNotANumber | Pathfinder.cpp:92-94 | A token that does not start with a digit, after an optional sign, fails the read. |
| IntStream.Format | Pathfinder.cpp:37 | The text `out << n` writes is not empty and ends in a digit. It starts with '-' exactly when `n` is negative, and a digit follows the '-'. |
| IntStream.ReadInt | Pathfinder.cpp:92 | A successful `in >> n` consumes at least one character, ends on a digit and stops before any further digit. On a rest of line that is all whitespace, the read fails. |
| IntStream.FormatShape | Pathfinder.cpp:37 | The text of a number contains no whitespace or newline, and ends in a digit. |
| LineStream.GetLine | Pathfinder.cpp:88 | One `getline` call keeps the file's text and never moves the read position backwards. |
| LineStream.GetLines | Pathfinder.cpp:88 | After any number of `getline` calls the stream still reads the same text, at a position inside it. |
| LineStream.GetLinesOf | Pathfinder.cpp:88 | On a file of terminated lines plus an unterminated tail, `getline` call `n` yields line `n`. After the lines run out, every call yields the tail. |
| LineStream.GetLineUnterminated | Pathfinder.cpp:88 | `getline` on a last line without a newline takes that line and leaves the stream no longer good. |

## Left out

- `createRandomMaze` (Pathfinder.cpp:61-63) has an empty body, so there is nothing to model.
- `solveMaze` and `findPath` (Pathfinder.cpp:130-137) are left out: `findPath` has an empty body and returns no value, so it has no behaviour to state.
- The constructor is not in the source shown: Pathfinder.h, which declares it, is not part of this model. `MazeStore.Pathfinder.constructor` starts from the all-1s grid that the doc comment at Pathfinder.cpp:16-17 describes for a store with no maze yet.
- Opening the file by name (Pathfinder.cpp:82) is not modelled. It becomes two parameters of `ImportMaze`: whether the file opened, and its contents.
- The debug output to `cout` (Pathfinder.cpp:83, 93) is I/O, which the model does not include.
- Pathfinder.h, which defines `X_SIZE`, `Y_SIZE`, `Z_SIZE` and the fields, is not part of this model. The sizes are taken as 5, as the doc comment at Pathfinder.cpp:19-21 describes. `int` is taken to be 32 bits wide.
- Locale-dependent number formatting and parsing are not modelled. The model uses the "C" locale: the whitespace set of `isspace`, no digit grouping.
- `IntStream.ReadInt`: a stream whose successful read reached the end of the line has eofbit set, and C++ fails its next read. The model instead starts the next read at the end of the line, where it finds no digit. Either way the read fails, so the outcome is the same.
