# Game of Life on a torus, in Dafny

This project models the transition engine of `game_of_life.py`, a terminal Game of Life.

A *field* is a list of rows of display characters. One symbol marks a live cell (`#` by default) and another marks a dead cell (`.` by default). The grid wraps around at every edge, so it is a torus. One generation applies Conway's rule to every cell:

- a live cell with fewer than two or more than three live neighbours dies;
- a dead cell with exactly three live neighbours is born;
- every other cell stays as it is.

The neighbour count takes the eight surrounding cells, with row indices reduced modulo the number of rows and column indices reduced modulo the length of the first row.

Three modules:

- `GameOfLife` (`life.dfy`) models the engine:
  - the `ADJACENCY` offsets;
  - the neighbour count (`get_alive_neighbours`);
  - the cell rule (`get_next_cell_state`);
  - one generation (`step_field`).

  It also proves what these promise:
  - the offsets are exactly the Moore neighbourhood;
  - wrapped indices stay in bounds;
  - the count is at most 8 and counts the live offsets;
  - the rule is B3/S23 on the symbols' meaning;
  - each new cell depends only on the old field, and the cell's own neighbourhood at that;
  - characters that are neither symbol are carried along unchanged;
  - the all-dead field is a fixpoint;
  - shifting the torus commutes with a generation.
- `FieldFile` (`fieldfile.dfy`) models the clean-up each line of a field file gets before it becomes a row. That is Python 2's `str.strip()` followed by `replace(' ', '')`. The module proves that the resulting row has no spaces and no whitespace at either end, and that it keeps every visible character. It also proves that the clean-up is idempotent.
- `Patterns` (`patterns.dfy`) works through concrete fields with the default symbols on the model:
  - the block is a still life;
  - the blinker has period two;
  - the corner cell sees the opposite corner across the wrap;
  - two typical file lines give the rows they spell.

  A row-by-row checker (`StepByCheck`) reduces a concrete generation to cell checks the verifier evaluates.

Behaviour that follows the code:

- A cell that is neither symbol is not counted as a live neighbour. It is never born and never dies, and it is not turned into a dead cell.
- Loading a field validates nothing. Any shape and any characters are accepted. A field whose rows are shorter than its first row, or whose first row is empty while a later row is not, makes the first generation fail in the program. The model states this as the precondition `Steppable` of `Step`.
- When later rows are longer than the first, the program still runs. It wraps every column index by the first row's length. The model does the same.

## Model

| member | source | states |
|---|---|---|
| GameOfLife.OffsetsFor | game_of_life.py:35-40 | the inner comprehension for one row offset yields at most one pair per column offset and never (0, 0) |
| GameOfLife.Offsets | game_of_life.py:35-40 | the nested comprehension never yields (0, 0) |
| GameOfLife.OffsetsMembership | game_of_life.py:35-40 | an offset is produced by the nested comprehension exactly when both components come from the component lists and the offset is not (0, 0) |
| GameOfLife.OffsetsDistinct | game_of_life.py:35-40 | the comprehension over lists without repetitions yields no offset twice |
| GameOfLife.AdjacencyIsComprehension | game_of_life.py:35-40 | the comprehension over (-1, 0, 1) yields exactly the eight offsets of `Adjacency`, in the same order |
| GameOfLife.AdjacencyIsMooreNeighbourhood | game_of_life.py:35-40 | `Adjacency` holds eight distinct offsets, each component is in -1 .. 1, (0, 0) is absent, and every other pair with components in -1 .. 1 is present |
| GameOfLife.Wrap | game_of_life.py:82-84 | a wrapped index is always within 0 .. n-1, an index already in range is unchanged, and -1 and n wrap to the opposite edges |
| GameOfLife.At | game_of_life.py:84 | the wrapped lookup of an index already inside the field is the cell at that index |
| GameOfLife.AtOppositeEdge | game_of_life.py:82-84 | one step past the top, bottom, left or right edge reads the cell on the opposite edge |
| GameOfLife.WrapAdd | game_of_life.py:82-84 | wrapping before adding an offset lands on the same position as wrapping after, so positions on the torus compose |
| GameOfLife.Neighbours | game_of_life.py:83-86 | the neighbour list has one cell per offset of `Adjacency`, so exactly eight |
| GameOfLife.Count | game_of_life.py:87 | the occurrence count is at most the list length, and it is zero exactly when the value does not occur |
| GameOfLife.CountIsMultiplicity | game_of_life.py:87 | the occurrence count is the multiplicity of the value in the list |
| GameOfLife.AliveNeighbours | game_of_life.py:78-87 | the live-neighbour count is between 0 and 8, for any row and column index |
| GameOfLife.AliveNeighboursCountsLiveOffsets | game_of_life.py:78-87 | the count equals the number of Moore offsets (dy, dx) whose wrapped cell at (row + dy, col + dx) holds the alive symbol |
| GameOfLife.NoLiveNeighbours | game_of_life.py:78-87 | on a field holding only dead cells, with distinct symbols, every cell has zero live neighbours |
| GameOfLife.NeighboursShift | game_of_life.py:78-86 | a cell of a shifted field has the neighbours that its source cell had in the original field |
| GameOfLife.NextState | game_of_life.py:90-99 | the next state is the dead, the alive or the unchanged symbol: a live cell with fewer than 2 or more than 3 neighbours dies, a dead cell with exactly 3 is born, a live cell with 2 or 3 and a dead cell with other than 3 stay, and any other character stays |
| GameOfLife.NextStateIsConway | game_of_life.py:90-99 | with distinct symbols, the rule is B3/S23 on alive/dead/other, and the result is alive exactly when the cell survives with 2 or 3 neighbours or is born with 3 |
| GameOfLife.Step | game_of_life.py:102-114 | one generation keeps the number of rows and every row's length, and every new cell is the rule applied to the old cell and its live-neighbour count in the old field |
| GameOfLife.StepIsConway | game_of_life.py:102-114 | with distinct symbols, every new cell is Conway's rule on the old cell's state and on the number of its live toroidal neighbours |
| GameOfLife.StepKeepsForeignCells | game_of_life.py:95-99 | a character that is neither symbol is the same in the next generation |
| GameOfLife.AllDeadIsFixpoint | game_of_life.py:102-114 | a field holding only dead cells is unchanged by a generation |
| GameOfLife.StepIsLocal | game_of_life.py:102-114 | two fields of the same size that agree on a cell and on its eight wrapped neighbours give that cell the same next state |
| GameOfLife.StepCommutesWithShift | game_of_life.py:102-114 | a generation of a shifted torus is the shifted generation, so no row or column of the torus plays a special part |
| FieldFile.IsWhitespace | game_of_life.py:74 | a character is whitespace exactly when it is one of the ASCII characters 9 to 13 or the space |
| FieldFile.LeadingWhitespace | game_of_life.py:74 | the number of leading characters that are whitespace, stopping at the first that is not |
| FieldFile.TrailingWhitespace | game_of_life.py:74 | the number of trailing characters that are whitespace, stopping at the last that is not |
| FieldFile.StripLeading | game_of_life.py:74 | the result is empty or begins with a character that is not whitespace |
| FieldFile.StripTrailing | game_of_life.py:74 | the result is empty or ends with a character that is not whitespace |
| FieldFile.Strip | game_of_life.py:74 | the line without whitespace at either end: no longer than the line, and empty or with visible first and last characters |
| FieldFile.StripCutsOnlyWhitespace | game_of_life.py:74 | the stripped line is one contiguous slice of the line, and everything cut away before and after it is whitespace |
| FieldFile.RemoveSpaces | game_of_life.py:74 | the result holds no space, keeps every other character as often as the input has it, and leaves a line without spaces as it is |
| FieldFile.RemoveSpacesKeepsEnds | game_of_life.py:74 | removing spaces keeps a first and a last character that are not spaces |
| FieldFile.NormaliseRow | game_of_life.py:74 | a row read from a line holds no space and has no whitespace at either end |
| FieldFile.NormaliseRowKeepsVisible | game_of_life.py:74 | every character that is not whitespace occurs in the row as often as in the line |
| FieldFile.NormaliseRowIdempotent | game_of_life.py:74 | normalising a normalised row changes nothing |
| Patterns.AliveNeighboursListed | game_of_life.py:78-87 | the live-neighbour count is the sum over the eight wrapped positions around the cell |
| Patterns.StepByCheck | game_of_life.py:102-114 | a same-shaped field whose every cell passes the row-by-row rule check is the next generation |
| Patterns.BlockIsStillLife | game_of_life.py:102-114 | with the default symbols, a 2 x 2 block on a 4 x 4 torus is unchanged by a generation |
| Patterns.HorizontalBecomesVertical | game_of_life.py:102-114 | a horizontal blinker turns vertical |
| Patterns.VerticalBecomesHorizontal | game_of_life.py:102-114 | a vertical blinker turns horizontal |
| Patterns.BlinkerHasPeriodTwo | game_of_life.py:102-114 | the blinker changes in one generation and is back after two |
| Patterns.CornerSeesOppositeCorner | game_of_life.py:82-87 | on a 3 x 3 field whose only live cell is the far corner, cell (0, 0) counts one live neighbour, across both wraps |
| Patterns.PlainRowOfAFile | game_of_life.py:74 | a line of two visible cells and a line break gives the row of those two cells |
| Patterns.SpacedRowOfAFile | game_of_life.py:74 | spaces before and between the cells and the final line break are dropped |

## Left out

- `print_field` (lines 42-50): terminal output only.
- `init_field` (lines 53-64): it depends on a clock-seeded random generator and floating-point arithmetic.
- `load_field`: the file is not modelled, nor is the loop over its lines (lines 67-75); only the clean-up of one line (line 74) is. A field read from a file is the list of those rows.
- The command-line parsing (lines 118-126) is left out. As written, `--width` and `--height` are parsed as floats, which `range` in `init_field` rejects. `init_field` runs on every start (line 133), even when a file is given, so passing either option makes every run fail, including runs that load a file. That failure happens before any generation and is not modelled.
- The main loop (lines 138-145): printing, `sleep` and the interrupt handler.
- Symbols: the two symbols are modelled as single characters. The program accepts any string, and a random field is then built from those strings. A symbol that is not a single character cannot be written in this model.
- Step: the model requires `Steppable`. The program raises an `IndexError` or a `ZeroDivisionError` on the other fields, and the model does not represent that exception.
- AliveNeighbours: the model requires `Torus`: at least one row, a non-empty first row, and no shorter row. The program's function alone also returns a count on some other fields, as long as the cells it reads exist. Its only caller is `step_field`, and every call that `step_field` makes on a field where it does not raise meets `Torus`, so the precondition excludes no generation that the program completes.
- FieldFile.IsWhitespace: this is the ASCII whitespace that Python 2's byte-string `strip()` removes. Unicode whitespace is not modelled, and neither are byte encodings.
