# Text blocks and box helpers of bracket-terminal, in Dafny

This project models two parts of the `bracket-terminal` crate and proves what they do.

**`TextBlock` and `TextBuilder`** (`bracket-terminal/src/consoles/text/textblock.rs`)

- A `TextBuilder` records a list of commands: `Text`, `NewLine`, `Foreground`, `Background` and `Reset`.
- A `TextBlock` is a fixed-size, row-major buffer of `width * height` tiles, with a cursor and current colours.
- `print` interprets the recorded commands in place:
  - it breaks each text into lines, by greedy word wrap or by hard chunks of `width - 1` characters;
  - it optionally centres the lines;
  - it writes glyphs and colours into the buffer;
  - it stops with `OutOfSpace` at the first character that would land outside the buffer.
- `render`, `render_to_draw_batch` and `render_to_draw_batch_clip` copy the buffer onto a console or into a draw batch.

**Box and bar helpers** (`bracket-terminal/src/consoles/text/gui_helpers.rs`)

- Filled and hollow boxes, with single or double code page 437 outlines.
- Horizontal and vertical progress bars.

## Layout of the model

- `terminal.dfy`, module `Terminal`:
  - colours, tiles and rectangles;
  - the console, a map from cell to tile whose `Set` overwrites one cell;
  - the draw batch, a list of commands that `Set` appends to.
- `line_breaking.dfy`, module `LineBreaking`:
  - `Split`, which models Rust's `split(' ')`, and its inverse `Join`;
  - the two layouts as functions: `Chunks` (no wrap) and `WrapLines` (greedy word wrap);
  - `BreakLines`, the nested loop `print` runs, proved to produce exactly those layouts;
  - lemmas about both layouts.
- `text_print.dfy`, module `TextPrint`:
  - `print` as a function of the block state: `Run` over the commands, `Exec` for one command, `ExecText` for a `Text`;
  - where each character lands: `Placements`, `FirstOutside` and the buffer after the writes, `Apply`;
  - lemmas about the interpreter.
- `textblock.dfy`, module `TextBlocks`:
  - the classes `TextBuilder` and `TextBlock`;
  - `TextBlock.Print` updates an `array` in place and is proved equal to `Run`;
  - the render methods are proved against `Rendered`, `GridCommands` and `ClipCommands`.
- `gui_helpers.dfy`, module `GuiHelpers`:
  - each helper is a method on a `Console`;
  - its postcondition says that the console after the call is the console before it, overwritten where a tile function (`OutlineTile`, `BoxTile`, `HorizontalBarTile`, `VerticalBarTile`) is defined;
  - the lemmas state what those tile functions promise.

Parameters and fixed assumptions:

- `ColoredTextSpans::new` and `string_to_cp437` are parameters of `print` (`parse` and `glyphOf`).
- A console's clear glyph is a field of the console.
- The bar helpers take their fill as an integer.
- Padding is zero throughout.

## Model

| member | source | states |
|---|---|---|
| `TextBlocks.TextBuilder.Empty` | bracket-terminal/src/consoles/text/textblock.rs:354-362 | A new builder has no commands, and every flag is off except `colored`. |
| `TextBlocks.TextBuilder.Wrap` | bracket-terminal/src/consoles/text/textblock.rs:364-367 | Sets the wrap flag only. |
| `TextBlocks.TextBuilder.CenterX` | bracket-terminal/src/consoles/text/textblock.rs:369-372 | Sets the horizontal-centring flag only. |
| `TextBlocks.TextBuilder.CenterY` | bracket-terminal/src/consoles/text/textblock.rs:374-377 | Sets the vertical-centring flag only. |
| `TextBlocks.TextBuilder.ColoredMode` | bracket-terminal/src/consoles/text/textblock.rs:395-398 | Sets the colour flag only. |
| `TextBlocks.TextBuilder.Append` | bracket-terminal/src/consoles/text/textblock.rs:379-385 | Appends exactly one `Text`, which captures the four current flags. |
| `TextBlocks.TextBuilder.Centered` | bracket-terminal/src/consoles/text/textblock.rs:387-393 | Appends exactly one `Text` with `center_x` forced on; all four flags end as they were. |
| `TextBlocks.TextBuilder.LineWrap` | bracket-terminal/src/consoles/text/textblock.rs:428-434 | Appends exactly one `Text` with `wrap` forced on; all four flags end as they were. |
| `TextBlocks.TextBuilder.Reset` | bracket-terminal/src/consoles/text/textblock.rs:400-407 | Turns all four flags off, `colored` included, and appends one `Reset`. |
| `TextBlocks.TextBuilder.Ln` | bracket-terminal/src/consoles/text/textblock.rs:408-411 | Appends exactly one `NewLine`. |
| `TextBlocks.TextBuilder.Fg` | bracket-terminal/src/consoles/text/textblock.rs:412-419 | Appends exactly one `Foreground` with the colour. |
| `TextBlocks.TextBuilder.Bg` | bracket-terminal/src/consoles/text/textblock.rs:420-427 | Appends exactly one `Background` with the colour. |
| `TextBlocks.TextBlock.New` | bracket-terminal/src/consoles/text/textblock.rs:31-50 | The buffer holds exactly `width * height` tiles, each glyph 0 in white on black. The cursor is `(0, 0)`, the current colours are white and black, and the buffer is a constant array whose length never changes. |
| `TextBlocks.TextBlock.NewWithColor` | bracket-terminal/src/consoles/text/textblock.rs:52-74 | As `New`, with the given colours in every tile and as the current colours. |
| `TextBlocks.TextBlock.SetFg` | bracket-terminal/src/consoles/text/textblock.rs:76-81 | The current foreground becomes the given RGB, made opaque. |
| `TextBlocks.TextBlock.SetBg` | bracket-terminal/src/consoles/text/textblock.rs:83-88 | The current background becomes the given colour. |
| `TextBlocks.TextBlock.MoveTo` | bracket-terminal/src/consoles/text/textblock.rs:90-92 | The cursor becomes `(x, y)`. |
| `TextBlocks.TextBlock.GetCursor` | bracket-terminal/src/consoles/text/textblock.rs:94-96 | Returns the cursor. |
| `TextBlocks.TextBlock.GetOrigin` | bracket-terminal/src/consoles/text/textblock.rs:98-100 | Returns the origin `(x, y)`. |
| `TextBlocks.TextBlock.SetOrigin` | bracket-terminal/src/consoles/text/textblock.rs:102-105 | The origin becomes the given point. |
| `TextBlocks.AtInside` | bracket-terminal/src/consoles/text/textblock.rs:107-109 | The row-major index `y * width + x` of a cell inside the block lies inside the buffer. |
| `TextPrint.At` | bracket-terminal/src/consoles/text/textblock.rs:107-109 | The row-major index `y * width + x` of cell `(x, y)`; `TextPrint.AtRowMajor` and `TextBlocks.AtInside` state what it promises. |
| `TextPrint.AtRowMajor` | bracket-terminal/src/consoles/text/textblock.rs:107-109 | For a column inside the row, the index gives the cell back: division by `width` gives the row, the remainder gives the column. |
| `TextBlocks.TextBlock.Render` | bracket-terminal/src/consoles/text/textblock.rs:111-123 | Console cell `(i + x, j + y)` holds block cell `(i, j)` for every cell of the block, and every other console cell is unchanged. |
| `TextBlocks.TextBlock.RenderToDrawBatch` | bracket-terminal/src/consoles/text/textblock.rs:125-135 | Appends one command per cell, row after row, each at the cell's console position with the cell's tile. |
| `TextBlocks.TextBlock.RenderToDrawBatchClip` | bracket-terminal/src/consoles/text/textblock.rs:137-147 | Appends the commands of the cells inside the clip rectangle (`ClipCommands`). |
| `TextBlocks.TextBlock.RenderRegion` | bracket-terminal/src/consoles/text/textblock.rs:138-146 | The two nested loops of the batch renderers append the commands of the given rows and columns, row after row. |
| `TextBlocks.TextBlock.RenderRow` | bracket-terminal/src/consoles/text/textblock.rs:139-145 | The inner loop appends the commands of one row's columns, left to right. |
| `TextBlocks.GridCommandsLength` | bracket-terminal/src/consoles/text/textblock.rs:126-134 | A render of a region emits one command per cell: rows times columns. |
| `TextBlocks.ClipCommandsCells` | bracket-terminal/src/consoles/text/textblock.rs:137-147 | A clipped render emits exactly `rows * columns` commands. Each draws a cell with `max(0, clip.x1) <= x < min(width, clip.x2)` and `max(0, clip.y1) <= y < min(height, clip.y2)`, at `(x + self.x, y + self.y)`, with that cell's tile. |
| `TextBlocks.ClipCommandsCover` | bracket-terminal/src/consoles/text/textblock.rs:138-139 | Every cell inside the clip bounds has its command in a clipped render. |
| `TextBlocks.CoveringClip` | bracket-terminal/src/consoles/text/textblock.rs:125-147 | A clip rectangle that covers the block renders exactly what the unclipped render does. |
| `TextBlocks.TextBlock.Print` | bracket-terminal/src/consoles/text/textblock.rs:178-314 | The in-place run of the commands leaves the buffer, cursor and colours, and returns the outcome, exactly as `Run` says. |
| `TextBlocks.TextBlock.PrintCommand` | bracket-terminal/src/consoles/text/textblock.rs:179-311 | One command of the loop, in place, agrees with `Exec` on buffer, cursor, colours and outcome. |
| `TextBlocks.TextBlock.PrintText` | bracket-terminal/src/consoles/text/textblock.rs:180-297 | One `Text` command, in place, agrees with `ExecText`. |
| `TextBlocks.TextBlock.CollectSpans` | bracket-terminal/src/consoles/text/textblock.rs:187-204 | The span loop yields the span text, and a colour map holding exactly the positions whose span colour differs from the current foreground. |
| `TextBlocks.TextBlock.PlaceText` | bracket-terminal/src/consoles/text/textblock.rs:266-296 | Setting the start row and writing the lines agrees with `ExecText`. |
| `TextBlocks.TextBlock.WriteLines` | bracket-terminal/src/consoles/text/textblock.rs:274-296 | The buffer becomes the old buffer with the writes of all placements before the first outside one. The result is `OutOfSpace` exactly when such a placement exists, and the cursor is as `ExecText` says. |
| `TextBlocks.TextBlock.WriteLine` | bracket-terminal/src/consoles/text/textblock.rs:275-295 | One line's characters go one column after the other. It stops at the first character outside the buffer, with the cursor on that character's column. |
| `TextBlocks.PrintTextAgrees` | bracket-terminal/src/consoles/text/textblock.rs:266-296 | The start row `print` computes, with the lines written from it, is the outcome `ExecText` states. |
| `TextPrint.Run` | bracket-terminal/src/consoles/text/textblock.rs:178-314 | The reference meaning of `print`: the commands in order, stopping at the first `OutOfSpace`. A list with no `Text` command never fails and leaves the buffer alone. |
| `TextPrint.Exec` | bracket-terminal/src/consoles/text/textblock.rs:179-311 | One command. It keeps the buffer's length, and only a `Text` can return `OutOfSpace`. |
| `TextPrint.ExecText` | bracket-terminal/src/consoles/text/textblock.rs:180-297 | One `Text` command: lay out, write each character until one falls outside the buffer, and set the cursor. It keeps the buffer's length and never changes the current colours. |
| `TextPrint.ControlCommands` | bracket-terminal/src/consoles/text/textblock.rs:299-310 | `NewLine` sets the cursor to `(0, cursor.1 + 1)`. `Foreground` and `Background` replace only their colour. `Reset` sets the cursor to `(0, 0)` and the colours to white and black. None of them touches the buffer or fails. |
| `TextPrint.RunKeepsLength` | bracket-terminal/src/consoles/text/textblock.rs:178-314 | `print` never changes the length of the buffer. |
| `TextPrint.RunConcat` | bracket-terminal/src/consoles/text/textblock.rs:179-313 | Running two command lists one after the other is running their concatenation. Once a command returns `OutOfSpace`, no later command runs, and the second list need not even be printable. |
| `TextPrint.RunStep` | bracket-terminal/src/consoles/text/textblock.rs:179-313 | One iteration of the command loop: the first command runs, and either its `OutOfSpace` is the result, or the rest is reached and runs from the new state. |
| `TextPrint.OutOfSpaceEndsPrint` | bracket-terminal/src/consoles/text/textblock.rs:285-293 | A command that runs out of space ends `print`: the commands after it, printable or not, are never run. |
| `TextPrint.AllPrintableReaches` | bracket-terminal/src/consoles/text/textblock.rs:178-314 | A list whose every command is printable satisfies the precondition of `print` from any state. |
| `TextPrint.TextIgnoresCursor` | bracket-terminal/src/consoles/text/textblock.rs:266-283 | A `Text` does not depend on the cursor. It always starts on row 0, or on `height/2 - lines/2` when centred vertically. |
| `TextPrint.NewLineBeforeText` | bracket-terminal/src/consoles/text/textblock.rs:266-302 | A `NewLine` directly before a `Text` has no effect on the result. |
| `TextPrint.TextOutcome` | bracket-terminal/src/consoles/text/textblock.rs:284-293 | A `Text` returns `OutOfSpace` exactly when some character's index is outside `[0, width * height)`, negative indices from centring included. |
| `TextPrint.TextBuffer` | bracket-terminal/src/consoles/text/textblock.rs:284-296 | After a `Text`, each cell holds the last tile written to it before the first character that did not fit, or else its old tile. |
| `TextPrint.ColorMapLookup` | bracket-terminal/src/consoles/text/textblock.rs:192-200 | Looking up a character position gives its span's colour, or the current foreground past the spans. |
| `TextPrint.FirstOutside` | bracket-terminal/src/consoles/text/textblock.rs:285-293 | The writes that happen are exactly those before the first placement outside the buffer. |
| `TextPrint.ApplyAt` | bracket-terminal/src/consoles/text/textblock.rs:285-290 | After a run of writes, each cell holds the last tile written to it, or else its old tile. |
| `TextPrint.ApplyIdempotent` | bracket-terminal/src/consoles/text/textblock.rs:285-290 | Repeating the same writes changes nothing. |
| `TextPrint.RepeatedText` | bracket-terminal/src/consoles/text/textblock.rs:266-296 | Printing the same text twice in a row, when the first print fits, leaves the block exactly as printing it once. |
| `TextPrint.PlacementOfLine` | bracket-terminal/src/consoles/text/textblock.rs:276-286 | Character `j` of line `i` goes to row `row0 + i`, at column `x0 + j`, where `x0` is 0 or the centring column. |
| `TextPrint.LineOfPlacements` | bracket-terminal/src/consoles/text/textblock.rs:276-286 | The characters of line `i` are placed one column after the other, starting after all characters of the earlier lines. |
| `TextPrint.PlacementsLength` | bracket-terminal/src/consoles/text/textblock.rs:276-296 | There is one placement per character of the lines. |
| `TextPrint.PlainTextFits` | bracket-terminal/src/consoles/text/textblock.rs:206-296 | Take a non-empty text with no wrap and no centring, in a `width >= 2` block. It prints `Ok` exactly when its chunks of `width - 1` characters are no more than `height` rows. |
| `TextPrint.PlainTextOverflows` | bracket-terminal/src/consoles/text/textblock.rs:285-293 | The first character of chunk number `height` lands at index `width * height`, past the end of the buffer. |
| `TextPrint.PlainTextInside` | bracket-terminal/src/consoles/text/textblock.rs:274-290 | Chunks that fit in the rows place every character inside the buffer. |
| `TextPrint.Layout` | bracket-terminal/src/consoles/text/textblock.rs:206-264 | Breaking a text always yields at least one line. |
| `LineBreaking.Split` | bracket-terminal/src/consoles/text/textblock.rs:207 | `split(' ')` yields at least one piece, and no piece contains a space. |
| `LineBreaking.SplitThenJoin` | bracket-terminal/src/consoles/text/textblock.rs:206-210 | Joining the pieces of `split(' ')` with single spaces gives the text back. |
| `LineBreaking.JoinThenSplit` | bracket-terminal/src/consoles/text/textblock.rs:206-210 | Space-free pieces, joined and split again, come back unchanged. |
| `LineBreaking.ChunksPartition` | bracket-terminal/src/consoles/text/textblock.rs:241-263 | Without wrap, for `width >= 2`: every chunk but the last has exactly `width - 1` characters and the last has at most that many. No chunk of a non-empty text is empty, and the chunks concatenate to the text. |
| `LineBreaking.WrapKeepsText` | bracket-terminal/src/consoles/text/textblock.rs:206-262 | With wrap, the lines read one after the other give back the text without its leading spaces. |
| `LineBreaking.WrapLinesStartWithWord` | bracket-terminal/src/consoles/text/textblock.rs:228-258 | Every wrapped line after the first starts with a word character, not with a space. |
| `LineBreaking.WrapLinesEndWithSpace` | bracket-terminal/src/consoles/text/textblock.rs:228-258 | Every wrapped line before the last that holds text ends with a space. With `WrapLinesStartWithWord`, a line break falls only after a separating space, so each word stays whole on one line. |
| `LineBreaking.WrapKeepsWords` | bracket-terminal/src/consoles/text/textblock.rs:223-262 | The wrapped lines hold every word, each preceded by one space when some text comes before it. |
| `LineBreaking.WrapLinesFilled` | bracket-terminal/src/consoles/text/textblock.rs:223-262 | Only the first wrapped line can be empty. |
| `LineBreaking.WrapColumnBound` | bracket-terminal/src/consoles/text/textblock.rs:234-262 | When every word fits on a line, no wrapped line holds a word character beyond column `width - 1`; the only thing past it can be a trailing separator space. |
| `LineBreaking.WrapIsGreedy` | bracket-terminal/src/consoles/text/textblock.rs:241-262 | Each wrapped line after the first begins with a word that would have pushed the previous line past `width - 1`. |
| `LineBreaking.FilledLastLine` | bracket-terminal/src/consoles/text/textblock.rs:228-232 | In a layout where only the first line may be empty, the last line is empty exactly when the whole layout is. This is when the space before a word is added. |
| `LineBreaking.ChunksUnfold` | bracket-terminal/src/consoles/text/textblock.rs:244-252 | A text longer than a line is one full chunk of `width - 1` characters, followed by the chunks of the rest. |
| `LineBreaking.PlaceWord` | bracket-terminal/src/consoles/text/textblock.rs:234-262 | The inner `while` loop: with wrap, it places the word whole on the current line or on a new one; without wrap, it produces the chunks of the word. |
| `LineBreaking.BreakLines` | bracket-terminal/src/consoles/text/textblock.rs:220-263 | The line-breaking loop yields exactly `WrapLines(words)` with wrap and `Chunks(text)` without. |
| `LineBreaking.Chunks` | bracket-terminal/src/consoles/text/textblock.rs:241-263 | The layout without wrap: consecutive chunks of `width - 1` characters, at least one line. `LineBreaking.ChunksPartition` states its invariant. |
| `LineBreaking.WrapLines` | bracket-terminal/src/consoles/text/textblock.rs:220-262 | The layout with wrap: the words placed greedily, left to right, at least one line for at least one word. `WrapKeepsWords`, `WrapLinesFilled`, `WrapColumnBound`, `WrapLinesStartWithWord`, `WrapLinesEndWithSpace` and `WrapIsGreedy` state what it promises. |
| `GuiHelpers.DrawBox` | bracket-terminal/src/consoles/text/gui_helpers.rs:6-39 | The console afterwards holds the box of `BoxTile` with the clear glyph as fill. Every other cell is as it was. |
| `GuiHelpers.DrawHollowBox` | bracket-terminal/src/consoles/text/gui_helpers.rs:77-98 | Only the outline cells change, to the single-line glyphs; every other cell is as it was. |
| `GuiHelpers.DrawBoxDouble` | bracket-terminal/src/consoles/text/gui_helpers.rs:101-134 | Fills with glyph 32, in white on black, both carrying `fg`'s alpha, then draws the double outline. Every other cell is as it was. |
| `GuiHelpers.DrawHollowBoxDouble` | bracket-terminal/src/consoles/text/gui_helpers.rs:137-158 | Only the outline cells change, to the double-line glyphs; every other cell is as it was. |
| `GuiHelpers.FillRect` | bracket-terminal/src/consoles/text/gui_helpers.rs:15-25 | Every cell of `[sx, sx + width) x [sy, sy + height)` holds the fill tile; every other cell is as it was. |
| `GuiHelpers.DrawOutline` | bracket-terminal/src/consoles/text/gui_helpers.rs:27-38 | The corners, then the horizontal edges, then the vertical edges leave exactly the outline of `OutlineTile`. |
| `GuiHelpers.DrawHorizontalEdges` | bracket-terminal/src/consoles/text/gui_helpers.rs:31-34 | The glyph is drawn on rows `sy` and `sy + height` at columns `(sx, sx + width)`, and nothing else changes. |
| `GuiHelpers.DrawVerticalEdges` | bracket-terminal/src/consoles/text/gui_helpers.rs:35-38 | The glyph is drawn on columns `sx` and `sx + width` at rows `(sy, sy + height)`, and nothing else changes. |
| `GuiHelpers.FilledBox` | bracket-terminal/src/consoles/text/gui_helpers.rs:15-38 | A fill followed by an outline draws the outline over the fill. |
| `GuiHelpers.OutlineCompose` | bracket-terminal/src/consoles/text/gui_helpers.rs:27-38 | Composing the three groups of writes in source order gives the last-writer-wins outline. |
| `GuiHelpers.Corners` | bracket-terminal/src/consoles/text/gui_helpers.rs:27-30 | With non-zero extents, `(sx, sy)`, `(sx + width, sy)`, `(sx, sy + height)` and `(sx + width, sy + height)` hold ┌ ┐ └ ┘ (or ╔ ╗ ╚ ╝). |
| `GuiHelpers.Edges` | bracket-terminal/src/consoles/text/gui_helpers.rs:31-38 | Every `x` in `(sx, sx + width)` on rows `sy` and `sy + height` holds ─. Every `y` in `(sy, sy + height)` on columns `sx` and `sx + width` holds │. |
| `GuiHelpers.OutlineIsBorder` | bracket-terminal/src/consoles/text/gui_helpers.rs:86-97 | For non-negative extents, the outline covers exactly the border of `[sx, sx + width] x [sy, sy + height]`: `width + 1` columns and `height + 1` rows. |
| `GuiHelpers.InteriorFilled` | bracket-terminal/src/consoles/text/gui_helpers.rs:15-38 | After a filled box, every strictly interior cell holds the fill, because no border write touches it. |
| `GuiHelpers.BoxBounds` | bracket-terminal/src/consoles/text/gui_helpers.rs:15-38 | A filled box with non-negative extents touches no cell outside `[sx, sx + width] x [sy, sy + height]`. |
| `GuiHelpers.DrawBarHorizontal` | bracket-terminal/src/consoles/text/gui_helpers.rs:174-180 | The console afterwards holds the bar of `HorizontalBarTile`; every other cell is as it was. |
| `GuiHelpers.DrawBarVertical` | bracket-terminal/src/consoles/text/gui_helpers.rs:196-203 | The console afterwards holds the bar of `VerticalBarTile`, with fill line `height - filled`; every other cell is as it was. |
| `GuiHelpers.HorizontalBarCells` | bracket-terminal/src/consoles/text/gui_helpers.rs:174-180 | The bar writes exactly the `width` cells `sx + x` of row `sy`. Exactly the first `min(width, fillWidth + 1)` of them are ▓, so a bar with fill 0 still shows one ▓. |
| `GuiHelpers.VerticalBarCells` | bracket-terminal/src/consoles/text/gui_helpers.rs:196-203 | For any fill line, the bar writes exactly the `height` cells `sy + y` of column `sx`. Exactly those with `y >= fillHeight` are ▓: the cells from `min(height, max(0, fillHeight))` down, and their count. An empty bar shows no ▓; a fill line above the top, from `n > max`, makes every cell ▓; one below the end, from `n < 0`, makes none. |
| `GuiHelpers.RowCellsCount` | bracket-terminal/src/consoles/text/gui_helpers.rs:174 | A row range `[lo, hi)` has `hi - lo` cells, or none. |
| `GuiHelpers.ColumnCellsCount` | bracket-terminal/src/consoles/text/gui_helpers.rs:197 | A column range `[lo, hi)` has `hi - lo` cells, or none. |

## Left out

- Padding: `set_padding`, `get_padding`, `vertical_padding`, `horizontal_padding` and `len_with_padding` (textblock.rs:316-334) are not modelled. They compute in `f32` with `ceil`. Padding is fixed at zero, so each helper adds nothing and a line's length is its number of characters.
- `render_to_draw_batch_fancy` (textblock.rs:149-176) and `draw_box_fancy` (gui_helpers.rs:41-74) are not modelled: they place tiles at `f32` positions with rotation and scale.
- The bar percentage (gui_helpers.rs:172-173, 195-196) is computed in `f32` and is not modelled. `DrawBarHorizontal` takes `fill_width` as an input, and `DrawBarVertical` takes the filled height as an input.
- `string_to_cp437`, `to_cp437` and `ColoredTextSpans::new` are not part of this model. They are the parameters `glyphOf` and `parse`, and text is a sequence of characters that becomes glyphs one for one when written.
- `Console` and `DrawBatch` are not part of this model beyond `set`. `Console.Set` overwrites one cell of a map and keeps no bounds, so a console that drops writes outside its size is not modelled. `DrawBatch.Set` appends one command.
- Colour channels are `f32` in the source and `real` here. The comparison `fg != self.fg` in the span loop (textblock.rs:193) is exact equality of reals. A NaN channel, which never equals itself, is not modelled, nor is `f32` rounding.
- Integers are unbounded. Overflow of `i32` arithmetic and the `usize` casts of sizes and indices are not modelled. A negative index from centring is out of range in the model, as the wrapped `usize` is in the source.
- `TextBlocks.TextBlock.Print`: it requires `Reaches`: every command `print` gets to, up to and including the first that runs out of space, must be `Printable`. In wrap mode every word must fit on a line of its own, and without wrap the text must be empty or `width >= 2`. On a reached command that is not printable, the source loops forever, pushing empty lines, or underflows `width - 1`, so totality is not claimed there. Commands after an `OutOfSpace` are never looked at and need not be printable.
- `TextPrint.Apply`: a write outside the buffer would leave the buffer unchanged. `print` never performs one, since it stops at the first, so that branch is never reached.
- The source's test `textblock_wrap_error` (textblock.rs:455-466) expects `OutOfSpace`. The model does not state that outcome: each `Text` restarts at row 0 (`TextPrint.TextIgnoresCursor`), and each wrapped paragraph there fits in two 80-column rows. Printing the same wrapped text twice therefore changes nothing the second time (`TextPrint.RepeatedText`).
- Display and `Debug` formatting of `OutOfSpace` (textblock.rs:21-29) is not modelled; it is text output only.
