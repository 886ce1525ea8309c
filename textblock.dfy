/**
 * The two objects of bracket-terminal/src/consoles/text/textblock.rs:
 * `TextBuilder`, which records commands, and `TextBlock`, a fixed-size
 * row-major tile buffer with a cursor and current colours that prints those
 * commands in place and renders itself onto a console or a draw batch.
 * Each method is proved against the functions of `TextPrint`.
 */
module TextBlocks {
  import opened Terminal
  import opened LineBreaking
  import opened TextPrint

  /** Records the commands a `TextBlock` prints; the four flags shape each recorded `Text`. */
  class TextBuilder {
    var wrap: bool
    var centerX: bool
    var centerY: bool
    var colored: bool
    var commands: seq<Command>

    /** `TextBuilder::empty`: no commands, every flag off except colours. */
    constructor Empty()
      ensures !wrap && !centerX && !centerY && colored
      ensures commands == []
    {
      wrap, centerX, centerY, colored := false, false, false, true;
      commands := [];
    }

    method Wrap(on: bool)
      modifies this`wrap
      ensures wrap == on
    {
      wrap := on;
    }

    method CenterX(on: bool)
      modifies this`centerX
      ensures centerX == on
    {
      centerX := on;
    }

    method CenterY(on: bool)
      modifies this`centerY
      ensures centerY == on
    {
      centerY := on;
    }

    method ColoredMode(on: bool)
      modifies this`colored
      ensures colored == on
    {
      colored := on;
    }

    /** Records one `Text` that captures the current flags. */
    method Append(text: seq<char>)
      modifies this`commands
      ensures commands == old(commands) + [Text(text, wrap, centerX, centerY, colored)]
    {
      commands := commands + [Text(text, wrap, centerX, centerY, colored)];
    }

    /** Records one horizontally centred `Text`; the flags are as before. */
    method Centered(text: seq<char>)
      modifies this
      ensures commands == old(commands) + [Text(text, wrap, true, centerY, colored)]
      ensures wrap == old(wrap) && centerX == old(centerX) && centerY == old(centerY) && colored == old(colored)
    {
      var centered := centerX;
      CenterX(true);
      Append(text);
      CenterX(centered);
    }

    /** Records one word-wrapped `Text`; the flags are as before. */
    method LineWrap(text: seq<char>)
      modifies this
      ensures commands == old(commands) + [Text(text, true, centerX, centerY, colored)]
      ensures wrap == old(wrap) && centerX == old(centerX) && centerY == old(centerY) && colored == old(colored)
    {
      var wrapped := wrap;
      Wrap(true);
      Append(text);
      Wrap(wrapped);
    }

    /** Records a `Reset` and turns every flag off, colours included. */
    method Reset()
      modifies this
      ensures !wrap && !centerX && !centerY && !colored
      ensures commands == old(commands) + [Command.Reset]
    {
      wrap, centerX, centerY, colored := false, false, false, false;
      commands := commands + [Command.Reset];
    }

    method Ln()
      modifies this`commands
      ensures commands == old(commands) + [NewLine]
    {
      commands := commands + [NewLine];
    }

    method Fg(col: Color)
      modifies this`commands
      ensures commands == old(commands) + [Foreground(col)]
    {
      commands := commands + [Foreground(col)];
    }

    method Bg(col: Color)
      modifies this`commands
      ensures commands == old(commands) + [Background(col)]
    {
      commands := commands + [Background(col)];
    }
  }

  /** The tile a fresh block holds in every cell. */
  function BlankTile(fg: Color, bg: Color): Tile
  {
    Tile(0, fg, bg)
  }

  /** Cell `(x, y)` of a `width` by `height` block lies inside its buffer. */
  lemma AtInside(width: nat, height: nat, x: int, y: int)
    requires 0 <= x < width && 0 <= y < height
    ensures 0 <= At(width, x, y) < width * height
  {
    MulLeq(y + 1, height, width);
    assert At(width, x, y) < (y + 1) * width;
  }

  /** The tile of cell `(x, y)` of a row-major buffer. */
  function TileAt(buffer: seq<Tile>, width: nat, height: nat, x: int, y: int): Tile
    requires |buffer| == width * height && 0 <= x < width && 0 <= y < height
  {
    AtInside(width, height, x, y);
    buffer[At(width, x, y)]
  }

  /** Whether rendering rows `[0, rows)`, then columns `[0, cols)` of row `rows`, has painted console cell `p`. */
  predicate Painted(width: nat, height: nat, ox: int, oy: int, rows: int, cols: int, p: Pos)
  {
    ox <= p.0 < ox + width && oy <= p.1 < oy + height
    && (p.1 - oy < rows || (p.1 - oy == rows && p.0 - ox < cols))
  }

  /** The command that draws cell `(x, y)` of a block at `(x + ox, y + oy)`. */
  function CellCommand(buffer: seq<Tile>, width: nat, height: nat, ox: int, oy: int, x: int, y: int): DrawCommand
    requires |buffer| == width * height && 0 <= x < width && 0 <= y < height
  {
    var t := TileAt(buffer, width, height, x, y);
    SetCell((x + ox, y + oy), t.fg, t.bg, t.glyph)
  }

  /** The draw commands for cells `[x0, x1)` of row `y`, left to right. */
  function RowCommands(buffer: seq<Tile>, width: nat, height: nat, ox: int, oy: int, y: int, x0: int, x1: int): (cmds: seq<DrawCommand>)
    requires |buffer| == width * height && 0 <= y < height && 0 <= x0 && x1 <= width
    ensures |cmds| == if x0 < x1 then x1 - x0 else 0
  {
    if x1 <= x0 then []
    else RowCommands(buffer, width, height, ox, oy, y, x0, x1 - 1) + [CellCommand(buffer, width, height, ox, oy, x1 - 1, y)]
  }

  /** The draw commands for rows `[y0, y1)` and columns `[x0, x1)`, row after row. */
  function GridCommands(buffer: seq<Tile>, width: nat, height: nat, ox: int, oy: int, y0: int, y1: int, x0: int, x1: int): seq<DrawCommand>
    requires |buffer| == width * height && 0 <= y0 && y1 <= height && 0 <= x0 && x1 <= width
    decreases y1 - y0
  {
    if y1 <= y0 then []
    else (GridCommands(buffer, width, height, ox, oy, y0, y1 - 1, x0, x1)
          + RowCommands(buffer, width, height, ox, oy, y1 - 1, x0, x1))
  }

  /** The draw commands of a clipped render: the block's cells inside the clip rectangle. */
  function ClipCommands(buffer: seq<Tile>, width: nat, height: nat, ox: int, oy: int, clip: Rect): seq<DrawCommand>
    requires |buffer| == width * height
  {
    GridCommands(buffer, width, height, ox, oy, Max(0, clip.y1), Min(height, clip.y2), Max(0, clip.x1), Min(width, clip.x2))
  }

  /** The commands for a row are the cells of that row inside the columns, left to right. */
  lemma {:induction false} RowCommandsCells(buffer: seq<Tile>, width: nat, height: nat, ox: int, oy: int, y: int, x0: int, x1: int)
    requires |buffer| == width * height && 0 <= y < height && 0 <= x0 && x1 <= width
    ensures forall k :: 0 <= k < |RowCommands(buffer, width, height, ox, oy, y, x0, x1)| ==>
      RowCommands(buffer, width, height, ox, oy, y, x0, x1)[k] == CellCommand(buffer, width, height, ox, oy, x0 + k, y)
    decreases x1 - x0
  {
    if x0 < x1 {
      RowCommandsCells(buffer, width, height, ox, oy, y, x0, x1 - 1);
    }
  }

  /** Column `x` of a row sits at position `x - x0` of that row's commands. */
  lemma {:induction false} RowCommandAt(buffer: seq<Tile>, width: nat, height: nat, ox: int, oy: int, y: int, x0: int, x1: int, x: int)
    requires |buffer| == width * height && 0 <= y < height && 0 <= x0 && x1 <= width && x0 <= x < x1
    ensures RowCommands(buffer, width, height, ox, oy, y, x0, x1)[x - x0] == CellCommand(buffer, width, height, ox, oy, x, y)
    decreases x1 - x0
  {
    if x < x1 - 1 {
      RowCommandAt(buffer, width, height, ox, oy, y, x0, x1 - 1, x);
    }
  }

  /** Whether cell `(x, y)` lies in rows `[y0, y1)` and columns `[x0, x1)`. */
  predicate InRegion(x: int, y: int, y0: int, y1: int, x0: int, x1: int)
  {
    y0 <= y < y1 && x0 <= x < x1
  }

  lemma MulSucc(a: nat, c: nat)
    ensures (a + 1) * c == a * c + c
  {
  }

  /** There is one batch command per cell of the region. */
  lemma {:induction false} GridCommandsLength(buffer: seq<Tile>, width: nat, height: nat, ox: int, oy: int, y0: int, y1: int, x0: int, x1: int)
    requires |buffer| == width * height && 0 <= y0 && y1 <= height && 0 <= x0 && x1 <= width
    ensures |GridCommands(buffer, width, height, ox, oy, y0, y1, x0, x1)| == Count(y0, y1) * Count(x0, x1)
    decreases y1 - y0
  {
    if y0 < y1 {
      GridCommandsLength(buffer, width, height, ox, oy, y0, y1 - 1, x0, x1);
      MulSucc(Count(y0, y1 - 1), Count(x0, x1));
    }
  }

  /** Command `k` of a region draws a cell of the region, at that cell's console position, with its tile. */
  lemma {:induction false} GridCommandAt(buffer: seq<Tile>, width: nat, height: nat, ox: int, oy: int, y0: int, y1: int, x0: int, x1: int, k: int)
    requires |buffer| == width * height && 0 <= y0 && y1 <= height && 0 <= x0 && x1 <= width
    requires 0 <= k < |GridCommands(buffer, width, height, ox, oy, y0, y1, x0, x1)|
    ensures var c := GridCommands(buffer, width, height, ox, oy, y0, y1, x0, x1)[k];
      InRegion(c.pos.0 - ox, c.pos.1 - oy, y0, y1, x0, x1)
      && c == CellCommand(buffer, width, height, ox, oy, c.pos.0 - ox, c.pos.1 - oy)
    decreases y1 - y0
  {
    var before := GridCommands(buffer, width, height, ox, oy, y0, y1 - 1, x0, x1);
    var row := RowCommands(buffer, width, height, ox, oy, y1 - 1, x0, x1);
    if k < |before| {
      GridCommandAt(buffer, width, height, ox, oy, y0, y1 - 1, x0, x1, k);
    } else {
      RowCommandsCells(buffer, width, height, ox, oy, y1 - 1, x0, x1);
      var j := k - |before|;
      assert (before + row)[k] == row[j] == CellCommand(buffer, width, height, ox, oy, x0 + j, y1 - 1);
    }
  }

  /** Every batch command of a region draws a cell of the region, at that cell's console position, with its tile. */
  lemma GridCommandsInRegion(buffer: seq<Tile>, width: nat, height: nat, ox: int, oy: int, y0: int, y1: int, x0: int, x1: int)
    requires |buffer| == width * height && 0 <= y0 && y1 <= height && 0 <= x0 && x1 <= width
    ensures var cmds := GridCommands(buffer, width, height, ox, oy, y0, y1, x0, x1);
      forall k :: 0 <= k < |cmds| ==>
        InRegion(cmds[k].pos.0 - ox, cmds[k].pos.1 - oy, y0, y1, x0, x1)
        && cmds[k] == CellCommand(buffer, width, height, ox, oy, cmds[k].pos.0 - ox, cmds[k].pos.1 - oy)
  {
    forall k | 0 <= k < |GridCommands(buffer, width, height, ox, oy, y0, y1, x0, x1)|
      ensures var c := GridCommands(buffer, width, height, ox, oy, y0, y1, x0, x1)[k];
        InRegion(c.pos.0 - ox, c.pos.1 - oy, y0, y1, x0, x1)
        && c == CellCommand(buffer, width, height, ox, oy, c.pos.0 - ox, c.pos.1 - oy)
    {
      GridCommandAt(buffer, width, height, ox, oy, y0, y1, x0, x1, k);
    }
  }

  /** Cell `(x, y)` of the region has its batch command. */
  lemma {:induction false} GridCommandCovers(buffer: seq<Tile>, width: nat, height: nat, ox: int, oy: int, y0: int, y1: int, x0: int, x1: int, x: int, y: int)
    requires |buffer| == width * height && 0 <= y0 && y1 <= height && 0 <= x0 && x1 <= width
    requires InRegion(x, y, y0, y1, x0, x1)
    ensures CellCommand(buffer, width, height, ox, oy, x, y) in GridCommands(buffer, width, height, ox, oy, y0, y1, x0, x1)
    decreases y1 - y0
  {
    var before := GridCommands(buffer, width, height, ox, oy, y0, y1 - 1, x0, x1);
    var row := RowCommands(buffer, width, height, ox, oy, y1 - 1, x0, x1);
    assert GridCommands(buffer, width, height, ox, oy, y0, y1, x0, x1) == before + row;
    if y < y1 - 1 {
      GridCommandCovers(buffer, width, height, ox, oy, y0, y1 - 1, x0, x1, x, y);
    } else {
      RowCommandAt(buffer, width, height, ox, oy, y, x0, x1, x);
      assert row[x - x0] == CellCommand(buffer, width, height, ox, oy, x, y);
    }
  }

  /** Every cell of the region has its batch command. */
  lemma GridCommandsCover(buffer: seq<Tile>, width: nat, height: nat, ox: int, oy: int, y0: int, y1: int, x0: int, x1: int)
    requires |buffer| == width * height && 0 <= y0 && y1 <= height && 0 <= x0 && x1 <= width
    ensures forall x, y :: InRegion(x, y, y0, y1, x0, x1) ==>
      CellCommand(buffer, width, height, ox, oy, x, y) in GridCommands(buffer, width, height, ox, oy, y0, y1, x0, x1)
  {
    forall x, y | InRegion(x, y, y0, y1, x0, x1)
      ensures CellCommand(buffer, width, height, ox, oy, x, y) in GridCommands(buffer, width, height, ox, oy, y0, y1, x0, x1)
    {
      GridCommandCovers(buffer, width, height, ox, oy, y0, y1, x0, x1, x, y);
    }
  }

  /**
   * A clipped render emits one command per cell with
   * `max(0, clip.x1) <= x < min(width, clip.x2)` and
   * `max(0, clip.y1) <= y < min(height, clip.y2)`, and nothing else: each
   * command draws such a cell at `(x + ox, y + oy)` with the cell's own tile.
   */
  lemma ClipCommandsCells(buffer: seq<Tile>, width: nat, height: nat, ox: int, oy: int, clip: Rect)
    requires |buffer| == width * height
    ensures var y0, y1, x0, x1 := Max(0, clip.y1), Min(height, clip.y2), Max(0, clip.x1), Min(width, clip.x2);
      var cmds := ClipCommands(buffer, width, height, ox, oy, clip);
      |cmds| == Count(y0, y1) * Count(x0, x1)
      && (forall k :: 0 <= k < |cmds| ==>
            InRegion(cmds[k].pos.0 - ox, cmds[k].pos.1 - oy, y0, y1, x0, x1)
            && cmds[k] == CellCommand(buffer, width, height, ox, oy, cmds[k].pos.0 - ox, cmds[k].pos.1 - oy))
  {
    var y0, y1, x0, x1 := Max(0, clip.y1), Min(height, clip.y2), Max(0, clip.x1), Min(width, clip.x2);
    GridCommandsLength(buffer, width, height, ox, oy, y0, y1, x0, x1);
    GridCommandsInRegion(buffer, width, height, ox, oy, y0, y1, x0, x1);
    assert ClipCommands(buffer, width, height, ox, oy, clip) == GridCommands(buffer, width, height, ox, oy, y0, y1, x0, x1);
  }

  /** Every block cell inside the clip rectangle is drawn by a clipped render. */
  lemma ClipCommandsCover(buffer: seq<Tile>, width: nat, height: nat, ox: int, oy: int, clip: Rect)
    requires |buffer| == width * height
    ensures forall x, y :: InRegion(x, y, Max(0, clip.y1), Min(height, clip.y2), Max(0, clip.x1), Min(width, clip.x2)) ==>
      CellCommand(buffer, width, height, ox, oy, x, y) in ClipCommands(buffer, width, height, ox, oy, clip)
  {
    var y0, y1, x0, x1 := Max(0, clip.y1), Min(height, clip.y2), Max(0, clip.x1), Min(width, clip.x2);
    GridCommandsCover(buffer, width, height, ox, oy, y0, y1, x0, x1);
    assert ClipCommands(buffer, width, height, ox, oy, clip) == GridCommands(buffer, width, height, ox, oy, y0, y1, x0, x1);
  }

  /** A clip rectangle that covers the whole block renders what the unclipped render does. */
  lemma CoveringClip(buffer: seq<Tile>, width: nat, height: nat, ox: int, oy: int, clip: Rect)
    requires |buffer| == width * height
    requires clip.x1 <= 0 && clip.y1 <= 0 && width <= clip.x2 && height <= clip.y2
    ensures ClipCommands(buffer, width, height, ox, oy, clip) == GridCommands(buffer, width, height, ox, oy, 0, height, 0, width)
  {
  }

  /**
   * `cells` is `original` with the first `rows` rows and `cols` further
   * cells of the block image drawn at `(ox, oy)`: those console cells hold
   * the block's tiles, every other cell is as it was.
   */
  ghost predicate Rendered(cells: map<Pos, Tile>, original: map<Pos, Tile>, image: seq<Tile>, width: nat, height: nat, ox: int, oy: int, rows: int, cols: int)
    requires |image| == width * height
  {
    (forall p :: Painted(width, height, ox, oy, rows, cols, p) ==>
      p in cells && cells[p] == TileAt(image, width, height, p.0 - ox, p.1 - oy))
    && (forall p :: !Painted(width, height, ox, oy, rows, cols, p) ==>
      (p in cells <==> p in original) && (p in cells ==> cells[p] == original[p]))
  }

  /** Drawing cell `(col, row)` extends a render by one cell. */
  lemma RenderStep(before: map<Pos, Tile>, after: map<Pos, Tile>, original: map<Pos, Tile>, image: seq<Tile>, width: nat, height: nat, ox: int, oy: int, row: int, col: int)
    requires |image| == width * height && 0 <= row < height && 0 <= col < width
    requires Rendered(before, original, image, width, height, ox, oy, row, col)
    requires after == before[(col + ox, row + oy) := TileAt(image, width, height, col, row)]
    ensures Rendered(after, original, image, width, height, ox, oy, row, col + 1)
  {
  }

  /** A render whose current row is complete is a render up to the next row. */
  lemma NextRow(cells: map<Pos, Tile>, original: map<Pos, Tile>, image: seq<Tile>, width: nat, height: nat, ox: int, oy: int, row: int)
    requires |image| == width * height && 0 <= row < height
    requires Rendered(cells, original, image, width, height, ox, oy, row, width)
    ensures Rendered(cells, original, image, width, height, ox, oy, row + 1, 0)
  {
    forall p ensures Painted(width, height, ox, oy, row, width, p) <==> Painted(width, height, ox, oy, row + 1, 0, p) {}
  }

  /**
   * A fixed-size text block: `width * height` tiles in row-major order, an
   * origin on the console, a cursor and the current colours.
   */
  class TextBlock {
    var x: int
    var y: int
    const width: nat
    const height: nat
    var fg: Color
    var bg: Color
    const buffer: array<Tile>
    var cursor: (int, int)

    ghost predicate Valid()
      reads this
    {
      buffer.Length == width * height
    }

    /** The part of the block that printing reads and changes. */
    function State(): BlockState
      reads this, buffer
    {
      BlockState(buffer[..], cursor, fg, bg)
    }

    /** `TextBlock::new`: `width * height` blank tiles, white on black, cursor at the origin of the block. */
    constructor New(x: int, y: int, width: nat, height: nat)
      ensures Valid() && fresh(buffer)
      ensures this.x == x && this.y == y && this.width == width && this.height == height
      ensures buffer[..] == seq(width * height, _ => BlankTile(White, Black))
      ensures cursor == (0, 0) && fg == White && bg == Black
    {
      this.x, this.y := x, y;
      this.width, this.height := width, height;
      fg, bg := White, Black;
      buffer := new Tile[width * height](_ => BlankTile(White, Black));
      cursor := (0, 0);
    }

    /** `TextBlock::new_with_color`: as `New`, with the given colours in every tile and as the current colours. */
    constructor NewWithColor(x: int, y: int, width: nat, height: nat, fg: Color, bg: Color)
      ensures Valid() && fresh(buffer)
      ensures this.x == x && this.y == y && this.width == width && this.height == height
      ensures buffer[..] == seq(width * height, _ => BlankTile(fg, bg))
      ensures cursor == (0, 0) && this.fg == fg && this.bg == bg
    {
      this.x, this.y := x, y;
      this.width, this.height := width, height;
      this.fg, this.bg := fg, bg;
      buffer := new Tile[width * height](_ => BlankTile(fg, bg));
      cursor := (0, 0);
    }

    /** `fg` takes an `RGB`, which becomes opaque. */
    method SetFg(r: real, g: real, b: real)
      modifies this`fg
      ensures fg == RGBA(r, g, b, 1.0)
    {
      fg := RGBA(r, g, b, 1.0);
    }

    method SetBg(col: Color)
      modifies this`bg
      ensures bg == col
    {
      bg := col;
    }

    method MoveTo(x: int, y: int)
      modifies this`cursor
      ensures cursor == (x, y)
    {
      cursor := (x, y);
    }

    method SetOrigin(origin: Pos)
      modifies this`x, this`y
      ensures x == origin.0 && y == origin.1
    {
      x, y := origin.0, origin.1;
    }

    /** The public reader of the cursor that `MoveTo` and `Print` set. */
    function GetCursor(): (p: Pos)
      reads this
      ensures p == cursor
    {
      cursor
    }

    /** The public reader of the render offset that `SetOrigin` sets. */
    function GetOrigin(): (p: Pos)
      reads this
      ensures p == (x, y)
    {
      (x, y)
    }

    /**
     * The first loop of a `Text` command: the characters of the spans, and
     * the colour of each position whose span colour differs from `fg`.
     */
    method CollectSpans(spans: seq<Span>) returns (text: seq<char>, colors: map<nat, Color>)
      ensures text == SpanText(spans)
      ensures colors == ColorMap(SpanColors(spans), fg)
    {
      text, colors := [], map[];
      var charIndex: nat := 0;
      var i := 0;
      while i < |spans|
        invariant 0 <= i <= |spans|
        invariant text == SpanText(spans[..i]) && charIndex == |text|
        invariant colors == ColorMap(SpanColors(spans[..i]), fg)
      {
        var span := spans[i];
        ghost var before := SpanColors(spans[..i]);
        var j := 0;
        while j < |span.text|
          invariant 0 <= j <= |span.text|
          invariant text == SpanText(spans[..i]) + span.text[..j] && charIndex == |text|
          invariant colors == ColorMap(before + seq(j, _ => span.fg), fg)
        {
          if span.fg != fg {
            colors := colors[charIndex := span.fg];
          }
          charIndex := charIndex + 1;
          text := text + [span.text[j]];
          j := j + 1;
          assert span.text[..j] == span.text[..j - 1] + [span.text[j - 1]];
        }
        assert spans[..i + 1][..i] == spans[..i];
        assert span.text[..j] == span.text;
        i := i + 1;
      }
      assert spans[..i] == spans;
    }

    /**
     * The second loop of a `Text` command: line `i` starts on row
     * `row0 + i`, at column 0 or centred; its characters go one column after
     * the other until one would land outside the buffer.
     */
    method WriteLines(lines: seq<seq<char>>, row0: int, centerX: bool, colors: map<nat, Color>, glyphOf: char -> Glyph)
      returns (r: Outcome)
      requires |lines| >= 1 && cursor.1 == row0
      modifies buffer, this`cursor
      ensures var ps := Placements(lines, row0, width, centerX);
        var n := FirstOutside(ps, buffer.Length);
        buffer[..] == Apply(old(buffer[..]), Writes(ps, glyphOf, colors, fg, bg), n)
        && (r == OutOfSpace <==> n < |ps|)
        && cursor == if n < |ps| then (ps[n].column, row0)
                     else (X0(|Last(lines)|, width, centerX) + |Last(lines)|, row0)
    {
      ghost var ps := Placements(lines, row0, width, centerX);
      ghost var ws := Writes(ps, glyphOf, colors, fg, bg);
      ghost var start := buffer[..];
      ghost var n := FirstOutside(ps, buffer.Length);
      PlacementsLength(lines, row0, width, centerX);
      var charIndex: nat := 0;
      var i := 0;
      while i < |lines|
        invariant 0 <= i <= |lines|
        invariant charIndex == Offset(lines, i) <= n
        invariant buffer[..] == Apply(start, ws, charIndex)
        invariant cursor.1 == row0
        invariant i > 0 ==> cursor.0 == X0(|lines[i - 1]|, width, centerX) + |lines[i - 1]|
      {
        LineOfPlacements(lines, row0, width, centerX, i);
        var fits;
        fits, charIndex := WriteLine(lines[i], i, row0, centerX, colors, glyphOf, charIndex, ps, ws, start);
        if !fits {
          return OutOfSpace;
        }
        i := i + 1;
      }
      assert Last(lines) == lines[i - 1];
      assert charIndex == |ps| == n;
      r := Ok;
    }

    /**
     * One line of the second loop: its characters in order, one column
     * after the other, while they land inside the buffer.  `ps` and `ws` are
     * the placements and writes of the whole text; the line's characters are
     * those from `charIndex` on.
     */
    method WriteLine(line: seq<char>, i: nat, row0: int, centerX: bool, colors: map<nat, Color>, glyphOf: char -> Glyph,
                     charIndex: nat, ghost ps: seq<Placement>, ghost ws: seq<Write>, ghost start: seq<Tile>)
      returns (fits: bool, next: nat)
      requires cursor.1 == row0 && |start| == buffer.Length
      requires ws == Writes(ps, glyphOf, colors, fg, bg) && charIndex + |line| <= |ps|
      requires forall j :: 0 <= j < |line| ==>
        ps[charIndex + j] == Placement(At(width, X0(|line|, width, centerX) + j, row0 + i), X0(|line|, width, centerX) + j, line[j])
      requires charIndex <= FirstOutside(ps, buffer.Length)
      requires buffer[..] == Apply(start, ws, charIndex)
      modifies buffer, this`cursor
      ensures fits ==> (next == charIndex + |line| && next <= FirstOutside(ps, buffer.Length)
        && buffer[..] == Apply(start, ws, next)
        && cursor == (X0(|line|, width, centerX) + |line|, row0))
      ensures !fits ==> (var n := FirstOutside(ps, buffer.Length);
        n < |ps| && buffer[..] == Apply(start, ws, n) && cursor == (ps[n].column, row0))
    {
      var x0 := if centerX then width / 2 - |line| / 2 else 0;
      assert x0 == X0(|line|, width, centerX);
      var fg, bg := this.fg, this.bg;
      cursor := (x0, cursor.1);
      next := charIndex;
      var j := 0;
      while j < |line|
        invariant 0 <= j <= |line|
        invariant next == charIndex + j <= FirstOutside(ps, buffer.Length)
        invariant buffer[..] == Apply(start, ws, next)
        invariant cursor == (x0 + j, row0)
      {
        assert ps[next] == Placement(At(width, x0 + j, row0 + i), x0 + j, line[j]);
        var idx := At(width, cursor.0, cursor.1 + i);
        if 0 <= idx < buffer.Length {
          var tile := Tile(glyphOf(line[j]), FgAt(colors, next, fg), bg);
          WriteAt(ps, glyphOf, colors, fg, bg, next);
          WriteInside(start, ps, ws, next);
          buffer[idx] := tile;
          cursor := (cursor.0 + 1, cursor.1);
        } else {
          WriteOutside(buffer.Length, ps, next);
          return false, next;
        }
        next := next + 1;
        j := j + 1;
      }
      fits := true;
    }

    /** One `Text` command, in place: it does what `ExecText` says. */
    method PrintText(cmd: Command, env: Env) returns (r: Outcome)
      requires Valid() && cmd.Text? && Printable(cmd, env)
      requires env.width == width && env.height == height
      modifies buffer, this`cursor
      ensures (State(), r) == ExecText(old(State()), cmd, env)
    {
      var colors: map<nat, Color> := map[];
      var parsed: seq<char> := [];
      if cmd.colored {
        parsed, colors := CollectSpans(env.parse(cmd.block));
      }
      assert colors == ColorsOf(cmd.block, cmd.colored, env.parse, fg);
      var text := if |parsed| > 0 then parsed else cmd.block;
      assert text == SourceText(cmd.block, cmd.colored, env.parse);
      var words := if cmd.wrap then Split(text) else [text];
      var lines := BreakLines(words, width, cmd.wrap);
      r := PlaceText(cmd, env, lines, colors);
    }

    /** The rest of a `Text` command once its lines and colours are known. */
    method PlaceText(cmd: Command, env: Env, lines: seq<seq<char>>, colors: map<nat, Color>) returns (r: Outcome)
      requires Valid() && cmd.Text? && Printable(cmd, env)
      requires env.width == width && env.height == height
      requires lines == TextLines(cmd, env) && colors == ColorsOf(cmd.block, cmd.colored, env.parse, fg)
      modifies buffer, this`cursor
      ensures (State(), r) == ExecText(old(State()), cmd, env)
    {
      ghost var before := State();
      var row0 := if cmd.centerY then height / 2 - |lines| / 2 else 0;
      cursor := (cursor.0, row0);
      assert buffer[..] == before.buffer;
      r := WriteLines(lines, row0, cmd.centerX, colors, env.glyphOf);
      PrintTextAgrees(before, State(), r, cmd, env, lines, colors, row0);
    }

    /**
     * `print`: the commands in order, in place, stopping at the first that
     * runs out of space; it does what `Run` says.
     */
    method Print(text: TextBuilder, parse: seq<char> -> seq<Span>, glyphOf: char -> Glyph) returns (r: Outcome)
      requires Valid() && Reaches(State(), text.commands, Env(width, height, parse, glyphOf))
      modifies buffer, this`cursor, this`fg, this`bg
      ensures (State(), r) == Run(old(State()), text.commands, Env(width, height, parse, glyphOf))
    {
      var env := Env(width, height, parse, glyphOf);
      var cmds := text.commands;
      var i := 0;
      while i < |cmds|
        invariant 0 <= i <= |cmds|
        invariant Reaches(State(), cmds[i..], env)
        invariant Run(old(State()), cmds, env) == Run(State(), cmds[i..], env)
      {
        RunStep(State(), cmds[i..], env);
        assert cmds[i..][0] == cmds[i] && cmds[i..][1..] == cmds[i + 1..];
        r := PrintCommand(cmds[i], env);
        if r == OutOfSpace {
          return;
        }
        i := i + 1;
      }
      r := Ok;
    }

    /** One command of `print`, in place: it does what `Exec` says. */
    method PrintCommand(cmd: Command, env: Env) returns (r: Outcome)
      requires Valid() && Printable(cmd, env)
      requires env.width == width && env.height == height
      modifies buffer, this`cursor, this`fg, this`bg
      ensures (State(), r) == Exec(old(State()), cmd, env)
    {
      match cmd {
        case Text(_, _, _, _, _) =>
          r := PrintText(cmd, env);
        case NewLine =>
          cursor := (0, cursor.1 + 1);
          r := Ok;
        case Foreground(col) =>
          fg := col;
          r := Ok;
        case Background(col) =>
          bg := col;
          r := Ok;
        case Reset =>
          cursor := (0, 0);
          fg := White;
          bg := Black;
          r := Ok;
      }
    }

    /**
     * `render`: every cell `(i, j)` of the block onto console cell
     * `(i + x, j + y)`; every other console cell keeps its tile.
     */
    method Render(console: Console)
      requires Valid()
      modifies console
      ensures Rendered(console.cells, old(console.cells), buffer[..], width, height, x, y, height, 0)
    {
      ghost var image := buffer[..];
      var row := 0;
      while row < height
        invariant 0 <= row <= height
        invariant Rendered(console.cells, old(console.cells), image, width, height, x, y, row, 0)
      {
        var col := 0;
        while col < width
          invariant 0 <= col <= width
          invariant Rendered(console.cells, old(console.cells), image, width, height, x, y, row, col)
        {
          AtInside(width, height, col, row);
          var t := buffer[At(width, col, row)];
          ghost var before := console.cells;
          console.Set(col + x, row + y, t.fg, t.bg, t.glyph);
          RenderStep(before, console.cells, old(console.cells), image, width, height, x, y, row, col);
          col := col + 1;
        }
        NextRow(console.cells, old(console.cells), image, width, height, x, y, row);
        row := row + 1;
      }
    }

    /** `render_to_draw_batch`: one command per cell, row after row. */
    method RenderToDrawBatch(batch: DrawBatch)
      requires Valid()
      modifies batch
      ensures batch.commands == old(batch.commands) + GridCommands(buffer[..], width, height, x, y, 0, height, 0, width)
    {
      RenderRegion(batch, 0, height, 0, width);
    }

    /** `render_to_draw_batch_clip`: as `RenderToDrawBatch`, for the cells inside the clip rectangle. */
    method RenderToDrawBatchClip(batch: DrawBatch, clip: Rect)
      requires Valid()
      modifies batch
      ensures batch.commands == old(batch.commands) + ClipCommands(buffer[..], width, height, x, y, clip)
    {
      RenderRegion(batch, Max(0, clip.y1), Min(height, clip.y2), Max(0, clip.x1), Min(width, clip.x2));
    }

    /** The two nested loops both batch renderers share. */
    method RenderRegion(batch: DrawBatch, y0: int, y1: int, x0: int, x1: int)
      requires Valid() && 0 <= y0 && y1 <= height && 0 <= x0 && x1 <= width
      modifies batch
      ensures batch.commands == old(batch.commands) + GridCommands(buffer[..], width, height, x, y, y0, y1, x0, x1)
    {
      ghost var image, start := buffer[..], batch.commands;
      var row := y0;
      while row < y1
        invariant y0 <= row && (row <= y1 || row == y0)
        invariant batch.commands == start + GridCommands(image, width, height, x, y, y0, Min(row, y1), x0, x1)
      {
        RenderRow(batch, row, x0, x1);
        row := row + 1;
      }
    }

    /** The inner loop of the batch renderers: the cells `[x0, x1)` of row `row`. */
    method RenderRow(batch: DrawBatch, row: int, x0: int, x1: int)
      requires Valid() && 0 <= row < height && 0 <= x0 && x1 <= width
      modifies batch
      ensures batch.commands == old(batch.commands) + RowCommands(buffer[..], width, height, x, y, row, x0, x1)
    {
      ghost var image, start := buffer[..], batch.commands;
      var col := x0;
      while col < x1
        invariant x0 <= col && (col <= x1 || col == x0)
        invariant batch.commands == start + RowCommands(image, width, height, x, y, row, x0, Min(col, x1))
      {
        AtInside(width, height, col, row);
        var t := buffer[At(width, col, row)];
        batch.Set((col + x, row + y), t.fg, t.bg, t.glyph);
        col := col + 1;
      }
    }
  }

  /**
   * What `WriteLines` leaves behind for the lines of a `Text` command, laid
   * out from the row `print` computes, is what `ExecText` says.
   */
  lemma PrintTextAgrees(s: BlockState, t: BlockState, r: Outcome, cmd: Command, env: Env,
                        lines: seq<seq<char>>, colors: map<nat, Color>, row0: int)
    requires cmd.Text? && Printable(cmd, env)
    requires lines == TextLines(cmd, env) && colors == ColorsOf(cmd.block, cmd.colored, env.parse, s.fg)
    requires row0 == if cmd.centerY then env.height / 2 - |lines| / 2 else 0
    requires t.fg == s.fg && t.bg == s.bg
    requires var ps := Placements(lines, row0, env.width, cmd.centerX);
      var n := FirstOutside(ps, |s.buffer|);
      t.buffer == Apply(s.buffer, Writes(ps, env.glyphOf, colors, s.fg, s.bg), n)
      && (r == OutOfSpace <==> n < |ps|)
      && t.cursor == if n < |ps| then (ps[n].column, row0)
                     else (X0(|Last(lines)|, env.width, cmd.centerX) + |Last(lines)|, row0)
    ensures (t, r) == ExecText(s, cmd, env)
  {
    assert row0 == TextRow(cmd, env);
    assert Placements(lines, row0, env.width, cmd.centerX) == TextPlacements(cmd, env);
  }
}
