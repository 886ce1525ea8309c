/**
 * The terminal vocabulary shared by the text block and the drawing helpers:
 * colours, glyphs, tiles, and the two sinks they write to, a console grid
 * and a draw batch.  Both sinks are collaborators whose code is not part of
 * this model; they are given here by the effect of their `set` operations.
 */
module Terminal {

  /** An RGBA colour with floating-point channels, as `RGBA::from_f32` builds it. */
  datatype Color = RGBA(r: real, g: real, b: real, a: real)

  /** Opaque white and opaque black, the default foreground and background. */
  const White: Color := RGBA(1.0, 1.0, 1.0, 1.0)
  const Black: Color := RGBA(0.0, 0.0, 0.0, 1.0)

  /** A code page 437 glyph index (`FontCharType` is a 16-bit unsigned integer). */
  type Glyph = g: int | 0 <= g < 0x1_0000

  /** One cell of a grid: a glyph with its foreground and background colours. */
  datatype Tile = Tile(glyph: Glyph, fg: Color, bg: Color)

  /** A cell position `(x, y)` on a console. */
  type Pos = (int, int)

  /** A rectangle given by its corners; `x2` and `y2` are exclusive when clipping. */
  datatype Rect = Rect(x1: int, y1: int, x2: int, y2: int)

  function Min(a: int, b: int): int { if a < b then a else b }
  function Max(a: int, b: int): int { if a < b then b else a }

  /** The number of integers in `[lo, hi)`. */
  function Count(lo: int, hi: int): nat
  {
    if lo < hi then hi - lo else 0
  }

  /**
   * A console seen through its `set` operation: a map from positions to the
   * tile last written there.  Positions never written are absent.
   */
  class Console {
    var cells: map<Pos, Tile>
    /** The glyph the console uses for an empty cell. */
    const clearGlyph: Glyph

    constructor (clearGlyph: Glyph)
      ensures this.clearGlyph == clearGlyph && cells == map[]
    {
      this.clearGlyph := clearGlyph;
      cells := map[];
    }

    /** Writes one tile at `(x, y)`, replacing whatever was there. */
    method Set(x: int, y: int, fg: Color, bg: Color, glyph: Glyph)
      modifies this
      ensures cells == old(cells)[(x, y) := Tile(glyph, fg, bg)]
    {
      cells := cells[(x, y) := Tile(glyph, fg, bg)];
    }
  }

  /** One queued drawing command of a draw batch. */
  datatype DrawCommand = SetCell(pos: Pos, fg: Color, bg: Color, glyph: Glyph)

  /** A draw batch seen through its `set` operation: the commands queued so far, in order. */
  class DrawBatch {
    var commands: seq<DrawCommand>

    constructor ()
      ensures commands == []
    {
      commands := [];
    }

    /** Queues one `set` command. */
    method Set(pos: Pos, fg: Color, bg: Color, glyph: Glyph)
      modifies this
      ensures commands == old(commands) + [SetCell(pos, fg, bg, glyph)]
    {
      commands := commands + [SetCell(pos, fg, bg, glyph)];
    }
  }
}
