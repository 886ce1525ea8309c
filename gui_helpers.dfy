/**
 * The box and progress-bar drawing helpers: sequences of `set` calls on a
 * console that draw code page 437 outlines, filled boxes and bars.
 *
 * Each drawing is specified by a function giving the tile it leaves on a
 * cell (`None` for a cell it does not touch), written so that where the
 * helper writes a cell several times the function gives the last write.
 * The methods are the helpers' loops; their postconditions tie the console
 * after the call to those functions, and the lemmas state what the
 * functions promise about corners, edges, interiors and bar lengths.
 */
module GuiHelpers {
  import opened Terminal

  datatype Option<T> = None | Some(value: T)

  /** The six glyphs of an outline style. */
  datatype BoxGlyphs = BoxGlyphs(topLeft: Glyph, topRight: Glyph, bottomLeft: Glyph, bottomRight: Glyph,
                                 horizontal: Glyph, vertical: Glyph)

  /** ┌ ┐ └ ┘ ─ │ in code page 437. */
  const Single: BoxGlyphs := BoxGlyphs(218, 191, 192, 217, 196, 179)
  /** ╔ ╗ ╚ ╝ ═ ║ in code page 437. */
  const Double: BoxGlyphs := BoxGlyphs(201, 187, 200, 188, 205, 186)
  /** ▓, the filled part of a bar. */
  const FullShade: Glyph := 178
  /** ░, the empty part of a bar. */
  const LightShade: Glyph := 176
  /** The space glyph `draw_box_double` fills with. */
  const Space: Glyph := 32

  /** Cell `p` holds tile `t`. */
  predicate Holds(cells: map<Pos, Tile>, p: Pos, t: Tile)
  {
    p in cells && cells[p] == t
  }

  /** Cell `p` is in `cells` exactly as it is in `base`. */
  predicate Keeps(cells: map<Pos, Tile>, base: map<Pos, Tile>, p: Pos)
  {
    (p in cells <==> p in base) && (p in cells ==> cells[p] == base[p])
  }

  /** `cells` is `base` with every cell where `image` is defined replaced by its tile. */
  ghost predicate Drawn(cells: map<Pos, Tile>, base: map<Pos, Tile>, image: Pos -> Option<Tile>)
  {
    forall p :: if image(p).Some? then Holds(cells, p, image(p).value) else Keeps(cells, base, p)
  }

  // ---------------------------------------------------------------------
  // Reference definitions

  /** Whether `p` lies in the `width` by `height` rectangle whose top-left cell is `(sx, sy)`. */
  predicate InRect(p: Pos, sx: int, sy: int, width: int, height: int)
  {
    sx <= p.0 < sx + width && sy <= p.1 < sy + height
  }

  /**
   * The glyph an outline from `(sx, sy)` to `(sx + width, sy + height)`
   * leaves on `p`.  The helpers write the four corners, then the horizontal
   * edges, then the vertical edges, so an edge wins over a corner at the
   * same cell and a later corner over an earlier one.
   */
  function OutlineAt(b: BoxGlyphs, sx: int, sy: int, width: int, height: int, p: Pos): Option<Glyph>
  {
    if (p.0 == sx || p.0 == sx + width) && sy < p.1 < sy + height then Some(b.vertical)
    else if (p.1 == sy || p.1 == sy + height) && sx < p.0 < sx + width then Some(b.horizontal)
    else if p == (sx + width, sy + height) then Some(b.bottomRight)
    else if p == (sx, sy + height) then Some(b.bottomLeft)
    else if p == (sx + width, sy) then Some(b.topRight)
    else if p == (sx, sy) then Some(b.topLeft)
    else None
  }

  /** The tile an outline in colours `fg`/`bg` leaves on `p`. */
  function OutlineTile(b: BoxGlyphs, sx: int, sy: int, width: int, height: int, fg: Color, bg: Color, p: Pos): Option<Tile>
  {
    match OutlineAt(b, sx, sy, width, height, p)
    case Some(g) => Some(Tile(g, fg, bg))
    case None => None
  }

  /** The tile a filled box leaves on `p`: its outline, else the fill inside `[sx, sx + width) × [sy, sy + height)`. */
  function BoxTile(b: BoxGlyphs, fill: Tile, sx: int, sy: int, width: int, height: int, fg: Color, bg: Color, p: Pos): Option<Tile>
  {
    if OutlineAt(b, sx, sy, width, height, p).Some? then OutlineTile(b, sx, sy, width, height, fg, bg, p)
    else if InRect(p, sx, sy, width, height) then Some(fill)
    else None
  }

  /** The tile a horizontal bar leaves on `p`: ▓ at offsets `x <= fillWidth`, ░ at the others. */
  function HorizontalBarTile(sx: int, sy: int, width: int, fillWidth: int, fg: Color, bg: Color, p: Pos): Option<Tile>
  {
    if p.1 == sy && 0 <= p.0 - sx < width then
      Some(Tile(if p.0 - sx <= fillWidth then FullShade else LightShade, fg, bg))
    else None
  }

  /** The tile a vertical bar leaves on `p`: ▓ at offsets `y >= fillHeight`, ░ at the others. */
  function VerticalBarTile(sx: int, sy: int, height: int, fillHeight: int, fg: Color, bg: Color, p: Pos): Option<Tile>
  {
    if p.0 == sx && 0 <= p.1 - sy < height then
      Some(Tile(if p.1 - sy >= fillHeight then FullShade else LightShade, fg, bg))
    else None
  }

  // ---------------------------------------------------------------------
  // Properties of the reference definitions

  /** When the box has non-zero extents the four corners keep their corner glyphs. */
  lemma Corners(b: BoxGlyphs, sx: int, sy: int, width: int, height: int)
    requires width != 0 && height != 0
    ensures OutlineAt(b, sx, sy, width, height, (sx, sy)) == Some(b.topLeft)
    ensures OutlineAt(b, sx, sy, width, height, (sx + width, sy)) == Some(b.topRight)
    ensures OutlineAt(b, sx, sy, width, height, (sx, sy + height)) == Some(b.bottomLeft)
    ensures OutlineAt(b, sx, sy, width, height, (sx + width, sy + height)) == Some(b.bottomRight)
  {
  }

  /**
   * Every cell strictly between the corners of the top and bottom rows is a
   * horizontal edge, and every cell strictly between the corners of the
   * left and right columns is a vertical edge.
   */
  lemma Edges(b: BoxGlyphs, sx: int, sy: int, width: int, height: int)
    ensures forall x :: sx < x < sx + width ==>
      OutlineAt(b, sx, sy, width, height, (x, sy)) == Some(b.horizontal)
      && OutlineAt(b, sx, sy, width, height, (x, sy + height)) == Some(b.horizontal)
    ensures forall y :: sy < y < sy + height ==>
      OutlineAt(b, sx, sy, width, height, (sx, y)) == Some(b.vertical)
      && OutlineAt(b, sx, sy, width, height, (sx + width, y)) == Some(b.vertical)
  {
    forall x | sx < x < sx + width
      ensures OutlineAt(b, sx, sy, width, height, (x, sy)) == Some(b.horizontal)
      ensures OutlineAt(b, sx, sy, width, height, (x, sy + height)) == Some(b.horizontal)
    {
      assert !(sy < sy < sy + height) && !(sy < sy + height < sy + height);
    }
    forall y | sy < y < sy + height
      ensures OutlineAt(b, sx, sy, width, height, (sx, y)) == Some(b.vertical)
      ensures OutlineAt(b, sx, sy, width, height, (sx + width, y)) == Some(b.vertical)
    {
      assert (sx, y).0 == sx && (sx + width, y).0 == sx + width;
    }
  }

  /**
   * For non-negative extents the outline covers exactly the border of the
   * rectangle `[sx, sx + width] × [sy, sy + height]`: `width + 1` columns and
   * `height + 1` rows.
   */
  lemma OutlineIsBorder(b: BoxGlyphs, sx: int, sy: int, width: int, height: int, p: Pos)
    requires width >= 0 && height >= 0
    ensures OutlineAt(b, sx, sy, width, height, p).Some? <==>
      sx <= p.0 <= sx + width && sy <= p.1 <= sy + height
      && (p.0 == sx || p.0 == sx + width || p.1 == sy || p.1 == sy + height)
  {
  }

  /** A filled box leaves every strictly interior cell holding the fill. */
  lemma InteriorFilled(b: BoxGlyphs, fill: Tile, sx: int, sy: int, width: int, height: int, fg: Color, bg: Color, p: Pos)
    requires sx < p.0 < sx + width && sy < p.1 < sy + height
    ensures BoxTile(b, fill, sx, sy, width, height, fg, bg, p) == Some(fill)
  {
  }

  /** A filled box touches no cell outside `[sx, sx + width] × [sy, sy + height]`. */
  lemma BoxBounds(b: BoxGlyphs, fill: Tile, sx: int, sy: int, width: int, height: int, fg: Color, bg: Color, p: Pos)
    requires width >= 0 && height >= 0
    requires BoxTile(b, fill, sx, sy, width, height, fg, bg, p).Some?
    ensures sx <= p.0 <= sx + width && sy <= p.1 <= sy + height
  {
  }

  /** The cells `[lo, hi)` of row `y`. */
  function RowCells(lo: int, hi: int, y: int): (s: set<Pos>)
    ensures forall p :: p in s <==> p.1 == y && lo <= p.0 < hi
  {
    set x | lo <= x < hi :: (x, y)
  }

  /** The cells `[lo, hi)` of column `x`. */
  function ColumnCells(x: int, lo: int, hi: int): (s: set<Pos>)
    ensures forall p :: p in s <==> p.0 == x && lo <= p.1 < hi
  {
    set y | lo <= y < hi :: (x, y)
  }

  lemma {:induction false} RowCellsCount(lo: int, hi: int, y: int)
    ensures |RowCells(lo, hi, y)| == Count(lo, hi)
    decreases hi - lo
  {
    if lo < hi {
      RowCellsCount(lo, hi - 1, y);
      assert RowCells(lo, hi, y) == RowCells(lo, hi - 1, y) + {(hi - 1, y)};
    } else {
      assert RowCells(lo, hi, y) == {};
    }
  }

  lemma {:induction false} ColumnCellsCount(x: int, lo: int, hi: int)
    ensures |ColumnCells(x, lo, hi)| == Count(lo, hi)
    decreases hi - lo
  {
    if lo < hi {
      ColumnCellsCount(x, lo, hi - 1);
      assert ColumnCells(x, lo, hi) == ColumnCells(x, lo, hi - 1) + {(x, hi - 1)};
    } else {
      assert ColumnCells(x, lo, hi) == {};
    }
  }

  /**
   * A horizontal bar of `width` cells touches exactly `width` cells of row
   * `sy`, and exactly the first `min(width, fillWidth + 1)` of them are ▓:
   * a bar whose fill is 0 still shows one ▓ cell.
   */
  lemma HorizontalBarCells(sx: int, sy: int, width: int, fillWidth: int, fg: Color, bg: Color)
    ensures forall p :: HorizontalBarTile(sx, sy, width, fillWidth, fg, bg, p).Some? <==> p in RowCells(sx, sx + width, sy)
    ensures |RowCells(sx, sx + width, sy)| == Count(0, width)
    ensures forall p :: (HorizontalBarTile(sx, sy, width, fillWidth, fg, bg, p) == Some(Tile(FullShade, fg, bg))
                         <==> p in RowCells(sx, sx + Min(width, fillWidth + 1), sy))
    ensures |RowCells(sx, sx + Min(width, fillWidth + 1), sy)| == Count(0, Min(width, fillWidth + 1))
  {
    RowCellsCount(sx, sx + width, sy);
    RowCellsCount(sx, sx + Min(width, fillWidth + 1), sy);
  }

  /**
   * A vertical bar of `height` cells touches exactly `height` cells of
   * column `sx`, and the ▓ cells are the ones from the fill line
   * `fillHeight` down, clamped to the bar: the bar fills from the bottom,
   * a fill line at or below the bar's end shows no ▓ and one at or above
   * its top (a negative line) shows all ▓.
   */
  lemma VerticalBarCells(sx: int, sy: int, height: int, fillHeight: int, fg: Color, bg: Color)
    ensures forall p :: VerticalBarTile(sx, sy, height, fillHeight, fg, bg, p).Some? <==> p in ColumnCells(sx, sy, sy + height)
    ensures |ColumnCells(sx, sy, sy + height)| == Count(0, height)
    ensures forall p :: (VerticalBarTile(sx, sy, height, fillHeight, fg, bg, p) == Some(Tile(FullShade, fg, bg))
                         <==> p in ColumnCells(sx, sy + Min(height, Max(0, fillHeight)), sy + height))
    ensures |ColumnCells(sx, sy + Min(height, Max(0, fillHeight)), sy + height)| == Count(Min(height, Max(0, fillHeight)), height)
  {
    ColumnCellsCount(sx, sy, sy + height);
    ColumnCellsCount(sx, sy + Min(height, Max(0, fillHeight)), sy + height);
  }

  // ---------------------------------------------------------------------
  // The drawing methods


  /** One `set` of tile `t` at `q` turns a drawing of `image` into a drawing of `next`, when they differ only at `q`. */
  lemma DrawOne(before: map<Pos, Tile>, after: map<Pos, Tile>, base: map<Pos, Tile>,
                image: Pos -> Option<Tile>, next: Pos -> Option<Tile>, q: Pos, t: Tile)
    requires Drawn(before, base, image)
    requires after == before[q := t]
    requires next(q) == Some(t)
    requires forall p :: p != q ==> next(p) == image(p)
    ensures Drawn(after, base, next)
  {
    forall p ensures if next(p).Some? then Holds(after, p, next(p).value) else Keeps(after, base, p)
    {
      if p != q {
        assert next(p) == image(p);
      }
    }
  }

  /** A drawing of an image is a drawing of any image that agrees with it everywhere. */
  lemma DrawnAgree(cells: map<Pos, Tile>, base: map<Pos, Tile>, image: Pos -> Option<Tile>, same: Pos -> Option<Tile>)
    requires Drawn(cells, base, image)
    requires forall p :: same(p) == image(p)
    ensures Drawn(cells, base, same)
  {
    forall p ensures if same(p).Some? then Holds(cells, p, same(p).value) else Keeps(cells, base, p)
    {
      assert same(p) == image(p);
    }
  }

  /** Drawing `first` and then `second` draws `both`, which is `second` where it is defined and `first` elsewhere. */
  lemma DrawnThen(base: map<Pos, Tile>, middle: map<Pos, Tile>, cells: map<Pos, Tile>,
                  first: Pos -> Option<Tile>, second: Pos -> Option<Tile>, both: Pos -> Option<Tile>)
    requires Drawn(middle, base, first) && Drawn(cells, middle, second)
    requires forall p :: both(p) == if second(p).Some? then second(p) else first(p)
    ensures Drawn(cells, base, both)
  {
    forall p ensures if both(p).Some? then Holds(cells, p, both(p).value) else Keeps(cells, base, p)
    {
      assert if second(p).Some? then Holds(cells, p, second(p).value) else Keeps(cells, middle, p);
      assert if first(p).Some? then Holds(middle, p, first(p).value) else Keeps(middle, base, p);
    }
  }

  /** The cells of rows `[sy, row)` and of row `row` left of `col`, inside columns `[sx, sx + width)`. */
  predicate FillDone(p: Pos, sx: int, sy: int, width: int, row: int, col: int)
  {
    sx <= p.0 < sx + width && sy <= p.1 && (p.1 < row || (p.1 == row && p.0 < col))
  }

  /** The fill loops of `draw_box` and `draw_box_double`: tile `t` on every cell of `[sx, sx + width) × [sy, sy + height)`. */
  method FillRect(console: Console, sx: int, sy: int, width: int, height: int, t: Tile)
    modifies console
    ensures Drawn(console.cells, old(console.cells), p => if InRect(p, sx, sy, width, height) then Some(t) else None)
  {
    var y := sy;
    while y < sy + height
      invariant sy <= y && (y <= sy + height || y == sy)
      invariant Drawn(console.cells, old(console.cells), p => if FillDone(p, sx, sy, width, y, sx) then Some(t) else None)
    {
      var x := sx;
      while x < sx + width
        invariant sx <= x && (x <= sx + width || x == sx)
        invariant Drawn(console.cells, old(console.cells), p => if FillDone(p, sx, sy, width, y, x) then Some(t) else None)
      {
        ghost var before := console.cells;
        console.Set(x, y, t.fg, t.bg, t.glyph);
        DrawOne(before, console.cells, old(console.cells),
                p => if FillDone(p, sx, sy, width, y, x) then Some(t) else None,
                p => if FillDone(p, sx, sy, width, y, x + 1) then Some(t) else None, (x, y), t);
        x := x + 1;
      }
      DrawnAgree(console.cells, old(console.cells),
                 p => if FillDone(p, sx, sy, width, y, x) then Some(t) else None,
                 p => if FillDone(p, sx, sy, width, y + 1, sx) then Some(t) else None);
      y := y + 1;
    }
    DrawnAgree(console.cells, old(console.cells),
               p => if FillDone(p, sx, sy, width, y, sx) then Some(t) else None,
               p => if InRect(p, sx, sy, width, height) then Some(t) else None);
  }

  /** The horizontal edge cells written before column `x`: rows `sy` and `sy + height`, columns `(sx, x)`. */
  predicate HorizontalDone(p: Pos, sx: int, sy: int, height: int, x: int)
  {
    (p.1 == sy || p.1 == sy + height) && sx < p.0 < x
  }

  /** The vertical edge cells written before row `y`: columns `sx` and `sx + width`, rows `(sy, y)`. */
  predicate VerticalDone(p: Pos, sx: int, sy: int, width: int, y: int)
  {
    (p.0 == sx || p.0 == sx + width) && sy < p.1 < y
  }

  /** The corners, then the horizontal edges, then the vertical edges, leave the outline of `OutlineAt`. */
  lemma OutlineCompose(base: map<Pos, Tile>, corners: map<Pos, Tile>, edges: map<Pos, Tile>, cells: map<Pos, Tile>,
                       b: BoxGlyphs, sx: int, sy: int, width: int, height: int, fg: Color, bg: Color,
                       horizontal: Pos -> Option<Tile>, vertical: Pos -> Option<Tile>)
    requires corners == base[(sx, sy) := Tile(b.topLeft, fg, bg)][(sx + width, sy) := Tile(b.topRight, fg, bg)]
                            [(sx, sy + height) := Tile(b.bottomLeft, fg, bg)][(sx + width, sy + height) := Tile(b.bottomRight, fg, bg)]
    requires forall p :: horizontal(p) == if HorizontalDone(p, sx, sy, height, sx + width) then Some(Tile(b.horizontal, fg, bg)) else None
    requires forall p :: vertical(p) == if VerticalDone(p, sx, sy, width, sy + height) then Some(Tile(b.vertical, fg, bg)) else None
    requires Drawn(edges, corners, horizontal) && Drawn(cells, edges, vertical)
    ensures Drawn(cells, base, p => OutlineTile(b, sx, sy, width, height, fg, bg, p))
  {
    forall p ensures var o := OutlineTile(b, sx, sy, width, height, fg, bg, p);
      if o.Some? then Holds(cells, p, o.value) else Keeps(cells, base, p)
    {
      assert if vertical(p).Some? then Holds(cells, p, vertical(p).value) else Keeps(cells, edges, p);
      assert if horizontal(p).Some? then Holds(edges, p, horizontal(p).value) else Keeps(edges, corners, p);
    }
  }

  /**
   * The outline writes shared by all four box helpers: the corners, the
   * horizontal edges and the vertical edges, in that order.
   */
  method DrawOutline(console: Console, b: BoxGlyphs, sx: int, sy: int, width: int, height: int, fg: Color, bg: Color)
    modifies console
    ensures Drawn(console.cells, old(console.cells), p => OutlineTile(b, sx, sy, width, height, fg, bg, p))
  {
    console.Set(sx, sy, fg, bg, b.topLeft);
    console.Set(sx + width, sy, fg, bg, b.topRight);
    console.Set(sx, sy + height, fg, bg, b.bottomLeft);
    console.Set(sx + width, sy + height, fg, bg, b.bottomRight);
    ghost var corners := console.cells;
    DrawHorizontalEdges(console, b.horizontal, sx, sy, width, height, fg, bg);
    ghost var edges := console.cells;
    DrawVerticalEdges(console, b.vertical, sx, sy, width, height, fg, bg);
    OutlineCompose(old(console.cells), corners, edges, console.cells, b, sx, sy, width, height, fg, bg,
                   p => if HorizontalDone(p, sx, sy, height, sx + width) then Some(Tile(b.horizontal, fg, bg)) else None,
                   p => if VerticalDone(p, sx, sy, width, sy + height) then Some(Tile(b.vertical, fg, bg)) else None);
  }

  /** The first edge loop of the box helpers: glyph `g` on rows `sy` and `sy + height` at columns `(sx, sx + width)`. */
  method DrawHorizontalEdges(console: Console, g: Glyph, sx: int, sy: int, width: int, height: int, fg: Color, bg: Color)
    modifies console
    ensures Drawn(console.cells, old(console.cells),
                  p => if HorizontalDone(p, sx, sy, height, sx + width) then Some(Tile(g, fg, bg)) else None)
  {
    var t := Tile(g, fg, bg);
    var x := sx + 1;
    while x < sx + width
      invariant sx + 1 <= x && (x <= sx + width || x == sx + 1)
      invariant Drawn(console.cells, old(console.cells), p => if HorizontalDone(p, sx, sy, height, x) then Some(t) else None)
    {
      ghost var before := console.cells;
      console.Set(x, sy, fg, bg, g);
      DrawOne(before, console.cells, old(console.cells),
              p => if HorizontalDone(p, sx, sy, height, x) then Some(t) else None,
              p => if HorizontalDone(p, sx, sy, height, x) || p == (x, sy) then Some(t) else None, (x, sy), t);
      before := console.cells;
      console.Set(x, sy + height, fg, bg, g);
      DrawOne(before, console.cells, old(console.cells),
              p => if HorizontalDone(p, sx, sy, height, x) || p == (x, sy) then Some(t) else None,
              p => if HorizontalDone(p, sx, sy, height, x + 1) then Some(t) else None, (x, sy + height), t);
      x := x + 1;
    }
    DrawnAgree(console.cells, old(console.cells),
               p => if HorizontalDone(p, sx, sy, height, x) then Some(t) else None,
               p => if HorizontalDone(p, sx, sy, height, sx + width) then Some(Tile(g, fg, bg)) else None);
  }

  /** The second edge loop of the box helpers: glyph `g` on columns `sx` and `sx + width` at rows `(sy, sy + height)`. */
  method DrawVerticalEdges(console: Console, g: Glyph, sx: int, sy: int, width: int, height: int, fg: Color, bg: Color)
    modifies console
    ensures Drawn(console.cells, old(console.cells),
                  p => if VerticalDone(p, sx, sy, width, sy + height) then Some(Tile(g, fg, bg)) else None)
  {
    var t := Tile(g, fg, bg);
    var y := sy + 1;
    while y < sy + height
      invariant sy + 1 <= y && (y <= sy + height || y == sy + 1)
      invariant Drawn(console.cells, old(console.cells), p => if VerticalDone(p, sx, sy, width, y) then Some(t) else None)
    {
      ghost var before := console.cells;
      console.Set(sx, y, fg, bg, g);
      DrawOne(before, console.cells, old(console.cells),
              p => if VerticalDone(p, sx, sy, width, y) then Some(t) else None,
              p => if VerticalDone(p, sx, sy, width, y) || p == (sx, y) then Some(t) else None, (sx, y), t);
      before := console.cells;
      console.Set(sx + width, y, fg, bg, g);
      DrawOne(before, console.cells, old(console.cells),
              p => if VerticalDone(p, sx, sy, width, y) || p == (sx, y) then Some(t) else None,
              p => if VerticalDone(p, sx, sy, width, y + 1) then Some(t) else None, (sx + width, y), t);
      y := y + 1;
    }
    DrawnAgree(console.cells, old(console.cells),
               p => if VerticalDone(p, sx, sy, width, y) then Some(t) else None,
               p => if VerticalDone(p, sx, sy, width, sy + height) then Some(Tile(g, fg, bg)) else None);
  }

  /** A fill followed by an outline in the same rectangle draws the box of `BoxTile`. */
  method FilledBox(console: Console, b: BoxGlyphs, fill: Tile, sx: int, sy: int, width: int, height: int, fg: Color, bg: Color)
    modifies console
    ensures Drawn(console.cells, old(console.cells), p => BoxTile(b, fill, sx, sy, width, height, fg, bg, p))
  {
    FillRect(console, sx, sy, width, height, fill);
    ghost var filled := console.cells;
    DrawOutline(console, b, sx, sy, width, height, fg, bg);
    DrawnThen(old(console.cells), filled, console.cells,
              p => if InRect(p, sx, sy, width, height) then Some(fill) else None,
              p => OutlineTile(b, sx, sy, width, height, fg, bg, p),
              p => BoxTile(b, fill, sx, sy, width, height, fg, bg, p));
  }

  /** `draw_box`: a box filled with the console's clear glyph, with a single-line outline. */
  method DrawBox(console: Console, sx: int, sy: int, width: int, height: int, fg: Color, bg: Color)
    modifies console
    ensures Drawn(console.cells, old(console.cells), p => BoxTile(Single, Tile(console.clearGlyph, fg, bg), sx, sy, width, height, fg, bg, p))
  {
    FilledBox(console, Single, Tile(console.clearGlyph, fg, bg), sx, sy, width, height, fg, bg);
  }

  /** `draw_hollow_box`: a single-line outline; every other cell is left as it was. */
  method DrawHollowBox(console: Console, sx: int, sy: int, width: int, height: int, fg: Color, bg: Color)
    modifies console
    ensures Drawn(console.cells, old(console.cells), p => OutlineTile(Single, sx, sy, width, height, fg, bg, p))
  {
    DrawOutline(console, Single, sx, sy, width, height, fg, bg);
  }

  /**
   * `draw_box_double`: a box filled with spaces in white on black, both with
   * the foreground's alpha, with a double-line outline.
   */
  method DrawBoxDouble(console: Console, sx: int, sy: int, width: int, height: int, fg: Color, bg: Color)
    modifies console
    ensures Drawn(console.cells, old(console.cells),
                  p => BoxTile(Double, Tile(Space, RGBA(1.0, 1.0, 1.0, fg.a), RGBA(0.0, 0.0, 0.0, fg.a)), sx, sy, width, height, fg, bg, p))
  {
    FilledBox(console, Double, Tile(Space, RGBA(1.0, 1.0, 1.0, fg.a), RGBA(0.0, 0.0, 0.0, fg.a)), sx, sy, width, height, fg, bg);
  }

  /** `draw_hollow_box_double`: a double-line outline; every other cell is left as it was. */
  method DrawHollowBoxDouble(console: Console, sx: int, sy: int, width: int, height: int, fg: Color, bg: Color)
    modifies console
    ensures Drawn(console.cells, old(console.cells), p => OutlineTile(Double, sx, sy, width, height, fg, bg, p))
  {
    DrawOutline(console, Double, sx, sy, width, height, fg, bg);
  }

  /** `draw_bar_horizontal`, given the filled width the helper computes from `n / max`. */
  method DrawBarHorizontal(console: Console, sx: int, sy: int, width: int, fillWidth: int, fg: Color, bg: Color)
    modifies console
    ensures Drawn(console.cells, old(console.cells), p => HorizontalBarTile(sx, sy, width, fillWidth, fg, bg, p))
  {
    var x := 0;
    while x < width
      invariant 0 <= x && (x <= width || x == 0)
      invariant Drawn(console.cells, old(console.cells), p => HorizontalBarTile(sx, sy, x, fillWidth, fg, bg, p))
    {
      ghost var before := console.cells;
      if x <= fillWidth {
        console.Set(sx + x, sy, fg, bg, FullShade);
      } else {
        console.Set(sx + x, sy, fg, bg, LightShade);
      }
      DrawOne(before, console.cells, old(console.cells),
              p => HorizontalBarTile(sx, sy, x, fillWidth, fg, bg, p),
              p => HorizontalBarTile(sx, sy, x + 1, fillWidth, fg, bg, p),
              (sx + x, sy), Tile(if x <= fillWidth then FullShade else LightShade, fg, bg));
      x := x + 1;
    }
    DrawnAgree(console.cells, old(console.cells),
               p => HorizontalBarTile(sx, sy, x, fillWidth, fg, bg, p),
               p => HorizontalBarTile(sx, sy, width, fillWidth, fg, bg, p));
  }

  /**
   * `draw_bar_vertical`, given the filled height `filled` the helper
   * computes from `n / max`; the fill line is `height - filled`.
   */
  method DrawBarVertical(console: Console, sx: int, sy: int, height: int, filled: int, fg: Color, bg: Color)
    modifies console
    ensures Drawn(console.cells, old(console.cells), p => VerticalBarTile(sx, sy, height, height - filled, fg, bg, p))
  {
    var fillHeight := height - filled;
    var y := 0;
    while y < height
      invariant 0 <= y && (y <= height || y == 0)
      invariant Drawn(console.cells, old(console.cells), p => VerticalBarTile(sx, sy, y, fillHeight, fg, bg, p))
    {
      ghost var before := console.cells;
      if y >= fillHeight {
        console.Set(sx, sy + y, fg, bg, FullShade);
      } else {
        console.Set(sx, sy + y, fg, bg, LightShade);
      }
      DrawOne(before, console.cells, old(console.cells),
              p => VerticalBarTile(sx, sy, y, fillHeight, fg, bg, p),
              p => VerticalBarTile(sx, sy, y + 1, fillHeight, fg, bg, p),
              (sx, sy + y), Tile(if y >= fillHeight then FullShade else LightShade, fg, bg));
      y := y + 1;
    }
    DrawnAgree(console.cells, old(console.cells),
               p => VerticalBarTile(sx, sy, y, fillHeight, fg, bg, p),
               p => VerticalBarTile(sx, sy, height, fillHeight, fg, bg, p));
  }
}
