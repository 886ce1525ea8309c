/**
 * What `TextBlock::print` (bracket-terminal/src/consoles/text/textblock.rs)
 * does, stated as a function of the block's state: the commands a
 * `TextBuilder` records, the interpreter `Run` over them, and the
 * properties of that interpreter.  The class `TextBlock` runs the same
 * interpreter in place and is proved to agree with `Run`.
 *
 * Two collaborators of `print` are not part of this model and appear as
 * parameters: `ColoredTextSpans::new`, which splits a text into coloured
 * spans (`parse`), and `to_cp437`, which maps a character to its glyph
 * (`glyphOf`).  Padding is zero throughout.
 */
module TextPrint {
  import opened Terminal
  import opened LineBreaking

  /** One coloured span of a text, as `ColoredTextSpans` yields it. */
  datatype Span = Span(fg: Color, text: seq<char>)

  /** The commands a `TextBuilder` records (`CommandType`). */
  datatype Command =
    | Text(block: seq<char>, wrap: bool, centerX: bool, centerY: bool, colored: bool)
    | NewLine
    | Foreground(col: Color)
    | Background(col: Color)
    | Reset

  /** The result of `print`: `Ok(())` or `Err(OutOfSpace)`. */
  datatype Outcome = Ok | OutOfSpace

  /** The part of a text block that `print` changes. */
  datatype BlockState = BlockState(buffer: seq<Tile>, cursor: (int, int), fg: Color, bg: Color)

  /** What `print` works with besides that state: the block's size and the two collaborators. */
  datatype Env = Env(width: nat, height: nat, parse: seq<char> -> seq<Span>, glyphOf: char -> Glyph)

  /** Row-major index of cell `(x, y)` in a buffer `width` cells wide. */
  function At(width: int, x: int, y: int): int
  {
    y * width + x
  }

  /** Within a row, the index gives its cell back: the row by division, the column as the remainder. */
  lemma AtRowMajor(width: int, x: int, y: int)
    requires 0 <= x < width
    ensures At(width, x, y) / width == y && At(width, x, y) % width == x
  {
    DivUnique(At(width, x, y), width, y, x);
  }

  lemma DivUnique(i: int, w: int, a: int, b: int)
    requires w > 0 && 0 <= b < w && i == a * w + b
    ensures i / w == a && i % w == b
  {
    var q, m := i / w, i % w;
    assert q * w + m == i;
    MulSub(a, q, w);
    if a > q {
      MulAtLeast(a - q, w);
    } else if a < q {
      MulSub(q, a, w);
      MulAtLeast(q - a, w);
    }
  }

  lemma MulSub(a: int, b: int, w: int)
    ensures (a - b) * w == a * w - b * w
  {
  }

  lemma MulAtLeast(k: int, w: int)
    requires k >= 1 && w > 0
    ensures k * w >= w
  {
  }

  lemma MulLeq(a: int, b: int, c: nat)
    requires a <= b
    ensures a * c <= b * c
  {
  }

  // ---------------------------------------------------------------------------
  // Colours of a text

  /** The characters of the spans, in order. */
  function SpanText(spans: seq<Span>): seq<char>
  {
    if spans == [] then [] else SpanText(spans[..|spans| - 1]) + Last(spans).text
  }

  /** The colour of each character of the spans. */
  function SpanColors(spans: seq<Span>): (colors: seq<Color>)
    ensures |colors| == |SpanText(spans)|
  {
    if spans == [] then []
    else SpanColors(spans[..|spans| - 1]) + seq(|Last(spans).text|, _ => Last(spans).fg)
  }

  /** The colour map `print` keeps: the character positions whose colour differs from `fg`. */
  function ColorMap(colors: seq<Color>, fg: Color): map<nat, Color>
  {
    map k: nat | k < |colors| && colors[k] != fg :: colors[k]
  }

  /** The foreground a character is written with: its recorded colour, or else the current one. */
  function FgAt(colors: map<nat, Color>, k: nat, fg: Color): Color
  {
    if k in colors then colors[k] else fg
  }

  /** Looking a position up in the colour map gives the colour of its span, and `fg` past the spans. */
  lemma ColorMapLookup(colors: seq<Color>, fg: Color, k: nat)
    ensures FgAt(ColorMap(colors, fg), k, fg) == if k < |colors| then colors[k] else fg
  {
  }

  /** The text a `Text` command lays out: the span text when colours are on and it is non-empty, else the block. */
  function SourceText(block: seq<char>, colored: bool, parse: seq<char> -> seq<Span>): seq<char>
  {
    var parsed := if colored then SpanText(parse(block)) else [];
    if |parsed| > 0 then parsed else block
  }

  /** The colour map of a `Text` command; it is empty when colours are off. */
  function ColorsOf(block: seq<char>, colored: bool, parse: seq<char> -> seq<Span>, fg: Color): map<nat, Color>
  {
    if colored then ColorMap(SpanColors(parse(block)), fg) else map[]
  }

  // ---------------------------------------------------------------------------
  // Layout and placement of a text

  /** The condition under which the line-breaking loop of `print` ends (see `WordsFit`). */
  predicate Breakable(text: seq<char>, wrap: bool, width: int)
  {
    if wrap then WordsFit(Split(text), width) else text == [] || width >= 2
  }

  /** The lines of a text: greedy word wrap, or hard chunks of `width - 1`. */
  function Layout(text: seq<char>, wrap: bool, width: int): (lines: seq<seq<char>>)
    requires Breakable(text, wrap, width)
    ensures |lines| >= 1
  {
    if wrap then WrapLines(Split(text), width) else Chunks(text, width)
  }

  /** The row the first line goes on: 0, or the row that centres the lines vertically. */
  function Row0(lineCount: nat, height: nat, centerY: bool): int
  {
    if centerY then height / 2 - lineCount / 2 else 0
  }

  /** The column a line starts at: 0, or the column that centres it. */
  function X0(lineLength: nat, width: nat, centerX: bool): int
  {
    if centerX then width / 2 - lineLength / 2 else 0
  }

  /** Where one character goes: its buffer index, the cursor column, and the character. */
  datatype Placement = Placement(index: int, column: int, ch: char)

  /** The characters of one line on row `row`, one column after the other. */
  function LinePlacements(line: seq<char>, row: int, width: nat, centerX: bool): (ps: seq<Placement>)
    ensures |ps| == |line|
  {
    var x0 := X0(|line|, width, centerX);
    seq(|line|, j requires 0 <= j < |line| => Placement(At(width, x0 + j, row), x0 + j, line[j]))
  }

  /** The characters of all lines, line `i` on row `row0 + i`, in the order `print` writes them. */
  function Placements(lines: seq<seq<char>>, row0: int, width: nat, centerX: bool): seq<Placement>
  {
    if lines == [] then []
    else (Placements(lines[..|lines| - 1], row0, width, centerX)
          + LinePlacements(Last(lines), row0 + |lines| - 1, width, centerX))
  }

  /** The first placement outside a buffer of `size` cells, or the number of placements. */
  function FirstOutside(ps: seq<Placement>, size: int): (n: nat)
    ensures n <= |ps|
    ensures forall k :: 0 <= k < n ==> 0 <= ps[k].index < size
    ensures n < |ps| ==> !(0 <= ps[n].index < size)
  {
    FirstOutsideFrom(ps, size, 0)
  }

  function FirstOutsideFrom(ps: seq<Placement>, size: int, from: nat): (n: nat)
    requires from <= |ps|
    ensures from <= n <= |ps|
    ensures forall k :: from <= k < n ==> 0 <= ps[k].index < size
    ensures n < |ps| ==> !(0 <= ps[n].index < size)
    decreases |ps| - from
  {
    if from == |ps| || !(0 <= ps[from].index < size) then from else FirstOutsideFrom(ps, size, from + 1)
  }

  /** One write into the buffer. */
  datatype Write = Write(index: int, tile: Tile)

  /** The writes of the placements: glyph, colour of that character position, current background. */
  function Writes(ps: seq<Placement>, glyphOf: char -> Glyph, colors: map<nat, Color>, fg: Color, bg: Color): (ws: seq<Write>)
    ensures |ws| == |ps|
  {
    seq(|ps|, k requires 0 <= k < |ps| => Write(ps[k].index, Tile(glyphOf(ps[k].ch), FgAt(colors, k, fg), bg)))
  }

  /**
   * The buffer after the first `n` writes, in order.  `print` never
   * performs a write outside the buffer (it stops there); such a write
   * would leave the buffer as it is.
   */
  function Apply(buffer: seq<Tile>, ws: seq<Write>, n: nat): (r: seq<Tile>)
    requires n <= |ws|
    ensures |r| == |buffer|
  {
    if n == 0 then buffer
    else
      var before := Apply(buffer, ws, n - 1);
      if 0 <= ws[n - 1].index < |buffer| then before[ws[n - 1].index := ws[n - 1].tile] else before
  }

  /** Write `k` puts the glyph of the `k`-th character, in its recorded colour or else `fg`, on `bg`, at the `k`-th placement. */
  lemma WriteAt(ps: seq<Placement>, glyphOf: char -> Glyph, colors: map<nat, Color>, fg: Color, bg: Color, k: nat)
    requires k < |ps|
    ensures Writes(ps, glyphOf, colors, fg, bg)[k] == Write(ps[k].index, Tile(glyphOf(ps[k].ch), FgAt(colors, k, fg), bg))
  {
  }

  /** A write that lands inside the buffer, before the first one that does not, extends the prefix applied. */
  lemma WriteInside(buffer: seq<Tile>, ps: seq<Placement>, ws: seq<Write>, n: nat)
    requires |ws| == |ps| && n < |ps| && n <= FirstOutside(ps, |buffer|)
    requires ws[n].index == ps[n].index && 0 <= ps[n].index < |buffer|
    ensures n + 1 <= FirstOutside(ps, |buffer|)
    ensures Apply(buffer, ws, n + 1) == Apply(buffer, ws, n)[ws[n].index := ws[n].tile]
  {
  }

  /** The first placement outside the buffer, at or after a prefix that fits, is where `FirstOutside` stops. */
  lemma WriteOutside(size: int, ps: seq<Placement>, n: nat)
    requires n < |ps| && n <= FirstOutside(ps, size) && !(0 <= ps[n].index < size)
    ensures FirstOutside(ps, size) == n
  {
  }

  // ---------------------------------------------------------------------------
  // The interpreter

  /** The condition under which `print` ends on a command. */
  predicate Printable(cmd: Command, env: Env)
  {
    cmd.Text? ==> Breakable(SourceText(cmd.block, cmd.colored, env.parse), cmd.wrap, env.width)
  }

  predicate AllPrintable(cmds: seq<Command>, env: Env)
  {
    forall k :: 0 <= k < |cmds| ==> Printable(cmds[k], env)
  }

  /**
   * The condition under which `print` ends on a command list from state
   * `s`: every command it reaches is printable.  The commands after the
   * first that runs out of space are never looked at.
   */
  predicate Reaches(s: BlockState, cmds: seq<Command>, env: Env)
    decreases |cmds|
  {
    cmds == []
    || (Printable(cmds[0], env)
        && var (t, r) := Exec(s, cmds[0], env); r == OutOfSpace || Reaches(t, cmds[1..], env))
  }

  function TextLines(cmd: Command, env: Env): (lines: seq<seq<char>>)
    requires cmd.Text? && Printable(cmd, env)
    ensures |lines| >= 1
  {
    Layout(SourceText(cmd.block, cmd.colored, env.parse), cmd.wrap, env.width)
  }

  function TextRow(cmd: Command, env: Env): int
    requires cmd.Text? && Printable(cmd, env)
  {
    Row0(|TextLines(cmd, env)|, env.height, cmd.centerY)
  }

  function TextPlacements(cmd: Command, env: Env): seq<Placement>
    requires cmd.Text? && Printable(cmd, env)
  {
    Placements(TextLines(cmd, env), TextRow(cmd, env), env.width, cmd.centerX)
  }

  function TextWrites(s: BlockState, cmd: Command, env: Env): (ws: seq<Write>)
    requires cmd.Text? && Printable(cmd, env)
    ensures |ws| == |TextPlacements(cmd, env)|
  {
    Writes(TextPlacements(cmd, env), env.glyphOf, ColorsOf(cmd.block, cmd.colored, env.parse, s.fg), s.fg, s.bg)
  }

  /**
   * A `Text` command: lay the text out, then write its characters in order
   * until one would land outside the buffer.  The cursor ends on the start
   * row, in the column after the last character written, or on the column
   * of the character that did not fit.
   */
  function ExecText(s: BlockState, cmd: Command, env: Env): (r: (BlockState, Outcome))
    requires cmd.Text? && Printable(cmd, env)
    ensures |r.0.buffer| == |s.buffer| && r.0.fg == s.fg && r.0.bg == s.bg
  {
    var lines := TextLines(cmd, env);
    var row0 := TextRow(cmd, env);
    var ps := TextPlacements(cmd, env);
    var n := FirstOutside(ps, |s.buffer|);
    var buffer := Apply(s.buffer, TextWrites(s, cmd, env), n);
    if n < |ps| then (s.(buffer := buffer, cursor := (ps[n].column, row0)), OutOfSpace)
    else (s.(buffer := buffer, cursor := (X0(|Last(lines)|, env.width, cmd.centerX) + |Last(lines)|, row0)), Ok)
  }

  /** One command. */
  function Exec(s: BlockState, cmd: Command, env: Env): (r: (BlockState, Outcome))
    requires Printable(cmd, env)
    ensures |r.0.buffer| == |s.buffer|
    ensures r.1 == OutOfSpace ==> cmd.Text?
  {
    match cmd
    case Text(_, _, _, _, _) => ExecText(s, cmd, env)
    case NewLine => (s.(cursor := (0, s.cursor.1 + 1)), Ok)
    case Foreground(col) => (s.(fg := col), Ok)
    case Background(col) => (s.(bg := col), Ok)
    case Reset => (s.(cursor := (0, 0), fg := White, bg := Black), Ok)
  }

  /** The commands in order, stopping at the first that runs out of space. */
  function Run(s: BlockState, cmds: seq<Command>, env: Env): (r: (BlockState, Outcome))
    requires Reaches(s, cmds, env)
    ensures (forall k :: 0 <= k < |cmds| ==> !cmds[k].Text?) ==> r.1 == Ok && r.0.buffer == s.buffer
    decreases |cmds|
  {
    if cmds == [] then (s, Ok)
    else
      var (t, r) := Exec(s, cmds[0], env);
      if r == OutOfSpace then (t, r) else Run(t, cmds[1..], env)
  }

  // ---------------------------------------------------------------------------
  // Properties of the interpreter

  /** The commands other than `Text` never touch the buffer and never fail; each sets only what it names. */
  lemma ControlCommands(s: BlockState, cmd: Command, env: Env)
    requires !cmd.Text?
    ensures Exec(s, cmd, env).1 == Ok && Exec(s, cmd, env).0.buffer == s.buffer
    ensures cmd.NewLine? ==> Exec(s, cmd, env).0 == s.(cursor := (0, s.cursor.1 + 1))
    ensures cmd.Foreground? ==> Exec(s, cmd, env).0 == s.(fg := cmd.col)
    ensures cmd.Background? ==> Exec(s, cmd, env).0 == s.(bg := cmd.col)
    ensures cmd.Reset? ==> Exec(s, cmd, env).0 == BlockState(s.buffer, (0, 0), White, Black)
  {
  }

  /** `print` never changes the length of the buffer. */
  lemma {:induction false} RunKeepsLength(s: BlockState, cmds: seq<Command>, env: Env)
    requires Reaches(s, cmds, env)
    ensures |Run(s, cmds, env).0.buffer| == |s.buffer|
    decreases |cmds|
  {
    if cmds != [] {
      var (t, r) := Exec(s, cmds[0], env);
      assert |t.buffer| == |s.buffer|;
      if r == Ok {
        RunKeepsLength(t, cmds[1..], env);
      }
    }
  }

  /** One step of `print`: the first command runs, and either ends the run or leaves the rest to run. */
  lemma RunStep(s: BlockState, cmds: seq<Command>, env: Env)
    requires cmds != [] && Reaches(s, cmds, env)
    ensures Printable(cmds[0], env)
    ensures var (t, r) := Exec(s, cmds[0], env);
      if r == OutOfSpace then Run(s, cmds, env) == (t, r)
      else Reaches(t, cmds[1..], env) && Run(s, cmds, env) == Run(t, cmds[1..], env)
  {
  }

  /** Printable commands are reached from any state. */
  lemma {:induction false} AllPrintableReaches(s: BlockState, cmds: seq<Command>, env: Env)
    requires AllPrintable(cmds, env)
    ensures Reaches(s, cmds, env)
    decreases |cmds|
  {
    if cmds != [] {
      assert Printable(cmds[0], env);
      assert AllPrintable(cmds[1..], env) by {
        forall k | 0 <= k < |cmds| - 1 ensures Printable(cmds[1..][k], env) { assert cmds[1..][k] == cmds[k + 1]; }
      }
      AllPrintableReaches(Exec(s, cmds[0], env).0, cmds[1..], env);
    }
  }

  /**
   * A command that runs out of space ends `print`: whatever follows it,
   * printable or not, is never run.
   */
  lemma OutOfSpaceEndsPrint(s: BlockState, cmd: Command, rest: seq<Command>, env: Env)
    requires Printable(cmd, env) && Exec(s, cmd, env).1 == OutOfSpace
    ensures Reaches(s, [cmd] + rest, env)
    ensures Run(s, [cmd] + rest, env) == Exec(s, cmd, env)
  {
    assert ([cmd] + rest)[0] == cmd;
  }

  /**
   * Running two command lists one after the other is running their
   * concatenation; once a command runs out of space, nothing after it runs.
   */
  lemma {:induction false} RunConcat(s: BlockState, a: seq<Command>, b: seq<Command>, env: Env)
    requires Reaches(s, a, env)
    requires Run(s, a, env).1 == Ok ==> Reaches(Run(s, a, env).0, b, env)
    ensures Reaches(s, a + b, env)
    ensures Run(s, a + b, env) ==
      (var (t, r) := Run(s, a, env); if r == OutOfSpace then (t, r) else Run(t, b, env))
    decreases |a|
  {
    if a == [] {
      assert a + b == b;
    } else {
      assert (a + b)[0] == a[0] && (a + b)[1..] == a[1..] + b;
      var (t, r) := Exec(s, a[0], env);
      if r == Ok {
        RunConcat(t, a[1..], b, env);
      }
    }
  }

  /**
   * A `Text` command does not read the cursor: it always restarts on its
   * own start row, so a cursor move or a `NewLine` before it has no effect.
   */
  lemma TextIgnoresCursor(s: BlockState, cursor: (int, int), cmd: Command, env: Env)
    requires cmd.Text? && Printable(cmd, env)
    ensures ExecText(s.(cursor := cursor), cmd, env) == ExecText(s, cmd, env)
    ensures ExecText(s, cmd, env).0.cursor.1 == Row0(|TextLines(cmd, env)|, env.height, cmd.centerY)
  {
  }

  /** In particular a `NewLine` directly before a `Text` is overwritten. */
  lemma NewLineBeforeText(s: BlockState, cmd: Command, rest: seq<Command>, env: Env)
    requires cmd.Text? && Reaches(s, [cmd] + rest, env)
    ensures Reaches(s, [NewLine, cmd] + rest, env)
    ensures Run(s, [NewLine, cmd] + rest, env) == Run(s, [cmd] + rest, env)
  {
    var cmds := [NewLine, cmd] + rest;
    var moved := s.(cursor := (0, s.cursor.1 + 1));
    assert ([cmd] + rest)[0] == cmd && ([cmd] + rest)[1..] == rest;
    TextIgnoresCursor(s, moved.cursor, cmd, env);
    assert Reaches(moved, [cmd] + rest, env);
    assert cmds[0] == NewLine && cmds[1..] == [cmd] + rest;
  }

  /** The last of the first `n` writes to index `i`, or -1 when none of them writes there. */
  function LastWrite(ws: seq<Write>, n: nat, i: int): (k: int)
    requires n <= |ws|
    ensures -1 <= k < n
    ensures k >= 0 ==> ws[k].index == i && forall k' :: k < k' < n ==> ws[k'].index != i
    ensures k == -1 ==> forall k' :: 0 <= k' < n ==> ws[k'].index != i
  {
    if n == 0 then -1
    else if ws[n - 1].index == i then n - 1
    else LastWrite(ws, n - 1, i)
  }

  /** After the writes each cell holds the last tile written to it, or its old tile if none was. */
  lemma {:induction false} ApplyAt(buffer: seq<Tile>, ws: seq<Write>, n: nat, i: int)
    requires n <= |ws| && 0 <= i < |buffer|
    ensures Apply(buffer, ws, n)[i] == if LastWrite(ws, n, i) >= 0 then ws[LastWrite(ws, n, i)].tile else buffer[i]
  {
    if n > 0 {
      ApplyAt(buffer, ws, n - 1, i);
    }
  }

  /** Writing the same writes again changes nothing. */
  lemma ApplyIdempotent(buffer: seq<Tile>, ws: seq<Write>, n: nat)
    requires n <= |ws|
    ensures Apply(Apply(buffer, ws, n), ws, n) == Apply(buffer, ws, n)
  {
    var once := Apply(buffer, ws, n);
    forall i | 0 <= i < |buffer|
      ensures Apply(once, ws, n)[i] == once[i]
    {
      ApplyAt(once, ws, n, i);
      ApplyAt(buffer, ws, n, i);
    }
  }

  /**
   * `print` reports `OutOfSpace` exactly when some character of the text
   * would land outside the buffer.
   */
  lemma TextOutcome(s: BlockState, cmd: Command, env: Env)
    requires cmd.Text? && Printable(cmd, env)
    ensures var ps := TextPlacements(cmd, env);
      ExecText(s, cmd, env).1 == OutOfSpace <==> exists k :: 0 <= k < |ps| && !(0 <= ps[k].index < |s.buffer|)
  {
  }

  /**
   * After a `Text` command every cell holds the last tile written to it
   * before the first character that does not fit, or its old tile.
   */
  lemma TextBuffer(s: BlockState, cmd: Command, env: Env)
    requires cmd.Text? && Printable(cmd, env)
    ensures var n := FirstOutside(TextPlacements(cmd, env), |s.buffer|);
      var ws := TextWrites(s, cmd, env);
      forall i :: 0 <= i < |s.buffer| ==>
        ExecText(s, cmd, env).0.buffer[i] == if LastWrite(ws, n, i) >= 0 then ws[LastWrite(ws, n, i)].tile else s.buffer[i]
  {
    var n := FirstOutside(TextPlacements(cmd, env), |s.buffer|);
    var ws := TextWrites(s, cmd, env);
    forall i | 0 <= i < |s.buffer|
      ensures ExecText(s, cmd, env).0.buffer[i] == if LastWrite(ws, n, i) >= 0 then ws[LastWrite(ws, n, i)].tile else s.buffer[i]
    {
      ApplyAt(s.buffer, ws, n, i);
    }
  }

  /**
   * Printing the same text twice in a row leaves the block as printing it
   * once: the second copy lands on the same cells as the first.
   */
  lemma RepeatedText(s: BlockState, cmd: Command, env: Env)
    requires cmd.Text? && Printable(cmd, env)
    requires ExecText(s, cmd, env).1 == Ok
    ensures ExecText(ExecText(s, cmd, env).0, cmd, env) == ExecText(s, cmd, env)
  {
    var t := ExecText(s, cmd, env).0;
    var n := FirstOutside(TextPlacements(cmd, env), |s.buffer|);
    assert TextWrites(t, cmd, env) == TextWrites(s, cmd, env);
    ApplyIdempotent(s.buffer, TextWrites(s, cmd, env), n);
  }

  // ---------------------------------------------------------------------------
  // Where the characters of a layout go

  /** The number of characters on the lines before line `i`: where line `i` starts among the placements. */
  function Offset(lines: seq<seq<char>>, i: nat): nat
    requires i <= |lines|
  {
    if i == 0 then 0 else Offset(lines, i - 1) + |lines[i - 1]|
  }

  lemma {:induction false} OffsetPrefix(lines: seq<seq<char>>, m: nat, k: nat)
    requires k <= m <= |lines|
    ensures Offset(lines[..m], k) == Offset(lines, k)
  {
    if k > 0 {
      OffsetPrefix(lines, m, k - 1);
      assert lines[..m][k - 1] == lines[k - 1];
    }
  }

  lemma {:induction false} OffsetGrows(lines: seq<seq<char>>, i: nat, k: nat)
    requires i <= k <= |lines|
    ensures Offset(lines, i) <= Offset(lines, k)
    decreases k - i
  {
    if i < k {
      OffsetGrows(lines, i + 1, k);
    }
  }

  /** There is one placement per character of the lines. */
  lemma {:induction false} PlacementsLength(lines: seq<seq<char>>, row0: int, width: nat, centerX: bool)
    ensures |Placements(lines, row0, width, centerX)| == Offset(lines, |lines|)
  {
    if lines != [] {
      var front := lines[..|lines| - 1];
      PlacementsLength(front, row0, width, centerX);
      OffsetPrefix(lines, |front|, |front|);
    }
  }

  /** Character `j` of line `i` lands on row `row0 + i`, in column `j` after the line's start. */
  lemma {:induction false} PlacementOfLine(lines: seq<seq<char>>, row0: int, width: nat, centerX: bool, i: nat, j: nat)
    requires i < |lines| && j < |lines[i]|
    ensures var k := Offset(lines, i) + j;
      var x := X0(|lines[i]|, width, centerX) + j;
      k < |Placements(lines, row0, width, centerX)|
      && Placements(lines, row0, width, centerX)[k] == Placement(At(width, x, row0 + i), x, lines[i][j])
  {
    var front := lines[..|lines| - 1];
    var before := Placements(front, row0, width, centerX);
    var line := LinePlacements(Last(lines), row0 + |lines| - 1, width, centerX);
    assert Placements(lines, row0, width, centerX) == before + line;
    PlacementsLength(front, row0, width, centerX);
    OffsetPrefix(lines, |front|, |front|);
    if i == |lines| - 1 {
      assert Last(lines) == lines[i];
    } else {
      PlacementOfLine(front, row0, width, centerX, i, j);
      OffsetPrefix(lines, |front|, i);
      OffsetGrows(front, i + 1, |front|);
      OffsetPrefix(lines, |front|, i + 1);
      assert front[i] == lines[i];
    }
  }

  /** The characters of line `i` are the placements from `Offset(lines, i)` on, one column after the other. */
  lemma LineOfPlacements(lines: seq<seq<char>>, row0: int, width: nat, centerX: bool, i: nat)
    requires i < |lines|
    ensures Offset(lines, i) + |lines[i]| <= |Placements(lines, row0, width, centerX)|
    ensures forall j :: 0 <= j < |lines[i]| ==>
      Placements(lines, row0, width, centerX)[Offset(lines, i) + j]
        == Placement(At(width, X0(|lines[i]|, width, centerX) + j, row0 + i), X0(|lines[i]|, width, centerX) + j, lines[i][j])
  {
    OffsetGrows(lines, i + 1, |lines|);
    PlacementsLength(lines, row0, width, centerX);
    forall j | 0 <= j < |lines[i]|
      ensures Placements(lines, row0, width, centerX)[Offset(lines, i) + j]
        == Placement(At(width, X0(|lines[i]|, width, centerX) + j, row0 + i), X0(|lines[i]|, width, centerX) + j, lines[i][j])
    {
      PlacementOfLine(lines, row0, width, centerX, i, j);
    }
  }

  predicate PlacedInside(ps: seq<Placement>, size: int)
  {
    forall k :: 0 <= k < |ps| ==> 0 <= ps[k].index < size
  }

  /** The buffer index of character `j` of line `i`. */
  function CellOf(lines: seq<seq<char>>, i: nat, j: int, row0: int, width: nat, centerX: bool): int
    requires i < |lines|
  {
    At(width, X0(|lines[i]|, width, centerX) + j, row0 + i)
  }

  /** The placements of lines whose every character is inside the buffer are all inside it. */
  lemma {:induction false} PlacementsInside(lines: seq<seq<char>>, row0: int, width: nat, centerX: bool, size: int)
    requires forall i: nat, j :: i < |lines| && 0 <= j < |lines[i]| ==> 0 <= CellOf(lines, i, j, row0, width, centerX) < size
    ensures PlacedInside(Placements(lines, row0, width, centerX), size)
  {
    if lines != [] {
      var front := lines[..|lines| - 1];
      forall i: nat, j | i < |front| && 0 <= j < |front[i]|
        ensures 0 <= CellOf(front, i, j, row0, width, centerX) < size
      {
        assert front[i] == lines[i];
        assert CellOf(front, i, j, row0, width, centerX) == CellOf(lines, i, j, row0, width, centerX);
      }
      PlacementsInside(front, row0, width, centerX, size);
      var ps := Placements(lines, row0, width, centerX);
      var before := Placements(front, row0, width, centerX);
      var line := LinePlacements(Last(lines), row0 + |lines| - 1, width, centerX);
      assert ps == before + line;
      forall k | 0 <= k < |ps| ensures 0 <= ps[k].index < size {
        if k >= |before| {
          var j := k - |before|;
          var i := |lines| - 1;
          assert ps[k] == line[j];
          assert Last(lines) == lines[i];
          assert 0 <= j < |lines[i]|;
          assert line[j].index == CellOf(lines, i, j, row0, width, centerX);
        } else {
          assert ps[k] == before[k];
        }
      }
    }
  }

  /** A chunk of at most `width - 1` characters on row `i < height` stays inside a `width` by `height` buffer. */
  lemma ChunkCellInside(width: nat, height: nat, i: nat, j: nat)
    requires width >= 2 && i < height && j < width - 1
    ensures 0 <= At(width, j, i) < width * height
  {
    MulLeq(i + 1, height, width);
    assert At(width, j, i) < (i + 1) * width;
  }

  /** Without wrap or centring every line starts at column 0 of row `i`. */
  lemma PlainCells(lines: seq<seq<char>>, width: nat, height: nat)
    requires width >= 2 && |lines| <= height
    requires forall i :: 0 <= i < |lines| ==> |lines[i]| <= width - 1
    ensures forall i: nat, j :: i < |lines| && 0 <= j < |lines[i]| ==> 0 <= CellOf(lines, i, j, 0, width, false) < width * height
  {
    forall i: nat, j | i < |lines| && 0 <= j < |lines[i]|
      ensures 0 <= CellOf(lines, i, j, 0, width, false) < width * height
    {
      ChunkCellInside(width, height, i, j);
    }
  }

  /** Without wrap or centring, chunks that fit in the rows put every character inside the buffer. */
  lemma PlainTextInside(s: BlockState, cmd: Command, env: Env)
    requires cmd.Text? && !cmd.wrap && !cmd.centerX && !cmd.centerY
    requires SourceText(cmd.block, cmd.colored, env.parse) != [] && env.width >= 2
    requires |s.buffer| == env.width * env.height
    requires |Chunks(SourceText(cmd.block, cmd.colored, env.parse), env.width)| <= env.height
    ensures Printable(cmd, env) && PlacedInside(TextPlacements(cmd, env), |s.buffer|)
  {
    var text := SourceText(cmd.block, cmd.colored, env.parse);
    var width, height := env.width, env.height;
    var lines := TextLines(cmd, env);
    assert lines == Chunks(text, width);
    ChunksPartition(text, width);
    assert TextRow(cmd, env) == 0;
    assert forall i :: 0 <= i < |lines| ==> |lines[i]| <= width - 1 by {
      forall i | 0 <= i < |lines| ensures |lines[i]| <= width - 1 {
        if i == |lines| - 1 { assert lines[i] == Last(lines); }
      }
    }
    PlainCells(lines, width, height);
    PlacementsInside(lines, 0, width, false, |s.buffer|);
  }

  /** Without wrap or centring, a chunk beyond the last row lands at index `height * width`, past the buffer. */
  lemma PlainTextOverflows(s: BlockState, cmd: Command, env: Env)
    requires cmd.Text? && !cmd.wrap && !cmd.centerX && !cmd.centerY
    requires SourceText(cmd.block, cmd.colored, env.parse) != [] && env.width >= 2
    requires |s.buffer| == env.width * env.height
    requires |Chunks(SourceText(cmd.block, cmd.colored, env.parse), env.width)| > env.height
    ensures Printable(cmd, env)
    ensures exists k :: 0 <= k < |TextPlacements(cmd, env)| && !(0 <= TextPlacements(cmd, env)[k].index < |s.buffer|)
  {
    var text := SourceText(cmd.block, cmd.colored, env.parse);
    var width, height := env.width, env.height;
    var lines := TextLines(cmd, env);
    assert lines == Chunks(text, width);
    ChunksPartition(text, width);
    assert TextRow(cmd, env) == 0;
    assert lines[height] != [];
    PlacementOfLine(lines, 0, width, false, height, 0);
    OffsetGrows(lines, height + 1, |lines|);
    PlacementsLength(lines, 0, width, false);
    var k := Offset(lines, height);
    assert TextPlacements(cmd, env) == Placements(lines, 0, width, false);
    assert TextPlacements(cmd, env)[k].index == At(width, 0, height) == height * width;
  }

  /**
   * Without wrap or centring, a non-empty text in a `width` by `height`
   * buffer fits exactly when its chunks of `width - 1` characters are no
   * more than `height`: each chunk takes a row of its own, and the first
   * chunk past the last row runs out of space.
   */
  lemma PlainTextFits(s: BlockState, cmd: Command, env: Env)
    requires cmd.Text? && !cmd.wrap && !cmd.centerX && !cmd.centerY
    requires SourceText(cmd.block, cmd.colored, env.parse) != [] && env.width >= 2
    requires |s.buffer| == env.width * env.height
    ensures Printable(cmd, env)
    ensures ExecText(s, cmd, env).1 == Ok <==> |Chunks(SourceText(cmd.block, cmd.colored, env.parse), env.width)| <= env.height
  {
    assert Printable(cmd, env);
    TextOutcome(s, cmd, env);
    if |Chunks(SourceText(cmd.block, cmd.colored, env.parse), env.width)| <= env.height {
      PlainTextInside(s, cmd, env);
    } else {
      PlainTextOverflows(s, cmd, env);
    }
  }
}
