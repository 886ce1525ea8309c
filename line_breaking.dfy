/**
 * How `TextBlock::print` (bracket-terminal/src/consoles/text/textblock.rs)
 * breaks the characters of one `Text` command into lines, with padding at zero.
 *
 * Without word wrap the text is cut into chunks of `width - 1` characters.
 * With word wrap it is split on ' ' and the words are laid out greedily:
 * a word joins the current line after one space unless it would push the
 * line past `width - 1` characters, in which case it starts a new line and
 * the separating space stays at the end of the earlier one.
 *
 * `Chunks` and `WrapLines` state the two layouts; `BreakLines` is the loop
 * the source runs, proved to produce them.
 */
module LineBreaking {

  const Space: char := ' '

  function Last<T>(s: seq<T>): T
    requires |s| > 0
  {
    s[|s| - 1]
  }

  /** All lines of a layout, one after the other. */
  function Flatten(lines: seq<seq<char>>): seq<char>
  {
    if lines == [] then [] else Flatten(lines[..|lines| - 1]) + Last(lines)
  }

  lemma ConcatAssoc<T>(a: seq<T>, b: seq<T>, c: seq<T>)
    ensures a + (b + c) == (a + b) + c
  {
  }

  lemma FlattenSnoc(lines: seq<seq<char>>, line: seq<char>)
    ensures Flatten(lines + [line]) == Flatten(lines) + line
  {
    assert (lines + [line])[..|lines|] == lines;
  }

  lemma {:induction false} FlattenCons(line: seq<char>, lines: seq<seq<char>>)
    ensures Flatten([line] + lines) == line + Flatten(lines)
    decreases |lines|
  {
    if lines == [] {
      assert [line] + lines == [] + [line];
      FlattenSnoc([], line);
    } else {
      var front := lines[..|lines| - 1];
      assert [line] + lines == ([line] + front) + [Last(lines)];
      assert lines == front + [Last(lines)];
      FlattenSnoc([line] + front, Last(lines));
      FlattenCons(line, front);
      FlattenSnoc(front, Last(lines));
    }
  }

  // ---------------------------------------------------------------------------
  // Splitting on spaces (`str::split(' ')`) and joining back

  /**
   * The pieces of `s` between spaces, as Rust's `split(' ')` returns them:
   * there is always at least one piece, an empty text gives one empty piece,
   * and two adjacent spaces give an empty piece between them.
   */
  function Split(s: seq<char>): (words: seq<seq<char>>)
    ensures |words| >= 1
    ensures forall k :: 0 <= k < |words| ==> Space !in words[k]
  {
    if s == [] then [[]]
    else
      var rest := Split(s[1..]);
      if s[0] == Space then [[]] + rest
      else [[s[0]] + rest[0]] + rest[1..]
  }

  /** The pieces put back together with one space between neighbours. */
  function Join(words: seq<seq<char>>): seq<char>
  {
    if |words| <= 1 then (if words == [] then [] else words[0])
    else words[0] + [Space] + Join(words[1..])
  }

  /** Splitting on spaces loses nothing: joining the pieces gives the text back. */
  lemma {:induction false} SplitThenJoin(s: seq<char>)
    ensures Join(Split(s)) == s
  {
    if s != [] {
      var rest := Split(s[1..]);
      SplitThenJoin(s[1..]);
      if s[0] == Space {
        assert ([[]] + rest)[1..] == rest;
        assert s == [s[0]] + s[1..];
      } else {
        var words := [[s[0]] + rest[0]] + rest[1..];
        if |rest| == 1 {
          assert s == [s[0]] + s[1..];
        } else {
          assert words[1..] == rest[1..];
          assert Join(rest) == rest[0] + [Space] + Join(rest[1..]);
          assert s == [s[0]] + s[1..];
        }
      }
    }
  }

  /** Splitting a text whose first piece `w` has no space. */
  lemma {:induction false} SplitAfterWord(w: seq<char>, t: seq<char>)
    requires Space !in w
    ensures Split(w + t) == [w + Split(t)[0]] + Split(t)[1..]
  {
    if w != [] {
      SplitAfterWord(w[1..], t);
      assert (w + t)[1..] == w[1..] + t;
      assert w + t == [w[0]] + (w[1..] + t);
      assert [w[0]] + (w[1..] + Split(t)[0]) == w + Split(t)[0];
    } else {
      assert w + t == t;
      assert w + Split(t)[0] == Split(t)[0];
      assert Split(t) == [Split(t)[0]] + Split(t)[1..];
    }
  }

  /** The converse round trip: space-free pieces, joined and split again, come back unchanged. */
  lemma {:induction false} JoinThenSplit(words: seq<seq<char>>)
    requires |words| >= 1
    requires forall k :: 0 <= k < |words| ==> Space !in words[k]
    ensures Split(Join(words)) == words
  {
    if |words| == 1 {
      SplitAfterWord(words[0], []);
      assert words[0] + [] == words[0];
      assert Split([]) == [[]];
    } else {
      JoinThenSplit(words[1..]);
      var t := [Space] + Join(words[1..]);
      assert Join(words) == words[0] + t;
      SplitAfterWord(words[0], t);
      assert t[1..] == Join(words[1..]);
      assert Split(t) == [[]] + Split(Join(words[1..]));
      assert Split(t)[0] == [] && Split(t)[1..] == words[1..];
      assert words[0] + [] == words[0];
      assert words == [words[0]] + words[1..];
    }
  }

  /** The pieces of a text with no space is the text itself. */
  lemma SplitWord(w: seq<char>)
    requires Space !in w
    ensures Split(w) == [w]
  {
    SplitAfterWord(w, []);
    assert w + [] == w;
  }

  /** Appending after a space never changes the first piece. */
  lemma {:induction false} FirstPieceStable(a: seq<char>, t: seq<char>)
    ensures Split(a + [Space] + t)[0] == Split(a)[0]
  {
    if a == [] {
      assert a + [Space] + t == [Space] + t;
    } else {
      FirstPieceStable(a[1..], t);
      assert (a + [Space] + t)[1..] == a[1..] + [Space] + t;
    }
  }

  // ---------------------------------------------------------------------------
  // Layout without word wrap: hard chunks of `width - 1`

  /** Cuts `s` into consecutive chunks of `width - 1` characters. */
  function Chunks(s: seq<char>, width: int): (lines: seq<seq<char>>)
    requires s == [] || width >= 2
    ensures |lines| >= 1
    decreases |s|
  {
    if s == [] || |s| <= width - 1 then [s]
    else [s[..width - 1]] + Chunks(s[width - 1..], width)
  }

  /**
   * The chunking invariant: every chunk but the last holds exactly
   * `width - 1` characters, the last at most that many, no chunk of a
   * non-empty text is empty, and the chunks concatenate to the text.
   */
  lemma {:induction false} ChunksPartition(s: seq<char>, width: int)
    requires width >= 2
    ensures var lines := Chunks(s, width);
      && Flatten(lines) == s
      && (forall i :: 0 <= i < |lines| - 1 ==> |lines[i]| == width - 1)
      && |Last(lines)| <= width - 1
      && (s != [] ==> forall i :: 0 <= i < |lines| ==> lines[i] != [])
    decreases |s|
  {
    if s == [] || |s| <= width - 1 {
      FlattenSnoc([], s);
    } else {
      var rest := Chunks(s[width - 1..], width);
      ChunksPartition(s[width - 1..], width);
      FlattenCons(s[..width - 1], rest);
      assert s == s[..width - 1] + s[width - 1..];
      var lines := Chunks(s, width);
      assert lines == [s[..width - 1]] + rest;
      forall i | 0 <= i < |lines| - 1
        ensures |lines[i]| == width - 1
      {
        if i > 0 { assert lines[i] == rest[i - 1]; }
      }
    }
  }

  // ---------------------------------------------------------------------------
  // Layout with word wrap: greedy filling of lines

  /**
   * The lines ready to take a word: the first line is started if there is
   * none, and a space is added to the current line unless it is empty.
   */
  function Opened(lines: seq<seq<char>>): (ls: seq<seq<char>>)
    ensures |ls| >= 1
  {
    var ls := if lines == [] then [[]] else lines;
    ls[..|ls| - 1] + [if Last(ls) == [] then [] else Last(ls) + [Space]]
  }

  /**
   * Places a word on ready lines: on the current line if the line stays
   * within `width - 1` characters, or else on a new line of its own.
   */
  function Place(ls: seq<seq<char>>, word: seq<char>, width: int): (r: seq<seq<char>>)
    requires |ls| >= 1
    ensures |r| >= 1
  {
    if word == [] then ls
    else if |Last(ls)| + |word| <= width - 1 then ls[..|ls| - 1] + [Last(ls) + word]
    else ls + [word]
  }

  /** Lays out one more word after `lines`. */
  function AddWord(lines: seq<seq<char>>, word: seq<char>, width: int): (r: seq<seq<char>>)
    ensures |r| >= 1
  {
    Place(Opened(lines), word, width)
  }

  /** The greedy layout of `words`, laid out left to right. */
  function WrapLines(words: seq<seq<char>>, width: int): (lines: seq<seq<char>>)
    ensures words != [] ==> |lines| >= 1
  {
    if words == [] then [] else AddWord(WrapLines(words[..|words| - 1], width), Last(words), width)
  }

  /**
   * The condition under which the source's loop ends in wrap mode: every
   * non-empty word fits on a line of its own.  A longer word makes the
   * source push empty lines forever.
   */
  predicate WordsFit(words: seq<seq<char>>, width: int)
  {
    forall k :: 0 <= k < |words| ==> words[k] == [] || |words[k]| <= width - 1
  }

  predicate NoSpaces(words: seq<seq<char>>)
  {
    forall k :: 0 <= k < |words| ==> Space !in words[k]
  }

  /** The words joined as wrap mode joins them: one space before each word that follows some text. */
  function SpaceJoin(words: seq<seq<char>>): seq<char>
  {
    if words == [] then []
    else
      var acc := SpaceJoin(words[..|words| - 1]);
      acc + (if acc == [] then [] else [Space]) + Last(words)
  }

  /** The shape every greedy layout keeps: only its first line may be empty. */
  ghost predicate LaterLinesFilled(lines: seq<seq<char>>)
  {
    forall i :: 0 < i < |lines| ==> lines[i] != []
  }

  /** In a layout of that shape the last line is empty exactly when the whole layout is. */
  lemma FilledLastLine(lines: seq<seq<char>>)
    requires lines != [] && LaterLinesFilled(lines)
    ensures Last(lines) == [] <==> Flatten(lines) == []
  {
    var front := lines[..|lines| - 1];
    FlattenSnoc(front, Last(lines));
    assert front + [Last(lines)] == lines;
    if Last(lines) == [] {
      assert lines[|lines| - 1] == Last(lines);
      assert |lines| == 1;
      assert front == [];
    }
  }

  /** Opening the lines adds one space after some text, and keeps their shape. */
  lemma OpenedFlatten(lines: seq<seq<char>>)
    requires LaterLinesFilled(lines)
    ensures LaterLinesFilled(Opened(lines))
    ensures Flatten(Opened(lines)) == Flatten(lines) + (if Flatten(lines) == [] then [] else [Space])
  {
    var ls := if lines == [] then [[]] else lines;
    var front := ls[..|ls| - 1];
    var cur := if Last(ls) == [] then [] else Last(ls) + [Space];
    assert ls == front + [Last(ls)];
    FlattenSnoc(front, Last(ls));
    FlattenSnoc(front, cur);
    assert Flatten(ls) == Flatten(lines) by {
      if lines == [] { FlattenSnoc([], []); }
    }
    assert |ls| > 1 ==> ls[|ls| - 1] != [];
    assert Opened(lines) == front + [cur];
  }

  /** Placing a word appends exactly the word to the text of the lines. */
  lemma PlaceFlatten(ls: seq<seq<char>>, word: seq<char>, width: int)
    requires |ls| >= 1
    ensures Flatten(Place(ls, word, width)) == Flatten(ls) + word
  {
    var front := ls[..|ls| - 1];
    var r := Place(ls, word, width);
    if word == [] {
      assert r == ls;
      assert Flatten(ls) + word == Flatten(ls);
    } else if |Last(ls)| + |word| <= width - 1 {
      assert r == front + [Last(ls) + word];
      FlattenSnoc(front, Last(ls) + word);
      assert Flatten(ls) == Flatten(front) + Last(ls);
      ConcatAssoc(Flatten(front), Last(ls), word);
    } else {
      assert r == ls + [word];
      FlattenSnoc(ls, word);
    }
  }

  /** Placing a word never leaves an empty line after the first. */
  lemma PlaceFilled(ls: seq<seq<char>>, word: seq<char>, width: int)
    requires |ls| >= 1 && LaterLinesFilled(ls)
    requires Last(ls) == [] ==> |ls| == 1
    ensures LaterLinesFilled(Place(ls, word, width))
  {
    var r := Place(ls, word, width);
    if word != [] && |Last(ls)| + |word| <= width - 1 {
      forall i | 0 < i < |r| ensures r[i] != [] {
        if i < |ls| - 1 { assert r[i] == ls[i]; } else { assert r[i] == Last(ls) + word; }
      }
    } else if word != [] {
      forall i | 0 < i < |r| ensures r[i] != [] {
        if i < |ls| { assert r[i] == ls[i]; } else { assert r[i] == word; }
      }
    }
  }

  /** One step of wrap mode: the text grows by a separating space (after some text) and the word. */
  lemma AddWordFlatten(lines: seq<seq<char>>, word: seq<char>, width: int)
    requires LaterLinesFilled(lines)
    ensures var r := AddWord(lines, word, width);
      && LaterLinesFilled(r)
      && Flatten(r) == Flatten(lines) + (if Flatten(lines) == [] then [] else [Space]) + word
  {
    OpenedFlatten(lines);
    var ls := Opened(lines);
    assert |ls| > 1 ==> ls[|ls| - 1] != [];
    PlaceFlatten(ls, word, width);
    PlaceFilled(ls, word, width);
  }

  lemma {:induction false} WrapLinesFilled(words: seq<seq<char>>, width: int)
    ensures LaterLinesFilled(WrapLines(words, width))
  {
    if words != [] {
      WrapLinesFilled(words[..|words| - 1], width);
      AddWordFlatten(WrapLines(words[..|words| - 1], width), Last(words), width);
    }
  }

  /** Wrap mode keeps every character of every word, and only the separating spaces it puts back. */
  lemma {:induction false} WrapKeepsWords(words: seq<seq<char>>, width: int)
    ensures Flatten(WrapLines(words, width)) == SpaceJoin(words)
  {
    if words != [] {
      var prev := words[..|words| - 1];
      WrapKeepsWords(prev, width);
      WrapLinesFilled(prev, width);
      AddWordFlatten(WrapLines(prev, width), Last(words), width);
    }
  }

  /** Drops the spaces a text starts with. */
  function TrimStart(s: seq<char>): seq<char>
  {
    if s != [] && s[0] == Space then TrimStart(s[1..]) else s
  }

  lemma {:induction false} JoinSnoc(words: seq<seq<char>>, w: seq<char>)
    requires |words| >= 1
    ensures Join(words + [w]) == Join(words) + [Space] + w
    decreases |words|
  {
    if |words| > 1 {
      JoinSnoc(words[1..], w);
      assert (words + [w])[1..] == words[1..] + [w];
    }
  }

  lemma {:induction false} SpaceJoinIsJoin(words: seq<seq<char>>)
    requires |words| >= 1 && words[0] != []
    ensures SpaceJoin(words) == Join(words) && SpaceJoin(words) != []
    decreases |words|
  {
    if |words| > 1 {
      var prev := words[..|words| - 1];
      SpaceJoinIsJoin(prev);
      JoinSnoc(prev, Last(words));
      assert prev + [Last(words)] == words;
    } else {
      assert words[..0] == [];
    }
  }

  lemma {:induction false} SpaceJoinSkipsLeadingEmpty(words: seq<seq<char>>)
    ensures SpaceJoin([[]] + words) == SpaceJoin(words)
    decreases |words|
  {
    if words == [] {
      assert ([[]] + words)[..0] == [];
    } else {
      var prev := words[..|words| - 1];
      SpaceJoinSkipsLeadingEmpty(prev);
      assert ([[]] + words)[..|words|] == [[]] + prev;
    }
  }

  /** Joining the pieces as wrap mode does reproduces the text without its leading spaces. */
  lemma {:induction false} SpaceJoinOfSplit(s: seq<char>)
    ensures SpaceJoin(Split(s)) == TrimStart(s)
  {
    if s == [] {
      var none: seq<seq<char>> := [[]];
      assert none[..0] == [];
    } else if s[0] == Space {
      SpaceJoinOfSplit(s[1..]);
      SpaceJoinSkipsLeadingEmpty(Split(s[1..]));
    } else {
      SpaceJoinIsJoin(Split(s));
      SplitThenJoin(s);
    }
  }

  /**
   * What wrap mode does to a text: its lines, read one after the other,
   * give back the text with its leading spaces dropped.
   */
  lemma WrapKeepsText(s: seq<char>, width: int)
    ensures Flatten(WrapLines(Split(s), width)) == TrimStart(s)
  {
    WrapKeepsWords(Split(s), width);
    SpaceJoinOfSplit(s);
  }

  /**
   * In wrap mode words never cross column `width - 1`: every character a
   * line holds beyond its first `width - 1` is a separating space.
   */
  ghost predicate WithinColumns(lines: seq<seq<char>>, width: int)
  {
    forall i, j :: 0 <= i < |lines| && 0 <= j < |lines[i]| && width - 1 <= j ==> lines[i][j] == Space
  }

  lemma AddWordWithinColumns(lines: seq<seq<char>>, word: seq<char>, width: int)
    requires WithinColumns(lines, width)
    requires word == [] || |word| <= width - 1
    ensures WithinColumns(AddWord(lines, word, width), width)
  {
    var ls := if lines == [] then [[]] else lines;
    var front := ls[..|ls| - 1];
    var cur := if Last(ls) == [] then [] else Last(ls) + [Space];
    var ready := front + [cur];
    assert Opened(lines) == ready;
    assert WithinColumns(ready, width) by {
      forall i, j | 0 <= i < |ready| && 0 <= j < |ready[i]| && width - 1 <= j
        ensures ready[i][j] == Space
      {
        if i < |front| {
          assert ready[i] == ls[i];
        } else if j < |Last(ls)| {
          assert ready[i][j] == ls[|ls| - 1][j];
        }
      }
    }
    var r := Place(ready, word, width);
    forall i, j | 0 <= i < |r| && 0 <= j < |r[i]| && width - 1 <= j
      ensures r[i][j] == Space
    {
      if word != [] {
        if |cur| + |word| <= width - 1 {
          assert r == front + [cur + word];
          assert i < |front| && r[i] == ready[i];
        } else {
          assert r == ready + [word];
          assert i < |ready| && r[i] == ready[i];
        }
      }
    }
  }

  lemma {:induction false} WrapColumnBound(words: seq<seq<char>>, width: int)
    requires WordsFit(words, width)
    ensures WithinColumns(WrapLines(words, width), width)
  {
    if words != [] {
      var prev := words[..|words| - 1];
      assert WordsFit(prev, width) by {
        forall k | 0 <= k < |prev| ensures prev[k] == [] || |prev[k]| <= width - 1 {
          assert prev[k] == words[k];
        }
      }
      WrapColumnBound(prev, width);
      AddWordWithinColumns(WrapLines(prev, width), Last(words), width);
    }
  }

  /** Every line after the first starts with a character of a word, not with a space. */
  ghost predicate LinesStartWithWord(lines: seq<seq<char>>)
  {
    forall i :: 0 < i < |lines| ==> lines[i] != [] && lines[i][0] != Space
  }

  lemma AddWordStartsLines(lines: seq<seq<char>>, word: seq<char>, width: int)
    requires LinesStartWithWord(lines) && Space !in word
    ensures LinesStartWithWord(AddWord(lines, word, width))
  {
    var ls := if lines == [] then [[]] else lines;
    var front := ls[..|ls| - 1];
    var cur := if Last(ls) == [] then [] else Last(ls) + [Space];
    assert LinesStartWithWord(ls);
    assert Opened(lines) == front + [cur];
    assert |ls| > 1 ==> cur != [] && cur[0] == ls[|ls| - 1][0];
    assert LinesStartWithWord(Opened(lines));
    if word != [] {
      assert word[0] in word;
    }
  }

  /**
   * Wrap mode leaves each separating space at the end of the earlier line:
   * a line after the first begins with the word that opened it.
   */
  lemma {:induction false} WrapLinesStartWithWord(words: seq<seq<char>>, width: int)
    requires NoSpaces(words)
    ensures LinesStartWithWord(WrapLines(words, width))
  {
    if words != [] {
      var prev := words[..|words| - 1];
      assert NoSpaces(prev) by {
        forall k | 0 <= k < |prev| ensures Space !in prev[k] { assert prev[k] == words[k]; }
      }
      WrapLinesStartWithWord(prev, width);
      assert Space !in words[|words| - 1];
      AddWordStartsLines(WrapLines(prev, width), Last(words), width);
    }
  }

  /**
   * Every line before the last that holds text ends with the separating
   * space, so a line break falls only after a space and never inside a word.
   */
  ghost predicate LinesEndWithSpace(lines: seq<seq<char>>)
  {
    forall i :: 0 <= i < |lines| - 1 && lines[i] != [] ==> Last(lines[i]) == Space
  }

  lemma AddWordEndsLines(lines: seq<seq<char>>, word: seq<char>, width: int)
    requires LinesEndWithSpace(lines)
    ensures LinesEndWithSpace(AddWord(lines, word, width))
  {
    var ls := if lines == [] then [[]] else lines;
    var front := ls[..|ls| - 1];
    var cur := if Last(ls) == [] then [] else Last(ls) + [Space];
    assert Opened(lines) == front + [cur];
    assert LinesEndWithSpace(front + [cur]) by {
      forall i | 0 <= i < |front + [cur]| - 1 && (front + [cur])[i] != []
        ensures Last((front + [cur])[i]) == Space
      {
        assert (front + [cur])[i] == ls[i];
      }
    }
    assert cur == [] || Last(cur) == Space;
  }

  /**
   * Wrap mode breaks a line only after a separating space: together with
   * `WrapLinesStartWithWord`, every word of `Split` stays whole on one line.
   */
  lemma {:induction false} WrapLinesEndWithSpace(words: seq<seq<char>>, width: int)
    ensures LinesEndWithSpace(WrapLines(words, width))
  {
    if words != [] {
      WrapLinesEndWithSpace(words[..|words| - 1], width);
      AddWordEndsLines(WrapLines(words[..|words| - 1], width), Last(words), width);
    }
  }

  /**
   * Wrap mode starts a new line only when it must: each line after the
   * first begins with a word that would not have fitted on the line before.
   */
  ghost predicate Greedy(lines: seq<seq<char>>, width: int)
  {
    forall i :: 0 < i < |lines| ==> |lines[i - 1]| + |Split(lines[i])[0]| > width - 1
  }

  /** Opening the lines keeps a greedy layout greedy: the current line only gains a trailing space. */
  lemma OpenedGreedy(lines: seq<seq<char>>, width: int)
    requires Greedy(lines, width) && LaterLinesFilled(lines)
    ensures Greedy(Opened(lines), width)
  {
    var ls := if lines == [] then [[]] else lines;
    var front := ls[..|ls| - 1];
    var cur := if Last(ls) == [] then [] else Last(ls) + [Space];
    assert Opened(lines) == front + [cur];
    assert Split(cur)[0] == Split(Last(ls))[0] by {
      if Last(ls) != [] { FirstPieceStable(Last(ls), []); assert Last(ls) + [Space] + [] == cur; }
    }
    forall i | 0 < i < |ls| ensures |Opened(lines)[i - 1]| + |Split(Opened(lines)[i])[0]| > width - 1 {
      if i < |ls| - 1 {
        assert Opened(lines)[i] == ls[i] && Opened(lines)[i - 1] == ls[i - 1];
      } else {
        assert Opened(lines)[i] == cur && Opened(lines)[i - 1] == ls[i - 1];
      }
    }
  }

  /** A word placed on the current line keeps the layout greedy when the line's first word stays. */
  lemma PlaceOnLineGreedy(ready: seq<seq<char>>, word: seq<char>, width: int)
    requires |ready| >= 1 && Greedy(ready, width)
    requires word != [] && |Last(ready)| + |word| <= width - 1
    requires |ready| == 1 || Split(Last(ready) + word)[0] == Split(Last(ready))[0]
    ensures Greedy(Place(ready, word, width), width)
  {
    var r := Place(ready, word, width);
    assert r == ready[..|ready| - 1] + [Last(ready) + word];
    forall i | 0 < i < |r| ensures |r[i - 1]| + |Split(r[i])[0]| > width - 1 {
      assert r[i - 1] == ready[i - 1];
      if i < |r| - 1 {
        assert r[i] == ready[i];
      } else {
        assert r[i] == Last(ready) + word;
      }
    }
  }

  /** A word that overflows the current line starts a new line, which keeps the layout greedy. */
  lemma PlaceNewLineGreedy(ready: seq<seq<char>>, word: seq<char>, width: int)
    requires |ready| >= 1 && Greedy(ready, width)
    requires word != [] && Space !in word && |Last(ready)| + |word| > width - 1
    ensures Greedy(Place(ready, word, width), width)
  {
    var r := Place(ready, word, width);
    SplitWord(word);
    assert r == ready + [word];
    forall i | 0 < i < |r| ensures |r[i - 1]| + |Split(r[i])[0]| > width - 1 {
      if i < |r| - 1 {
        assert r[i] == ready[i] && r[i - 1] == ready[i - 1];
      }
    }
  }

  lemma AddWordGreedy(lines: seq<seq<char>>, word: seq<char>, width: int)
    requires Greedy(lines, width) && LaterLinesFilled(lines)
    requires Space !in word
    ensures Greedy(AddWord(lines, word, width), width)
  {
    var ready := Opened(lines);
    OpenedGreedy(lines, width);
    if word != [] {
      if |Last(ready)| + |word| <= width - 1 {
        var ls := if lines == [] then [[]] else lines;
        assert ready == ls[..|ls| - 1] + [if Last(ls) == [] then [] else Last(ls) + [Space]];
        if |ready| > 1 {
          assert Last(ls) == ls[|ls| - 1] != [];
          assert Last(ready) == Last(ls) + [Space];
          FirstPieceStable(Last(ls), word);
          FirstPieceStable(Last(ls), []);
          assert Last(ls) + [Space] + [] == Last(ready);
        }
        PlaceOnLineGreedy(ready, word, width);
      } else {
        PlaceNewLineGreedy(ready, word, width);
      }
    }
  }

  lemma {:induction false} WrapIsGreedy(words: seq<seq<char>>, width: int)
    requires NoSpaces(words)
    ensures Greedy(WrapLines(words, width), width)
  {
    if words != [] {
      var prev := words[..|words| - 1];
      assert NoSpaces(prev) by {
        forall k | 0 <= k < |prev| ensures Space !in prev[k] {
          assert prev[k] == words[k];
        }
      }
      WrapIsGreedy(prev, width);
      WrapLinesFilled(prev, width);
      AddWordGreedy(WrapLines(prev, width), Last(words), width);
    }
  }

  // ---------------------------------------------------------------------------
  // The loop the source runs

  /** The chunks of a text longer than a line: one full line, then the chunks of the rest. */
  lemma ChunksUnfold(word: seq<char>, from: nat, width: int)
    requires width >= 2 && from + width - 1 < |word|
    ensures Chunks(word[from..], width) == [word[from..from + width - 1]] + Chunks(word[from + width - 1..], width)
  {
    var rest := word[from..];
    assert rest[..width - 1] == word[from..from + width - 1];
    assert rest[width - 1..] == word[from + width - 1..];
  }

  /**
   * Moves one word onto ready lines, as the inner `while` loop of `print`
   * does: in wrap mode the word goes whole onto the current line or a new
   * one; without wrap it is cut into chunks of `width - 1`, each on a line
   * of its own.
   */
  method PlaceWord(ready: seq<seq<char>>, word: seq<char>, width: int, wrap: bool) returns (lines: seq<seq<char>>)
    requires |ready| >= 1
    requires wrap ==> word == [] || |word| <= width - 1
    requires !wrap ==> ready == [[]] && (word == [] || width >= 2)
    ensures wrap ==> lines == Place(ready, word, width)
    ensures !wrap ==> lines == Chunks(word, width)
  {
    lines := ready;
    var wordIndex := 0;
    while wordIndex < |word|
      invariant 0 <= wordIndex <= |word| && |lines| >= 1
      invariant wrap ==> (wordIndex == 0 && lines == ready) || (wordIndex == |word| && lines == Place(ready, word, width))
      invariant !wrap && wordIndex < |word| ==>
        Last(lines) == [] && lines[..|lines| - 1] + Chunks(word[wordIndex..], width) == Chunks(word, width)
      invariant !wrap && wordIndex == |word| ==> lines == Chunks(word, width)
      decreases |word| - wordIndex
    {
      var remaining := word[wordIndex..];
      var remainingLen := |remaining|;
      ghost var front := lines[..|lines| - 1];
      ghost var before := lines;
      // First, if the rest of the word overflows the line, fill the line
      // (only without wrap) and start a new one.
      var lineLen := |Last(lines)|;
      var nextLen := lineLen + remainingLen;
      var overflow := nextLen - (width - 1);
      if overflow > 0 {
        if !wrap {
          var end := wordIndex + (remainingLen - overflow);
          ChunksUnfold(word, wordIndex, width);
          ConcatAssoc(front, [word[wordIndex..end]], Chunks(word[end..], width));
          assert Last(lines) + word[wordIndex..end] == word[wordIndex..end];
          lines := lines[..|lines| - 1] + [Last(lines) + word[wordIndex..end]];
          assert lines == front + [word[wordIndex..end]];
          wordIndex := end;
        }
        assert (lines + [[]])[..|lines|] == lines;
        lines := lines + [[]];
      }
      // Then, if the rest of the word fits on the line, put it there.
      lineLen := |Last(lines)|;
      nextLen := lineLen + remainingLen;
      if nextLen <= width - 1 {
        assert wrap ==> remaining == word;
        assert overflow > 0 ==> Last(lines) == [] && Last(lines) + remaining == remaining;
        assert wrap && overflow > 0 ==> lines[..|lines| - 1] == before;
        assert !wrap ==> overflow <= 0 && lines == before && Last(lines) + remaining == remaining;
        lines := lines[..|lines| - 1] + [Last(lines) + remaining];
        assert !wrap ==> lines == front + [remaining];
        wordIndex := |word|;
      }
    }
    if !wrap && word == [] {
      assert lines == [[]];
    }
  }

  /**
   * Breaks `words` into lines exactly as `print` does: for each word, start
   * the first line if there is none, add a space when the current line is
   * non-empty, then move the word onto lines.  Without wrap there is a
   * single word, the whole text.
   */
  method BreakLines(words: seq<seq<char>>, width: int, wrap: bool) returns (lines: seq<seq<char>>)
    requires |words| >= 1
    requires wrap ==> WordsFit(words, width)
    requires !wrap ==> |words| == 1 && (words[0] == [] || width >= 2)
    ensures lines == if wrap then WrapLines(words, width) else Chunks(words[0], width)
  {
    lines := [];
    for i := 0 to |words|
      invariant wrap ==> lines == WrapLines(words[..i], width)
      invariant !wrap ==> (i == 0 ==> lines == []) && (i == 1 ==> lines == Chunks(words[0], width))
    {
      ghost var prev := lines;
      var word := words[i];
      if |lines| == 0 {
        lines := lines + [[]];
      }
      if Last(lines) != [] {
        lines := lines[..|lines| - 1] + [Last(lines) + [Space]];
      }
      assert lines == Opened(prev);
      lines := PlaceWord(lines, word, width, wrap);
      assert words[..i + 1][..i] == words[..i];
    }
    assert words[..|words|] == words;
  }
}
