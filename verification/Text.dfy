/** Splitting a text into lines and cutting the lines into pieces of a fixed width. */
module Text {
  // The console wraps what it prints at 80 columns, and grep cuts lines at the
  // size of its buffer. Both are described by the same two definitions.

  /** The lines of `text`: a break character ends a line and belongs to none. */
  function Split(text: seq<char>, breaks: set<char>): (lines: seq<seq<char>>)
    ensures |lines| > 0
  {
    if text == [] then [[]]
    else if text[0] in breaks then [[]] + Split(text[1..], breaks)
    else
      var rest := Split(text[1..], breaks);
      [[text[0]] + rest[0]] + rest[1..]
  }

  /** A line cut into full pieces and one last piece that is not full (perhaps empty). */
  function Chunk(line: seq<char>, width: nat): (pieces: seq<seq<char>>)
    requires width > 0
    ensures |pieces| > 0 && |pieces[|pieces| - 1]| < width
  {
    if |line| < width then [line] else [line[..width]] + Chunk(line[width..], width)
  }

  function Pieces(lines: seq<seq<char>>, width: nat): seq<seq<char>>
    requires width > 0
  {
    if lines == [] then [] else Chunk(lines[0], width) + Pieces(lines[1..], width)
  }

  /** A text broken into lines, each line cut at `width`. */
  function Wrap(text: seq<char>, breaks: set<char>, width: nat): seq<seq<char>>
    requires width > 0
  {
    Pieces(Split(text, breaks), width)
  }

  // ---------- growing a text at its end ----------

  /** The lines of a text that has grown by one character. */
  function Grow(lines: seq<seq<char>>, c: char, breaks: set<char>): seq<seq<char>>
    requires |lines| > 0
  {
    var n := |lines| - 1;
    if c in breaks then lines + [[]] else lines[..n] + [lines[n] + [c]]
  }

  /** Growing at the end does not see a first line, or a first character, put in front. */
  lemma GrowBehind(lines: seq<seq<char>>, a: char, c: char, breaks: set<char>)
    requires |lines| > 0
    ensures Grow([[]] + lines, c, breaks) == [[]] + Grow(lines, c, breaks)
    ensures Grow([[a] + lines[0]] + lines[1..], c, breaks)
         == [[a] + Grow(lines, c, breaks)[0]] + Grow(lines, c, breaks)[1..]
  {
    if |lines| == 1 {
      assert [a] + (lines[0] + [c]) == [a] + lines[0] + [c];
    }
  }

  lemma {:induction false} SplitSnoc(text: seq<char>, c: char, breaks: set<char>)
    ensures Split(text + [c], breaks) == Grow(Split(text, breaks), c, breaks)
  {
    if text == [] {
      assert text + [c] == [c] && [c][1..] == [];
      assert Split(text, breaks) == [[]] && [c] + [] == [] + [c];
      assert Split([c], breaks) == Grow([[]], c, breaks);
    } else {
      SplitSnoc(text[1..], c, breaks);
      assert (text + [c])[1..] == text[1..] + [c];
      GrowBehind(Split(text[1..], breaks), text[0], c, breaks);
    }
  }

  lemma Regroup<T>(a: seq<T>, b: seq<T>, c: seq<T>)
    ensures a + (b + c) == a + b + c
  {
  }

  lemma {:induction false} PiecesAppend(a: seq<seq<char>>, b: seq<seq<char>>, width: nat)
    requires width > 0
    ensures Pieces(a + b, width) == Pieces(a, width) + Pieces(b, width)
  {
    if a == [] {
      assert a + b == b;
    } else {
      PiecesAppend(a[1..], b, width);
      assert (a + b)[1..] == a[1..] + b;
      Regroup(Chunk(a[0], width), Pieces(a[1..], width), Pieces(b, width));
    }
  }

  lemma PiecesSnoc(lines: seq<seq<char>>, line: seq<char>, width: nat)
    requires width > 0
    ensures Pieces(lines + [line], width) == Pieces(lines, width) + Chunk(line, width)
  {
    PiecesAppend(lines, [line], width);
    assert [line][1..] == [];
  }

  lemma {:induction false} ChunkSnoc(line: seq<char>, c: char, width: nat)
    requires width > 0
    ensures var pieces := Chunk(line, width);
            var n := |pieces| - 1;
            Chunk(line + [c], width) == pieces[..n] + Chunk(pieces[n] + [c], width)
  {
    if |line| < width {
      assert Chunk(line, width) == [line];
    } else {
      var rest := Chunk(line[width..], width);
      ChunkSnoc(line[width..], c, width);
      assert (line + [c])[width..] == line[width..] + [c];
      assert (line + [c])[..width] == line[..width];
      assert ([line[..width]] + rest)[..|rest|] == [line[..width]] + rest[..|rest| - 1];
    }
  }

  /** How one more character changes the wrapped text. */
  function Advance(pieces: seq<seq<char>>, c: char, breaks: set<char>, width: nat): seq<seq<char>>
    requires width > 0 && |pieces| > 0
  {
    var n := |pieces| - 1;
    if c in breaks then pieces + [[]] else pieces[..n] + Chunk(pieces[n] + [c], width)
  }

  /** One more character at the end of a line that is already cut. */
  lemma PiecesGrow(full: seq<seq<char>>, line: seq<char>, c: char, width: nat)
    requires width > 0
    ensures var pieces := Pieces(full + [line], width);
            |pieces| > 0 && |pieces[|pieces| - 1]| < width
            && Pieces(full + [line + [c]], width) == pieces[..|pieces| - 1] + Chunk(pieces[|pieces| - 1] + [c], width)
  {
    PiecesSnoc(full, line, width);
    PiecesSnoc(full, line + [c], width);
    ChunkSnoc(line, c, width);
    var before, pieces := Pieces(full, width), Chunk(line, width);
    var n := |pieces| - 1;
    assert (before + pieces)[..|before| + n] == before + pieces[..n] && (before + pieces)[|before| + n] == pieces[n];
    Regroup(before, pieces[..n], Chunk(pieces[n] + [c], width));
  }

  lemma WrapSnoc(text: seq<char>, c: char, breaks: set<char>, width: nat)
    requires width > 0
    ensures |Wrap(text, breaks, width)| > 0
    ensures Wrap(text + [c], breaks, width) == Advance(Wrap(text, breaks, width), c, breaks, width)
    ensures |Wrap(text, breaks, width)[|Wrap(text, breaks, width)| - 1]| < width
  {
    var lines := Split(text, breaks);
    var n := |lines| - 1;
    SplitSnoc(text, c, breaks);
    assert lines == lines[..n] + [lines[n]];
    PiecesGrow(lines[..n], lines[n], c, width);
    if c in breaks {
      PiecesSnoc(lines, [], width);
    }
  }

  // ---------- consuming a text from its front ----------

  lemma {:induction false} SplitLine(line: seq<char>, b: char, rest: seq<char>, breaks: set<char>)
    requires forall c | c in line :: c !in breaks
    requires b in breaks
    ensures Split(line + [b] + rest, breaks) == [line] + Split(rest, breaks)
  {
    var text := line + [b] + rest;
    if line == [] {
      assert text[1..] == rest;
    } else {
      SplitLine(line[1..], b, rest, breaks);
      assert text[1..] == line[1..] + [b] + rest;
      assert [line[0]] + line[1..] == line;
    }
  }

  lemma {:induction false} SplitPrefix(line: seq<char>, rest: seq<char>, breaks: set<char>)
    requires forall c | c in line :: c !in breaks
    ensures Split(line + rest, breaks) == [line + Split(rest, breaks)[0]] + Split(rest, breaks)[1..]
  {
    if line == [] {
      assert line + rest == rest && [] + Split(rest, breaks)[0] == Split(rest, breaks)[0];
    } else {
      SplitPrefix(line[1..], rest, breaks);
      assert (line + rest)[1..] == line[1..] + rest;
      var first := Split(rest, breaks)[0];
      assert [line[0]] + (line[1..] + first) == line + first;
    }
  }

  /** A full piece is cut off whatever follows it. */
  lemma WrapFull(piece: seq<char>, rest: seq<char>, breaks: set<char>, width: nat)
    requires |piece| == width > 0
    requires forall c | c in piece :: c !in breaks
    ensures Wrap(piece + rest, breaks, width) == [piece] + Wrap(rest, breaks, width)
  {
    SplitPrefix(piece, rest, breaks);
    var l := piece + Split(rest, breaks)[0];
    assert l[..width] == piece && l[width..] == Split(rest, breaks)[0];
  }

  /** What is left without a break and shorter than a piece is the last piece. */
  lemma WrapLast(line: seq<char>, breaks: set<char>, width: nat)
    requires |line| < width
    requires forall c | c in line :: c !in breaks
    ensures Wrap(line, breaks, width) == [line]
  {
    SplitPrefix(line, [], breaks);
    assert line + [] == line;
    assert Split(line, breaks) == [line] && [line][1..] == [];
    assert Pieces([line], width) == Chunk(line, width) + Pieces([], width);
  }
}
