/** The text console of lib.c as a value: 25 rows of 80 characters and a cursor. */
module Console {
  // `PutC`, `DelC` and `Clear` say what `putc`, `delc` and `clear_screen` do to the
  // page that is mapped at the video address. The rest of the module proves what
  // that amounts to: the page is always the tail of an unbounded wrapped document.

  import opened Text

  const NUM_COLS := 80
  const NUM_ROWS := 25
  const SIZE := NUM_COLS * NUM_ROWS
  const BREAKS: set<char> := {'\n', '\r'}

  datatype Screen = Screen(cells: seq<char>, x: int, y: int) {
    predicate Valid() {
      |cells| == SIZE && 0 <= x < NUM_COLS && 0 <= y < NUM_ROWS
    }

    /** The index of the cell under the cursor. */
    function Pos(): int {
      NUM_COLS * y + x
    }
  }

  function Blanks(n: nat): (s: seq<char>)
    ensures |s| == n && forall i | 0 <= i < n :: s[i] == ' '
  {
    seq(n, _ => ' ')
  }

  function Cleared(): (s: Screen)
    ensures s.Valid() && s.Pos() == 0
  {
    Screen(Blanks(SIZE), 0, 0)
  }

  /** Row 0 is lost, every other row moves up and a blank row appears. */
  function Scrolled(cells: seq<char>): seq<char>
    requires |cells| == SIZE
  {
    cells[NUM_COLS..] + Blanks(NUM_COLS)
  }

  /** The screen after a character is written and before it scrolls: the cursor may be one row too low. */
  function Written(s: Screen, c: char): (r: Screen)
    requires s.Valid()
    ensures |r.cells| == SIZE && 0 <= r.x < NUM_COLS && 0 <= r.y <= NUM_ROWS
    ensures r.y == NUM_ROWS ==> r.x == 0
  {
    if c in BREAKS then Screen(s.cells, 0, s.y + 1)
    else if s.x == NUM_COLS - 1 then Screen(s.cells[s.Pos() := c], 0, s.y + 1)
    else Screen(s.cells[s.Pos() := c], s.x + 1, s.y)
  }

  function PutC(s: Screen, c: char): (r: Screen)
    requires s.Valid()
    ensures r.Valid()
  {
    var t := Written(s, c);
    if t.y == NUM_ROWS then Screen(Scrolled(t.cells), 0, NUM_ROWS - 1) else t
  }

  function PutAll(s: Screen, text: seq<char>): (r: Screen)
    requires s.Valid()
    ensures r.Valid()
    decreases |text|
  {
    if text == [] then s else PutAll(PutC(s, text[0]), text[1..])
  }

  /** Blanks the cell before the cursor and moves there; at the origin nothing happens. */
  function DelC(s: Screen): (r: Screen)
    requires s.Valid()
    ensures r.Valid()
  {
    if s.x > 0 then Screen(s.cells[s.Pos() - 1 := ' '], s.x - 1, s.y)
    else if s.y > 0 then Screen(s.cells[s.Pos() - 1 := ' '], NUM_COLS - 1, s.y - 1)
    else s
  }

  lemma {:induction false} PutAllSnoc(s: Screen, text: seq<char>, c: char)
    requires s.Valid()
    ensures PutAll(s, text + [c]) == PutC(PutAll(s, text), c)
    decreases |text|
  {
    if text == [] {
      assert [c][1..] == [];
      assert PutAll(PutC(s, c), []) == PutC(s, c);
    } else {
      PutAllSnoc(PutC(s, text[0]), text[1..], c);
      assert (text + [c])[1..] == text[1..] + [c];
    }
  }

  // ---------- the unbounded document behind the screen ----------

  function CharAt(rows: seq<seq<char>>, r: int, c: int): char {
    if 0 <= r < |rows| && 0 <= c < |rows[r]| then rows[r][c] else ' '
  }

  /** The first document row that is still visible. */
  function Top(rows: seq<seq<char>>): nat {
    if |rows| <= NUM_ROWS then 0 else |rows| - NUM_ROWS
  }

  /** The last 25 rows of a document, blank where it has no text. */
  function Cells(rows: seq<seq<char>>): (cells: seq<char>)
    ensures |cells| == SIZE
    ensures forall i | 0 <= i < SIZE :: cells[i] == CharAt(rows, Top(rows) + i / NUM_COLS, i % NUM_COLS)
  {
    seq(SIZE, i requires 0 <= i < SIZE => CharAt(rows, Top(rows) + i / NUM_COLS, i % NUM_COLS))
  }

  /** The visible part of a document with the cursor at its end. */
  function Viewport(rows: seq<seq<char>>): (s: Screen)
    requires |rows| > 0 && |rows[|rows| - 1]| < NUM_COLS
    ensures s.Valid()
  {
    Screen(Cells(rows), |rows[|rows| - 1]|, |rows| - 1 - Top(rows))
  }

  /** Starting a new row scrolls a full page and leaves any other page alone. */
  lemma CellsNewRow(rows: seq<seq<char>>)
    requires |rows| > 0
    ensures Cells(rows + [[]]) == if |rows| >= NUM_ROWS then Scrolled(Cells(rows)) else Cells(rows)
  {
    var next := rows + [[]];
    var cells := Cells(rows);
    forall i | 0 <= i < SIZE
      ensures Cells(next)[i] == if |rows| >= NUM_ROWS then Scrolled(cells)[i] else cells[i]
    {
      var r, c := Top(next) + i / NUM_COLS, i % NUM_COLS;
      assert CharAt(next, r, c) == CharAt(rows, r, c);
      if |rows| < NUM_ROWS {
      } else if i < SIZE - NUM_COLS {
        var k := i + NUM_COLS;
        assert k / NUM_COLS == i / NUM_COLS + 1 && k % NUM_COLS == c;
        assert cells[k] == CharAt(rows, Top(rows) + k / NUM_COLS, k % NUM_COLS);
      } else {
        assert i / NUM_COLS == NUM_ROWS - 1;
      }
    }
  }

  /** A character that goes to the end of the last row goes to the cell under the cursor. */
  lemma CellsWrite(rows: seq<seq<char>>, c: char)
    requires |rows| > 0 && |rows[|rows| - 1]| < NUM_COLS
    ensures var s, n := Viewport(rows), |rows| - 1;
            Cells(rows[n := rows[n] + [c]]) == s.cells[s.Pos() := c]
  {
    var s, n := Viewport(rows), |rows| - 1;
    var next := rows[n := rows[n] + [c]];
    forall i | 0 <= i < SIZE
      ensures s.cells[s.Pos() := c][i] == Cells(next)[i]
    {
      var r, k := Top(rows) + i / NUM_COLS, i % NUM_COLS;
      assert i == s.Pos() <==> r == n && k == |rows[n]|;
    }
  }

  /** One character keeps the screen the tail of the document. */
  lemma ViewportAdvance(rows: seq<seq<char>>, c: char)
    requires |rows| > 0 && |rows[|rows| - 1]| < NUM_COLS
    ensures var next := Advance(rows, c, BREAKS, NUM_COLS);
            && |next| > 0 && |next[|next| - 1]| < NUM_COLS
            && PutC(Viewport(rows), c) == Viewport(next)
  {
    if c in BREAKS {
      CellsNewRow(rows);
    } else {
      CellsWrite(rows, c);
      var n := |rows| - 1;
      var row := rows[n] + [c];
      var written := rows[n := row];
      assert written == rows[..n] + [row];
      if |row| == NUM_COLS {
        assert row[..NUM_COLS] == row && row[NUM_COLS..] == [];
        assert Chunk(row, NUM_COLS) == [row] + Chunk([], NUM_COLS);
        assert Advance(rows, c, BREAKS, NUM_COLS) == written + [[]];
        CellsNewRow(written);
      }
    }
  }

  /**
   After `clear_screen` and any output whatever, the page shows exactly the last 25 rows
   of that output wrapped at 80 columns, and the cursor stands at its end.
   */
  lemma {:induction false} ScreenIsTailOfDocument(text: seq<char>)
    ensures var rows := Wrap(text, BREAKS, NUM_COLS);
            && |rows| > 0 && |rows[|rows| - 1]| < NUM_COLS
            && PutAll(Cleared(), text) == Viewport(rows)
  {
    if text == [] {
      assert Wrap([], BREAKS, NUM_COLS) == [[]];
    } else {
      var n := |text| - 1;
      ScreenIsTailOfDocument(text[..n]);
      assert text == text[..n] + [text[n]];
      PutAllSnoc(Cleared(), text[..n], text[n]);
      WrapSnoc(text[..n], text[n], BREAKS, NUM_COLS);
      ViewportAdvance(Wrap(text[..n], BREAKS, NUM_COLS), text[n]);
    }
  }

  // ---------- deleting ----------

  /** How far the last `PutC` moved the page up. */
  function Shift(s: Screen, c: char): nat {
    if (c in BREAKS || s.x == NUM_COLS - 1) && s.y == NUM_ROWS - 1 then NUM_COLS else 0
  }

  /**
   `delc` takes back a printed character: the cursor returns to where it was and every cell is
   as before, except that the cell under it is blank and a scroll in between is not undone.
   */
  lemma DelUndoesPut(s: Screen, c: char)
    requires s.Valid() && c !in BREAKS
    ensures var r := DelC(PutC(s, c));
            && r.Pos() == s.Pos() - Shift(s, c)
            && r.cells == (if Shift(s, c) == 0 then s.cells else Scrolled(s.cells))[r.Pos() := ' ']
  {
    var p := PutC(s, c);
    var k := Shift(s, c);
    if k == 0 {
      assert p.Pos() == s.Pos() + 1;
    } else {
      assert p.Pos() == SIZE - NUM_COLS;
      assert p.cells == Scrolled(s.cells[SIZE - 1 := c]);
    }
  }
}
