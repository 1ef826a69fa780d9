/** The line editor of one terminal: typed characters, their echo, and the reads that take the line. */
module LineDiscipline {
  import opened Console
  import opened VideoMemory

  const LINE_MAX := 128
  const ESC: char := '\U{00FF}'
  const BACKSPACE: char := '\U{0008}'
  const TAB_TEXT := "    "

  datatype Line = Line(buffer: seq<char>, top: int, locked: bool) {
    predicate Valid() {
      |buffer| == LINE_MAX && 0 <= top <= LINE_MAX
    }

    /** The characters typed so far. */
    function Text(): seq<char>
      requires Valid()
    {
      buffer[..top]
    }

    /** What `terminal_read` waits for. */
    predicate Ready()
      requires Valid()
    {
      top > 0 && buffer[top - 1] == '\n'
    }

    /** `c` goes to the end of the line. */
    function Push(c: char): (l: Line)
      requires Valid() && top < LINE_MAX
      ensures l.Valid() && l.Text() == Text() + [c]
    {
      this.(buffer := buffer[top := c], top := top + 1)
    }

    function PushTab(): (l: Line)
      requires Valid() && top < 124
      ensures l.Valid() && l.Text() == Text() + TAB_TEXT && l.locked == locked
    {
      Push(' ').Push(' ').Push(' ').Push(' ')
    }
  }

  const EMPTY_LINE := Line(seq(LINE_MAX, _ => '\0'), 0, false)

  /** A screen and a line edited together: what one terminal is to its user. */
  datatype Private = Private(screen: Screen, line: Line) {
    predicate Valid() {
      screen.Valid() && line.Valid()
    }
  }

  function Edit(p: Private, c: char): (r: Private)
    requires p.Valid()
    ensures r.Valid()
  {
    var l := p.line;
    if l.locked || c == ESC then p
    else if c == BACKSPACE && l.top > 0 then Private(DelC(p.screen), l.(top := l.top - 1))
    else if c == '\t' && l.top < 124 then Private(PutAll(p.screen, TAB_TEXT), l.PushTab())
    else if c != BACKSPACE && l.top < LINE_MAX && c != '\t' && (l.top < 127 || c == '\n')
    then Private(PutC(p.screen, c), l.Push(c))
    else p
  }

  /** One character from the keyboard: it is edited in and echoed, and a newline locks the line. */
  function Type(p: Private, c: char): (r: Private)
    requires p.Valid()
    ensures r.Valid()
  {
    var e := Edit(p, c);
    if c == '\n' then e.(line := e.line.(locked := true)) else e
  }

  /** How many bytes a read of size `n` may store: the size is signed. */
  function Room(n: int): nat {
    if n < 0 then 0 else n
  }

  /**
   The line after a read of size `n`; what was not taken stays at the front of the buffer. A negative
   size takes nothing but unlocks the line all the same.
   */
  function Taken(l: Line, n: int): (r: Line)
    requires l.Valid()
    ensures r.Valid()
  {
    if n == 0 then l
    else l.(top := if l.top >= Room(n) then l.top - Room(n) else 0, locked := false)
  }

  /** What the reader finds in its buffer. */
  function Delivered(l: Line, n: int): (bytes: seq<char>)
    requires l.Valid()
    ensures |bytes| == Room(n)
  {
    seq(Room(n), i requires i >= 0 => if i < l.top then l.buffer[i] else '\0')
  }

  /** The part of it that came from the line. */
  function Handed(l: Line, n: int): seq<char>
    requires l.Valid()
  {
    Delivered(l, n)[..if Room(n) < l.top then Room(n) else l.top]
  }

  class Keyboard {
    const buffer: array<char>
    var top: int
    var enterLock: bool

    ghost function Value(): Line
      reads this, buffer
    {
      Line(buffer[..], top, enterLock)
    }

    ghost predicate Valid()
      reads this, buffer
    {
      Value().Valid()
    }

    constructor ()
      ensures Value() == EMPTY_LINE && fresh(buffer)
    {
      buffer := new char[LINE_MAX](_ => '\0');
      top := 0;
      enterLock := false;
    }

    /** A character is echoed and appended. */
    method Accept(d: Display, c: char)
      requires Valid() && d.Valid() && top < LINE_MAX
      modifies this`top, buffer, d.phys, d`screenX, d`screenY
      ensures Valid() && d.Valid() && Value() == old(Value()).Push(c)
      ensures d.Value() == old(d.Value()).PutC(c)
    {
      d.PutC(c);
      buffer[top] := c;
      top := top + 1;
    }

    /** A tab is echoed and appended as four spaces. */
    method AcceptTab(d: Display)
      requires Valid() && d.Valid() && top < 124
      modifies this`top, buffer, d.phys, d`screenX, d`screenY
      ensures Valid() && d.Valid() && Value() == old(Value()).PushTab()
      ensures var v := old(d.Value()); d.Value() == v.Show(PutAll(v.Shown(), TAB_TEXT))
    {
      d.Puts(TAB_TEXT);
      buffer[top] := ' ';
      buffer[top + 1] := ' ';
      buffer[top + 2] := ' ';
      buffer[top + 3] := ' ';
      top := top + 4;
      assert buffer[..] == old(Value()).PushTab().buffer;
    }

    /** The editing part of `handle_keyboard`, with the echo on `d`. */
    method Press(d: Display, c: char)
      requires Valid() && d.Valid()
      modifies this, buffer, d.phys, d`screenX, d`screenY
      ensures Valid() && d.Valid()
      ensures var v := old(d.Value());
              var p := Type(Private(v.Shown(), old(Value())), c);
              d.Value() == v.Show(p.screen) && Value() == p.line
    {
      ghost var v := d.Value();
      assert v == v.Show(v.Shown());
      if !enterLock {
        if c == ESC {
        } else if c == BACKSPACE && top > 0 {
          d.DelC();
          top := top - 1;
        } else if c == '\t' && top < 124 {
          AcceptTab(d);
        } else if c != BACKSPACE && top < 128 && c != '\t' {
          if top == 127 {
            if c == '\n' {
              Accept(d, c);
            }
          } else {
            Accept(d, c);
          }
        }
      }
      if c == '\n' {
        enterLock := true;
      }
    }

    /** `terminal_read` from the moment a full line is there; returns the number of bytes of the line. */
    method Read(bytes: array<char>, at: nat, n: int) returns (count: nat)
      requires Valid() && bytes != buffer && at + Room(n) <= bytes.Length
      requires n != 0 ==> Value().Ready()
      modifies this, bytes
      ensures Valid() && Value() == Taken(old(Value()), n)
      ensures bytes[at..at + Room(n)] == Delivered(old(Value()), n)
      ensures bytes[..at] == old(bytes[..at]) && bytes[at + Room(n)..] == old(bytes[at + Room(n)..])
      ensures count == |Handed(old(Value()), n)|
    {
      count := 0;
      if n == 0 {
        return;
      }
      var i := 0;
      while i < n
        invariant 0 <= i <= Room(n)
        invariant bytes[at..at + i] == Delivered(Value(), n)[..i]
        invariant bytes[..at] == old(bytes[..at]) && bytes[at + Room(n)..] == old(bytes[at + Room(n)..])
        invariant count == if i < top then i else top
        modifies bytes
      {
        if i < top {
          bytes[at + i] := buffer[i];
          count := count + 1;
        } else {
          bytes[at + i] := '\0';
        }
        assert bytes[at..at + i + 1] == bytes[at..at + i] + [bytes[at + i]];
        i := i + 1;
      }
      if top >= i {
        top := top - i;
      } else {
        top := 0;
      }
      enterLock := false;
    }
  }

  // ---------- the buffer as a list ----------

  /** The list editor with its lock, which a read of negative size opens while the line stays as it is. */
  datatype Sheet = Sheet(text: seq<char>, locked: bool)

  function SheetOf(l: Line): Sheet
    requires l.Valid()
  {
    Sheet(l.Text(), l.locked)
  }

  /** The last place is for a newline only. */
  function EditSheet(s: Sheet, c: char): Sheet {
    if s.locked || c == ESC then s
    else if c == BACKSPACE then s.(text := if s.text == [] then [] else s.text[..|s.text| - 1])
    else if c == '\t' then s.(text := if |s.text| < 124 then s.text + TAB_TEXT else s.text)
    else if c == '\n' then Sheet(if |s.text| < LINE_MAX then s.text + [c] else s.text, true)
    else s.(text := if |s.text| < 127 then s.text + [c] else s.text)
  }

  /** What the list editor hands to a reader with room for `n`: the front of the line. */
  function Front(text: seq<char>, n: nat): seq<char> {
    text[..if n < |text| then n else |text|]
  }

  /** What it keeps: again the front of the line, not the part that was not read. */
  function Kept(text: seq<char>, n: nat): seq<char> {
    text[..|text| - |Front(text, n)|]
  }

  function ReadSheet(s: Sheet, n: int): Sheet {
    if n == 0 then s else Sheet(Kept(s.text, Room(n)), false)
  }

  /** Every key on every line. */
  lemma TypeEditsSheet(p: Private, c: char)
    requires p.Valid()
    ensures SheetOf(Type(p, c).line) == EditSheet(SheetOf(p.line), c)
  {
    var l := p.line;
    assert l.top > 0 ==> l.buffer[..l.top][..l.top - 1] == l.buffer[..l.top - 1];
  }

  /** Every read of every line. */
  lemma ReadReadsSheet(l: Line, n: int)
    requires l.Valid()
    ensures SheetOf(Taken(l, n)) == ReadSheet(SheetOf(l), n) && Handed(l, n) == Front(l.Text(), Room(n))
  {
    assert Handed(l, n) == Front(l.Text(), Room(n));
    assert Taken(l, n).Text() == Kept(l.Text(), Room(n)) || n == 0;
  }

  // ---------- as long as no size is negative ----------

  predicate Ended(text: seq<char>) {
    text != [] && text[|text| - 1] == '\n'
  }

  /** A newline is the last character and locks the line, and nothing else does. */
  predicate Neat(s: Sheet) {
    && (forall i | 0 <= i < |s.text| :: s.text[i] == '\n' ==> i == |s.text| - 1)
    && s.locked == Ended(s.text) && (|s.text| == LINE_MAX ==> s.locked)
  }

  /** Holds of every line that keys and reads of no negative size can produce from the empty line. */
  predicate Sound(l: Line) {
    l.Valid() && Neat(SheetOf(l))
  }

  /** The line at boot is empty, and open for typing. */
  lemma EmptyLineIsSound()
    ensures Sound(EMPTY_LINE) && SheetOf(EMPTY_LINE) == Sheet([], false)
  {
  }

  /** The editor a user has in mind: a list of at most 127 characters, ended by one newline. */
  function EditList(text: seq<char>, c: char): seq<char> {
    if Ended(text) || c == ESC then text
    else if c == BACKSPACE then (if text == [] then [] else text[..|text| - 1])
    else if c == '\t' then (if |text| < 124 then text + TAB_TEXT else text)
    else if |text| < 127 || c == '\n' then text + [c]
    else text
  }

  lemma EditKeepsNeat(s: Sheet, c: char)
    requires Neat(s) && |s.text| <= LINE_MAX
    ensures Neat(EditSheet(s, c)) && EditSheet(s, c).text == EditList(s.text, c)
  {
  }

  lemma TypeEditsList(p: Private, c: char)
    requires p.Valid() && Sound(p.line)
    ensures Sound(Type(p, c).line)
    ensures Type(p, c).line.Text() == EditList(p.line.Text(), c)
  {
    TypeEditsSheet(p, c);
    EditKeepsNeat(SheetOf(p.line), c);
  }

  /**
   A read of no negative size is one of the list editor, and hands over the whole line if and only if it has room
   for it.
   */
  lemma ReadIsExact(l: Line, n: nat)
    requires Sound(l) && (n > 0 ==> l.Ready())
    ensures Sound(Taken(l, n)) && (n > 0 ==> !Taken(l, n).locked)
    ensures Handed(l, n) == Front(l.Text(), n) && Taken(l, n).Text() == Kept(l.Text(), n)
    ensures Handed(l, n) == l.Text() && Taken(l, n).Text() == [] <==> n >= l.top
  {
    ReadReadsSheet(l, n);
  }

  /** Only a read of negative size breaks the line: it unlocks it and leaves the newline in it. */
  lemma ReadKeepsSoundIff(l: Line, n: int)
    requires Sound(l) && l.Ready()
    ensures Sound(Taken(l, n)) <==> n >= 0
    ensures n < 0 ==> Handed(l, n) == [] && Taken(l, n).Text() == l.Text() && !Taken(l, n).locked
  {
    if n >= 0 {
      ReadIsExact(l, n);
    }
  }

  // ---------- any run ----------

  datatype Act = Strike(c: char) | Fetch(n: int)

  /** The acts that can happen: a read waits for a line. */
  predicate Possible(p: Private, acts: seq<Act>)
    requires p.Valid()
    decreases |acts|
  {
    acts == [] || (
      && (acts[0].Fetch? && acts[0].n != 0 ==> p.line.Ready())
      && Possible(Perform(p, acts[0]), acts[1..]))
  }

  function Perform(p: Private, act: Act): (r: Private)
    requires p.Valid()
    ensures r.Valid()
  {
    match act
    case Strike(c) => Type(p, c)
    case Fetch(n) => p.(line := Taken(p.line, n))
  }

  /** The lines that the reads of a run return. */
  function Lines(p: Private, acts: seq<Act>): seq<seq<char>>
    requires p.Valid()
    decreases |acts|
  {
    if acts == [] then []
    else
      (match acts[0]
       case Strike(_) => []
       case Fetch(n) => [Handed(p.line, n)])
      + Lines(Perform(p, acts[0]), acts[1..])
  }

  /** The same run on the list editor. */
  function ListLines(s: Sheet, acts: seq<Act>): seq<seq<char>>
    decreases |acts|
  {
    if acts == [] then []
    else match acts[0]
      case Strike(c) => ListLines(EditSheet(s, c), acts[1..])
      case Fetch(n) => [Front(s.text, Room(n))] + ListLines(ReadSheet(s, n), acts[1..])
  }

  /** Any run of keys and of reads of any size, negative ones too, returns the lines that the list editor returns. */
  lemma {:induction false} LineDisciplineIsListEditor(p: Private, acts: seq<Act>)
    requires p.Valid() && Possible(p, acts)
    ensures Lines(p, acts) == ListLines(SheetOf(p.line), acts)
    decreases |acts|
  {
    if acts == [] {
    } else {
      match acts[0]
      case Strike(c) =>
        TypeEditsSheet(p, c);
        LineDisciplineIsListEditor(Type(p, c), acts[1..]);
        assert [] + Lines(Type(p, c), acts[1..]) == Lines(Type(p, c), acts[1..]);
      case Fetch(n) =>
        ReadReadsSheet(p.line, n);
        LineDisciplineIsListEditor(Perform(p, acts[0]), acts[1..]);
    }
  }

  // ---------- the echo ----------

  /** The cells just before the cursor spell the line. */
  ghost predicate Echoed(p: Private) {
    && p.Valid() && p.line.top <= p.screen.Pos()
    && p.screen.cells[p.screen.Pos() - p.line.top..p.screen.Pos()] == p.line.Text()
  }

  /** The text before the cursor and a character under it. */
  lemma OneCellMore(cells: seq<char>, at: nat, text: seq<char>, c: char)
    requires |text| <= at < |cells| && cells[at - |text|..at] == text
    ensures cells[at := c][at - |text|..at + 1] == text + [c]
  {
  }

  lemma EchoPut(p: Private, c: char)
    requires Echoed(p) && p.line.top < LINE_MAX && c !in BREAKS
    ensures Echoed(Private(PutC(p.screen, c), p.line.Push(c)))
  {
    var s, r, l := p.screen, PutC(p.screen, c), p.line.Push(c);
    var written := s.cells[s.Pos() := c];
    OneCellMore(s.cells, s.Pos(), p.line.Text(), c);
    if Shift(s, c) == 0 {
      assert r.cells == written;
    } else {
      assert r.cells == Scrolled(written);
      EchoScrolled(written, l.top);
    }
  }

  lemma EchoScrolled(cells: seq<char>, n: nat)
    requires |cells| == SIZE && n <= SIZE - NUM_COLS
    ensures Scrolled(cells)[SIZE - NUM_COLS - n..SIZE - NUM_COLS] == cells[SIZE - n..SIZE]
  {
  }

  lemma EchoTab(p: Private)
    requires Echoed(p) && p.line.top < 124
    ensures Echoed(Private(PutAll(p.screen, TAB_TEXT), p.line.PushTab()))
  {
    var p1 := Private(PutC(p.screen, ' '), p.line.Push(' '));
    EchoPut(p, ' ');
    var p2 := Private(PutC(p1.screen, ' '), p1.line.Push(' '));
    EchoPut(p1, ' ');
    var p3 := Private(PutC(p2.screen, ' '), p2.line.Push(' '));
    EchoPut(p2, ' ');
    EchoPut(p3, ' ');
    PutAllSnoc(p.screen, [], ' ');
    PutAllSnoc(p.screen, " ", ' ');
    PutAllSnoc(p.screen, "  ", ' ');
    PutAllSnoc(p.screen, "   ", ' ');
    assert [] + [' '] == " " && " " + [' '] == "  " && "  " + [' '] == "   " && "   " + [' '] == TAB_TEXT;
  }

  lemma EchoDel(p: Private)
    requires Echoed(p) && p.line.top > 0
    ensures Echoed(Private(DelC(p.screen), p.line.(top := p.line.top - 1)))
  {
    var s, r := p.screen, DelC(p.screen);
    assert r.Pos() == s.Pos() - 1;
    assert r.cells[s.Pos() - p.line.top..r.Pos()] == s.cells[s.Pos() - p.line.top..s.Pos()][..p.line.top - 1];
    assert p.line.buffer[..p.line.top][..p.line.top - 1] == p.line.buffer[..p.line.top - 1];
  }

  function TypeAll(p: Private, keys: seq<char>): (r: Private)
    requires p.Valid()
    ensures r.Valid()
    decreases |keys|
  {
    if keys == [] then p else TypeAll(Type(p, keys[0]), keys[1..])
  }

  /** However a line wraps and scrolls while it is typed and corrected, the echo spells the buffer. */
  lemma {:induction false} EchoAgreesWithBuffer(p: Private, keys: seq<char>)
    requires Echoed(p) && forall c | c in keys :: c !in BREAKS
    ensures Echoed(TypeAll(p, keys))
    decreases |keys|
  {
    if keys == [] {
    } else {
      var c, l := keys[0], p.line;
      if !l.locked && c != ESC {
        if c == BACKSPACE && l.top > 0 {
          EchoDel(p);
        } else if c == '\t' && l.top < 124 {
          EchoTab(p);
        } else if c != BACKSPACE && c != '\t' && l.top < 127 {
          EchoPut(p, c);
        }
      }
      EchoAgreesWithBuffer(Type(p, c), keys[1..]);
    }
  }
}
