/**
 Video memory behind the page tables (paging.c) and the console that writes through it (lib.c).

 `Video` is the state as a value; class `Display` is the state as the kernel holds it, an
 array of physical cells that is changed in place. Every method of `Display` is specified by
 one function on `Video`.

 Only the character byte of a cell is modelled. Physical page 0 is the page at VIDEO that the
 adapter shows; page t + 1 is the page that keeps the text of terminal t while it is hidden.
 */
module VideoMemory {
  import opened Console

  const FOUR_KB := 4096
  const VIDEO := 0xB8000
  /** The entry of the 4 KB page table that `video_mem` goes through. */
  const PG_TBL_IDX := 184
  const TABLE_SZ := 1024
  /** A second virtual name of the page at VIDEO that is never remapped. */
  const SECRET := 0x3FF000
  const NUM_PAGES := 4

  /** The entries of the page table that are present after boot, */
  predicate VideoEntry(i: nat) {
    PG_TBL_IDX <= i < PG_TBL_IDX + NUM_PAGES || i == TABLE_SZ - 1
  }

  /** and what they say: the video pages are mapped to themselves, the last entry to the first of them. */
  function BootEntry(i: nat): nat {
    if i == TABLE_SZ - 1 then PG_TBL_IDX else i
  }

  /** In addresses: the four pages from 0xB8000 on and the last page of the table, which is 0xB8000 again. */
  lemma BootMapping(i: nat)
    ensures VideoEntry(i) <==> 0xB8000 <= 0x1000 * i < 0xBC000 || 0x1000 * i == 0x3FF000
    ensures 0x1000 * BootEntry(i) == if 0x1000 * i == SECRET then 0xB8000 else 0x1000 * i
  {
  }

  /**
   `entry` is the one entry of the page table that ever changes, the physical page number behind
   the kernel's video address; `vidmap` is the page number behind the user's.
   */
  datatype Video = Video(pages: seq<seq<char>>, entry: nat, vidmap: nat, x: int, y: int) {
    predicate Valid() {
      && |pages| == NUM_PAGES && (forall p | 0 <= p < NUM_PAGES :: |pages[p]| == SIZE)
      && PG_TBL_IDX <= entry < PG_TBL_IDX + NUM_PAGES
      && PG_TBL_IDX <= vidmap < PG_TBL_IDX + NUM_PAGES
      && 0 <= x < NUM_COLS && 0 <= y < NUM_ROWS
    }

    /** The physical page that the kernel's video address names. */
    function Current(): (p: nat)
      requires Valid()
      ensures p < NUM_PAGES
    {
      entry - PG_TBL_IDX
    }

    /** The console that the kernel writes to. */
    function Shown(): (s: Screen)
      requires Valid()
      ensures s.Valid()
    {
      Screen(pages[Current()], x, y)
    }

    function Show(s: Screen): (v: Video)
      requires Valid() && s.Valid()
      ensures v.Valid() && v.Shown() == s
    {
      this.(pages := pages[Current() := s.cells], x := s.x, y := s.y)
    }

    function PutC(c: char): (v: Video)
      requires Valid()
      ensures v.Valid()
    {
      Show(Console.PutC(Shown(), c))
    }

    function SetCursor(cx: int, cy: int): Video {
      this.(x := cx, y := cy)
    }

    /** The user's video page is written at cell `i`. */
    function Poke(i: nat, c: char): (v: Video)
      requires Valid() && i < SIZE
      ensures v.Valid()
    {
      var p := vidmap - PG_TBL_IDX;
      this.(pages := pages[p := pages[p][i := c]])
    }

    /** Both video addresses now name the physical page at `address`. */
    function MapTo(address: nat): (v: Video)
      requires Valid() && PageAddress(address)
      ensures v.Valid()
    {
      this.(entry := address / FOUR_KB, vidmap := address / FOUR_KB)
    }

    /** The visible page is kept at `onScreen` and replaced by the page kept at `offScreen`. */
    function SwitchMemory(onScreen: nat, offScreen: nat): (v: Video)
      requires Valid() && FakeAddress(onScreen) && FakeAddress(offScreen)
      ensures v.Valid()
    {
      var kept, next := PageOf(onScreen), PageOf(offScreen);
      var saved := pages[kept := pages[0]];
      this.(pages := saved[0 := saved[next]])
    }
  }

  function PageOf(address: nat): int {
    address / FOUR_KB - PG_TBL_IDX
  }

  predicate PageAddress(address: nat) {
    address % FOUR_KB == 0 && 0 <= PageOf(address) < NUM_PAGES
  }

  predicate FakeAddress(address: nat) {
    PageAddress(address) && address != VIDEO
  }

  class Display {
    const phys: array2<char>
    var table: map<nat, nat>
    var vidmap: nat
    var screenX: int
    var screenY: int

    predicate Sized() {
      phys.Length0 == NUM_PAGES && phys.Length1 == SIZE
    }

    function Page(p: nat): (cells: seq<char>)
      requires Sized() && p < NUM_PAGES
      reads phys
      ensures |cells| == SIZE && forall i | 0 <= i < SIZE :: cells[i] == phys[p, i]
    {
      seq(SIZE, i requires 0 <= i < SIZE reads phys => phys[p, i])
    }

    function Pages(): (pages: seq<seq<char>>)
      requires Sized()
      reads phys
      ensures |pages| == NUM_PAGES && forall p | 0 <= p < NUM_PAGES :: |pages[p]| == SIZE
    {
      [Page(0), Page(1), Page(2), Page(3)]
    }

    ghost function Value(): Video
      requires Sized() && PG_TBL_IDX in table
      reads this, phys
    {
      Video(Pages(), table[PG_TBL_IDX], vidmap, screenX, screenY)
    }

    ghost predicate Valid()
      reads this, phys
    {
      Sized() && Booted() && Value().Valid()
    }

    /** Only the entry for the video address is ever different from what was set up. */
    ghost predicate Booted()
      reads this`table
    {
      PG_TBL_IDX in table && forall i :: VideoEntry(i) && i != PG_TBL_IDX ==> i in table && table[i] == BootEntry(i)
    }

    /** Power-up: the video pages hold anything, the cursor is wherever the boot messages left it. */
    constructor (contents: array2<char>, x: int, y: int)
      requires contents.Length0 == NUM_PAGES && contents.Length1 == SIZE
      requires 0 <= x < NUM_COLS && 0 <= y < NUM_ROWS
      ensures Valid() && phys == contents
      ensures Value().entry == PG_TBL_IDX && Value().vidmap == PG_TBL_IDX
      ensures Value().x == x && Value().y == y
    {
      phys := contents;
      screenX, screenY := x, y;
      table, vidmap := map[], VIDEO / FOUR_KB;
      new;
      SetupPagerTable();
    }

    method SetupPagerTable()
      modifies this`table
      ensures forall i: nat :: (i in table <==> VideoEntry(i)) && (VideoEntry(i) ==> table[i] == BootEntry(i))
    {
      table := map[];
      var i := 0;
      while i < TABLE_SZ
        invariant 0 <= i <= TABLE_SZ
        invariant forall k: nat :: (k in table <==> k < i && VideoEntry(k)) && (k in table ==> table[k] == BootEntry(k))
      {
        if i == PG_TBL_IDX {
          table := table[i := VIDEO / FOUR_KB];
        } else if i == PG_TBL_IDX + 1 {
          table := table[i := VIDEO / FOUR_KB + 1];
        } else if i == PG_TBL_IDX + 2 {
          table := table[i := VIDEO / FOUR_KB + 2];
        } else if i == PG_TBL_IDX + 3 {
          table := table[i := VIDEO / FOUR_KB + 3];
        } else if i == TABLE_SZ - 1 {
          table := table[i := VIDEO / FOUR_KB];
        }
        i := i + 1;
      }
    }

    /** The physical page behind a virtual address of the first 4 MB. */
    function Translate(virtual: nat): nat
      requires virtual / FOUR_KB % TABLE_SZ in table
      reads this`table
    {
      table[virtual / FOUR_KB % TABLE_SZ]
    }

    method UpdateKernelVmem(physical: nat, virtual: nat)
      modifies this`table
      ensures table == old(table)[virtual / FOUR_KB % TABLE_SZ := physical / FOUR_KB]
    {
      table := table[virtual / FOUR_KB % TABLE_SZ := physical / FOUR_KB];
    }

    method UpdateVidmapVmem(physical: nat)
      modifies this`vidmap
      ensures vidmap == physical / FOUR_KB
    {
      vidmap := physical / FOUR_KB;
    }

    /** What every caller does: both video addresses are pointed at one physical page. */
    method MapVideo(physical: nat)
      requires Valid() && PageAddress(physical)
      modifies this`table, this`vidmap
      ensures Valid() && Value() == old(Value()).MapTo(physical)
    {
      UpdateKernelVmem(physical, VIDEO);
      UpdateVidmapVmem(physical);
    }

    /** One byte goes to the memory bus. */
    method Store(p: nat, i: nat, c: char)
      requires Sized() && p < NUM_PAGES && i < SIZE
      modifies phys
      ensures Pages() == old(Pages())[p := old(Pages())[p][i := c]]
    {
      phys[p, i] := c;
      assert Page(p) == old(Page(p))[i := c];
      assert forall q | 0 <= q < NUM_PAGES && q != p :: Page(q) == old(Page(q));
    }

    /** `memcpy` of one screen from one virtual page to another. */
    method CopyScreen(dst: nat, src: nat)
      requires Sized() && dst / FOUR_KB % TABLE_SZ in table && src / FOUR_KB % TABLE_SZ in table
      requires PG_TBL_IDX <= Translate(dst) < PG_TBL_IDX + NUM_PAGES
      requires PG_TBL_IDX <= Translate(src) < PG_TBL_IDX + NUM_PAGES && Translate(dst) != Translate(src)
      modifies phys
      ensures var p, q := Translate(dst) - PG_TBL_IDX, Translate(src) - PG_TBL_IDX;
              Pages() == old(Pages())[p := old(Pages())[q]]
    {
      var d, s := Translate(dst) - PG_TBL_IDX, Translate(src) - PG_TBL_IDX;
      ghost var pages := Pages();
      var i := 0;
      assert pages[s][..0] + pages[d][0..] == pages[d];
      while i < SIZE
        invariant 0 <= i <= SIZE
        invariant Pages() == pages[d := pages[s][..i] + pages[d][i..]]
      {
        OneMore(pages[d], pages[s], i);
        assert Pages()[s] == pages[s];
        Store(d, i, phys[s, i]);
        i := i + 1;
      }
      assert pages[s][..i] + pages[d][i..] == pages[s];
    }

    method SwitchKernelMemory(onScreen: nat, offScreen: nat)
      requires Valid() && FakeAddress(onScreen) && FakeAddress(offScreen)
      modifies phys
      ensures Valid() && Value() == old(Value()).SwitchMemory(onScreen, offScreen)
    {
      Named(onScreen);
      Named(offScreen);
      CopyScreen(onScreen, SECRET);
      CopyScreen(SECRET, offScreen);
    }

    /** A hidden page is at its own address, and the second name of the visible page is what it was. */
    ghost method Named(address: nat)
      requires Valid() && FakeAddress(address)
      ensures address / FOUR_KB % TABLE_SZ in table && Translate(address) == address / FOUR_KB
      ensures SECRET / FOUR_KB % TABLE_SZ in table && Translate(SECRET) == PG_TBL_IDX
    {
      assert VideoEntry(address / FOUR_KB) && VideoEntry(TABLE_SZ - 1);
    }

    /** A store of a user program through the page that `vidmap` gave it. */
    method UserStore(i: nat, c: char)
      requires Valid() && i < SIZE
      modifies phys
      ensures Valid() && Value() == old(Value()).Poke(i, c)
    {
      Store(vidmap - PG_TBL_IDX, i, c);
    }

    method Clear()
      requires Valid()
      modifies phys
      ensures var p := Translate(VIDEO) - PG_TBL_IDX; Pages() == old(Pages())[p := Blanks(SIZE)]
    {
      var p := Translate(VIDEO) - PG_TBL_IDX;
      ghost var pages := Pages();
      var i := 0;
      assert Blanks(SIZE)[..0] + pages[p][0..] == pages[p];
      while i < NUM_ROWS * NUM_COLS
        invariant 0 <= i <= SIZE
        invariant Pages() == pages[p := Blanks(SIZE)[..i] + pages[p][i..]]
      {
        OneMore(pages[p], Blanks(SIZE), i);
        Store(p, i, ' ');
        i := i + 1;
      }
      assert Blanks(SIZE)[..i] + pages[p][i..] == Blanks(SIZE);
    }

    method ScreenSetXY(x: int, y: int)
      modifies this`screenX, this`screenY
      ensures if 0 <= x < NUM_COLS && 0 <= y < NUM_ROWS then screenX == x && screenY == y
              else screenX == old(screenX) && screenY == old(screenY)
    {
      if x < 0 || y < 0 {
        return;
      }
      if x >= NUM_COLS {
        return;
      }
      if y >= NUM_ROWS {
        return;
      }
      screenX := x;
      screenY := y;
    }

    method ClearScreen()
      requires Valid()
      modifies phys, this`screenX, this`screenY
      ensures Valid() && Value() == old(Value()).Show(Cleared())
    {
      Clear();
      ScreenSetXY(0, 0);
    }

    /** One cell takes the cell below it. */
    method MoveCell(p: nat, i: nat, j: nat, ghost pages: seq<seq<char>>)
      requires Sized() && p < NUM_PAGES == |pages| && i < NUM_COLS && j < NUM_ROWS - 1
      requires Pages() == pages[p := Pages()[p]] && |pages[p]| == SIZE && Moved(pages[p], Pages()[p], i, j)
      modifies phys
      ensures Pages() == pages[p := Pages()[p]] && Moved(pages[p], Pages()[p], i, j + 1)
    {
      MovedStep(pages[p], Pages()[p], i, j);
      Store(p, NUM_COLS * j + i, phys[p, NUM_COLS * (j + 1) + i]);
    }

    /** Every cell takes the cell below it, in place and column by column. */
    method MoveRowsUp(p: nat)
      requires Sized() && p < NUM_PAGES
      modifies phys
      ensures var was := old(Pages());
              Pages() == was[p := was[p][NUM_COLS..] + was[p][SIZE - NUM_COLS..]]
    {
      ghost var pages := Pages();
      var i := 0;
      while i < NUM_COLS
        invariant 0 <= i <= NUM_COLS
        invariant Pages() == pages[p := Pages()[p]] && Moved(pages[p], Pages()[p], i, 0)
      {
        var j := 0;
        while j < NUM_ROWS - 1
          invariant 0 <= j <= NUM_ROWS - 1
          invariant Pages() == pages[p := Pages()[p]] && Moved(pages[p], Pages()[p], i, j)
        {
          MoveCell(p, i, j, pages);
          j := j + 1;
        }
        MovedColumn(pages[p], Pages()[p], i);
        i := i + 1;
      }
      MovedAll(pages[p], Pages()[p]);
    }

    method ClearLastRow(p: nat)
      requires Sized() && p < NUM_PAGES
      modifies phys
      ensures var was := old(Pages());
              Pages() == was[p := was[p][..SIZE - NUM_COLS] + Blanks(NUM_COLS)]
    {
      ghost var pages := Pages();
      ghost var goal := pages[p][..SIZE - NUM_COLS] + Blanks(NUM_COLS);
      var i := 0;
      assert goal[..SIZE - NUM_COLS] + pages[p][SIZE - NUM_COLS..] == pages[p];
      while i < NUM_COLS
        invariant 0 <= i <= NUM_COLS
        invariant Pages() == pages[p := goal[..SIZE - NUM_COLS + i] + pages[p][SIZE - NUM_COLS + i..]]
      {
        OneMore(pages[p], goal, SIZE - NUM_COLS + i);
        Store(p, NUM_COLS * (NUM_ROWS - 1) + i, ' ');
        i := i + 1;
      }
      assert goal[..SIZE] + pages[p][SIZE..] == goal;
    }

    method VidScrollUp()
      requires Sized()
      requires PG_TBL_IDX in table && PG_TBL_IDX <= table[PG_TBL_IDX] < PG_TBL_IDX + NUM_PAGES
      modifies phys
      ensures var p := table[PG_TBL_IDX] - PG_TBL_IDX;
              Pages() == old(Pages())[p := Scrolled(old(Pages())[p])]
    {
      var p := Translate(VIDEO) - PG_TBL_IDX;
      MoveRowsUp(p);
      ghost var moved := Pages()[p];
      assert moved[..SIZE - NUM_COLS] == old(Pages())[p][NUM_COLS..];
      ClearLastRow(p);
    }

    /** The first part of `putc`: the cursor may be left below the last row. */
    method WriteAndStep(c: char)
      requires Valid()
      modifies phys, this`screenX, this`screenY
      ensures Sized()
      ensures var v := old(Value());
              var t := Written(v.Shown(), c);
              screenX == t.x && screenY == t.y && Pages() == v.pages[v.Current() := t.cells]
    {
      var p := Translate(VIDEO) - PG_TBL_IDX;
      if c == '\n' || c == '\r' {
        screenY := screenY + 1;
        screenX := 0;
        assert Pages() == old(Pages())[p := old(Pages())[p]];
      } else {
        Store(p, NUM_COLS * screenY + screenX, c);
        screenX := screenX + 1;
        Carry(screenX);
        screenY := screenY + screenX / NUM_COLS;
        screenX := screenX % NUM_COLS;
      }
    }

    method PutC(c: char)
      requires Valid()
      modifies phys, this`screenX, this`screenY
      ensures Valid() && Value() == old(Value()).PutC(c)
    {
      ghost var v, p := Value(), Value().Current();
      ghost var t := Written(v.Shown(), c);
      WriteAndStep(c);
      if screenY == NUM_ROWS {
        VidScrollUp();
        screenY := NUM_ROWS - 1;
        screenX := 0;
        assert Pages() == v.pages[p := Scrolled(t.cells)];
      }
    }

    method Puts(text: seq<char>)
      requires Valid()
      modifies phys, this`screenX, this`screenY
      ensures Valid() && Value() == old(Value()).Show(PutAll(old(Value()).Shown(), text))
    {
      ghost var v := Value();
      assert v == v.Show(v.Shown());
      var index := 0;
      while index < |text|
        invariant 0 <= index <= |text|
        invariant Valid() && Value() == v.Show(PutAll(v.Shown(), text[..index]))
      {
        assert text[..index + 1] == text[..index] + [text[index]];
        PutAllSnoc(v.Shown(), text[..index], text[index]);
        PutC(text[index]);
        index := index + 1;
      }
      assert text[..index] == text;
    }

    method DelC()
      requires Valid()
      modifies phys, this`screenX, this`screenY
      ensures Valid() && Value() == old(Value()).Show(Console.DelC(old(Value()).Shown()))
    {
      if screenX > 0 {
        BackInRow();
      } else if screenY > 0 {
        BackToRowBefore();
      } else {
        assert Pages()[Value().Current()] == Value().Shown().cells;
      }
    }

    method BackInRow()
      requires Valid() && screenX > 0
      modifies phys, this`screenX, this`screenY
      ensures Valid() && Value() == old(Value()).Show(Console.DelC(old(Value()).Shown()))
    {
      ghost var s := Value().Shown();
      screenX := screenX - 1;
      PutBlank(s.(x := s.x - 1));
      screenX := screenX - 1;
    }

    method BackToRowBefore()
      requires Valid() && screenX == 0 && screenY > 0
      modifies phys, this`screenX, this`screenY
      ensures Valid() && Value() == old(Value()).Show(Console.DelC(old(Value()).Shown()))
    {
      ghost var s := Value().Shown();
      screenX := NUM_COLS - 1;
      screenY := screenY - 1;
      PutBlank(s.(x := NUM_COLS - 1, y := s.y - 1));
      screenX := NUM_COLS - 1;
      screenY := screenY - 1;
    }

    /** `putc(' ')` where it cannot scroll. */
    method PutBlank(ghost s: Screen)
      requires Valid() && s == Value().Shown() && s.Pos() < SIZE - 1
      modifies phys, this`screenX, this`screenY
      ensures screenX == (s.x + 1) % NUM_COLS && screenY == s.y + (s.x + 1) / NUM_COLS
      ensures var p := table[PG_TBL_IDX] - PG_TBL_IDX;
              Pages() == old(Pages())[p := s.cells[s.Pos() := ' ']]
    {
      PutThenBack(s);
      Carry(s.x + 1);
      PutC(' ');
    }
  }

  lemma Carry(x: int)
    requires 0 < x <= NUM_COLS
    ensures x / NUM_COLS == (if x == NUM_COLS then 1 else 0) && x % NUM_COLS == (if x == NUM_COLS then 0 else x)
  {
  }

  /** Printing a blank does not scroll when it starts before the last cell of the page. */
  lemma PutThenBack(s: Screen)
    requires s.Valid() && s.Pos() < SIZE - 1
    ensures PutC(s, ' ').cells == s.cells[s.Pos() := ' '] && PutC(s, ' ').Pos() == s.Pos() + 1
  {
  }

  /** A buffer that is replaced cell by cell from the left. */
  lemma OneMore(was: seq<char>, goal: seq<char>, i: nat)
    requires |was| == |goal| && i < |was|
    ensures (goal[..i] + was[i..])[i := goal[i]] == goal[..i + 1] + was[i + 1..]
  {
  }

  /** Cell `k` has received the cell below it once `i` columns are done, and `j` rows of column `i`. */
  predicate Done(k: int, i: int, j: int) {
    k < SIZE - NUM_COLS && (k % NUM_COLS < i || (k % NUM_COLS == i && k / NUM_COLS < j))
  }

  ghost predicate Moved(was: seq<char>, now: seq<char>, i: int, j: int)
    requires |was| == |now| == SIZE
  {
    forall k | 0 <= k < SIZE ::
      && (Done(k, i, j) ==> now[k] == was[k + NUM_COLS])
      && (!Done(k, i, j) ==> now[k] == was[k])
  }

  lemma MovedStep(was: seq<char>, now: seq<char>, i: int, j: int)
    requires |was| == |now| == SIZE && 0 <= i < NUM_COLS && 0 <= j < NUM_ROWS - 1
    requires Moved(was, now, i, j)
    ensures Moved(was, now[NUM_COLS * j + i := now[NUM_COLS * (j + 1) + i]], i, j + 1)
  {
    var at := NUM_COLS * j + i;
    assert !Done(at + NUM_COLS, i, j) && Done(at, i, j + 1);
    forall k | 0 <= k < SIZE && k != at
      ensures Done(k, i, j + 1) == Done(k, i, j)
    {
      assert k == NUM_COLS * (k / NUM_COLS) + k % NUM_COLS;
    }
  }

  lemma MovedColumn(was: seq<char>, now: seq<char>, i: int)
    requires |was| == |now| == SIZE && 0 <= i < NUM_COLS
    requires Moved(was, now, i, NUM_ROWS - 1)
    ensures Moved(was, now, i + 1, 0)
  {
    forall k | 0 <= k < SIZE
      ensures Done(k, i + 1, 0) ==> now[k] == was[k + NUM_COLS]
      ensures !Done(k, i + 1, 0) ==> now[k] == was[k]
    {
      assert k < SIZE - NUM_COLS ==> k / NUM_COLS < NUM_ROWS - 1;
      assert Done(k, i + 1, 0) == Done(k, i, NUM_ROWS - 1);
    }
  }

  lemma MovedAll(was: seq<char>, now: seq<char>)
    requires |was| == |now| == SIZE
    requires Moved(was, now, NUM_COLS, 0)
    ensures now == was[NUM_COLS..] + was[SIZE - NUM_COLS..]
  {
    forall k | 0 <= k < SIZE
      ensures now[k] == (was[NUM_COLS..] + was[SIZE - NUM_COLS..])[k]
    {
      assert Done(k, NUM_COLS, 0) == (k < SIZE - NUM_COLS);
    }
  }
}
