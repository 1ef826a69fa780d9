/**
 The machine state of the terminal multiplexer and its steps, as values.

 A step is one of the things that can happen between two instructions of a user program: a timer
 tick (pit_handler), a key (handle_keyboard with switch_terminal inside), a system call of the
 running process (execute, halt, one putc of terminal_write, terminal_read) or one of its stores
 to the video page.
 */
module KernelState {
  import opened Wrappers
  import opened Console
  import opened VideoMemory
  import opened LineDiscipline
  import opened Keymap
  import opened ProcessTable

  datatype Cursor = Cursor(x: int, y: int) {
    predicate Valid() {
      0 <= x < NUM_COLS && 0 <= y < NUM_ROWS
    }
  }

  datatype State = State(
    table: Table,
    running: nat,       // the slot whose kernel stack is in use, what get_pcb finds
    spinning: bool,     // it has halted and waits in an endless loop for the next tick
    shellOk: bool,      // the file system holds an executable shell
    frame: nat,         // physical address of the 4 MB page at the program address
    esp0: nat,          // tss.esp0
    video: Video,
    cursors: seq<Cursor>,
    lines: seq<Line>,
    keys: Keys)
  {
    predicate Valid() {
      && table.Valid() && running < MAX_PROCESSES && video.Valid()
      && |cursors| == TERMINALS && (forall t | 0 <= t < TERMINALS :: cursors[t].Valid())
      && |lines| == TERMINALS && (forall t | 0 <= t < TERMINALS :: lines[t].Valid())
    }

    function Self(): Proc
      requires Valid()
    {
      table.procs[running]
    }

    function Home(): (t: nat)
      requires Valid()
      ensures t < TERMINALS
    {
      Self().terminal
    }

    function Load(pid: nat, stack: nat): (s: State)
      ensures Valid() ==> s.Valid()
    {
      this.(frame := EIGHT_MB + FOUR_MB * pid, esp0 := stack)
    }

    function SwitchCursor(from: nat, to: nat): (s: State)
      requires |cursors| == TERMINALS && from < TERMINALS && to < TERMINALS
      ensures Valid() ==> s.Valid()
    {
      var saved := cursors[from := Cursor(video.x, video.y)];
      this.(cursors := saved, video := video.SetCursor(saved[to].x, saved[to].y))
    }

    /** Both video addresses follow the process in slot `i`. */
    function MapFor(i: nat): (s: State)
      requires video.Valid() && i < |table.procs| && FakeAddress(table.procs[i].fake)
      ensures Valid() ==> s.Valid()
    {
      this.(video := video.MapTo(if table.procs[i].onscreen then VIDEO else table.procs[i].fake))
    }
  }

  datatype Event = Tick | Exec(ok: bool) | Halt | Write(c: char)
    | Store(i: nat, c: char) | Read(n: int) | Key(scan: nat)

  // ---------- pit.c ----------

  predicate TickReady(s: State) {
    s.Valid() && (NextActive(s.table, s.running).Some? ==>
      FakeAddress(s.table.procs[NextActive(s.table, s.running).value].fake))
  }

  function Ticked(s: State): (r: State)
    requires TickReady(s)
    ensures r.Valid()
  {
    match NextActive(s.table, s.running)
    case None => s
    case Some(n) =>
      var p := s.table.procs[n];
      s.Load(p.pid, EIGHT_MB - EIGHT_KB * p.pid - 4)
       .MapFor(n)
       .SwitchCursor(s.Home(), p.terminal)
       .(running := n, spinning := false)
  }

  // ---------- execute ----------

  predicate ExecReady(s: State) {
    s.Valid() && FreeSlot(s.table) != Some(s.running)
  }

  function Executed(s: State, ok: bool): (r: State)
    requires ExecReady(s) || (s.Valid() && FreeSlot(s.table) == Some(0))
    ensures r.Valid()
  {
    if !ok then s
    else match FreeSlot(s.table)
      case None => s
      case Some(a) =>
        var table := if a == 0 then Rooted(s.table) else Forked(s.table, a, s.running);
        s.Load(a, EIGHT_MB - EIGHT_KB * a - 4).(table := table, running := a)
  }

  // ---------- switch_terminal ----------

  datatype Outcome = Created | Failed | Switched

  predicate SwitchReady(s: State, t: nat) {
    && s.Valid() && t < TERMINALS && FakeAddress(s.Self().fake)
    && OnscreenPid(s.table).Some? && FakeAddress(s.table.procs[OnscreenPid(s.table).value].fake)
    && FreeSlot(s.table) != OnscreenPid(s.table)
    && (TerminalPid(s.table, t).Some? ==> FakeAddress(s.table.procs[TerminalPid(s.table, t).value].fake))
  }

  /** No process is active on terminal `t`: a shell is started there, if there is a slot for it. */
  function OpenedFrom(s: State, on: nat, t: nat): (r: (State, Outcome))
    requires s.Valid() && t < TERMINALS && on < MAX_PROCESSES && FakeAddress(s.table.procs[on].fake)
    requires FreeSlot(s.table) != Some(on)
    ensures r.0.Valid()
  {
    if !s.shellOk || FreeSlot(s.table).None? then (s, Failed)
    else
      var a, front := FreeSlot(s.table).value, s.table.procs[on];
      var video := if front.terminal != t then s.video.SwitchMemory(front.fake, Fake(t)) else s.video;
      (s.Load(a, EIGHT_MB - EIGHT_KB * a - 4)
        .(table := Opened(s.table, a, s.running, on, t), running := a, spinning := false,
          video := video.Show(Cleared())),
       Created)
  }

  function SwitchedTo(s: State, t: nat): (r: (State, Outcome))
    requires SwitchReady(s, t)
    ensures r.0.Valid()
  {
    var on := OnscreenPid(s.table).value;
    match TerminalPid(s.table, t)
    case None => OpenedFrom(s, on, t)
    case Some(req) =>
      var front, next := s.table.procs[on], s.table.procs[req];
      var r := s.(table := Refocused(s.table, on, req));
      if front.terminal == next.terminal then (r, Switched)
      else (r.(video := s.video.SwitchMemory(front.fake, next.fake)).MapFor(s.running), Switched)
  }

  // ---------- halt ----------

  predicate HaltReady(s: State) {
    && s.Valid()
    && match s.Self().parent
       case None => FreeSlot(Freed(s.table, s.running)) == Some(0)
       case Some(p) => s.table.procs[p].terminal != s.Home() ==>
         SwitchReady(s.(table := Stopped(s.table, s.running)), 0)
  }

  function Halted(s: State): (r: State)
    requires HaltReady(s)
    ensures r.Valid()
  {
    match s.Self().parent
    case None => Executed(s.(table := Freed(s.table, s.running)), s.shellOk)
    case Some(p) =>
      if s.table.procs[p].terminal != s.Home() then
        var r := SwitchedTo(s.(table := Stopped(s.table, s.running)), 0);
        if r.1.Created? then r.0
        else r.0.(table := Freed(r.0.table, s.running), spinning := true)
      else
        var table := Returned(s.table, s.running, p);
        s.Load(table.procs[p].pid, table.procs[p].esp0).(table := table, running := p)
  }

  // ---------- handle_keyboard ----------

  function Complaint(t: nat): seq<char> {
    "can not open ternimal " + (if t == 0 then "1" else if t == 1 then "2" else "3") + "\n"
  }

  lemma Complaints()
    ensures Complaint(0) == "can not open ternimal 1\n"
    ensures Complaint(1) == "can not open ternimal 2\n"
    ensures Complaint(2) == "can not open ternimal 3\n"
  {
  }

  /** Before the key is looked at, the screen in front and its cursor are brought in. */
  function Fronted(s: State, front: nat): (r: State)
    requires s.Valid() && front < TERMINALS
    ensures r.Valid()
  {
    if s.Self().onscreen then s
    else s.(video := s.video.MapTo(VIDEO)).SwitchCursor(s.Home(), front)
  }

  /** Afterwards the interrupted process gets its own page and cursor back. */
  function Restored(s: State, front: nat): (r: State)
    requires s.Valid() && front < TERMINALS && FakeAddress(s.Self().fake)
    ensures r.Valid()
  {
    s.(video := s.video.MapTo(s.Self().fake)).SwitchCursor(front, s.Home())
  }

  function ShowPrivate(s: State, front: nat, p: Private): (r: State)
    requires s.Valid() && front < TERMINALS && p.Valid()
    ensures r.Valid()
  {
    s.(video := s.video.Show(p.screen), lines := s.lines[front := p.line])
  }

  predicate ActReady(s: State, act: Action) {
    s.Valid() && (act.SwitchTo? ==> SwitchReady(s, act.terminal))
  }

  /** What the key does; the answer is false when it never gets to the end of the handler. */
  function Acted(s: State, front: nat, act: Action): (r: (State, bool))
    requires ActReady(s, act) && front < TERMINALS
    ensures r.0.Valid()
  {
    match act
    case Nothing => (s, true)
    case Wipe => (s.(video := s.video.Show(Cleared())), true)
    case Char(c) => (ShowPrivate(s, front, Type(Private(s.video.Shown(), s.lines[front]), c)), true)
    case SwitchTo(t) =>
      var r := SwitchedTo(s, t);
      if r.1.Failed? then (r.0.(video := r.0.video.Show(PutAll(r.0.video.Shown(), Complaint(t)))), true)
      else (r.0, !r.1.Created?)
  }

  /** Acting on a key neither reads nor changes the state of the modifier keys. */
  lemma ActedKeys(s: State, front: nat, act: Action, keys: Keys)
    requires ActReady(s, act) && front < TERMINALS
    ensures var r := Acted(s, front, act);
            ActReady(s.(keys := keys), act) && Acted(s.(keys := keys), front, act) == (r.0.(keys := keys), r.1)
  {
    if act.SwitchTo? {
      SwitchedKeys(s, act.terminal, keys);
    }
  }

  lemma SwitchedKeys(s: State, t: nat, keys: Keys)
    requires SwitchReady(s, t)
    ensures var r := SwitchedTo(s, t);
            SwitchReady(s.(keys := keys), t) && SwitchedTo(s.(keys := keys), t) == (r.0.(keys := keys), r.1)
  {
    if TerminalPid(s.table, t).None? {
      OpenedKeys(s, OnscreenPid(s.table).value, t, keys);
    }
  }

  lemma OpenedKeys(s: State, on: nat, t: nat, keys: Keys)
    requires s.Valid() && t < TERMINALS && on < MAX_PROCESSES && FakeAddress(s.table.procs[on].fake)
    requires FreeSlot(s.table) != Some(on)
    ensures var r := OpenedFrom(s, on, t); OpenedFrom(s.(keys := keys), on, t) == (r.0.(keys := keys), r.1)
  {
  }

  predicate KeyReady(s: State, scan: nat) {
    && s.Valid()
    && (OnscreenNum(s.table).Some? ==>
      && FakeAddress(s.Self().fake)
      && var f, act := Fronted(s, OnscreenNum(s.table).value), ActionOf(s.keys, scan);
      && ActReady(f, act)
      && FakeAddress(Acted(f, OnscreenNum(s.table).value, act).0.Self().fake))
  }

  /** A new shell is entered straight from the handler: the scan code is then not remembered. */
  function KeyHandled(s: State, scan: nat): (r: State)
    requires KeyReady(s, scan)
    ensures r.Valid()
  {
    match OnscreenNum(s.table)
    case None => s
    case Some(front) =>
      var done := Acted(Fronted(s, front), front, ActionOf(s.keys, scan));
      if !done.1 then done.0.(keys := Pressed(s.keys, scan))
      else
        var r := done.0.(keys := After(s.keys, scan));
        if s.Self().onscreen then r else Restored(r, front)
  }

  // ---------- the other system calls ----------

  function HasWritten(s: State, c: char): (r: State)
    requires s.Valid()
    ensures r.Valid()
  {
    if c == '\0' then s else s.(video := s.video.PutC(c))
  }

  function Stored(s: State, i: nat, c: char): (r: State)
    requires s.Valid() && i < SIZE
    ensures r.Valid()
  {
    s.(video := s.video.Poke(i, c))
  }

  function HasRead(s: State, n: int): (r: State)
    requires s.Valid()
    ensures r.Valid()
  {
    s.(lines := s.lines[s.Home() := Taken(s.lines[s.Home()], n)])
  }

  predicate Ready(s: State, e: Event) {
    && s.Valid()
    && match e
       case Tick => TickReady(s)
       case Exec(_) => ExecReady(s)
       case Halt => HaltReady(s)
       case Write(_) => true
       case Store(i, _) => i < SIZE
       case Read(n) => n != 0 ==> s.lines[s.Home()].Ready()
       case Key(scan) => KeyReady(s, scan)
  }

  function Step(s: State, e: Event): (r: State)
    requires Ready(s, e)
    ensures r.Valid()
  {
    match e
    case Tick => Ticked(s)
    case Exec(ok) => Executed(s, ok)
    case Halt => Halted(s)
    case Write(c) => HasWritten(s, c)
    case Store(i, c) => Stored(s, i, c)
    case Read(n) => HasRead(s, n)
    case Key(scan) => KeyHandled(s, scan)
  }

  /** The machine before its first process. */
  function PoweredUp(video: Video): (s: State)
    requires video.Valid()
    ensures s.Valid() && FreeSlot(s.table) == Some(0)
  {
    var blank := Table(seq(MAX_PROCESSES, _ => false), seq(MAX_PROCESSES, _ => ZERO_PROC));
    FirstTrueIs(seq(MAX_PROCESSES, i requires 0 <= i < MAX_PROCESSES => !blank.ids[i]), 0);
    State(blank, 0, false, true, 0, EIGHT_MB, video,
          seq(TERMINALS, _ => Cursor(0, 0)), seq(TERMINALS, _ => EMPTY_LINE), NO_KEYS)
  }

  /** The machine when the first `execute("shell")` has returned to user mode. */
  function Booted(video: Video): (s: State)
    requires video.Valid()
    ensures s.Valid()
  {
    Executed(PoweredUp(video), true)
  }
}
