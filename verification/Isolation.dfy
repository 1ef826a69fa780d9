/**
 What the machine amounts to: three private terminals.

 `Represents` ties a machine state to three call stacks of processes. `Logical` reads off what
 terminal `t` looks like to its user.
 */
module Isolation {
  // The theorems say, for every run, that the stacks change as if there were no slots, flags and page tables,
  // and that each terminal is what a private console fed with its own operations would be. Where the code loses
  // something, the operation says so (`Lost`, `Jump`), and it is proved when exactly that happens.

  import opened Wrappers
  import opened Console
  import opened VideoMemory
  import opened LineDiscipline
  import opened Keymap
  import opened ProcessTable
  import opened KernelState

  // ---------- the relation ----------

  /** The physical page that keeps the text of terminal `t` when terminal `front` is shown. */
  function PageFor(front: nat, t: nat): nat {
    if t == front then 0 else t + 1
  }

  /** What get_pcb computes on the first push of a system call that starts at `esp0`. */
  function PcbOf(esp0: nat): int {
    (esp0 - 4) / EIGHT_KB * EIGHT_KB
  }

  /** The program page, the kernel stack and both video addresses belong to the running process. */
  predicate Mapped(s: State, k: Control)
    requires s.Valid()
  {
    && s.frame == EIGHT_MB + FOUR_MB * k.running
    && PcbOf(s.esp0) == PcbAddress(k.running)
    && s.video.vidmap == s.video.entry && s.video.Current() == k.page
  }

  ghost predicate Represents(s: State, k: Control) {
    && s.Valid() && s.shellOk && Holds(s.table, k)
    && s.running == k.running && s.spinning == k.spinning && Mapped(s, k)
  }

  /** Terminal `t` when terminal `front` is shown and the global cursor belongs to terminal `cur`. */
  function LogicalAt(s: State, front: nat, cur: nat, t: nat): (p: Private)
    requires s.Valid() && front < TERMINALS && t < TERMINALS
    ensures p.Valid()
  {
    Private(Screen(s.video.pages[PageFor(front, t)],
                   if t == cur then s.video.x else s.cursors[t].x,
                   if t == cur then s.video.y else s.cursors[t].y),
            s.lines[t])
  }

  /** Terminal `t` as its user knows it: outside the handlers the cursor is the running process's. */
  function Logical(s: State, front: nat, t: nat): (p: Private)
    requires s.Valid() && front < TERMINALS && t < TERMINALS
    ensures p.Valid()
  {
    LogicalAt(s, front, s.Home(), t)
  }

  // ---------- private terminals ----------

  datatype Op =
    | Put(c: char)              // a process prints
    | PutAt(i: nat, c: char)    // a process stores into its video page
    | Typed(c: char)            // its user types
    | Clear                     // its user clears the screen, or a new shell does
    | Say(text: seq<char>)      // the kernel complains
    | Take(n: int)              // a process reads the line
    | Lost(op: Op)              // an operation whose text goes to another page: only the cursor moves
    | Jump(x: int, y: int)      // the cursor falls back to an older place
    | Spill(x: int, y: int, line: Line, op: Op)   // an operation of another terminal, at that one's cursor

  predicate OpOk(op: Op) {
    match op
    case PutAt(i, _) => i < SIZE
    case Lost(o) => OpOk(o)
    case Spill(x, y, line, o) => 0 <= x < NUM_COLS && 0 <= y < NUM_ROWS && line.Valid() && OpOk(o)
    case Jump(x, y) => 0 <= x < NUM_COLS && 0 <= y < NUM_ROWS
    case _ => true
  }

  function Apply(p: Private, op: Op): (r: Private)
    requires p.Valid() && OpOk(op)
    ensures r.Valid()
    decreases op
  {
    match op
    case Put(c) => p.(screen := PutC(p.screen, c))
    case PutAt(i, c) => p.(screen := p.screen.(cells := p.screen.cells[i := c]))
    case Typed(c) => Type(p, c)
    case Clear => p.(screen := Cleared())
    case Say(text) => p.(screen := PutAll(p.screen, text))
    case Take(n) => p.(line := Taken(p.line, n))
    case Lost(o) => var r := Apply(p, o); r.(screen := r.screen.(cells := p.screen.cells))
    case Jump(x, y) => p.(screen := p.screen.(x := x, y := y))
    case Spill(x, y, line, o) =>
      var r := Apply(Private(Screen(p.screen.cells, x, y), line), o);
      p.(screen := p.screen.(cells := r.screen.cells))
  }

  predicate OpsOk(ops: seq<Op>) {
    forall op | op in ops :: OpOk(op)
  }

  function ApplyAll(p: Private, ops: seq<Op>): (r: Private)
    requires p.Valid() && OpsOk(ops)
    ensures r.Valid()
    decreases |ops|
  {
    if ops == [] then p else ApplyAll(Apply(p, ops[0]), ops[1..])
  }

  lemma {:induction false} ApplyAppend(p: Private, a: seq<Op>, b: seq<Op>)
    requires p.Valid() && OpsOk(a) && OpsOk(b)
    ensures OpsOk(a + b) && ApplyAll(p, a + b) == ApplyAll(ApplyAll(p, a), b)
    decreases |a|
  {
    if a == [] {
      assert a + b == b;
    } else {
      ApplyAppend(Apply(p, a[0]), a[1..], b);
      assert (a + b)[1..] == a[1..] + b;
      assert OpOk((a + b)[0]);
    }
  }

  // ---------- what an event means ----------

  /**
   What terminal `t` sees of an operation that terminal `u`, with the cursor and the line of `drawer`,
   performs on a physical page.
   */
  function Seen(drawer: Private, u: nat, front: nat, page: nat, op: Op, t: nat): (o: Option<Op>)
    requires drawer.Valid() && OpOk(op)
    ensures o.Some? ==> OpOk(o.value)
  {
    if t == u then Some(if page == PageFor(front, u) then op else Lost(op))
    else if page == PageFor(front, t) then Some(Spill(drawer.screen.x, drawer.screen.y, drawer.line, op))
    else None
  }

  function Do(p: Private, o: Option<Op>): (r: Private)
    requires p.Valid() && (o.Some? ==> OpOk(o.value))
    ensures r.Valid()
  {
    if o.Some? then Apply(p, o.value) else p
  }

  function Ops(o: Option<Op>): (ops: seq<Op>)
    requires o.Some? ==> OpOk(o.value)
    ensures OpsOk(ops)
  {
    if o.Some? then [o.value] else []
  }

  lemma ApplyOps(p: Private, o: Option<Op>)
    requires p.Valid() && (o.Some? ==> OpOk(o.value))
    ensures ApplyAll(p, Ops(o)) == Do(p, o)
  {
    if o.Some? {
      ApplyOne(p, o.value);
    }
  }

  /** The events that can happen, with the condition under which the table survives a halt. */
  ghost predicate Allowed(s: State, k: Control, e: Event)
    requires Represents(s, k)
  {
    match e
    case Tick => true
    case Exec(_) => !k.spinning
    case Halt => !k.spinning && HaltGuard(k)
    case Write(_) => !k.spinning
    case Store(i, _) => !k.spinning && i < SIZE
    case Read(n) => !k.spinning && (n != 0 ==> s.lines[k.home].Ready())
    case Key(_) => true
  }

  /**
   A root shell halts well: the one in slot 0 while it is on the screen, another one as long as the slot of the process
   that was running when it was opened has not come to serve its own terminal.
   */
  predicate HaltGuard(k: Control)
    requires k.Valid()
  {
    if k.running == 0 then k.Shown() else |k.stacks[k.home]| == 1 ==> k.seat[k.opener[k.running]] != k.home
  }

  /** How the call stacks change. */
  function Next(k: Control, e: Event, act: Action): Control
    requires k.Valid() && (act.SwitchTo? ==> act.terminal < TERMINALS)
  {
    match e
    case Tick => if k.NextTop().Some? then Schedule(k) else k
    case Exec(ok) => if ok && k.FreeSlot().Some? then Push(k, k.FreeSlot().value) else k
    case Halt => if k.running == 0 then k else if |k.stacks[k.home]| > 1 then Pop(k) else Leave(k)
    case Key(_) =>
      if !act.SwitchTo? then k
      else if k.stacks[act.terminal] != [] then Focus(k, act.terminal)
      else if k.FreeSlot().Some? then Open(k, k.FreeSlot().value, act.terminal) else k
    case _ => k
  }

  /** A key that is edited, clears the screen or is answered by a message: one operation in front. */
  function KeyOp(k: Control, act: Action): (op: Option<Op>)
    requires k.Valid() && (act.SwitchTo? ==> act.terminal < TERMINALS)
    ensures op.Some? ==> OpOk(op.value)
  {
    match act
    case Nothing => None
    case Wipe => Some(Clear)
    case Char(c) => Some(Typed(c))
    case SwitchTo(u) => if k.stacks[u] == [] && k.FreeSlot().None? then Some(Say(Complaint(u))) else None
  }

  /** The key starts a shell. */
  predicate Opens(k: Control, act: Action)
    requires k.Valid() && (act.SwitchTo? ==> act.terminal < TERMINALS)
  {
    act.SwitchTo? && k.stacks[act.terminal] == [] && k.FreeSlot().Some?
  }

  /** The cursor of a running process in front is forgotten when another terminal is opened. */
  function JumpOf(s: State, k: Control, t: nat): (o: Option<Op>)
    requires s.Valid() && t < TERMINALS
    ensures o.Some? ==> OpOk(o.value)
  {
    if t == k.front && k.Shown() then Some(Jump(s.cursors[t].x, s.cursors[t].y)) else None
  }

  /** The new terminal is cleared, or whoever's text is on the page that the running process writes to. */
  function WipeOf(s: State, k: Control, u: nat, t: nat): (o: Option<Op>)
    requires s.Valid() && k.Valid() && t < TERMINALS
    ensures o.Some? ==> OpOk(o.value)
  {
    Seen(Logical(s, k.front, k.front), u, u, k.Brush(), Clear, t)
  }

  /** The operations that an event performs on terminal `t`. */
  function Script(s: State, k: Control, e: Event, t: nat): (ops: seq<Op>)
    requires s.Valid() && k.Valid() && t < TERMINALS
    requires e.Store? ==> e.i < SIZE
    ensures OpsOk(ops)
  {
    match e
    case Write(c) =>
      if c == '\0' then [] else Ops(Seen(Logical(s, k.front, k.home), k.home, k.front, k.page, Put(c), t))
    case Store(i, c) => Ops(Seen(Logical(s, k.front, k.home), k.home, k.front, k.page, PutAt(i, c), t))
    case Read(n) => if t == k.home then [Take(n)] else []
    case Key(scan) =>
      var act := ActionOf(s.keys, scan);
      if KeyOp(k, act).Some? then
        Ops(Seen(Logical(s, k.front, k.front), k.front, k.front, k.Brush(), KeyOp(k, act).value, t))
      else if Opens(k, act) then Ops(JumpOf(s, k, t)) + Ops(WipeOf(s, k, act.terminal, t))
      else []
    case _ => []
  }

  /** The step lemma's conclusion: the stacks follow and every terminal sees exactly its script. */
  ghost predicate StepOk(s: State, k: Control, e: Event)
    requires Represents(s, k) && Ready(s, e) && (e.Store? ==> e.i < SIZE)
  {
    var r, l := Step(s, e), Next(k, e, if e.Key? then ActionOf(s.keys, e.scan) else Nothing);
    && Represents(r, l)
    && forall t | 0 <= t < TERMINALS :: Logical(r, l.front, t) == ApplyAll(Logical(s, k.front, t), Script(s, k, e, t))
  }

  lemma ApplyOne(p: Private, op: Op)
    requires p.Valid() && OpOk(op)
    ensures ApplyAll(p, [op]) == Apply(p, op)
  {
    assert [op][1..] == [];
    assert ApplyAll(Apply(p, op), []) == Apply(p, op);
  }

  // ---------- one lemma for each event ----------

  lemma RunningFacts(s: State, k: Control)
    requires Represents(s, k)
    ensures s.Home() == k.home && s.Self().fake == Fake(k.home)
    ensures s.Self().onscreen <==> !k.spinning && k.home == k.front
    ensures !k.spinning ==> s.table.ids[k.running] && s.Self().pid == k.running
  {
    if k.spinning {
      FreeIsIdle(s.table, k, k.running);
    } else {
      assert Entry(s.table, k, k.home, |k.stacks[k.home]| - 1);
    }
  }

  /** Every terminal survives handing the global cursor from one terminal to another. */
  lemma CursorsSurvive(s: State, front: nat, from: nat, to: nat, t: nat)
    requires s.Valid() && front < TERMINALS && from < TERMINALS && to < TERMINALS && t < TERMINALS
    ensures LogicalAt(s.SwitchCursor(from, to), front, to, t) == LogicalAt(s, front, from, t)
  {
  }

  /** The process that the tick chooses. */
  lemma TickFacts(s: State, k: Control)
    requires Represents(s, k)
    ensures k.NextTop().Some? && NextActive(s.table, s.running) == k.NextTop() && Holds(s.table, Schedule(k))
    ensures var n := k.NextTop().value;
            n < MAX_PROCESSES && s.table.procs[n].pid == n && s.table.procs[n].terminal == Schedule(k).home
            && s.table.procs[n].fake == Fake(Schedule(k).home)
            && (s.table.procs[n].onscreen <==> Schedule(k).home == k.front)
  {
    ScansAgree(s.table, k);
    TickSchedules(s.table, k);
    var l := Schedule(k);
    assert Entry(s.table, l, l.home, |l.stacks[l.home]| - 1);
  }

  lemma TickKeeps(s: State, k: Control)
    requires Represents(s, k)
    ensures k.NextTop().Some? && TickReady(s) && Represents(Ticked(s), Schedule(k))
  {
    TickFacts(s, k);
  }

  lemma TickShows(s: State, k: Control, t: nat)
    requires Represents(s, k) && TickReady(s) && k.NextTop().Some? && t < TERMINALS
    ensures Logical(Ticked(s), k.front, t) == Logical(s, k.front, t)
  {
    TickFacts(s, k);
    RunningFacts(s, k);
    var n := k.NextTop().value;
    var p := s.table.procs[n];
    CursorsSurvive(s.Load(p.pid, EIGHT_MB - EIGHT_KB * p.pid - 4).MapFor(n), k.front, s.Home(), p.terminal, t);
  }

  /** The slot that get_process_id hands out. */
  lemma SlotFacts(s: State, k: Control)
    requires Represents(s, k)
    ensures FreeSlot(s.table) == k.FreeSlot()
    ensures k.FreeSlot().Some? ==> k.FreeSlot().value < MAX_PROCESSES && k.FreeSlot().value != 0
    ensures k.FreeSlot().Some? && !k.spinning ==>
              k.FreeSlot().value != k.running
              && Holds(Forked(s.table, k.FreeSlot().value, k.running), Push(k, k.FreeSlot().value))
  {
    ScansAgree(s.table, k);
    assert Entry(s.table, k, 0, 0);
    if k.FreeSlot().Some? && !k.spinning {
      ForkPushes(s.table, k, k.FreeSlot().value);
    }
  }

  lemma ExecKeeps(s: State, k: Control, ok: bool)
    requires Represents(s, k) && !k.spinning
    ensures ExecReady(s) && Represents(Executed(s, ok), Next(k, Exec(ok), Nothing))
  {
    SlotFacts(s, k);
  }

  lemma ExecShows(s: State, k: Control, ok: bool, t: nat)
    requires Represents(s, k) && !k.spinning && ExecReady(s) && t < TERMINALS
    ensures Logical(Executed(s, ok), k.front, t) == Logical(s, k.front, t)
  {
    SlotFacts(s, k);
  }

  // ---------- drawing through the mapped page ----------

  /** Where an operation leaves the cursor and the line does not depend on the text of the screen. */
  lemma {:induction false} CursorBlind(p: Private, q: Private, op: Op)
    requires p.Valid() && q.Valid() && OpOk(op)
    requires p.line == q.line && p.screen.x == q.screen.x && p.screen.y == q.screen.y
    ensures var a, b := Apply(p, op), Apply(q, op);
            a.line == b.line && a.screen.x == b.screen.x && a.screen.y == b.screen.y
    decreases op
  {
    match op
    case Say(text) => PutAllBlind(p.screen, q.screen, text);
    case Typed(c) => TypeBlind(p, q, c);
    case Lost(o) => CursorBlind(p, q, o);
    case _ =>
  }

  lemma TypeBlind(p: Private, q: Private, c: char)
    requires p.Valid() && q.Valid() && p.line == q.line && p.screen.x == q.screen.x && p.screen.y == q.screen.y
    ensures var a, b := Type(p, c), Type(q, c);
            a.line == b.line && a.screen.x == b.screen.x && a.screen.y == b.screen.y
  {
    EditBlind(p, q, c);
  }

  lemma EditBlind(p: Private, q: Private, c: char)
    requires p.Valid() && q.Valid() && p.line == q.line && p.screen.x == q.screen.x && p.screen.y == q.screen.y
    ensures var a, b := Edit(p, c), Edit(q, c);
            a.line == b.line && a.screen.x == b.screen.x && a.screen.y == b.screen.y
  {
    PutAllBlind(p.screen, q.screen, TAB_TEXT);
  }

  lemma {:induction false} PutAllBlind(a: Screen, b: Screen, text: seq<char>)
    requires a.Valid() && b.Valid() && a.x == b.x && a.y == b.y
    ensures PutAll(a, text).x == PutAll(b, text).x && PutAll(a, text).y == PutAll(b, text).y
    decreases |text|
  {
    if text == [] {
    } else {
      PutAllBlind(PutC(a, text[0]), PutC(b, text[0]), text[1..]);
    }
  }

  /** The state after `op` was performed on the mapped page for the terminal that owns the cursor. */
  function Drawn(s: State, u: nat, op: Op): (r: State)
    requires s.Valid() && u < TERMINALS && OpOk(op)
    ensures r.Valid()
  {
    ShowPrivate(s, u, Apply(Private(s.video.Shown(), s.lines[u]), op))
  }

  /** It reaches whoever's text is on that page, and the cursor of the terminal it is meant for. */
  lemma DrawShows(s: State, front: nat, u: nat, op: Op, t: nat)
    requires s.Valid() && front < TERMINALS && u < TERMINALS && t < TERMINALS && OpOk(op)
    ensures var drawer, was := LogicalAt(s, front, u, u), LogicalAt(s, front, u, t);
            LogicalAt(Drawn(s, u, op), front, u, t) == Do(was, Seen(drawer, u, front, s.video.Current(), op, t))
  {
    if t == u {
      CursorBlind(Private(s.video.Shown(), s.lines[u]), LogicalAt(s, front, u, t), op);
    }
  }

  lemma WriteKeeps(s: State, k: Control, c: char)
    requires Represents(s, k) && !k.spinning
    ensures Represents(HasWritten(s, c), k)
  {
  }

  lemma WriteShows(s: State, k: Control, c: char, t: nat)
    requires Represents(s, k) && !k.spinning && t < TERMINALS
    ensures Logical(HasWritten(s, c), k.front, t) == ApplyAll(Logical(s, k.front, t), Script(s, k, Write(c), t))
  {
    RunningFacts(s, k);
    if c != '\0' {
      ApplyOps(Logical(s, k.front, t), Seen(Logical(s, k.front, k.home), k.home, k.front, k.page, Put(c), t));
      DrawShows(s, k.front, k.home, Put(c), t);
      assert Drawn(s, k.home, Put(c)).video == HasWritten(s, c).video;
    }
  }

  lemma StoreKeeps(s: State, k: Control, i: nat, c: char)
    requires Represents(s, k) && !k.spinning && i < SIZE
    ensures Represents(Stored(s, i, c), k)
  {
  }

  lemma StoreShows(s: State, k: Control, i: nat, c: char, t: nat)
    requires Represents(s, k) && !k.spinning && t < TERMINALS && i < SIZE
    ensures Logical(Stored(s, i, c), k.front, t) == ApplyAll(Logical(s, k.front, t), Script(s, k, Store(i, c), t))
  {
    RunningFacts(s, k);
    ApplyOps(Logical(s, k.front, t), Seen(Logical(s, k.front, k.home), k.home, k.front, k.page, PutAt(i, c), t));
    DrawShows(s, k.front, k.home, PutAt(i, c), t);
    assert Drawn(s, k.home, PutAt(i, c)).video == Stored(s, i, c).video;
  }

  lemma ReadKeeps(s: State, k: Control, n: int)
    requires Represents(s, k) && !k.spinning
    ensures Represents(HasRead(s, n), k)
  {
  }

  lemma ReadShows(s: State, k: Control, n: int, t: nat)
    requires Represents(s, k) && !k.spinning && t < TERMINALS
    ensures Logical(HasRead(s, n), k.front, t) == ApplyAll(Logical(s, k.front, t), Script(s, k, Read(n), t))
  {
    RunningFacts(s, k);
    ApplyOne(Logical(s, k.front, t), Take(n));
  }

  // ---------- halt ----------

  /** Exchanging the visible page leaves every terminal its text. */
  lemma ExchangeShows(v: Video, f: nat, g: nat, t: nat)
    requires v.Valid() && f < TERMINALS && g < TERMINALS && t < TERMINALS && f != g
    ensures v.SwitchMemory(Fake(f), Fake(g)).pages[PageFor(g, t)] == v.pages[PageFor(f, t)]
  {
  }

  /** Which of its three ways a halt takes. */
  lemma HaltFacts(s: State, k: Control)
    requires Represents(s, k) && !k.spinning
    ensures s.Self().parent.None? <==> k.running == 0
    ensures k.running == 0 ==> k.home == 0 && |k.stacks[0]| == 1
    ensures |k.stacks[k.home]| > 1 ==> s.Self().parent == Some(Caller(k)) && Caller(k) < MAX_PROCESSES
                                       && s.table.procs[Caller(k)].terminal == k.home
    ensures k.running != 0 && |k.stacks[k.home]| == 1 ==> k.home != 0
    ensures k.running != 0 ==> s.Self().parent == Some(k.opener[k.running])
                               && s.table.procs[k.opener[k.running]].terminal == k.seat[k.opener[k.running]]
  {
    assert Entry(s.table, k, k.home, |k.stacks[k.home]| - 1) && Entry(s.table, k, 0, 0);
    assert Placed(s.table, k, k.opener[k.running]);
    if |k.stacks[k.home]| > 1 {
      CallerIsParent(s.table, k);
    }
  }

  lemma RerootKeeps(s: State, k: Control)
    requires Represents(s, k) && !k.spinning && k.running == 0 && s.Self().onscreen
    ensures HaltReady(s) && Represents(Halted(s), k)
    ensures forall t | 0 <= t < TERMINALS :: Logical(Halted(s), k.front, t) == Logical(s, k.front, t)
  {
    HaltFacts(s, k);
    RunningFacts(s, k);
    RerootIff(s.table, k);
  }

  lemma ReturnKeeps(s: State, k: Control)
    requires Represents(s, k) && !k.spinning && |k.stacks[k.home]| > 1
    ensures HaltReady(s) && Represents(Halted(s), Pop(k))
  {
    HaltFacts(s, k);
    RunningFacts(s, k);
    CallerIsParent(s.table, k);
    HaltPops(s.table, k);
  }

  lemma ReturnShows(s: State, k: Control, t: nat)
    requires Represents(s, k) && !k.spinning && |k.stacks[k.home]| > 1 && HaltReady(s) && t < TERMINALS
    ensures Logical(Halted(s), k.front, t) == Logical(s, k.front, t)
  {
    HaltFacts(s, k);
    RunningFacts(s, k);
    CallerIsParent(s.table, k);
  }

  /** The call of switch_terminal(0) inside halt finds its processes, and they are different ones. */
  lemma LeaveFacts(s: State, k: Control)
    requires Represents(s, k) && !k.spinning && k.home != 0 && |k.stacks[k.home]| == 1
    ensures SwitchReady(s.(table := Stopped(s.table, s.running)), 0)
    ensures OnscreenPid(Stopped(s.table, s.running)) == Some(k.Top(k.front)) && k.Top(k.front) < MAX_PROCESSES
    ensures TerminalPid(Stopped(s.table, s.running), 0) == Some(k.Top(0)) && k.Top(0) < MAX_PROCESSES
    ensures s.table.procs[k.Top(k.front)].terminal == k.front && s.table.procs[k.Top(k.front)].fake == Fake(k.front)
    ensures s.table.procs[k.Top(0)].terminal == 0 && s.table.procs[k.Top(0)].fake == Fake(0) && k.Top(0) != k.running
    ensures s.Self().fake == Fake(k.home) && s.Self().pid == k.running
    ensures s.Self().onscreen ==> k.Top(k.front) == k.running
  {
    LeaveScans(s.table, k);
    RunningFacts(s, k);
    assert Entry(s.table, k, k.front, |k.stacks[k.front]| - 1);
    SlotAgrees(s.table, k, k.running);
    var u := Stopped(s.table, s.running);
    assert u.ids[k.Top(k.front)];
  }

  lemma LeaveKeeps(s: State, k: Control)
    requires Represents(s, k) && !k.spinning && k.home != 0 && |k.stacks[k.home]| == 1 && HaltGuard(k)
    ensures HaltReady(s) && Represents(Halted(s), Leave(k))
  {
    HaltFacts(s, k);
    RunningFacts(s, k);
    LeaveFacts(s, k);
    LeaveHolds(s.table, k);
  }

  lemma LeaveShows(s: State, k: Control, t: nat)
    requires Represents(s, k) && !k.spinning && k.home != 0 && |k.stacks[k.home]| == 1 && HaltGuard(k)
    requires HaltReady(s) && t < TERMINALS
    ensures Logical(Halted(s), 0, t) == Logical(s, k.front, t)
  {
    HaltFacts(s, k);
    RunningFacts(s, k);
    LeaveFacts(s, k);
    if k.front != 0 {
      ExchangeShows(s.video, k.front, 0, t);
    }
  }

  // ---------- keys ----------

  /** Inside the handler the global cursor and the mapped page belong to the terminal in front. */
  lemma FrontedFacts(s: State, k: Control)
    requires Represents(s, k)
    ensures OnscreenNum(s.table) == Some(k.front)
    ensures var f := Fronted(s, k.front);
            && f.table == s.table && f.running == s.running && f.lines == s.lines && f.keys == s.keys
            && f.spinning == s.spinning && f.shellOk && f.frame == s.frame && f.esp0 == s.esp0
            && f.video.vidmap == f.video.entry
            && f.video.Current() == k.Brush()
  {
    ScansAgree(s.table, k);
    RunningFacts(s, k);
  }

  lemma FrontedShows(s: State, k: Control, t: nat)
    requires Represents(s, k) && t < TERMINALS
    ensures LogicalAt(Fronted(s, k.front), k.front, k.front, t) == Logical(s, k.front, t)
    ensures (s.Self().onscreen || t != k.front) && t != k.home ==> Fronted(s, k.front).cursors[t] == s.cursors[t]
    ensures !s.Self().onscreen ==>
              var p := Logical(s, k.front, t); Fronted(s, k.front).cursors[t] == Cursor(p.screen.x, p.screen.y)
  {
    RunningFacts(s, k);
    if !s.Self().onscreen {
      CursorsSurvive(s.(video := s.video.MapTo(VIDEO)), k.front, k.home, k.front, t);
    }
  }

  /** The end of the handler, for a process that was not in front when the key arrived. */
  lemma RestoredFacts(s: State, front: nat, was: nat, home: nat, t: nat)
    requires s.Valid() && front < TERMINALS && was < TERMINALS && home == s.Home()
    requires s.Self().fake == Fake(home) && t < TERMINALS
    ensures var r := Restored(s, was);
            && Logical(r, front, t) == LogicalAt(s, front, was, t)
            && r.table == s.table && r.running == s.running && r.spinning == s.spinning && r.shellOk == s.shellOk
            && r.frame == s.frame && r.esp0 == s.esp0
            && r.video.vidmap == r.video.entry && r.video.Current() == home + 1
  {
    CursorsSurvive(s.(video := s.video.MapTo(s.Self().fake)), front, was, home, t);
  }

  /** The frame of the handler around what the key does. */
  lemma HandlerForm(s: State, scan: nat, front: nat, r: State, ends: bool)
    requires s.Valid() && front < TERMINALS && OnscreenNum(s.table) == Some(front) && FakeAddress(s.Self().fake)
    requires r.Valid() && FakeAddress(r.Self().fake)
    requires ActReady(Fronted(s, front), ActionOf(s.keys, scan))
    requires Acted(Fronted(s, front), front, ActionOf(s.keys, scan)) == (r, ends)
    ensures KeyReady(s, scan)
    ensures KeyHandled(s, scan) ==
              if !ends then r.(keys := Pressed(s.keys, scan))
              else if s.Self().onscreen then r.(keys := After(s.keys, scan))
              else Restored(r.(keys := After(s.keys, scan)), front)
  {
  }

  /** The keys that end at the end of the handler with the same process in front. */
  predicate Stays(k: Control, act: Action)
    requires k.Valid() && (act.SwitchTo? ==> act.terminal < TERMINALS)
  {
    act.SwitchTo? && act.terminal != k.front ==> k.stacks[act.terminal] == [] && k.FreeSlot().None?
  }

  lemma SwitchFacts(t: Table, k: Control, u: nat)
    requires Holds(t, k) && u < TERMINALS
    ensures OnscreenPid(t) == Some(k.Top(k.front)) && k.Top(k.front) < MAX_PROCESSES && FreeSlot(t) == k.FreeSlot()
    ensures FreeSlot(t) != OnscreenPid(t)
    ensures t.procs[k.Top(k.front)].terminal == k.front && t.procs[k.Top(k.front)].fake == Fake(k.front)
    ensures t.procs[k.Top(k.front)].onscreen
    ensures TerminalPid(t, u) == if k.stacks[u] == [] then None else Some(k.Top(u))
    ensures k.stacks[u] != [] ==>
              k.Top(u) < MAX_PROCESSES && t.procs[k.Top(u)].terminal == u && t.procs[k.Top(u)].fake == Fake(u)
  {
    ScansAgree(t, k);
    TerminalScan(t, k, u);
    assert Entry(t, k, k.front, |k.stacks[k.front]| - 1);
    if k.stacks[u] != [] {
      assert Entry(t, k, u, |k.stacks[u]| - 1);
    }
  }

  /** The handler's state after the key was looked at. */
  function Looked(s: State, k: Control, act: Action): (d: State)
    requires s.Valid() && k.Valid() && (act.SwitchTo? ==> act.terminal < TERMINALS)
    ensures d.Valid()
  {
    var f := Fronted(s, k.front);
    if KeyOp(k, act).Some? then Drawn(f, k.front, KeyOp(k, act).value) else f
  }

  /** Alt-F for the terminal in front clears and sets the same flag. */
  lemma RefocusFront(s: State, f: State, k: Control)
    requires Represents(s, k) && f.Valid() && f.table == s.table && f.running == s.running
    ensures SwitchReady(f, k.front) && SwitchedTo(f, k.front) == (f, Switched)
  {
    RunningFacts(s, k);
    SwitchFacts(s.table, k, k.front);
    var on := k.Top(k.front);
    assert Refocused(s.table, on, on).procs == s.table.procs;
  }

  /** Alt-F for a terminal that cannot be opened changes nothing before the message. */
  lemma OpenRefused(s: State, f: State, k: Control, u: nat)
    requires Represents(s, k) && f.Valid() && f.table == s.table && f.running == s.running
    requires u < TERMINALS && k.stacks[u] == [] && k.FreeSlot().None?
    ensures SwitchReady(f, u) && SwitchedTo(f, u) == (f, Failed)
  {
    RunningFacts(s, k);
    SwitchFacts(s.table, k, u);
  }

  lemma ActStays(s: State, k: Control, act: Action)
    requires Represents(s, k) && (act.SwitchTo? ==> act.terminal < TERMINALS) && Stays(k, act)
    ensures var f := Fronted(s, k.front);
            ActReady(f, act) && Acted(f, k.front, act) == (Looked(s, k, act), true)
  {
    var f := Fronted(s, k.front);
    FrontedFacts(s, k);
    assert f.lines[k.front := f.lines[k.front]] == f.lines;
    if act.SwitchTo? {
      if act.terminal == k.front {
        RefocusFront(s, f, k);
      } else {
        OpenRefused(s, f, k, act.terminal);
      }
    }
  }

  lemma StayForm(s: State, k: Control, scan: nat)
    requires Represents(s, k) && Stays(k, ActionOf(s.keys, scan))
    ensures KeyReady(s, scan)
    ensures var d := Looked(s, k, ActionOf(s.keys, scan)).(keys := After(s.keys, scan));
            && d.Self().fake == Fake(k.home)
            && KeyHandled(s, scan) == (if s.Self().onscreen then d else Restored(d, k.front))
  {
    var d := Looked(s, k, ActionOf(s.keys, scan));
    FrontedFacts(s, k);
    RunningFacts(s, k);
    ActStays(s, k, ActionOf(s.keys, scan));
    assert d.Self() == s.Self();
    HandlerForm(s, scan, k.front, d, true);
  }

  /** Looking at such a key leaves everything but the page in front, its cursor and its line. */
  lemma LookedFacts(s: State, k: Control, act: Action)
    requires Represents(s, k) && (act.SwitchTo? ==> act.terminal < TERMINALS)
    ensures var d := Looked(s, k, act);
            && d.table == s.table && d.running == s.running && d.spinning == s.spinning && d.shellOk
            && d.frame == s.frame && d.esp0 == s.esp0
            && d.video.vidmap == d.video.entry
            && d.video.Current() == k.Brush()
  {
    FrontedFacts(s, k);
  }

  lemma LookedShows(s: State, k: Control, act: Action, t: nat)
    requires Represents(s, k) && (act.SwitchTo? ==> act.terminal < TERMINALS) && t < TERMINALS
    ensures LogicalAt(Looked(s, k, act), k.front, k.front, t) ==
              var was := Logical(s, k.front, t);
              if KeyOp(k, act).None? then was
              else Do(was, Seen(Logical(s, k.front, k.front), k.front, k.front, k.Brush(), KeyOp(k, act).value, t))
  {
    FrontedFacts(s, k);
    FrontedShows(s, k, t);
    FrontedShows(s, k, k.front);
    if KeyOp(k, act).Some? {
      DrawShows(Fronted(s, k.front), k.front, k.front, KeyOp(k, act).value, t);
    }
  }

  lemma StayKeeps(s: State, k: Control, scan: nat)
    requires Represents(s, k) && Stays(k, ActionOf(s.keys, scan))
    ensures KeyReady(s, scan) && Represents(KeyHandled(s, scan), k)
  {
    var act := ActionOf(s.keys, scan);
    RunningFacts(s, k);
    StayForm(s, k, scan);
    LookedFacts(s, k, act);
    if !s.Self().onscreen {
      RestoredFacts(Looked(s, k, act).(keys := After(s.keys, scan)), k.front, k.front, k.home, 0);
    }
  }

  lemma StayScript(s: State, k: Control, scan: nat, t: nat)
    requires s.Valid() && k.Valid() && Stays(k, ActionOf(s.keys, scan)) && t < TERMINALS
    ensures var op := KeyOp(k, ActionOf(s.keys, scan));
            var was := Logical(s, k.front, t);
            ApplyAll(was, Script(s, k, Key(scan), t)) ==
              if op.None? then was
              else Do(was, Seen(Logical(s, k.front, k.front), k.front, k.front, k.Brush(), op.value, t))
  {
    var op := KeyOp(k, ActionOf(s.keys, scan));
    if op.Some? {
      ApplyOps(Logical(s, k.front, t),
        Seen(Logical(s, k.front, k.front), k.front, k.front, k.Brush(), op.value, t));
    }
  }

  lemma StayShows(s: State, k: Control, scan: nat, t: nat)
    requires Represents(s, k) && Stays(k, ActionOf(s.keys, scan)) && KeyReady(s, scan) && t < TERMINALS
    ensures Logical(KeyHandled(s, scan), k.front, t) ==
              LogicalAt(Looked(s, k, ActionOf(s.keys, scan)), k.front, k.front, t)
  {
    var act := ActionOf(s.keys, scan);
    RunningFacts(s, k);
    StayForm(s, k, scan);
    LookedFacts(s, k, act);
    if !s.Self().onscreen {
      RestoredFacts(Looked(s, k, act).(keys := After(s.keys, scan)), k.front, k.front, k.home, t);
    }
  }

  lemma StayStep(s: State, k: Control, scan: nat, t: nat)
    requires Represents(s, k) && Stays(k, ActionOf(s.keys, scan)) && KeyReady(s, scan) && t < TERMINALS
    ensures Logical(KeyHandled(s, scan), k.front, t) == ApplyAll(Logical(s, k.front, t), Script(s, k, Key(scan), t))
  {
    StayShows(s, k, scan, t);
    LookedShows(s, k, ActionOf(s.keys, scan), t);
    StayScript(s, k, scan, t);
  }

  // ---------- a key that brings another terminal to the front ----------

  /** The handler's state after switch_terminal has exchanged the pages. */
  function Exchanged(s: State, k: Control, u: nat): (d: State)
    requires s.Valid() && Holds(s.table, k) && u < TERMINALS && k.stacks[u] != []
    requires k.Top(k.front) < MAX_PROCESSES && k.Top(u) < MAX_PROCESSES && s.Self().fake == Fake(k.home)
    ensures d.Valid()
  {
    var f := Fronted(s, k.front);
    var table := Refocused(s.table, k.Top(k.front), k.Top(u));
    f.(table := table, video := f.video.SwitchMemory(Fake(k.front), Fake(u))
                                 .MapTo(if table.procs[s.running].onscreen then VIDEO else Fake(k.home)))
  }

  lemma FocusSwitches(s: State, f: State, k: Control, u: nat)
    requires Represents(s, k) && u < TERMINALS && k.stacks[u] != [] && u != k.front
    requires f.Valid() && f.table == s.table && f.running == s.running
    ensures k.Top(k.front) < MAX_PROCESSES && k.Top(u) < MAX_PROCESSES && SwitchReady(f, u)
    ensures var table := Refocused(s.table, k.Top(k.front), k.Top(u));
            && table.procs[s.running].fake == Fake(k.home) && table.procs[s.running].terminal == k.home
            && SwitchedTo(f, u) ==
                 (f.(table := table, video := f.video.SwitchMemory(Fake(k.front), Fake(u))
                                               .MapTo(if table.procs[s.running].onscreen
                                                         then VIDEO else Fake(k.home))), Switched)
  {
    RunningFacts(s, k);
    SwitchFacts(s.table, k, u);
  }

  lemma FocusForm(s: State, k: Control, scan: nat, u: nat)
    requires Represents(s, k) && ActionOf(s.keys, scan) == SwitchTo(u) && u < TERMINALS && k.stacks[u] != []
    requires u != k.front
    ensures k.Top(k.front) < MAX_PROCESSES && k.Top(u) < MAX_PROCESSES && s.Self().fake == Fake(k.home)
    ensures KeyReady(s, scan)
    ensures var d := Exchanged(s, k, u).(keys := After(s.keys, scan));
            && d.Self().fake == Fake(k.home) && d.Home() == k.home
            && KeyHandled(s, scan) == (if s.Self().onscreen then d else Restored(d, k.front))
  {
    FrontedFacts(s, k);
    RunningFacts(s, k);
    FocusSwitches(s, Fronted(s, k.front), k, u);
    HandlerForm(s, scan, k.front, Exchanged(s, k, u), true);
  }

  lemma FocusedFacts(s: State, k: Control, u: nat)
    requires Represents(s, k) && u < TERMINALS && k.stacks[u] != [] && u != k.front
    requires k.Top(k.front) < MAX_PROCESSES && k.Top(u) < MAX_PROCESSES && s.Self().fake == Fake(k.home)
    ensures var d := Exchanged(s, k, u);
            && Holds(d.table, Focus(k, u)) && d.running == s.running && d.spinning == s.spinning && d.shellOk
            && d.frame == s.frame && d.esp0 == s.esp0
            && d.video.vidmap == d.video.entry
            && (s.Self().onscreen ==> d.video.Current() == k.home + 1)
  {
    FrontedFacts(s, k);
    RunningFacts(s, k);
    FocusKeeps(s.table, k, u);
    SwitchFacts(s.table, k, u);
    SlotAgrees(s.table, k, k.running);
  }

  /** The end of the handler after the exchange. */
  lemma FocusedEnds(s: State, k: Control, u: nat, d: State, r: State)
    requires Represents(s, k) && u < TERMINALS && k.stacks[u] != [] && u != k.front
    requires d.Valid() && Holds(d.table, Focus(k, u)) && d.running == s.running && d.spinning == s.spinning && d.shellOk
    requires d.frame == s.frame && d.esp0 == s.esp0 && d.video.vidmap == d.video.entry
    requires d.Self().fake == Fake(k.home) && d.Home() == k.home
    requires s.Self().onscreen ==> d.video.Current() == k.home + 1
    requires r == if s.Self().onscreen then d else Restored(d, k.front)
    ensures Represents(r, Focus(k, u))
  {
    RunningFacts(s, k);
    if !s.Self().onscreen {
      RestoredFacts(d, u, k.front, k.home, 0);
    }
  }

  lemma FocusedKeeps(s: State, k: Control, scan: nat, u: nat)
    requires Represents(s, k) && ActionOf(s.keys, scan) == SwitchTo(u) && u < TERMINALS && k.stacks[u] != []
    requires u != k.front
    ensures KeyReady(s, scan) && Represents(KeyHandled(s, scan), Focus(k, u))
  {
    FocusForm(s, k, scan, u);
    FocusedFacts(s, k, u);
    FocusedEnds(s, k, u, Exchanged(s, k, u).(keys := After(s.keys, scan)), KeyHandled(s, scan));
  }

  lemma ExchangedShows(s: State, k: Control, u: nat, t: nat)
    requires Represents(s, k) && u < TERMINALS && k.stacks[u] != [] && u != k.front && t < TERMINALS
    requires k.Top(k.front) < MAX_PROCESSES && k.Top(u) < MAX_PROCESSES && s.Self().fake == Fake(k.home)
    ensures LogicalAt(Exchanged(s, k, u), u, k.front, t) == Logical(s, k.front, t)
  {
    FrontedShows(s, k, t);
    ExchangeShows(Fronted(s, k.front).video, k.front, u, t);
  }

  lemma FocusedShows(s: State, k: Control, scan: nat, u: nat, t: nat)
    requires Represents(s, k) && ActionOf(s.keys, scan) == SwitchTo(u) && u < TERMINALS && k.stacks[u] != []
    requires u != k.front
    requires KeyReady(s, scan) && t < TERMINALS
    ensures Logical(KeyHandled(s, scan), u, t) == Logical(s, k.front, t)
  {
    RunningFacts(s, k);
    FocusForm(s, k, scan, u);
    ExchangedShows(s, k, u, t);
    if !s.Self().onscreen {
      RestoredFacts(Exchanged(s, k, u).(keys := After(s.keys, scan)), u, k.front, k.home, t);
    }
  }

  // ---------- a key that opens a terminal ----------

  /** The state in which a new shell starts. */
  function Opening(s: State, k: Control, u: nat, a: nat): (r: State)
    requires s.Valid() && k.Valid() && u < TERMINALS && a < MAX_PROCESSES
    requires k.Top(k.front) < MAX_PROCESSES && a != k.Top(k.front)
    ensures r.Valid()
  {
    var f := Fronted(s, k.front);
    f.Load(a, EIGHT_MB - EIGHT_KB * a - 4)
     .(table := Opened(s.table, a, s.running, k.Top(k.front), u), running := a, spinning := false,
       video := f.video.SwitchMemory(Fake(k.front), Fake(u)).Show(Cleared()))
  }

  lemma OpenFacts(s: State, k: Control, u: nat)
    requires Represents(s, k) && u < TERMINALS && k.stacks[u] == [] && k.FreeSlot().Some?
    ensures var a := k.FreeSlot().value;
            && k.Top(k.front) < MAX_PROCESSES && a < MAX_PROCESSES && a != k.Top(k.front)
            && Holds(Opened(s.table, a, s.running, k.Top(k.front), u), Open(k, a, u))
  {
    SlotFacts(s, k);
    OpenStacks(s.table, k, k.FreeSlot().value, u);
  }

  lemma OpenSwitches(s: State, f: State, k: Control, u: nat)
    requires Represents(s, k) && u < TERMINALS && k.stacks[u] == [] && k.FreeSlot().Some?
    requires f.Valid() && f.table == s.table && f.running == s.running && f.shellOk
    ensures SwitchReady(f, u) && k.FreeSlot().value < MAX_PROCESSES && k.Top(k.front) < MAX_PROCESSES
    ensures k.FreeSlot().value != k.Top(k.front)
    ensures var a := k.FreeSlot().value;
            SwitchedTo(f, u) ==
              (f.Load(a, EIGHT_MB - EIGHT_KB * a - 4)
                .(table := Opened(s.table, a, s.running, k.Top(k.front), u), running := a, spinning := false,
                  video := f.video.SwitchMemory(Fake(k.front), Fake(u)).Show(Cleared())), Created)
  {
    RunningFacts(s, k);
    SwitchFacts(s.table, k, u);
    SlotFacts(s, k);
  }

  lemma OpenForm(s: State, k: Control, scan: nat, u: nat)
    requires Represents(s, k) && ActionOf(s.keys, scan) == SwitchTo(u) && u < TERMINALS && k.stacks[u] == []
    requires k.FreeSlot().Some?
    ensures k.Top(k.front) < MAX_PROCESSES && k.FreeSlot().value < MAX_PROCESSES && k.FreeSlot().value != k.Top(k.front)
    ensures KeyReady(s, scan)
    ensures KeyHandled(s, scan) == Opening(s, k, u, k.FreeSlot().value).(keys := Pressed(s.keys, scan))
  {
    FrontedFacts(s, k);
    RunningFacts(s, k);
    OpenSwitches(s, Fronted(s, k.front), k, u);
    HandlerForm(s, scan, k.front, Opening(s, k, u, k.FreeSlot().value), false);
  }

  lemma OpeningFacts(s: State, k: Control, u: nat, a: nat)
    requires Represents(s, k) && u < TERMINALS && a < MAX_PROCESSES
    requires k.Top(k.front) < MAX_PROCESSES && a != k.Top(k.front)
    ensures var r := Opening(s, k, u, a);
            && r.table == Opened(s.table, a, s.running, k.Top(k.front), u) && r.running == a && !r.spinning && r.shellOk
            && r.frame == EIGHT_MB + FOUR_MB * a && PcbOf(r.esp0) == PcbAddress(a)
            && r.video.vidmap == r.video.entry && r.video.Current() == k.Brush()
  {
    FrontedFacts(s, k);
  }

  lemma OpenKeeps(s: State, k: Control, scan: nat, u: nat)
    requires Represents(s, k) && ActionOf(s.keys, scan) == SwitchTo(u) && u < TERMINALS && k.stacks[u] == []
    requires k.FreeSlot().Some?
    ensures KeyReady(s, scan) && Represents(KeyHandled(s, scan), Open(k, k.FreeSlot().value, u))
  {
    OpenForm(s, k, scan, u);
    OpenFacts(s, k, u);
    OpeningFacts(s, k, u, k.FreeSlot().value);
  }

  /** Clearing with the page exchanged: what the page that is written to now stands for is blank. */
  lemma WipeShows(s: State, drawer: Private, u: nat, w: nat, r: State, was: Private, t: nat)
    requires s.Valid() && r.Valid() && drawer.Valid() && was.Valid() && u < TERMINALS && t < TERMINALS && w <= TERMINALS
    requires r.video.pages == s.video.pages[w := Blanks(SIZE)] && r.lines == s.lines
    requires r.video.x == 0 && r.video.y == 0 && r.Home() == u && r.cursors == s.cursors
    requires was.line == s.lines[t] && was.screen.cells == s.video.pages[PageFor(u, t)]
    requires t != u ==> was.screen.x == s.cursors[t].x && was.screen.y == s.cursors[t].y
    ensures Logical(r, u, t) == Do(was, Seen(drawer, u, u, w, Clear, t))
  {
    var behind := Private(Screen(was.screen.cells, drawer.screen.x, drawer.screen.y), drawer.line);
    assert Apply(behind, Clear) == behind.(screen := Cleared());
    assert Apply(was, Clear) == was.(screen := Cleared());
  }

  lemma OpeningShows(s: State, k: Control, u: nat, a: nat, t: nat)
    requires Represents(s, k) && u < TERMINALS && k.stacks[u] == [] && a < MAX_PROCESSES
    requires k.Top(k.front) < MAX_PROCESSES && a != k.Top(k.front) && t < TERMINALS
    ensures Logical(Opening(s, k, u, a), u, t) ==
              Do(Do(Logical(s, k.front, t), JumpOf(s, k, t)), WipeOf(s, k, u, t))
  {
    RunningFacts(s, k);
    FrontedFacts(s, k);
    FrontedShows(s, k, t);
    var f, r := Fronted(s, k.front), Opening(s, k, u, a);
    ExchangeShows(f.video, k.front, u, t);
    var e := f.(video := f.video.SwitchMemory(Fake(k.front), Fake(u)));
    WipeShows(e, Logical(s, k.front, k.front), u, k.Brush(), r, Do(Logical(s, k.front, t), JumpOf(s, k, t)), t);
  }

  lemma OpenScript(s: State, k: Control, scan: nat, u: nat, t: nat)
    requires s.Valid() && k.Valid() && ActionOf(s.keys, scan) == SwitchTo(u) && u < TERMINALS && t < TERMINALS
    requires k.stacks[u] == [] && k.FreeSlot().Some?
    ensures ApplyAll(Logical(s, k.front, t), Script(s, k, Key(scan), t)) ==
              Do(Do(Logical(s, k.front, t), JumpOf(s, k, t)), WipeOf(s, k, u, t))
  {
    var was, jump, wipe := Logical(s, k.front, t), JumpOf(s, k, t), WipeOf(s, k, u, t);
    ApplyAppend(was, Ops(jump), Ops(wipe));
    ApplyOps(was, jump);
    ApplyOps(Do(was, jump), wipe);
  }

  lemma OpenedShows(s: State, k: Control, u: nat, a: nat, r: State, t: nat)
    requires Represents(s, k) && u < TERMINALS && k.stacks[u] == [] && a < MAX_PROCESSES
    requires k.Top(k.front) < MAX_PROCESSES && a != k.Top(k.front) && t < TERMINALS
    requires r == Opening(s, k, u, a).(keys := r.keys)
    ensures r.Valid()
    ensures Logical(r, u, t) == Do(Do(Logical(s, k.front, t), JumpOf(s, k, t)), WipeOf(s, k, u, t))
  {
    OpeningShows(s, k, u, a, t);
  }

  lemma OpenShows(s: State, k: Control, scan: nat, u: nat, t: nat)
    requires Represents(s, k) && ActionOf(s.keys, scan) == SwitchTo(u) && u < TERMINALS && k.stacks[u] == []
    requires k.FreeSlot().Some? && KeyReady(s, scan) && t < TERMINALS
    ensures Logical(KeyHandled(s, scan), u, t) == ApplyAll(Logical(s, k.front, t), Script(s, k, Key(scan), t))
  {
    OpenForm(s, k, scan, u);
    OpenedShows(s, k, u, k.FreeSlot().value, KeyHandled(s, scan), t);
    OpenScript(s, k, scan, u, t);
  }
}
