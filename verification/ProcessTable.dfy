/**
 The six process slots (pcb.c and the slot bookkeeping of execute, halt and switch_terminal),
 and the picture they stand for: one call stack of processes for each terminal.
 */
module ProcessTable {
  import opened Wrappers
  import opened VideoMemory

  const MAX_PROCESSES := 6
  const TERMINALS := 3
  const EIGHT_MB := 0x800000
  const FOUR_MB := 0x400000
  const EIGHT_KB := 0x2000

  /** The scheduling part of a PCB. `parent` is the slot of the PCB it points to. */
  datatype Proc = Proc(pid: nat, active: bool, onscreen: bool, terminal: nat, fake: nat, parent: Option<nat>, esp0: nat)

  /** A PCB that was never set up: the memory below the kernel stacks is zero at power-up. */
  const ZERO_PROC := Proc(0, false, false, 0, 0, None, 0)

  datatype Table = Table(ids: seq<bool>, procs: seq<Proc>) {
    predicate Valid() {
      && |ids| == |procs| == MAX_PROCESSES
      && forall i | 0 <= i < MAX_PROCESSES ::
           procs[i].pid < MAX_PROCESSES && procs[i].terminal < TERMINALS
           && (procs[i].parent.Some? ==> procs[i].parent.value < MAX_PROCESSES)
    }

    /** An active process whose own number is allocated. */
    predicate Live(i: nat)
      requires Valid() && i < MAX_PROCESSES
    {
      ids[procs[i].pid] && procs[i].active
    }
  }

  /** The page that keeps the text of terminal `t` while it is hidden. */
  function Fake(t: nat): (address: nat)
    requires t < TERMINALS
    ensures FakeAddress(address) && PageOf(address) == t + 1
  {
    VIDEO + EIGHT_KB * (t + 1) / 2
  }

  lemma Addresses()
    ensures Fake(0) == 0xB9000 && Fake(1) == 0xBA000 && Fake(2) == 0xBB000
    ensures PcbAddress(0) == 0x7FE000 && PcbAddress(5) == 0x7F4000
  {
  }

  function PcbAddress(i: nat): int {
    EIGHT_MB - EIGHT_KB * (i + 1)
  }

  // ---------- the scans ----------

  function FreeSlot(t: Table): Option<nat>
    requires t.Valid()
  {
    FirstTrue(seq(MAX_PROCESSES, i requires 0 <= i < MAX_PROCESSES => !t.ids[i]))
  }

  function TerminalPid(t: Table, terminal: nat): Option<nat>
    requires t.Valid()
  {
    FirstTrue(seq(MAX_PROCESSES, i requires 0 <= i < MAX_PROCESSES => t.Live(i) && t.procs[i].terminal == terminal))
  }

  function OnscreenNum(t: Table): (r: Option<nat>)
    requires t.Valid()
    ensures r.Some? ==> r.value < TERMINALS
  {
    match FirstTrue(seq(MAX_PROCESSES, i requires 0 <= i < MAX_PROCESSES =>
                      t.ids[t.procs[i].pid] && t.procs[i].onscreen))
    case None => None
    case Some(i) => Some(t.procs[i].terminal)
  }

  function OnscreenPid(t: Table): Option<nat>
    requires t.Valid()
  {
    FirstTrue(seq(MAX_PROCESSES, i requires 0 <= i < MAX_PROCESSES => t.ids[i] && t.procs[i].onscreen))
  }

  /** The slot `k` places after `cur` on the ring of slots. */
  function Around(cur: nat, k: nat): nat {
    (cur + 1 + k) % MAX_PROCESSES
  }

  function NextActive(t: Table, cur: nat): (r: Option<nat>)
    requires t.Valid() && cur < MAX_PROCESSES
    ensures r.Some? ==> r.value < MAX_PROCESSES
  {
    match FirstTrue(seq(MAX_PROCESSES, k requires 0 <= k < MAX_PROCESSES => t.Live(Around(cur, k))))
    case None => None
    case Some(k) => Some(Around(cur, k))
  }

  // ---------- the changes ----------

  /** `execute` below a running process: the child takes over its place on the terminal. */
  function Forked(t: Table, slot: nat, cur: nat): (r: Table)
    requires t.Valid() && slot < MAX_PROCESSES && cur < MAX_PROCESSES && slot != cur
    ensures r.Valid()
  {
    var parent := t.procs[cur];
    var child := Proc(slot, parent.active, parent.onscreen, parent.terminal,
                      parent.fake, Some(cur), EIGHT_MB - EIGHT_KB * slot);
    Table(t.ids[slot := true], t.procs[slot := child][cur := parent.(onscreen := false, active := false)])
  }

  /** `execute` in slot 0: the first shell, at boot and whenever it exits. */
  function Rooted(t: Table): (r: Table)
    requires t.Valid()
    ensures r.Valid()
  {
    Table(t.ids[0 := true], t.procs[0 := Proc(0, true, true, 0, Fake(0), None, EIGHT_MB)])
  }

  /** `switch_terminal` to a terminal without a process: a new shell in `slot`, in front of the screen. */
  function Opened(t: Table, slot: nat, cur: nat, on: nat, terminal: nat): (r: Table)
    requires t.Valid() && slot < MAX_PROCESSES && cur < MAX_PROCESSES && on < MAX_PROCESSES && terminal < TERMINALS
    requires slot != on
    ensures r.Valid()
  {
    var hidden := t.procs[cur := t.procs[cur].(onscreen := false)];
    var cleared := hidden[on := hidden[on].(onscreen := false)];
    Table(t.ids[slot := true],
          cleared[slot := Proc(slot, true, true, terminal, Fake(terminal), Some(cur), EIGHT_MB - EIGHT_KB * slot)])
  }

  /** `switch_terminal` to a terminal that has one. */
  function Refocused(t: Table, on: nat, req: nat): (r: Table)
    requires t.Valid() && on < MAX_PROCESSES && req < MAX_PROCESSES
    ensures r.Valid()
  {
    var cleared := t.procs[on := t.procs[on].(onscreen := false)];
    t.(procs := cleared[req := cleared[req].(onscreen := true)])
  }

  /** `halt` below a parent on the same terminal. */
  function Returned(t: Table, cur: nat, parent: nat): (r: Table)
    requires t.Valid() && cur < MAX_PROCESSES && parent < MAX_PROCESSES
    ensures r.Valid()
  {
    var stopped := t.procs[cur := t.procs[cur].(active := false)];
    var woken := stopped[parent := stopped[parent].(active := true, onscreen := stopped[cur].onscreen)];
    Table(t.ids[t.procs[cur].pid := false], woken[cur := woken[cur].(onscreen := false)])
  }

  function Stopped(t: Table, cur: nat): (r: Table)
    requires t.Valid() && cur < MAX_PROCESSES
    ensures r.Valid()
  {
    t.(procs := t.procs[cur := t.procs[cur].(active := false)])
  }

  function Freed(t: Table, cur: nat): (r: Table)
    requires t.Valid() && cur < MAX_PROCESSES
    ensures r.Valid()
  {
    t.(ids := t.ids[t.procs[cur].pid := false])
  }

  // ---------- three call stacks ----------

  /**
   What the table stands for: for each terminal the processes from its root shell to the one that
   is active; the terminal in front; and who holds the processor. A process that has halted towards
   another terminal keeps `spinning` on its kernel stack until the next tick. `page` is the physical
   page that the running process writes to: behind the front the one that keeps its terminal's text, and
   in front the visible one, unless a key has brought the process there since the last tick.
   Of each slot, `place` gives the position that its process took in its stack, `opener` who was running when it was
   created, and `seat` the terminal that it serves, or served last.
   */
  datatype Control = Control(stacks: seq<seq<nat>>, place: seq<nat>, opener: seq<nat>, seat: seq<nat>,
                             front: nat, running: nat, home: nat, spinning: bool, page: nat) {
    predicate Valid() {
      |stacks| == TERMINALS && |place| == |opener| == |seat| == MAX_PROCESSES
      && (forall i | 0 <= i < MAX_PROCESSES :: opener[i] < MAX_PROCESSES)
      && front < TERMINALS && home < TERMINALS && running < MAX_PROCESSES
      && stacks[front] != [] && (spinning <==> stacks[home] == [])
      && (!spinning ==> running == Top(home))
      && page <= TERMINALS && (!Shown() ==> page == home + 1)
    }

    /** The running process is in front. */
    predicate Shown() {
      home == front && !spinning
    }

    /** The page that the keyboard handler draws on. */
    function Brush(): nat {
      if Shown() then page else 0
    }

    function Top(t: nat): nat
      requires t < |stacks| && stacks[t] != []
    {
      stacks[t][|stacks[t]| - 1]
    }

    predicate InUse(i: nat)
      requires |stacks| == TERMINALS
    {
      i in stacks[0] || i in stacks[1] || i in stacks[2]
    }

    predicate IsTop(i: nat)
      requires |stacks| == TERMINALS
    {
      || (stacks[0] != [] && i == Top(0))
      || (stacks[1] != [] && i == Top(1))
      || (stacks[2] != [] && i == Top(2))
    }

    function Owner(i: nat): (t: nat)
      requires |stacks| == TERMINALS
      ensures t < TERMINALS
    {
      if i in stacks[0] then 0 else if i in stacks[1] then 1 else 2
    }

    function FreeSlot(): Option<nat>
      requires |stacks| == TERMINALS
    {
      FirstTrue(seq(MAX_PROCESSES, i requires 0 <= i < MAX_PROCESSES => !InUse(i)))
    }

    function NextTop(): Option<nat>
      requires |stacks| == TERMINALS
    {
      match FirstTrue(seq(MAX_PROCESSES, j requires 0 <= j < MAX_PROCESSES => IsTop(Around(running, j))))
      case None => None
      case Some(j) => Some(Around(running, j))
    }
  }

  /** One slot of a stack: who it is, where it lives and whose turn it is. */
  ghost predicate Entry(t: Table, k: Control, tm: nat, j: nat)
    requires t.Valid() && k.Valid() && tm < TERMINALS && j < |k.stacks[tm]|
  {
    var i, last := k.stacks[tm][j], |k.stacks[tm]| - 1;
    i < MAX_PROCESSES && t.ids[i] && k.place[i] == j &&
    var p := t.procs[i];
    && p.pid == i && p.terminal == tm && p.fake == Fake(tm)
    && p.active == (j == last) && p.onscreen == (j == last && tm == k.front)
    && p.parent == (if i == 0 then None else Some(k.opener[i])) && (j > 0 ==> p.parent == Some(k.stacks[tm][j - 1]))
    && (p.esp0 == EIGHT_MB - EIGHT_KB * i)
  }

  /** An allocated slot is where its PCB says it is; a free one is neither active nor on the screen. */
  ghost predicate Placed(t: Table, k: Control, i: nat)
    requires t.Valid() && k.Valid() && i < MAX_PROCESSES
  {
    var tm := t.procs[i].terminal;
    tm == k.seat[i] &&
    if t.ids[i] then k.place[i] < |k.stacks[tm]| && k.stacks[tm][k.place[i]] == i
    else !t.procs[i].active && !t.procs[i].onscreen
  }

  ghost predicate Holds(t: Table, k: Control) {
    && t.Valid() && k.Valid()
    && (forall tm, j | 0 <= tm < TERMINALS && 0 <= j < |k.stacks[tm]| :: Entry(t, k, tm, j))
    && (forall i | 0 <= i < MAX_PROCESSES :: Placed(t, k, i))
    && k.stacks[0] != [] && k.stacks[0][0] == 0
    && t.procs[k.running].terminal == k.home && t.procs[k.running].fake == Fake(k.home)
    && (k.spinning ==> !t.ids[k.running])
  }

  // ---------- what the scans find ----------

  lemma SlotAgrees(t: Table, k: Control, i: nat)
    requires Holds(t, k) && i < MAX_PROCESSES
    ensures t.ids[i] == k.InUse(i)
    ensures t.Live(i) == k.IsTop(i)
    ensures t.ids[i] && t.procs[i].onscreen <==> i == k.Top(k.front)
    ensures t.ids[i] ==> t.procs[i].pid == i
    ensures k.IsTop(i) ==> k.Owner(i) == t.procs[i].terminal && k.stacks[k.Owner(i)] != [] && i == k.Top(k.Owner(i))
  {
    assert Placed(t, k, i);
    if t.ids[i] {
      assert Entry(t, k, t.procs[i].terminal, k.place[i]);
    }
    InStack(t, k, 0, i);
    InStack(t, k, 1, i);
    InStack(t, k, 2, i);
  }

  lemma InStack(t: Table, k: Control, tm: nat, i: nat)
    requires Holds(t, k) && tm < TERMINALS
    ensures i in k.stacks[tm] <==> i < MAX_PROCESSES && t.ids[i] && t.procs[i].terminal == tm
    ensures k.stacks[tm] != [] && i == k.Top(tm)
        <==> i < MAX_PROCESSES && t.ids[i] && t.procs[i].terminal == tm && t.procs[i].active
  {
    if i in k.stacks[tm] {
      var j :| 0 <= j < |k.stacks[tm]| && k.stacks[tm][j] == i;
      assert Entry(t, k, tm, j);
    }
    if k.stacks[tm] != [] {
      assert Entry(t, k, tm, |k.stacks[tm]| - 1);
    }
    if i < MAX_PROCESSES && t.ids[i] {
      assert Placed(t, k, i);
      assert Entry(t, k, t.procs[i].terminal, k.place[i]);
    }
  }

  lemma ScansAgree(t: Table, k: Control)
    requires Holds(t, k)
    ensures FreeSlot(t) == k.FreeSlot()
    ensures NextActive(t, k.running) == k.NextTop() && k.NextTop().Some?
    ensures OnscreenPid(t) == Some(k.Top(k.front)) && OnscreenNum(t) == Some(k.front)
  {
    forall i | 0 <= i < MAX_PROCESSES
      ensures t.ids[i] == k.InUse(i) && t.Live(i) == k.IsTop(i)
      ensures t.ids[i] && t.procs[i].onscreen <==> i == k.Top(k.front)
      ensures t.ids[i] ==> t.procs[i].pid == i
    {
      SlotAgrees(t, k, i);
    }
    assert seq(MAX_PROCESSES, i requires 0 <= i < MAX_PROCESSES => !t.ids[i])
        == seq(MAX_PROCESSES, i requires 0 <= i < MAX_PROCESSES => !k.InUse(i));
    assert seq(MAX_PROCESSES, j requires 0 <= j < MAX_PROCESSES => t.Live(Around(k.running, j)))
        == seq(MAX_PROCESSES, j requires 0 <= j < MAX_PROCESSES => k.IsTop(Around(k.running, j)));
    OnscreenScans(t, k);
    SomeTop(k);
  }

  lemma OnscreenScans(t: Table, k: Control)
    requires Holds(t, k)
    ensures OnscreenPid(t) == Some(k.Top(k.front)) && OnscreenNum(t) == Some(k.front)
  {
    var top := k.Top(k.front);
    assert Entry(t, k, k.front, |k.stacks[k.front]| - 1);
    forall i | 0 <= i < MAX_PROCESSES
      ensures t.ids[i] && t.procs[i].onscreen <==> i == top
      ensures t.ids[t.procs[i].pid] && t.procs[i].onscreen <==> i == top
    {
      SlotAgrees(t, k, i);
      assert Placed(t, k, i);
    }
    FirstTrueIs(seq(MAX_PROCESSES, i requires 0 <= i < MAX_PROCESSES => t.ids[i] && t.procs[i].onscreen), top);
    FirstTrueIs(seq(MAX_PROCESSES, i requires 0 <= i < MAX_PROCESSES =>
                    t.ids[t.procs[i].pid] && t.procs[i].onscreen), top);
  }

  /** The tick always finds someone: the ring passes the top of the stack in front. */
  lemma SomeTop(k: Control)
    requires k.Valid() && k.Top(k.front) < MAX_PROCESSES
    ensures k.NextTop().Some? && k.NextTop().value < MAX_PROCESSES && k.IsTop(k.NextTop().value)
  {
    var top := k.Top(k.front);
    var j := (top + MAX_PROCESSES - 1 - k.running) % MAX_PROCESSES;
    assert Around(k.running, j) == top && k.IsTop(top);
    var tops := seq(MAX_PROCESSES, j requires 0 <= j < MAX_PROCESSES => k.IsTop(Around(k.running, j)));
    assert tops[j];
  }

  lemma TerminalScan(t: Table, k: Control, tm: nat)
    requires Holds(t, k) && tm < TERMINALS
    ensures TerminalPid(t, tm) == if k.stacks[tm] == [] then None else Some(k.Top(tm))
  {
    forall i | 0 <= i < MAX_PROCESSES
      ensures t.Live(i) && t.procs[i].terminal == tm <==> k.stacks[tm] != [] && i == k.Top(tm)
    {
      SlotAgrees(t, k, i);
      if k.stacks[tm] != [] {
        assert Entry(t, k, tm, |k.stacks[tm]| - 1);
      }
    }
    if k.stacks[tm] != [] {
      assert Entry(t, k, tm, |k.stacks[tm]| - 1);
      FirstTrueIs(seq(MAX_PROCESSES, i requires 0 <= i < MAX_PROCESSES =>
                      t.Live(i) && t.procs[i].terminal == tm), k.Top(tm));
    }
  }

  // ---------- what the changes do to the stacks ----------

  function Push(k: Control, slot: nat): Control
    requires |k.stacks| == TERMINALS && k.home < TERMINALS && slot < |k.place| == |k.opener| == |k.seat|
  {
    k.(stacks := k.stacks[k.home := k.stacks[k.home] + [slot]], place := k.place[slot := |k.stacks[k.home]|],
       opener := k.opener[slot := k.running], seat := k.seat[slot := k.home], running := slot)
  }

  function Pop(k: Control): Control
    requires |k.stacks| == TERMINALS && k.home < TERMINALS && |k.stacks[k.home]| > 1
  {
    var s := k.stacks[k.home];
    k.(stacks := k.stacks[k.home := s[..|s| - 1]], running := s[|s| - 2])
  }

  /** The root of a terminal other than 0 is gone; terminal 0 comes to the front. */
  function Leave(k: Control): Control
    requires |k.stacks| == TERMINALS && k.home < TERMINALS
  {
    k.(stacks := k.stacks[k.home := []], front := 0, spinning := true, page := k.home + 1)
  }

  function Open(k: Control, slot: nat, terminal: nat): Control
    requires |k.stacks| == TERMINALS && terminal < TERMINALS && slot < |k.place| == |k.opener| == |k.seat|
  {
    Control(k.stacks[terminal := [slot]], k.place[slot := 0], k.opener[slot := k.running], k.seat[slot := terminal],
            terminal, slot, terminal, false, k.Brush())
  }

  /** A process that is brought to the front goes on writing to its hidden page. */
  function Focus(k: Control, terminal: nat): Control {
    if terminal == k.front then k else k.(front := terminal, page := k.home + 1)
  }

  function Schedule(k: Control): Control
    requires |k.stacks| == TERMINALS && k.NextTop().Some?
  {
    var next := k.NextTop().value;
    var home := k.Owner(next);
    k.(running := next, home := home, spinning := false, page := if home == k.front then 0 else home + 1)
  }

  lemma ForkEntry(t: Table, k: Control, slot: nat, tm: nat, j: nat)
    requires Holds(t, k) && !k.spinning && slot < MAX_PROCESSES && slot != 0 && !t.ids[slot] && t.ids[k.running]
    requires Push(k, slot).Valid() && tm < TERMINALS && j < |Push(k, slot).stacks[tm]|
    ensures Entry(Forked(t, slot, k.running), Push(k, slot), tm, j)
  {
    assert Entry(t, k, k.home, |k.stacks[k.home]| - 1);
    if tm != k.home || j < |k.stacks[tm]| {
      assert Entry(t, k, tm, j);
    }
  }

  lemma ForkPlaced(t: Table, k: Control, slot: nat, i: nat)
    requires Holds(t, k) && !k.spinning && slot < MAX_PROCESSES && !t.ids[slot] && t.ids[k.running]
    requires Push(k, slot).Valid() && i < MAX_PROCESSES
    ensures Placed(Forked(t, slot, k.running), Push(k, slot), i)
  {
    assert Placed(t, k, i);
  }

  lemma ForkPushes(t: Table, k: Control, slot: nat)
    requires Holds(t, k) && !k.spinning && k.FreeSlot() == Some(slot)
    ensures slot != k.running && slot != 0 && t.ids[k.running] && Holds(Forked(t, slot, k.running), Push(k, slot))
  {
    ScansAgree(t, k);
    assert Entry(t, k, k.home, |k.stacks[k.home]| - 1) && Entry(t, k, 0, 0);
    var u, l := Forked(t, slot, k.running), Push(k, slot);
    forall tm, j | 0 <= tm < TERMINALS && 0 <= j < |l.stacks[tm]|
      ensures Entry(u, l, tm, j)
    {
      ForkEntry(t, k, slot, tm, j);
    }
    forall i | 0 <= i < MAX_PROCESSES
      ensures Placed(u, l, i)
    {
      ForkPlaced(t, k, slot, i);
    }
  }

  /** The parent that a process below the root of its terminal returns to. */
  function Caller(k: Control): nat
    requires k.home < |k.stacks| && |k.stacks[k.home]| > 1
  {
    k.stacks[k.home][|k.stacks[k.home]| - 2]
  }

  lemma CallerIsParent(t: Table, k: Control)
    requires Holds(t, k) && !k.spinning && |k.stacks[k.home]| > 1
    ensures Caller(k) < MAX_PROCESSES && Caller(k) != k.running && t.ids[Caller(k)] && t.ids[k.running]
    ensures t.procs[k.running].parent == Some(Caller(k)) && t.procs[k.running].pid == k.running
    ensures t.procs[Caller(k)].terminal == k.home && t.procs[Caller(k)].pid == Caller(k)
    ensures t.procs[Caller(k)].esp0 == EIGHT_MB - EIGHT_KB * Caller(k) && t.procs[Caller(k)].fake == Fake(k.home)
  {
    var n := |k.stacks[k.home]| - 1;
    assert Entry(t, k, k.home, n) && Entry(t, k, k.home, n - 1);
  }

  lemma ReturnEntry(t: Table, k: Control, tm: nat, j: nat)
    requires Holds(t, k) && !k.spinning && |k.stacks[k.home]| > 1 && Caller(k) < MAX_PROCESSES
    requires tm < TERMINALS && j < |Pop(k).stacks[tm]|
    ensures Entry(Returned(t, k.running, Caller(k)), Pop(k), tm, j)
  {
    var n := |k.stacks[k.home]| - 1;
    assert Entry(t, k, k.home, n) && Entry(t, k, k.home, n - 1) && Entry(t, k, tm, j);
  }

  lemma ReturnPlaced(t: Table, k: Control, i: nat)
    requires Holds(t, k) && !k.spinning && |k.stacks[k.home]| > 1 && Caller(k) < MAX_PROCESSES && i < MAX_PROCESSES
    ensures Placed(Returned(t, k.running, Caller(k)), Pop(k), i)
  {
    CallerIsParent(t, k);
    assert Placed(t, k, i) && Placed(t, k, k.running) && Placed(t, k, Caller(k));
    if t.ids[i] && i != k.running && t.procs[i].terminal == k.home {
      assert k.stacks[k.home][k.place[i]] == i && k.place[i] < |k.stacks[k.home]| - 1;
    }
  }

  lemma HaltPops(t: Table, k: Control)
    requires Holds(t, k) && !k.spinning && |k.stacks[k.home]| > 1
    ensures Caller(k) < MAX_PROCESSES && Holds(Returned(t, k.running, Caller(k)), Pop(k))
  {
    CallerIsParent(t, k);
    var u, l := Returned(t, k.running, Caller(k)), Pop(k);
    assert Entry(t, k, 0, 0);
    forall tm, j | 0 <= tm < TERMINALS && 0 <= j < |l.stacks[tm]|
      ensures Entry(u, l, tm, j)
    {
      ReturnEntry(t, k, tm, j);
    }
    forall i | 0 <= i < MAX_PROCESSES
      ensures Placed(u, l, i)
    {
      ReturnPlaced(t, k, i);
    }
  }

  lemma OpenEntry(t: Table, k: Control, slot: nat, terminal: nat, tm: nat, j: nat)
    requires Holds(t, k) && slot < MAX_PROCESSES && slot != 0 && !t.ids[slot]
    requires terminal < TERMINALS && k.stacks[terminal] == [] && k.Top(k.front) < MAX_PROCESSES
    requires slot != k.Top(k.front)
    requires tm < TERMINALS && j < |Open(k, slot, terminal).stacks[tm]|
    ensures Entry(Opened(t, slot, k.running, k.Top(k.front), terminal), Open(k, slot, terminal), tm, j)
  {
    if tm != terminal {
      assert Entry(t, k, k.front, |k.stacks[k.front]| - 1) && Entry(t, k, tm, j);
    }
  }

  lemma OpenPlaced(t: Table, k: Control, slot: nat, terminal: nat, i: nat)
    requires Holds(t, k) && slot < MAX_PROCESSES && slot != 0 && !t.ids[slot] && i < MAX_PROCESSES
    requires terminal < TERMINALS && k.stacks[terminal] == [] && k.Top(k.front) < MAX_PROCESSES
    requires slot != k.Top(k.front)
    ensures Placed(Opened(t, slot, k.running, k.Top(k.front), terminal), Open(k, slot, terminal), i)
  {
    assert Placed(t, k, i);
  }

  lemma OpenStacks(t: Table, k: Control, slot: nat, terminal: nat)
    requires Holds(t, k) && k.FreeSlot() == Some(slot) && terminal < TERMINALS && k.stacks[terminal] == []
    ensures slot != k.Top(k.front) && slot != 0 && k.Top(k.front) < MAX_PROCESSES
    ensures Holds(Opened(t, slot, k.running, k.Top(k.front), terminal), Open(k, slot, terminal))
  {
    ScansAgree(t, k);
    assert Entry(t, k, k.front, |k.stacks[k.front]| - 1) && Entry(t, k, 0, 0);
    var u, l := Opened(t, slot, k.running, k.Top(k.front), terminal), Open(k, slot, terminal);
    forall tm, j | 0 <= tm < TERMINALS && 0 <= j < |l.stacks[tm]|
      ensures Entry(u, l, tm, j)
    {
      OpenEntry(t, k, slot, terminal, tm, j);
    }
    forall i | 0 <= i < MAX_PROCESSES
      ensures Placed(u, l, i)
    {
      OpenPlaced(t, k, slot, terminal, i);
    }
  }

  lemma FocusEntry(t: Table, k: Control, terminal: nat, u: Table, l: Control, tm: nat, j: nat)
    requires Holds(t, k) && terminal < TERMINALS && k.stacks[terminal] != []
    requires k.Top(k.front) < MAX_PROCESSES && k.Top(terminal) < MAX_PROCESSES
    requires u == Refocused(t, k.Top(k.front), k.Top(terminal)) && l == Focus(k, terminal)
    requires tm < TERMINALS && j < |l.stacks[tm]|
    ensures Entry(u, l, tm, j)
  {
    assert Entry(t, k, k.front, |k.stacks[k.front]| - 1) && Entry(t, k, terminal, |k.stacks[terminal]| - 1);
    assert Entry(t, k, tm, j);
  }

  lemma FocusPlaced(t: Table, k: Control, terminal: nat, u: Table, l: Control, i: nat)
    requires Holds(t, k) && terminal < TERMINALS && k.stacks[terminal] != []
    requires k.Top(k.front) < MAX_PROCESSES && k.Top(terminal) < MAX_PROCESSES && i < MAX_PROCESSES
    requires u == Refocused(t, k.Top(k.front), k.Top(terminal)) && l == Focus(k, terminal)
    ensures Placed(u, l, i)
  {
    assert Entry(t, k, k.front, |k.stacks[k.front]| - 1) && Entry(t, k, terminal, |k.stacks[terminal]| - 1);
    assert Placed(t, k, i);
  }

  lemma FocusKeeps(t: Table, k: Control, terminal: nat)
    requires Holds(t, k) && terminal < TERMINALS && k.stacks[terminal] != []
    ensures k.Top(k.front) < MAX_PROCESSES && k.Top(terminal) < MAX_PROCESSES
    ensures Holds(Refocused(t, k.Top(k.front), k.Top(terminal)), Focus(k, terminal))
  {
    assert Entry(t, k, k.front, |k.stacks[k.front]| - 1);
    assert Entry(t, k, terminal, |k.stacks[terminal]| - 1);
    var u, l := Refocused(t, k.Top(k.front), k.Top(terminal)), Focus(k, terminal);
    forall tm, j | 0 <= tm < TERMINALS && 0 <= j < |l.stacks[tm]|
      ensures Entry(u, l, tm, j)
    {
      FocusEntry(t, k, terminal, u, l, tm, j);
    }
    forall i | 0 <= i < MAX_PROCESSES
      ensures Placed(u, l, i)
    {
      FocusPlaced(t, k, terminal, u, l, i);
    }
  }

  lemma TickSchedules(t: Table, k: Control)
    requires Holds(t, k)
    ensures k.NextTop().Some? && Holds(t, Schedule(k))
  {
    assert Entry(t, k, k.front, |k.stacks[k.front]| - 1);
    SomeTop(k);
    var l := Schedule(k);
    SlotAgrees(t, k, l.running);
    assert Entry(t, k, l.home, |k.stacks[l.home]| - 1);
    forall tm, j | 0 <= tm < TERMINALS && 0 <= j < |l.stacks[tm]|
      ensures Entry(t, l, tm, j)
    {
      assert Entry(t, k, tm, j);
    }
    forall i | 0 <= i < MAX_PROCESSES
      ensures Placed(t, l, i)
    {
      assert Placed(t, k, i);
    }
  }

  // ---------- when the root of a terminal halts ----------

  /** The table after the root shell in `cur` halts towards another terminal. */
  function Left(t: Table, cur: nat, on: nat, req: nat): (r: Table)
    requires t.Valid() && cur < MAX_PROCESSES && on < MAX_PROCESSES && req < MAX_PROCESSES
    ensures r.Valid()
  {
    Freed(Refocused(Stopped(t, cur), on, req), cur)
  }

  lemma LeaveScans(t: Table, k: Control)
    requires Holds(t, k) && !k.spinning && k.home != 0
    ensures k.Top(0) < MAX_PROCESSES && k.Top(0) != k.running && t.procs[k.Top(0)].terminal == 0
    ensures t.procs[k.Top(0)].fake == Fake(0)
    ensures OnscreenPid(Stopped(t, k.running)) == Some(k.Top(k.front))
    ensures TerminalPid(Stopped(t, k.running), 0) == Some(k.Top(0))
  {
    var u := Stopped(t, k.running);
    assert Entry(t, k, 0, |k.stacks[0]| - 1) && Entry(t, k, k.home, |k.stacks[k.home]| - 1);
    OnscreenScans(t, k);
    assert seq(MAX_PROCESSES, i requires 0 <= i < MAX_PROCESSES => t.ids[i] && t.procs[i].onscreen)
        == seq(MAX_PROCESSES, i requires 0 <= i < MAX_PROCESSES => u.ids[i] && u.procs[i].onscreen);
    TerminalScan(t, k, 0);
    assert seq(MAX_PROCESSES, i requires 0 <= i < MAX_PROCESSES => t.Live(i) && t.procs[i].terminal == 0)
        == seq(MAX_PROCESSES, i requires 0 <= i < MAX_PROCESSES => u.Live(i) && u.procs[i].terminal == 0);
  }

  lemma LeaveEntry(t: Table, k: Control, tm: nat, j: nat)
    requires Holds(t, k) && !k.spinning && k.home != 0 && |k.stacks[k.home]| == 1
    requires k.Top(k.front) < MAX_PROCESSES && k.Top(0) < MAX_PROCESSES
    requires tm < TERMINALS && j < |Leave(k).stacks[tm]|
    ensures Entry(Left(t, k.running, k.Top(k.front), k.Top(0)), Leave(k), tm, j)
  {
    assert Entry(t, k, tm, j) && Entry(t, k, k.home, 0);
    assert Entry(t, k, k.front, |k.stacks[k.front]| - 1) && Entry(t, k, 0, |k.stacks[0]| - 1);
  }

  lemma LeavePlaced(t: Table, k: Control, i: nat)
    requires Holds(t, k) && !k.spinning && k.home != 0 && |k.stacks[k.home]| == 1
    requires k.Top(k.front) < MAX_PROCESSES && k.Top(0) < MAX_PROCESSES && i < MAX_PROCESSES
    ensures Placed(Left(t, k.running, k.Top(k.front), k.Top(0)), Leave(k), i)
  {
    assert Placed(t, k, i) && Entry(t, k, k.home, 0);
    assert Entry(t, k, k.front, |k.stacks[k.front]| - 1) && Entry(t, k, 0, |k.stacks[0]| - 1);
  }

  lemma LeaveHolds(t: Table, k: Control)
    requires Holds(t, k) && !k.spinning && k.home != 0 && |k.stacks[k.home]| == 1
    ensures k.Top(k.front) < MAX_PROCESSES && k.Top(0) < MAX_PROCESSES
    ensures Holds(Left(t, k.running, k.Top(k.front), k.Top(0)), Leave(k))
  {
    assert Entry(t, k, k.front, |k.stacks[k.front]| - 1) && Entry(t, k, 0, |k.stacks[0]| - 1) && Entry(t, k, k.home, 0);
    assert Entry(t, k, 0, 0);
    var u, l := Left(t, k.running, k.Top(k.front), k.Top(0)), Leave(k);
    forall tm, j | 0 <= tm < TERMINALS && 0 <= j < |l.stacks[tm]|
      ensures Entry(u, l, tm, j)
    {
      LeaveEntry(t, k, tm, j);
    }
    forall i | 0 <= i < MAX_PROCESSES
      ensures Placed(u, l, i)
    {
      LeavePlaced(t, k, i);
    }
  }

  /** Some picture of call stacks fits the table. */
  ghost predicate Consistent(t: Table) {
    exists k :: Holds(t, k)
  }

  /** The first shell may exit and start again only while it is on the screen. */
  lemma RerootIff(t: Table, k: Control)
    requires Holds(t, k) && !k.spinning && k.running == 0
    ensures FreeSlot(Freed(t, 0)) == Some(0)
    ensures t.procs[0].onscreen ==> Holds(Rooted(Freed(t, 0)), k)
    ensures Consistent(Rooted(Freed(t, 0))) <==> t.procs[0].onscreen
  {
    var u := Rooted(Freed(t, 0));
    SlotAgrees(t, k, 0);
    assert Entry(t, k, 0, 0);
    if t.procs[0].onscreen {
      assert u.ids == t.ids && u.procs == t.procs;
    } else {
      var on := k.Top(k.front);
      assert Entry(t, k, k.front, |k.stacks[k.front]| - 1);
      if l :| Holds(u, l) {
        SlotAgrees(u, l, 0);
        SlotAgrees(u, l, on);
        assert false;
      }
    }
  }

  /**
   A root shell whose recorded parent has been reused on the same terminal is taken for a child:
   the test on terminal numbers sends it back to a slot that nobody owns.
   */
  lemma ReusedParentBreaks(t: Table, k: Control, parent: nat)
    requires Holds(t, k) && !k.spinning && |k.stacks[k.home]| == 1
    requires t.procs[k.running].parent == Some(parent) && t.procs[parent].terminal == k.home
    ensures !Consistent(Returned(t, k.running, parent))
  {
    var u := Returned(t, k.running, parent);
    assert Entry(t, k, k.home, 0);
    SlotAgrees(t, k, parent);
    assert Placed(t, k, parent);
    assert !u.ids[parent] && u.procs[parent].active;
    if l :| Holds(u, l) {
      FreeIsIdle(u, l, parent);
      assert false;
    }
  }

  lemma FreeIsIdle(t: Table, k: Control, i: nat)
    requires Holds(t, k) && i < MAX_PROCESSES && !t.ids[i]
    ensures !t.procs[i].active && !t.procs[i].onscreen
  {
    assert Placed(t, k, i);
  }

  // ---------- what it all means for the table ----------

  /** Exactly one allocated process is on the screen, and it is active. */
  ghost predicate OneOnScreen(t: Table)
    requires t.Valid()
  {
    exists on | 0 <= on < MAX_PROCESSES && t.ids[on] && t.procs[on].onscreen :: t.procs[on].active &&
      forall i | 0 <= i < MAX_PROCESSES && t.ids[i] && t.procs[i].onscreen :: i == on
  }

  predicate ActiveOn(t: Table, terminal: nat, i: nat)
    requires t.Valid()
  {
    i < MAX_PROCESSES && t.ids[i] && t.procs[i].active && t.procs[i].terminal == terminal
  }

  /** Every terminal that has a process has exactly one active one. */
  ghost predicate OneActiveEach(t: Table)
    requires t.Valid()
  {
    forall i | 0 <= i < MAX_PROCESSES && t.ids[i] ::
      exists a: nat | ActiveOn(t, t.procs[i].terminal, a) ::
        forall b: nat | ActiveOn(t, t.procs[i].terminal, b) :: b == a
  }

  predicate FreeSlotsIdle(t: Table)
    requires t.Valid()
  {
    forall i | 0 <= i < MAX_PROCESSES && !t.ids[i] :: !t.procs[i].active && !t.procs[i].onscreen
  }

  /** The process table invariant in the terms of the table alone. */
  ghost predicate TableSound(t: Table)
    requires t.Valid()
  {
    t.ids[0] && OneOnScreen(t) && OneActiveEach(t) && FreeSlotsIdle(t)
  }

  lemma TableInvariant(t: Table, k: Control)
    requires Holds(t, k)
    ensures TableSound(t)
  {
    assert Entry(t, k, 0, 0) && Entry(t, k, k.front, |k.stacks[k.front]| - 1);
    forall i | 0 <= i < MAX_PROCESSES
      ensures t.ids[i] && t.procs[i].onscreen <==> i == k.Top(k.front)
      ensures !t.ids[i] ==> !t.procs[i].active && !t.procs[i].onscreen
    {
      SlotAgrees(t, k, i);
      assert Placed(t, k, i);
    }
    assert t.procs[k.Top(k.front)].active;
    forall i | 0 <= i < MAX_PROCESSES && t.ids[i]
      ensures exists a: nat | ActiveOn(t, t.procs[i].terminal, a) ::
                forall b: nat | ActiveOn(t, t.procs[i].terminal, b) :: b == a
    {
      var tm := t.procs[i].terminal;
      assert Placed(t, k, i);
      var a := k.Top(tm);
      InStack(t, k, tm, a);
      assert ActiveOn(t, tm, a);
      forall b: nat | ActiveOn(t, tm, b)
        ensures b == a
      {
        InStack(t, k, tm, b);
      }
    }
  }

  /** Following parents inside a terminal goes one place down its stack each time, to the root. */
  lemma ParentChain(t: Table, k: Control, i: nat)
    requires Holds(t, k) && i < MAX_PROCESSES && t.ids[i] && k.place[i] > 0
    ensures t.procs[i].parent.Some?
    ensures var p := t.procs[i].parent.value;
            && p < MAX_PROCESSES && t.ids[p] && t.procs[p].terminal == t.procs[i].terminal
            && k.place[p] == k.place[i] - 1 && !t.procs[p].active
  {
    assert Placed(t, k, i);
    var tm, j := t.procs[i].terminal, k.place[i];
    assert Entry(t, k, tm, j) && Entry(t, k, tm, j - 1);
  }
}
