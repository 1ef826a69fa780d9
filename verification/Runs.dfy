/**
 The theorems about whole runs of the machine, and the exact edges of what the code keeps: when a halt,
 an Alt-Fn or the opening of a terminal does harm.
 */
module Runs {
  import opened Wrappers
  import opened Console
  import opened VideoMemory
  import opened LineDiscipline
  import opened Keymap
  import opened ProcessTable
  import opened KernelState
  import opened Isolation

  function ActOf(s: State, e: Event): (a: Action)
    ensures a.SwitchTo? ==> a.terminal < TERMINALS
  {
    if e.Key? then ActionOf(s.keys, e.scan) else Nothing
  }

  /** One step of the machine is one step of the call stacks and of three private terminals. */
  lemma StepRefines(s: State, k: Control, e: Event)
    requires Represents(s, k) && Allowed(s, k, e)
    ensures Ready(s, e) && StepOk(s, k, e)
  {
    match e
    case Tick =>
      TickKeeps(s, k);
      forall t | 0 <= t < TERMINALS { TickShows(s, k, t); }
    case Exec(ok) =>
      ExecKeeps(s, k, ok);
      forall t | 0 <= t < TERMINALS { ExecShows(s, k, ok, t); }
    case Halt => HaltStep(s, k);
    case Write(c) =>
      WriteKeeps(s, k, c);
      forall t | 0 <= t < TERMINALS { WriteShows(s, k, c, t); }
    case Store(i, c) =>
      StoreKeeps(s, k, i, c);
      forall t | 0 <= t < TERMINALS { StoreShows(s, k, i, c, t); }
    case Read(n) =>
      RunningFacts(s, k);
      ReadKeeps(s, k, n);
      forall t | 0 <= t < TERMINALS { ReadShows(s, k, n, t); }
    case Key(scan) => KeyStep(s, k, scan);
  }

  lemma HaltStep(s: State, k: Control)
    requires Represents(s, k) && Allowed(s, k, Halt)
    ensures Ready(s, Halt) && StepOk(s, k, Halt)
  {
    HaltFacts(s, k);
    RunningFacts(s, k);
    if k.running == 0 {
      RerootKeeps(s, k);
    } else if |k.stacks[k.home]| > 1 {
      ReturnKeeps(s, k);
      forall t | 0 <= t < TERMINALS { ReturnShows(s, k, t); }
    } else {
      LeaveKeeps(s, k);
      forall t | 0 <= t < TERMINALS { LeaveShows(s, k, t); }
    }
  }

  lemma StayingKey(s: State, k: Control, scan: nat)
    requires Represents(s, k) && Stays(k, ActionOf(s.keys, scan))
    ensures Ready(s, Key(scan)) && StepOk(s, k, Key(scan))
  {
    StayKeeps(s, k, scan);
    forall t | 0 <= t < TERMINALS { StayStep(s, k, scan, t); }
  }

  lemma FocusingKey(s: State, k: Control, scan: nat, u: nat)
    requires Represents(s, k) && ActionOf(s.keys, scan) == SwitchTo(u) && u < TERMINALS
    requires k.stacks[u] != [] && u != k.front
    ensures Ready(s, Key(scan)) && StepOk(s, k, Key(scan))
  {
    FocusedKeeps(s, k, scan, u);
    forall t | 0 <= t < TERMINALS { FocusedShows(s, k, scan, u, t); }
  }

  lemma OpeningKey(s: State, k: Control, scan: nat, u: nat)
    requires Represents(s, k) && ActionOf(s.keys, scan) == SwitchTo(u) && u < TERMINALS
    requires k.stacks[u] == [] && k.FreeSlot().Some?
    ensures Ready(s, Key(scan)) && StepOk(s, k, Key(scan))
  {
    OpenKeeps(s, k, scan, u);
    forall t | 0 <= t < TERMINALS { OpenShows(s, k, scan, u, t); }
  }

  lemma KeyStep(s: State, k: Control, scan: nat)
    requires Represents(s, k) && Allowed(s, k, Key(scan))
    ensures Ready(s, Key(scan)) && StepOk(s, k, Key(scan))
  {
    var act := ActionOf(s.keys, scan);
    if Stays(k, act) {
      StayingKey(s, k, scan);
    } else if k.stacks[act.terminal] != [] {
      FocusingKey(s, k, scan, act.terminal);
    } else {
      OpeningKey(s, k, scan, act.terminal);
    }
  }

  // ---------- runs ----------

  ghost predicate RunAllowed(s: State, k: Control, events: seq<Event>)
    requires Represents(s, k)
    decreases |events|
  {
    events == [] || (
      && Allowed(s, k, events[0])
      && (StepRefines(s, k, events[0]);
          RunAllowed(Step(s, events[0]), Next(k, events[0], ActOf(s, events[0])), events[1..])))
  }

  ghost function Run(s: State, k: Control, events: seq<Event>): (r: (State, Control))
    requires Represents(s, k) && RunAllowed(s, k, events)
    ensures Represents(r.0, r.1)
    decreases |events|
  {
    if events == [] then (s, k)
    else
      StepRefines(s, k, events[0]);
      Run(Step(s, events[0]), Next(k, events[0], ActOf(s, events[0])), events[1..])
  }

  /** Everything a run does to terminal `t`, in order. */
  ghost function RunScript(s: State, k: Control, events: seq<Event>, t: nat): (ops: seq<Op>)
    requires Represents(s, k) && RunAllowed(s, k, events) && t < TERMINALS
    ensures OpsOk(ops)
    decreases |events|
  {
    if events == [] then []
    else
      StepRefines(s, k, events[0]);
      Script(s, k, events[0], t)
        + RunScript(Step(s, events[0]), Next(k, events[0], ActOf(s, events[0])), events[1..], t)
  }

  /**
   Terminal isolation: after any run of ticks, keys, system calls and stores, every terminal shows
   and holds exactly what a private terminal would that was fed its own operations in order.
   */
  lemma {:induction false} TerminalsAreIsolated(s: State, k: Control, events: seq<Event>, t: nat)
    requires Represents(s, k) && RunAllowed(s, k, events) && t < TERMINALS
    ensures var r := Run(s, k, events);
            Logical(r.0, r.1.front, t) == ApplyAll(Logical(s, k.front, t), RunScript(s, k, events, t))
    decreases |events|
  {
    if events == [] {
    } else {
      StepRefines(s, k, events[0]);
      var s', k' := Step(s, events[0]), Next(k, events[0], ActOf(s, events[0]));
      TerminalsAreIsolated(s', k', events[1..], t);
      ApplyAppend(Logical(s, k.front, t), Script(s, k, events[0], t), RunScript(s', k', events[1..], t));
    }
  }

  const NO_SLOTS: seq<nat> := [0, 0, 0, 0, 0, 0]

  const FIRST: Control := Control([[0], [], []], NO_SLOTS, NO_SLOTS, NO_SLOTS, 0, 0, 0, false, 0)

  /** The relation holds when the first shell starts. */
  lemma BootRepresents(video: Video)
    requires video.Valid() && video.entry == PG_TBL_IDX && video.vidmap == PG_TBL_IDX
    ensures Represents(Booted(video), FIRST)
  {
    var s := Booted(video);
    assert s.table == Rooted(PoweredUp(video).table);
    assert Entry(s.table, FIRST, 0, 0);
  }

  /**
   In every reachable state slot 0 is allocated, exactly one allocated process is on the screen and it is
   active, every terminal that has a process has exactly one active one, and free slots are idle; and the
   mapping and the kernel stack are those of the running process.
   */
  lemma ReachableStates(video: Video, events: seq<Event>)
    requires video.Valid() && video.entry == PG_TBL_IDX && video.vidmap == PG_TBL_IDX
    ensures Represents(Booted(video), FIRST)
    ensures RunAllowed(Booted(video), FIRST, events) ==>
              var s := Run(Booted(video), FIRST, events).0;
              TableSound(s.table) && Consistent(s.table) && MappedToRunning(s)
  {
    BootRepresents(video);
    if RunAllowed(Booted(video), FIRST, events) {
      var (s, k) := Run(Booted(video), FIRST, events);
      TableInvariant(s.table, k);
      assert Holds(s.table, k);
    }
  }

  predicate MappedToRunning(s: State) {
    && s.frame == EIGHT_MB + FOUR_MB * s.running
    && PcbOf(s.esp0) == PcbAddress(s.running)
    && s.video.vidmap == s.video.entry
  }

  /** Different processes have different program pages and kernel stacks, whole 4 MB and 8 KB apart. */
  lemma FramesAndStacksAreDisjoint(i: nat, j: nat)
    requires i < j < MAX_PROCESSES
    ensures EIGHT_MB + FOUR_MB * i + FOUR_MB <= EIGHT_MB + FOUR_MB * j
    ensures PcbAddress(j) + EIGHT_KB <= PcbAddress(i) && PcbAddress(i) + EIGHT_KB <= EIGHT_MB
    ensures forall esp0 :: PcbOf(esp0) == PcbAddress(i) ==> PcbOf(esp0) != PcbAddress(j)
  {
  }

  /** The event puts a process on the processor that was entered or left by an interrupt: all but a return. */
  predicate Enters(k: Control, e: Event, act: Action)
    requires k.Valid() && (act.SwitchTo? ==> act.terminal < TERMINALS)
  {
    match e
    case Tick => true
    case Exec(ok) => ok && k.FreeSlot().Some?
    case Halt => k.running == 0
    case Key(_) => Opens(k, act)
    case _ => false
  }

  /** Where the next system call of the running process begins on its kernel stack: at the top, or 4 bytes below it. */
  lemma StackAfter(s: State, k: Control, e: Event)
    requires Represents(s, k) && Allowed(s, k, e)
    ensures Ready(s, e)
    ensures var l := Next(k, e, ActOf(s, e));
            Step(s, e).esp0 == if Enters(k, e, ActOf(s, e)) then EIGHT_MB - EIGHT_KB * l.running - 4
                               else if e.Halt? && |k.stacks[k.home]| > 1 then EIGHT_MB - EIGHT_KB * l.running
                               else s.esp0
  {
    StepRefines(s, k, e);
    RunningFacts(s, k);
    match e
    case Tick => TickFacts(s, k);
    case Exec(_) => SlotFacts(s, k);
    case Halt => HaltStack(s, k);
    case Key(scan) => KeyStack(s, k, scan);
    case _ =>
  }

  lemma HaltStack(s: State, k: Control)
    requires Represents(s, k) && Allowed(s, k, Halt)
    ensures HaltReady(s)
    ensures Halted(s).esp0 == if k.running == 0 then EIGHT_MB - 4
                              else if |k.stacks[k.home]| > 1 then EIGHT_MB - EIGHT_KB * Caller(k) else s.esp0
  {
    HaltStep(s, k);
    HaltFacts(s, k);
    if k.running == 0 {
      RunningFacts(s, k);
      RerootIff(s.table, k);
    } else if |k.stacks[k.home]| > 1 {
      CallerIsParent(s.table, k);
    } else {
      LeaveFacts(s, k);
    }
  }

  lemma KeyStack(s: State, k: Control, scan: nat)
    requires Represents(s, k)
    ensures KeyReady(s, scan)
    ensures KeyHandled(s, scan).esp0 == if Opens(k, ActionOf(s.keys, scan)) && k.FreeSlot().value < MAX_PROCESSES
                                        then EIGHT_MB - EIGHT_KB * k.FreeSlot().value - 4 else s.esp0
  {
    var act := ActionOf(s.keys, scan);
    KeyStep(s, k, scan);
    RunningFacts(s, k);
    FrontedFacts(s, k);
    if Stays(k, act) {
      StayForm(s, k, scan);
      LookedFacts(s, k, act);
    } else if k.stacks[act.terminal] != [] {
      FocusForm(s, k, scan, act.terminal);
      FocusedFacts(s, k, act.terminal);
    } else {
      OpenForm(s, k, scan, act.terminal);
    }
  }

  // ---------- where the edges are ----------

  /** A halt leaves a table that stands for call stacks if and only if its guard holds. */
  lemma HaltGuardIsExact(s: State, k: Control)
    requires Represents(s, k) && !k.spinning
    ensures HaltReady(s) && (Consistent(Halted(s).table) <==> HaltGuard(k))
  {
    HaltFacts(s, k);
    RunningFacts(s, k);
    if HaltGuard(k) {
      HaltStep(s, k);
      assert Holds(Halted(s).table, Next(k, Halt, Nothing));
    } else if k.running == 0 {
      RerootIff(s.table, k);
    } else {
      ReusedParentBreaks(s.table, k, k.opener[k.running]);
    }
  }

  /** The process on the screen is mapped to a page that is not. */
  predicate Astray(s: State)
    requires s.Valid()
  {
    s.Self().onscreen && s.video.Current() != 0
  }

  lemma AstrayFacts(s: State, k: Control)
    requires Represents(s, k)
    ensures s.Self().onscreen <==> k.Shown()
    ensures Astray(s) <==> k.Shown() && k.page != 0
    ensures k.Brush() == if Astray(s) then s.video.Current() else 0
  {
    RunningFacts(s, k);
  }

  /** What the operation of printing does to terminal `t`. */
  lemma PrintedShows(s: State, k: Control, c: char, t: nat)
    requires Represents(s, k) && !k.spinning && c != '\0' && t < TERMINALS
    ensures var drawer, was := Logical(s, k.front, k.home), Logical(s, k.front, t);
            Logical(HasWritten(s, c), k.front, t) == Do(was, Seen(drawer, k.home, k.front, k.page, Put(c), t))
  {
    WriteShows(s, k, c, t);
    ApplyOps(Logical(s, k.front, t), Seen(Logical(s, k.front, k.home), k.home, k.front, k.page, Put(c), t));
  }

  /** On any text some character makes a difference. */
  lemma PrintingChangesText(screen: Screen) returns (c: char)
    requires screen.Valid()
    ensures c != '\0' && PutC(screen, c).cells != screen.cells
  {
    var at := if screen.Pos() == SIZE - 1 then SIZE - 1 - NUM_COLS else screen.Pos();
    c := if screen.cells[at] == 'a' then 'b' else 'a';
    assert PutC(screen, c).cells[at] == c;
  }

  /** Output reaches the screen of its terminal, whatever is printed, if and only if the mapping is not astray. */
  lemma OutputIsDeliveredIff(s: State, k: Control)
    requires Represents(s, k) && !k.spinning
    ensures (forall c | c != '\0' ::
               Logical(HasWritten(s, c), k.front, k.home).screen == PutC(Logical(s, k.front, k.home).screen, c))
            <==> !Astray(s)
  {
    AstrayFacts(s, k);
    var was := Logical(s, k.front, k.home);
    forall c | c != '\0'
      ensures Logical(HasWritten(s, c), k.front, k.home) == Apply(was, if Astray(s) then Lost(Put(c)) else Put(c))
    {
      PrintedShows(s, k, c, k.home);
    }
    if Astray(s) {
      var c := PrintingChangesText(was.screen);
      assert Apply(was, Lost(Put(c))).screen.cells == was.screen.cells;
    }
  }

  lemma AstrayPrintsNothing(s: State, k: Control)
    requires Represents(s, k) && !k.spinning && Astray(s)
    ensures forall c :: Logical(HasWritten(s, c), k.front, k.home).screen.cells
                          == Logical(s, k.front, k.home).screen.cells
  {
    AstrayFacts(s, k);
    forall c
      ensures Logical(HasWritten(s, c), k.front, k.home).screen.cells == Logical(s, k.front, k.home).screen.cells
    {
      if c != '\0' {
        PrintedShows(s, k, c, k.home);
      }
    }
  }

  /** Output changes the text of another terminal if and only if the mapping has gone astray to its page. */
  lemma OutputSpillsIff(s: State, k: Control, t: nat)
    requires Represents(s, k) && !k.spinning && t < TERMINALS && t != k.home
    ensures (exists c | c != '\0' ::
               Logical(HasWritten(s, c), k.front, t).screen.cells != Logical(s, k.front, t).screen.cells)
            <==> Astray(s) && s.video.Current() == t + 1
  {
    AstrayFacts(s, k);
    var drawer, was := Logical(s, k.front, k.home), Logical(s, k.front, t);
    var onto := Screen(was.screen.cells, drawer.screen.x, drawer.screen.y);
    forall c | c != '\0'
      ensures Logical(HasWritten(s, c), k.front, t).screen.cells ==
                if Astray(s) && s.video.Current() == t + 1 then PutC(onto, c).cells else was.screen.cells
    {
      PrintedShows(s, k, c, t);
      assert Apply(Private(onto, drawer.line), Put(c)).screen == PutC(onto, c);
    }
    if Astray(s) && s.video.Current() == t + 1 {
      var c := PrintingChangesText(onto);
      assert Logical(HasWritten(s, c), k.front, t).screen.cells != was.screen.cells;
    }
  }

  lemma KeyFollows(s: State, k: Control, scan: nat)
    requires Represents(s, k)
    ensures KeyReady(s, scan) && Represents(KeyHandled(s, scan), Next(k, Key(scan), ActionOf(s.keys, scan)))
  {
    KeyStep(s, k, scan);
  }

  lemma PageAfterKey(k: Control, e: Event, act: Action)
    requires k.Valid() && e.Key? && (act.SwitchTo? ==> act.terminal < TERMINALS)
    ensures var l := Next(k, e, act);
            l.Shown() && l.page != 0 <==>
              if k.Shown() && k.page != 0
              then !(act.SwitchTo? && act.terminal != k.home && k.stacks[act.terminal] != [])
              else act == SwitchTo(k.home) && !k.Shown() && !k.spinning
  {
  }

  /**
   A key leads astray exactly when it brings the running process to the front from behind, and leads back
   exactly when it switches to another open terminal.
   */
  lemma AstrayAfterKey(s: State, k: Control, scan: nat)
    requires Represents(s, k)
    ensures KeyReady(s, scan)
    ensures Astray(KeyHandled(s, scan)) <==>
              var act := ActionOf(s.keys, scan);
              if Astray(s) then !(act.SwitchTo? && act.terminal != s.Home() && k.stacks[act.terminal] != [])
              else act == SwitchTo(s.Home()) && !s.Self().onscreen && !s.spinning
  {
    var act := ActionOf(s.keys, scan);
    KeyFollows(s, k, scan);
    AstrayFacts(s, k);
    RunningFacts(s, k);
    AstrayFacts(KeyHandled(s, scan), Next(k, Key(scan), act));
    PageAfterKey(k, Key(scan), act);
  }

  /** The next tick always leads back. */
  lemma TickEndsAstray(s: State, k: Control)
    requires Represents(s, k)
    ensures TickReady(s) && !Astray(Ticked(s))
  {
    TickKeeps(s, k);
    AstrayFacts(Ticked(s), Schedule(k));
  }

  /** The key opens terminal `u`. */
  predicate OpensAt(s: State, k: Control, scan: nat, u: nat)
    requires s.Valid() && k.Valid()
  {
    u < TERMINALS && ActionOf(s.keys, scan) == SwitchTo(u) && k.stacks[u] == [] && k.FreeSlot().Some?
  }

  /** What a terminal looks like after a terminal was opened. */
  lemma AfterOpening(s: State, k: Control, scan: nat, u: nat, t: nat)
    requires Represents(s, k) && OpensAt(s, k, scan, u) && t < TERMINALS
    ensures KeyReady(s, scan)
    ensures var was, now := Logical(s, k.front, t), Logical(KeyHandled(s, scan), u, t);
            && now.line == was.line
            && now.screen.cells == (if k.Brush() == PageFor(u, t) then Blanks(SIZE) else was.screen.cells)
            && Cursor(now.screen.x, now.screen.y) ==
                 (if t == u then Cursor(0, 0)
                  else if t == k.front && s.Self().onscreen then s.cursors[t]
                  else Cursor(was.screen.x, was.screen.y))
  {
    OpenForm(s, k, scan, u);
    OpenShows(s, k, scan, u, t);
    OpenScript(s, k, scan, u, t);
    RunningFacts(s, k);
    OpeningDoes(Logical(s, k.front, t), Logical(s, k.front, k.front), JumpOf(s, k, t), u, k.Brush(), t);
  }

  /** A jump and a clearing, field by field. */
  lemma OpeningDoes(was: Private, drawer: Private, jump: Option<Op>, u: nat, page: nat, t: nat)
    requires was.Valid() && drawer.Valid() && t < TERMINALS && (jump.Some? ==> jump.value.Jump? && OpOk(jump.value))
    ensures var p := Do(was, jump);
            var now := Do(p, Seen(drawer, u, u, page, Clear, t));
            && now.line == was.line
            && now.screen.cells == (if page == PageFor(u, t) then Blanks(SIZE) else was.screen.cells)
            && Cursor(now.screen.x, now.screen.y) ==
                 if t == u then Cursor(0, 0) else Cursor(p.screen.x, p.screen.y)
  {
    var p := Do(was, jump);
    var behind := Private(Screen(p.screen.cells, drawer.screen.x, drawer.screen.y), drawer.line);
    assert Apply(behind, Clear) == behind.(screen := Cleared());
    assert Apply(p, Clear) == p.(screen := Cleared());
  }

  /**
   Opening a terminal keeps the cursor of the terminal in front if and only if the running process is
   behind, or the cursor has not moved since it was last saved.
   */
  lemma OpeningKeepsCursorIff(s: State, k: Control, scan: nat, u: nat)
    requires Represents(s, k) && OpensAt(s, k, scan, u)
    ensures KeyReady(s, scan)
    ensures var was, now := Logical(s, k.front, k.front).screen, Logical(KeyHandled(s, scan), u, k.front).screen;
            Cursor(now.x, now.y) == Cursor(was.x, was.y) <==>
              !s.Self().onscreen || s.cursors[k.front] == Cursor(s.video.x, s.video.y)
  {
    AfterOpening(s, k, scan, u, k.front);
    RunningFacts(s, k);
    SlotFacts(s, k);
  }

  /**
   Opening a terminal keeps the text of another one if and only if the mapping has not gone astray to its page, or
   there is no text.
   */
  lemma OpeningKeepsTextIff(s: State, k: Control, scan: nat, u: nat, t: nat)
    requires Represents(s, k) && OpensAt(s, k, scan, u) && t < TERMINALS && t != u
    ensures KeyReady(s, scan)
    ensures var text := Logical(s, k.front, t).screen.cells;
            Logical(KeyHandled(s, scan), u, t).screen.cells == text <==>
              !(Astray(s) && s.video.Current() == t + 1) || text == Blanks(SIZE)
  {
    AfterOpening(s, k, scan, u, t);
    AstrayFacts(s, k);
  }

  /** The new terminal is clear if and only if the mapping has not gone astray, or it was clear before. */
  lemma OpenedIsClearIff(s: State, k: Control, scan: nat, u: nat)
    requires Represents(s, k) && OpensAt(s, k, scan, u)
    ensures KeyReady(s, scan)
    ensures Logical(KeyHandled(s, scan), u, u).screen == Cleared() <==>
              !Astray(s) || Logical(s, k.front, u).screen.cells == Blanks(SIZE)
  {
    AfterOpening(s, k, scan, u, u);
    AstrayFacts(s, k);
  }

  /**
   A shell that is opened while astray inherits the wrong page: until the next tick nothing that it prints is
   seen on its own terminal, and the terminal whose page it is gets it.
   */
  lemma OpenedAstrayPrintsElsewhere(s: State, k: Control, scan: nat, u: nat, t: nat)
    requires Represents(s, k) && OpensAt(s, k, scan, u) && Astray(s) && t < TERMINALS && t != u
    ensures KeyReady(s, scan)
    ensures var r := KeyHandled(s, scan);
            && r.Home() == u
            && (forall c :: Logical(HasWritten(r, c), u, u).screen.cells == Logical(r, u, u).screen.cells)
            && ((exists c | c != '\0' ::
                   Logical(HasWritten(r, c), u, t).screen.cells != Logical(r, u, t).screen.cells)
                <==> s.video.Current() == t + 1)
  {
    OpenKeeps(s, k, scan, u);
    AstrayFacts(s, k);
    var r, l := KeyHandled(s, scan), Open(k, k.FreeSlot().value, u);
    AstrayFacts(r, l);
    RunningFacts(r, l);
    OutputSpillsIff(r, l, t);
    AstrayPrintsNothing(r, l);
  }

  // ---------- who opened whom ----------

  /** A new shell records the process that was running, wherever it was, and serves the terminal that was asked for. */
  lemma OpenedShellRecordsRunning(s: State, k: Control, scan: nat, u: nat)
    requires Represents(s, k) && OpensAt(s, k, scan, u)
    ensures KeyReady(s, scan) && k.FreeSlot().value < MAX_PROCESSES
    ensures var p := KeyHandled(s, scan).table.procs[k.FreeSlot().value];
            p.parent == Some(k.running) && p.terminal == u
  {
    OpenForm(s, k, scan, u);
  }

  /** As long as a slot is in use, what it records stays. */
  lemma RecordsStay(s: State, k: Control, e: Event, i: nat)
    requires Represents(s, k) && Allowed(s, k, e) && i < MAX_PROCESSES && k.InUse(i)
    requires Next(k, e, ActOf(s, e)).Valid() && Next(k, e, ActOf(s, e)).InUse(i)
    ensures var l := Next(k, e, ActOf(s, e)); l.opener[i] == k.opener[i] && l.seat[i] == k.seat[i]
  {
    SlotFacts(s, k);
  }

  ghost predicate StaysInUse(s: State, k: Control, events: seq<Event>, i: nat)
    requires Represents(s, k) && RunAllowed(s, k, events)
    decreases |events|
  {
    k.InUse(i) && (events == [] || (
      StepRefines(s, k, events[0]);
      StaysInUse(Step(s, events[0]), Next(k, events[0], ActOf(s, events[0])), events[1..], i)))
  }

  /**
   The parent that a shell goes by when it exits is the process that was running when it was opened, however long ago
   that was and whatever has become of that process.
   */
  lemma {:induction false} ParentIsOpener(s: State, k: Control, events: seq<Event>, i: nat)
    requires Represents(s, k) && RunAllowed(s, k, events) && 0 < i < MAX_PROCESSES && StaysInUse(s, k, events, i)
    ensures Run(s, k, events).0.table.procs[i].parent == s.table.procs[i].parent == Some(k.opener[i])
    ensures Run(s, k, events).0.table.procs[i].terminal == s.table.procs[i].terminal
    decreases |events|
  {
    SlotRecords(s.table, k, i);
    if events == [] {
    } else {
      StepRefines(s, k, events[0]);
      var s', k' := Step(s, events[0]), Next(k, events[0], ActOf(s, events[0]));
      ParentIsOpener(s', k', events[1..], i);
      SlotRecords(s'.table, k', i);
      RecordsStay(s, k, events[0], i);
    }
  }

  lemma SlotRecords(t: Table, k: Control, i: nat)
    requires Holds(t, k) && 0 < i < MAX_PROCESSES && k.InUse(i)
    ensures t.procs[i].parent == Some(k.opener[i]) && t.procs[i].terminal == k.seat[i]
  {
    SlotAgrees(t, k, i);
    assert Placed(t, k, i);
    assert Entry(t, k, t.procs[i].terminal, k.place[i]);
  }

  // ---------- where the cursor of the running process is saved ----------

  /** Where the cursor of terminal `t` is for its user. */
  function CursorOf(s: State, k: Control, t: nat): Cursor
    requires s.Valid() && k.Valid() && t < TERMINALS
  {
    Place(Logical(s, k.front, t))
  }

  function Place(p: Private): Cursor {
    Cursor(p.screen.x, p.screen.y)
  }

  /** A tick saves the cursor of every terminal, also if it comes back to the same one. */
  lemma TickSavesCursors(s: State, k: Control, t: nat)
    requires Represents(s, k) && t < TERMINALS
    ensures TickReady(s) && Ticked(s).cursors[t] == CursorOf(s, k, t)
  {
    TickFacts(s, k);
    RunningFacts(s, k);
  }

  /** The global cursor is saved: by a tick, and by a key that the running process does not see on its screen. */
  predicate HandsOver(k: Control, e: Event) {
    e.Tick? || (e.Key? && !k.Shown())
  }

  /** What is saved for the terminal that has the processor after an event. */
  lemma SavedAfter(s: State, k: Control, e: Event)
    requires Represents(s, k) && Allowed(s, k, e)
    ensures Ready(s, e) && Represents(Step(s, e), Next(k, e, ActOf(s, e)))
    ensures var h := Next(k, e, ActOf(s, e)).home;
            Step(s, e).cursors[h] == if HandsOver(k, e) then CursorOf(s, k, h) else s.cursors[h]
  {
    StepRefines(s, k, e);
    RunningFacts(s, k);
    match e
    case Tick => TickSavesCursors(s, k, Next(k, e, Nothing).home);
    case Exec(_) =>
    case Halt => HaltSaves(s, k);
    case Key(scan) => KeySaves(s, k, scan);
    case _ =>
  }

  lemma HaltSaves(s: State, k: Control)
    requires Represents(s, k) && Allowed(s, k, Halt)
    ensures HaltReady(s) && Halted(s).cursors == s.cursors
  {
    HaltStep(s, k);
    HaltFacts(s, k);
    if k.running != 0 && |k.stacks[k.home]| == 1 {
      LeaveFacts(s, k);
    }
  }

  lemma StaySaves(s: State, k: Control, scan: nat)
    requires Represents(s, k) && Stays(k, ActionOf(s.keys, scan)) && KeyReady(s, scan)
    ensures KeyHandled(s, scan).cursors[k.home] == if !k.Shown() then CursorOf(s, k, k.home) else s.cursors[k.home]
  {
    RunningFacts(s, k);
    FrontedShows(s, k, k.home);
    StayForm(s, k, scan);
    LookedFacts(s, k, ActionOf(s.keys, scan));
  }

  lemma FocusSaves(s: State, k: Control, scan: nat, u: nat)
    requires Represents(s, k) && ActionOf(s.keys, scan) == SwitchTo(u) && u < TERMINALS && k.stacks[u] != []
    requires u != k.front && KeyReady(s, scan)
    ensures KeyHandled(s, scan).cursors[k.home] == if !k.Shown() then CursorOf(s, k, k.home) else s.cursors[k.home]
  {
    RunningFacts(s, k);
    FrontedShows(s, k, k.home);
    FocusForm(s, k, scan, u);
  }

  lemma OpenSaves(s: State, k: Control, scan: nat, u: nat)
    requires Represents(s, k) && OpensAt(s, k, scan, u) && KeyReady(s, scan)
    ensures KeyHandled(s, scan).cursors[u] == if !k.Shown() then CursorOf(s, k, u) else s.cursors[u]
  {
    RunningFacts(s, k);
    FrontedShows(s, k, u);
    OpenForm(s, k, scan, u);
  }

  lemma KeySaves(s: State, k: Control, scan: nat)
    requires Represents(s, k) && KeyReady(s, scan)
    ensures var h := Next(k, Key(scan), ActionOf(s.keys, scan)).home;
            KeyHandled(s, scan).cursors[h] == if !k.Shown() then CursorOf(s, k, h) else s.cursors[h]
  {
    var act := ActionOf(s.keys, scan);
    if Stays(k, act) {
      StaySaves(s, k, scan);
    } else if k.stacks[act.terminal] != [] {
      FocusSaves(s, k, scan, act.terminal);
    } else {
      OpenSaves(s, k, scan, act.terminal);
    }
  }

  /** Along the run the same terminal has the processor, and its cursor is not saved again. */
  ghost predicate KeepsMark(s: State, k: Control, events: seq<Event>)
    requires Represents(s, k) && RunAllowed(s, k, events)
    decreases |events|
  {
    events == [] || (
      StepRefines(s, k, events[0]);
      && !HandsOver(k, events[0]) && Next(k, events[0], ActOf(s, events[0])).home == k.home
      && KeepsMark(Step(s, events[0]), Next(k, events[0], ActOf(s, events[0])), events[1..]))
  }

  lemma {:induction false} MarkStays(s: State, k: Control, events: seq<Event>)
    requires Represents(s, k) && RunAllowed(s, k, events) && KeepsMark(s, k, events)
    ensures Run(s, k, events).0.cursors[k.home] == s.cursors[k.home] && Run(s, k, events).1.home == k.home
    decreases |events|
  {
    if events == [] {
    } else {
      SavedAfter(s, k, events[0]);
      MarkStays(Step(s, events[0]), Next(k, events[0], ActOf(s, events[0])), events[1..]);
    }
  }

  /**
   Opening a terminal over a running process puts the cursor of that process back to where it was at the latest tick,
   however far the output and the keys of `events` have moved it since.
   */
  lemma OpeningReturnsToTick(s: State, k: Control, r: State, l: Control, events: seq<Event>, scan: nat, u: nat)
    requires Represents(s, k) && TickReady(s) && r == Ticked(s) && l == Next(k, Tick, Nothing) && Represents(r, l)
    requires RunAllowed(r, l, events) && KeepsMark(r, l, events)
    requires var (s', k') := Run(r, l, events); OpensAt(s', k', scan, u) && k'.Shown()
    ensures var (s', k') := Run(r, l, events);
            && KeyReady(s', scan) && k'.front == l.home
            && Place(Logical(KeyHandled(s', scan), u, l.home)) == CursorOf(s, k, l.home)
  {
    var (s', k') := Run(r, l, events);
    MarkStays(r, l, events);
    TickSavesCursors(s, k, l.home);
    ShownFallsBack(s', k', scan, u);
  }

  lemma ShownFallsBack(s: State, k: Control, scan: nat, u: nat)
    requires Represents(s, k) && OpensAt(s, k, scan, u) && k.Shown()
    ensures KeyReady(s, scan) && Place(Logical(KeyHandled(s, scan), u, k.home)) == s.cursors[k.home]
  {
    RunningFacts(s, k);
    AfterOpening(s, k, scan, u, k.home);
  }

  /** Directly after a tick, opening a terminal moves the cursor of no other one. */
  lemma OpeningAfterTickKeepsCursors(s: State, k: Control, scan: nat, u: nat, t: nat)
    requires Represents(s, k) && TickReady(s) && Represents(Ticked(s), Next(k, Tick, Nothing))
    requires OpensAt(Ticked(s), Next(k, Tick, Nothing), scan, u) && t < TERMINALS && t != u
    ensures KeyReady(Ticked(s), scan)
    ensures Place(Logical(KeyHandled(Ticked(s), scan), u, t)) == CursorOf(s, k, t)
  {
    TickKeeps(s, k);
    TickShows(s, k, t);
    TickSavesCursors(s, k, t);
    AfterOpening(Ticked(s), Next(k, Tick, Nothing), scan, u, t);
  }

  // ---------- runs without accidents ----------

  /** An operation that a private terminal would perform too. */
  predicate Own(op: Op) {
    !op.Lost? && !op.Jump? && !op.Spill?
  }

  /** Nothing is drawn while the machine is astray, and no terminal is opened over a running one. */
  predicate Undisturbed(s: State, k: Control, e: Event)
    requires s.Valid() && k.Valid()
  {
    match e
    case Write(_) => !Astray(s)
    case Store(_, _) => !Astray(s)
    case Key(scan) =>
      var act := ActionOf(s.keys, scan);
      && (Astray(s) ==> KeyOp(k, act).None?)
      && (Opens(k, act) ==> !s.Self().onscreen)
    case _ => true
  }

  ghost predicate RunUndisturbed(s: State, k: Control, events: seq<Event>)
    requires Represents(s, k) && RunAllowed(s, k, events)
    decreases |events|
  {
    events == [] || (
      && Undisturbed(s, k, events[0])
      && (StepRefines(s, k, events[0]);
          RunUndisturbed(Step(s, events[0]), Next(k, events[0], ActOf(s, events[0])), events[1..])))
  }

  lemma UndisturbedScript(s: State, k: Control, e: Event, t: nat)
    requires Represents(s, k) && Allowed(s, k, e) && Undisturbed(s, k, e) && t < TERMINALS
    ensures forall op | op in Script(s, k, e, t) :: Own(op)
  {
    AstrayFacts(s, k);
    RunningFacts(s, k);
  }

  /** Then the terminals are private in the strict sense: no operation is lost and no cursor jumps. */
  lemma {:induction false} UndisturbedRunsArePrivate(s: State, k: Control, events: seq<Event>, t: nat)
    requires Represents(s, k) && RunAllowed(s, k, events) && RunUndisturbed(s, k, events) && t < TERMINALS
    ensures forall op | op in RunScript(s, k, events, t) :: Own(op)
    decreases |events|
  {
    if events == [] {
    } else {
      StepRefines(s, k, events[0]);
      UndisturbedScript(s, k, events[0], t);
      UndisturbedRunsArePrivate(Step(s, events[0]), Next(k, events[0], ActOf(s, events[0])), events[1..], t);
    }
  }
}
