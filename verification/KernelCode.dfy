/**
 The kernel as it runs: the C globals and the PCB slots, changed in place.

 Every method is specified by the step function of `KernelState` that it carries out on the whole
 state; the theorems of `Isolation` and `Runs` are about those functions. The handlers and system
 calls (pit_handler, execute, halt, handle_keyboard, terminal_read) are put together from small
 methods, each of which changes a part of the state and says what the whole state is afterwards:
 the PCB table, the program page, the kernel stack, the video entries, the cursor, the lines.
 */
module KernelCode {
  import opened Wrappers
  import opened Console
  import opened VideoMemory
  import opened LineDiscipline
  import opened Keymap
  import opened ProcessTable
  import opened KernelState

  class Kernel {
    const processIds: array<bool>
    const procs: array<Proc>
    const cursor: array<Cursor>
    const keyboard: seq<Keyboard>
    const display: Display
    const shellOk: bool
    var running: nat
    var spinning: bool
    var frame: nat
    var esp0: nat
    var keys: Keys

    ghost predicate Shape() {
      && processIds.Length == procs.Length == MAX_PROCESSES && cursor.Length == TERMINALS
      && |keyboard| == TERMINALS
      && keyboard[0] != keyboard[1] && keyboard[0] != keyboard[2] && keyboard[1] != keyboard[2]
      && keyboard[0].buffer != keyboard[1].buffer && keyboard[0].buffer != keyboard[2].buffer
      && keyboard[1].buffer != keyboard[2].buffer
    }

    ghost function Footprint(): set<object>
      requires |keyboard| == TERMINALS
    {
      {this, processIds, procs, cursor, display, display.phys,
       keyboard[0], keyboard[1], keyboard[2], keyboard[0].buffer, keyboard[1].buffer, keyboard[2].buffer}
    }

    ghost function Tab(): Table
      reads processIds, procs
    {
      Table(processIds[..], procs[..])
    }

    /** The parts are there and the fixed entries of the page table are in place. */
    ghost predicate Wired()
      reads display`table
    {
      Shape() && display.Sized() && display.Booted()
    }

    ghost function Value(): State
      requires Wired()
      reads this, Footprint(), display, display.phys
    {
      State(Tab(), running, spinning, shellOk, frame, esp0, display.Value(), cursor[..],
            [keyboard[0].Value(), keyboard[1].Value(), keyboard[2].Value()], keys)
    }

    ghost predicate Valid()
      reads this, if |keyboard| == TERMINALS then Footprint() else {}, display, display.phys
    {
      Wired() && Value().Valid()
    }

    /** The globals as they are loaded, and the drivers after their init functions. */
    constructor (contents: array2<char>, x: int, y: int)
      requires contents.Length0 == NUM_PAGES && contents.Length1 == SIZE
      requires 0 <= x < NUM_COLS && 0 <= y < NUM_ROWS
      ensures Wired() && display.Valid() && Value() == PoweredUp(display.Value())
      ensures display.Value().entry == PG_TBL_IDX && display.Value().vidmap == PG_TBL_IDX
    {
      display := new Display(contents, x, y);
      var ks := NewKeyboards();
      processIds := new bool[MAX_PROCESSES](_ => false);
      procs := new Proc[MAX_PROCESSES](_ => ZERO_PROC);
      cursor := new Cursor[TERMINALS](_ => Cursor(0, 0));
      keyboard := ks;
      shellOk := true;
      running, spinning, frame, esp0, keys := 0, false, 0, EIGHT_MB, NO_KEYS;
      new;
      AsLoaded(Value());
    }

    // ---------- pcb.c ----------

    method FindTerminalPid(requested: nat) returns (r: Option<nat>)
      requires Shape() && Tab().Valid()
      ensures r == TerminalPid(Tab(), requested)
    {
      ghost var t := Tab();
      ghost var hits := seq(MAX_PROCESSES,
                            i requires 0 <= i < MAX_PROCESSES => t.Live(i) && t.procs[i].terminal == requested);
      var i := 0;
      while i < MAX_PROCESSES
        invariant 0 <= i <= MAX_PROCESSES
        invariant forall j | 0 <= j < i :: !hits[j]
      {
        if processIds[procs[i].pid] && procs[i].active && procs[i].terminal == requested {
          FirstTrueIs(hits, i);
          return Some(i);
        }
        i := i + 1;
      }
      return None;
    }

    method FindOnscreenTerminalNum() returns (r: Option<nat>)
      requires Shape() && Tab().Valid()
      ensures r == OnscreenNum(Tab())
    {
      ghost var t := Tab();
      ghost var hits := seq(MAX_PROCESSES,
                            i requires 0 <= i < MAX_PROCESSES => t.ids[t.procs[i].pid] && t.procs[i].onscreen);
      var i := 0;
      while i < MAX_PROCESSES
        invariant 0 <= i <= MAX_PROCESSES
        invariant forall j | 0 <= j < i :: !hits[j]
      {
        if processIds[procs[i].pid] && procs[i].onscreen {
          FirstTrueIs(hits, i);
          return Some(procs[i].terminal);
        }
        i := i + 1;
      }
      return None;
    }

    method FindOnscreenTerminalPid() returns (r: Option<nat>)
      requires Shape() && Tab().Valid()
      ensures r == OnscreenPid(Tab())
    {
      ghost var t := Tab();
      ghost var hits := seq(MAX_PROCESSES, i requires 0 <= i < MAX_PROCESSES => t.ids[i] && t.procs[i].onscreen);
      var i := 0;
      while i < MAX_PROCESSES
        invariant 0 <= i <= MAX_PROCESSES
        invariant forall j | 0 <= j < i :: !hits[j]
      {
        if processIds[i] && procs[i].onscreen {
          FirstTrueIs(hits, i);
          return Some(i);
        }
        i := i + 1;
      }
      return None;
    }

    /** Walks down from the PCB after `current`, eight kilobytes at a time, and wraps at the last slot. */
    method FindNextActivePcb(current: nat) returns (r: Option<nat>)
      requires Shape() && Tab().Valid() && current < MAX_PROCESSES
      ensures r == NextActive(Tab(), current)
    {
      ghost var t := Tab();
      ghost var hits := seq(MAX_PROCESSES, k requires 0 <= k < MAX_PROCESSES => t.Live(Around(current, k)));
      var traverse := EIGHT_MB - EIGHT_KB * (current + 1);
      var i := 0;
      while i < MAX_PROCESSES
        invariant 0 <= i <= MAX_PROCESSES
        invariant traverse == PcbAddress((current + i) % MAX_PROCESSES)
        invariant forall j | 0 <= j < i :: !hits[j]
      {
        NextAddress(current, i);
        if traverse == EIGHT_MB - EIGHT_KB * MAX_PROCESSES {
          traverse := EIGHT_MB;
        }
        traverse := traverse - EIGHT_KB;
        var slot := (EIGHT_MB - traverse) / EIGHT_KB - 1;
        if processIds[procs[slot].pid] && procs[slot].active {
          FirstTrueIs(hits, i);
          return Some(slot);
        }
        i := i + 1;
      }
      return None;
    }

    method GetProcessId() returns (r: Option<nat>)
      requires Wired() && Tab().Valid()
      modifies processIds
      ensures r == FreeSlot(old(Tab()))
      ensures Wired()
      ensures var s := old(Value());
              Value() == if r.None? then s else s.(table := s.table.(ids := s.table.ids[r.value := true]))
    {
      ghost var s := Value();
      ghost var hits := seq(MAX_PROCESSES, i requires 0 <= i < MAX_PROCESSES => !s.table.ids[i]);
      var i := 0;
      while i < MAX_PROCESSES
        invariant 0 <= i <= MAX_PROCESSES
        invariant forall j | 0 <= j < i :: !hits[j]
        invariant Value() == s
      {
        if !processIds[i] {
          FirstTrueIs(hits, i);
          processIds[i] := true;
          assert processIds[..] == s.table.ids[i := true];
          return Some(i);
        }
        i := i + 1;
      }
      return None;
    }

    method SetupPcb(slot: nat, parent: Option<nat>)
      requires Shape() && slot < MAX_PROCESSES
      modifies procs
      ensures procs[..] ==
              old(procs[..])[slot :=
                old(procs[slot]).(pid := slot, parent := parent, esp0 := EIGHT_MB - EIGHT_KB * slot)]
    {
      procs[slot] := procs[slot].(pid := slot);
      procs[slot] := procs[slot].(parent := parent);
      procs[slot] := procs[slot].(esp0 := EIGHT_MB - EIGHT_KB * slot);
    }

    // ---------- keyboard.c: cursor hand-over ----------

    method SwitchCursor(from: nat, to: nat)
      requires Wired() && from < TERMINALS && to < TERMINALS
      modifies cursor, display`screenX, display`screenY
      ensures Wired() && Value() == old(Value()).SwitchCursor(from, to)
    {
      cursor[from] := Cursor(display.screenX, display.screenY);
      display.screenX := cursor[to].x;
      display.screenY := cursor[to].y;
    }

    // ---------- paging.c and the task state segment ----------

    method SetProgramPage(pid: nat)
      requires Wired()
      modifies this`frame
      ensures Wired() && Value() == old(Value()).(frame := EIGHT_MB + FOUR_MB * pid)
    {
      frame := EIGHT_MB + FOUR_MB * pid;
    }

    method SetKernelStack(stack: nat)
      requires Wired()
      modifies this`esp0
      ensures Wired() && Value() == old(Value()).(esp0 := stack)
    {
      esp0 := stack;
    }

    /** The processor changes to the stack of another process. */
    method SetRunning(slot: nat)
      requires Wired()
      modifies this`running
      ensures Wired() && Value() == old(Value()).(running := slot)
    {
      running := slot;
    }

    /** The video addresses follow the process in slot `i`. */
    method MapVideoFor(i: nat)
      requires Wired() && display.Valid() && i < MAX_PROCESSES && FakeAddress(procs[i].fake)
      modifies display`table, display`vidmap
      ensures Wired() && Value() == old(Value()).MapFor(i)
    {
      if procs[i].onscreen {
        display.MapVideo(VIDEO);
      } else {
        display.MapVideo(procs[i].fake);
      }
    }

    // ---------- pit.c ----------

    /** Program page, kernel stack and video addresses for the process in slot `n`. */
    method MapProcess(n: nat)
      requires Wired() && display.Valid() && Tab().Valid() && n < MAX_PROCESSES && FakeAddress(procs[n].fake)
      modifies this`frame, this`esp0, display`table, display`vidmap
      ensures Wired()
      ensures var s := old(Value());
              Value() == s.Load(s.table.procs[n].pid, EIGHT_MB - EIGHT_KB * s.table.procs[n].pid - 4).MapFor(n)
    {
      SetProgramPage(procs[n].pid);
      SetKernelStack(EIGHT_MB - EIGHT_KB * procs[n].pid - 4);
      MapVideoFor(n);
    }

    method PitHandler()
      requires Valid() && TickReady(Value())
      modifies this`frame, this`esp0, this`running, this`spinning, cursor, display
      ensures Wired() && Value() == Ticked(old(Value()))
    {
      var next := FindNextActivePcb(running);
      if next.Some? {
        ghost var mapped := old(Value()).Load(procs[next.value].pid,
                                EIGHT_MB - EIGHT_KB * procs[next.value].pid - 4).MapFor(next.value);
        MapProcess(next.value);
        assert Value() == mapped;
        SwitchCursor(procs[running].terminal, procs[next.value].terminal);
        running := next.value;
        spinning := false;
      }
    }

    // ---------- execute ----------

    /** Terminal, focus and activity go from the PCB `cur` to the PCB `avail`. */
    method HandOver(avail: nat, cur: nat)
      requires Shape() && avail < MAX_PROCESSES && cur < MAX_PROCESSES && avail != cur
      modifies procs
      ensures var child, parent := old(procs[avail]), old(procs[cur]);
              procs[..] == old(procs[..])
                [avail := child.(onscreen := parent.onscreen, terminal := parent.terminal, fake := parent.fake,
                                 active := parent.active)]
                [cur := parent.(onscreen := false, active := false)]
    {
      procs[avail] := procs[avail].(onscreen := procs[cur].onscreen);
      procs[avail] := procs[avail].(terminal := procs[cur].terminal);
      procs[avail] := procs[avail].(fake := procs[cur].fake);
      procs[cur] := procs[cur].(onscreen := false);
      procs[avail] := procs[avail].(active := procs[cur].active);
      procs[cur] := procs[cur].(active := false);
    }

    /** The PCB of a new process below `cur`. */
    method InheritPcb(avail: nat, cur: nat)
      requires Wired() && Tab().Valid() && avail < MAX_PROCESSES && cur < MAX_PROCESSES && avail != cur
      modifies procs
      ensures Wired()
      ensures var s := old(Value());
              Value() == s.(table := s.table.(procs := Forked(s.table, avail, cur).procs))
    {
      HandOver(avail, cur);
      SetupPcb(avail, Some(cur));
      assert procs[..] == Forked(old(Tab()), avail, cur).procs;
    }

    /** The PCB of the first shell. */
    method FirstPcb()
      requires Wired() && Tab().Valid()
      modifies procs
      ensures Wired()
      ensures var s := old(Value());
              Value() == s.(table := s.table.(procs := Rooted(s.table).procs))
    {
      procs[0] := procs[0].(onscreen := true);
      procs[0] := procs[0].(terminal := 0);
      procs[0] := procs[0].(fake := VIDEO + EIGHT_KB / 2);
      procs[0] := procs[0].(active := true);
      SetupPcb(0, None);
      assert procs[..] == Rooted(old(Tab())).procs;
    }

    /** Everything that execute sets up for the slot it was given. */
    method EnterProcess(avail: nat)
      requires Wired() && Value().Valid() && avail < MAX_PROCESSES && (avail == 0 || avail != running)
      modifies this`frame, this`esp0, this`running, procs
      ensures Wired() && Value() == Entered(old(Value()), avail)
    {
      SetProgramPage(avail);
      if avail != 0 {
        InheritPcb(avail, running);
      } else {
        FirstPcb();
      }
      SetKernelStack(EIGHT_MB - EIGHT_KB * avail - 4);
      SetRunning(avail);
    }

    /** `ok` says that the command names an executable of the file system. */
    method Execute(ok: bool)
      requires Valid() && (ExecReady(Value()) || FreeSlot(Tab()) == Some(0))
      modifies this`frame, this`esp0, this`running, processIds, procs
      ensures Wired() && Value() == Executed(old(Value()), ok)
    {
      if ok {
        ghost var s := Value();
        var slot := GetProcessId();
        if slot.Some? {
          ExecutedParts(s, slot.value);
          EnterProcess(slot.value);
        }
      }
    }

    // ---------- switch_terminal ----------

    /** The PCB of the first shell of a terminal, and who is on the screen afterwards. */
    method OpenPcb(avail: nat, cur: nat, on: nat, terminal: nat)
      requires Wired() && Tab().Valid() && avail < MAX_PROCESSES && cur < MAX_PROCESSES && on < MAX_PROCESSES
      requires terminal < TERMINALS
      requires avail != on
      modifies procs
      ensures Wired()
      ensures var s := old(Value());
              Value() == s.(table := s.table.(procs := Opened(s.table, avail, cur, on, terminal).procs))
    {
      procs[cur] := procs[cur].(onscreen := false);
      procs[avail] := procs[avail].(onscreen := true);
      procs[avail] := procs[avail].(terminal := terminal);
      procs[avail] := procs[avail].(fake := VIDEO + EIGHT_KB * (terminal + 1) / 2);
      procs[avail] := procs[avail].(active := true);
      SetupPcb(avail, Some(cur));
      procs[on] := procs[on].(onscreen := false);
      procs[avail] := procs[avail].(onscreen := true);
      assert procs[..] == Opened(old(Tab()), avail, cur, on, terminal).procs;
    }

    method ExchangePages(hidden: nat, shown: nat)
      requires Wired() && display.Valid() && FakeAddress(hidden) && FakeAddress(shown)
      modifies display.phys
      ensures Wired() && display.Valid()
      ensures Value() == old(Value()).(video := old(Value()).video.SwitchMemory(hidden, shown))
    {
      display.SwitchKernelMemory(hidden, shown);
    }

    method ClearScreen()
      requires Wired() && display.Valid()
      modifies display.phys, display`screenX, display`screenY
      ensures Wired() && Value() == old(Value()).(video := old(Value()).video.Show(Cleared()))
    {
      display.ClearScreen();
    }

    /** Everything that switch_terminal sets up for the slot it was given. */
    method StartShell(avail: nat, on: nat, terminal: nat)
      requires Wired() && display.Valid() && Tab().Valid() && running < MAX_PROCESSES && avail < MAX_PROCESSES
      requires on < MAX_PROCESSES && terminal < TERMINALS && avail != on
      requires Value().Valid() && FakeAddress(procs[on].fake)
      modifies this`frame, this`esp0, procs, display.phys, display`screenX, display`screenY
      ensures Wired()
      ensures Value() == Started(old(Value()), avail, on, terminal)
    {
      var front := procs[on];
      SetProgramPage(avail);
      OpenPcb(avail, running, on, terminal);
      if front.terminal != terminal {
        ExchangePages(front.fake, Fake(terminal));
      }
      SetKernelStack(EIGHT_MB - EIGHT_KB * avail - 4);
      ClearScreen();
    }

    /** A new shell is entered straight from the handler. */
    method EnterShell(slot: nat)
      requires Wired()
      modifies this`running, this`spinning
      ensures Wired() && Value() == old(Value()).(running := slot, spinning := false)
    {
      SetRunning(slot);
      spinning := false;
    }

    /** The part of switch_terminal that starts a shell on a terminal without one. */
    method OpenTerminal(on: nat, terminal: nat) returns (outcome: Outcome)
      requires Valid() && terminal < TERMINALS && on < MAX_PROCESSES
      requires FakeAddress(procs[on].fake) && FreeSlot(Tab()) != Some(on)
      modifies Footprint()
      ensures Wired() && (Value(), outcome) == OpenedFrom(old(Value()), on, terminal)
    {
      outcome := Failed;
      if shellOk {
        ghost var s := Value();
        var slot := GetProcessId();
        if slot.Some? {
          OpenedParts(s, on, terminal, slot.value);
          StartShell(slot.value, on, terminal);
          EnterShell(slot.value);
          outcome := Created;
        }
      }
    }

    /** Moves the screen from the process in `on` to the one in `req`. */
    method Refocus(on: nat, req: nat)
      requires Wired() && Tab().Valid() && on < MAX_PROCESSES && req < MAX_PROCESSES
      modifies procs
      ensures Wired() && Value() == old(Value()).(table := Refocused(old(Tab()), on, req))
      ensures forall i | 0 <= i < MAX_PROCESSES :: procs[i].fake == old(procs[i].fake)
    {
      procs[on] := procs[on].(onscreen := false);
      procs[req] := procs[req].(onscreen := true);
      assert procs[..] == Refocused(old(Tab()), on, req).procs;
    }

    method SwitchTerminal(terminal: nat) returns (outcome: Outcome)
      requires Valid() && SwitchReady(Value(), terminal)
      modifies Footprint()
      ensures Wired() && (Value(), outcome) == SwitchedTo(old(Value()), terminal)
    {
      var onscreen := FindOnscreenTerminalPid();
      var requested := FindTerminalPid(terminal);
      var on := onscreen.value;
      if requested.None? {
        outcome := OpenTerminal(on, terminal);
        return;
      }
      var req := requested.value;
      var here, there := procs[on], procs[req];
      if here.terminal != there.terminal {
        ExchangePages(here.fake, there.fake);
      }
      Refocus(on, req);
      if here.terminal != there.terminal {
        MapVideoFor(running);
      }
      outcome := Switched;
    }

    // ---------- halt ----------

    method FreeProcess(slot: nat)
      requires Wired() && Tab().Valid() && slot < MAX_PROCESSES
      modifies processIds
      ensures Wired() && Value() == old(Value()).(table := Freed(old(Tab()), slot))
    {
      processIds[procs[slot].pid] := false;
      assert processIds[..] == Freed(old(Tab()), slot).ids;
    }

    method StopProcess(slot: nat)
      requires Wired() && Tab().Valid() && slot < MAX_PROCESSES
      modifies procs
      ensures Wired() && Value() == old(Value()).(table := Stopped(old(Tab()), slot))
    {
      procs[slot] := procs[slot].(active := false);
      assert procs[..] == Stopped(old(Tab()), slot).procs;
    }

    /** The parent gets the terminal back and the slot of the child is free. */
    method ReturnProcess(cur: nat, parent: nat)
      requires Wired() && Tab().Valid() && cur < MAX_PROCESSES && parent < MAX_PROCESSES
      modifies procs, processIds
      ensures Wired()
      ensures Value() == old(Value()).(table := Returned(old(Tab()), cur, parent))
    {
      procs[cur] := procs[cur].(active := false);
      procs[parent] := procs[parent].(active := true);
      procs[parent] := procs[parent].(onscreen := procs[cur].onscreen);
      procs[cur] := procs[cur].(onscreen := false);
      processIds[procs[cur].pid] := false;
      assert procs[..] == Returned(old(Tab()), cur, parent).procs;
      assert processIds[..] == Returned(old(Tab()), cur, parent).ids;
    }

    /** The way back to a parent on the same terminal. */
    method ReturnToParent(parent: nat)
      requires Wired() && Tab().Valid() && running < MAX_PROCESSES && parent < MAX_PROCESSES
      modifies this`frame, this`esp0, this`running, procs, processIds
      ensures Wired()
      ensures var s := old(Value());
              var table := Returned(s.table, s.running, parent);
              Value() == s.Load(table.procs[parent].pid, table.procs[parent].esp0).(table := table, running := parent)
    {
      ReturnProcess(running, parent);
      SetProgramPage(procs[parent].pid);
      SetKernelStack(procs[parent].esp0);
      SetRunning(parent);
    }

    /** The halted process waits for the next tick. */
    method Spin()
      requires Wired()
      modifies this`spinning
      ensures Wired() && Value() == old(Value()).(spinning := true)
    {
      spinning := true;
    }

    /** The end of the last process of a terminal. */
    method LeaveTerminal()
      requires Valid() && SwitchReady(Value().(table := Stopped(Tab(), running)), 0)
      modifies Footprint()
      ensures Wired()
      ensures var s := old(Value());
              var r := SwitchedTo(s.(table := Stopped(s.table, s.running)), 0);
              Value() == if r.1.Created? then r.0 else r.0.(table := Freed(r.0.table, s.running), spinning := true)
    {
      var cur := running;
      StopProcess(cur);
      var outcome := SwitchTerminal(0);
      if outcome != Created {
        FreeProcess(cur);
        Spin();
      }
    }

    method Halt()
      requires Valid() && HaltReady(Value())
      modifies Footprint()
      ensures Wired() && Value() == Halted(old(Value()))
    {
      var self := procs[running];
      if self.parent.None? {
        FreeProcess(running);
        Execute(shellOk);
      } else if procs[self.parent.value].terminal != self.terminal {
        LeaveTerminal();
      } else {
        ReturnToParent(self.parent.value);
      }
    }

    // ---------- handle_keyboard ----------

    /** The modifier keys and the repeat counter after a scan code; says whether the code is acted upon. */
    method TrackKeys(scan: nat) returns (acts: bool)
      modifies this`keys
      ensures acts == Acts(old(keys), scan) && keys == Keymap.Pressed(old(keys), scan)
    {
      acts := scan != keys.oldData || keys.holding == 0;
      if scan != keys.oldData {
        keys := keys.(holding := HOLDING_INIT);
        if keys.oldData == DOUBLE_CODE {
          if scan == 0xB8 {
            keys := keys.(alt := false);
          } else if scan == 0x9D {
            keys := keys.(ctrl := false);
          } else if scan == 0x38 {
            keys := keys.(alt := true);
          } else if scan == 0x1D {
            keys := keys.(ctrl := true);
          }
        } else {
          if scan == 0xAA || scan == 0xB6 {
            keys := keys.(shift := false);
          } else if scan == 0xB8 {
            keys := keys.(alt := false);
          } else if scan == 0x9D {
            keys := keys.(ctrl := false);
          } else if scan == 0x2A || scan == 0x36 {
            keys := keys.(shift := true);
          } else if scan == 0x38 {
            keys := keys.(alt := true);
          } else if scan == 0x1D {
            keys := keys.(ctrl := true);
          } else if scan == 0x3A {
            keys := keys.(capslock := !keys.capslock);
          }
        }
      } else if keys.holding != 0 {
        keys := keys.(holding := keys.holding - 1);
      }
    }

    /** The page and the cursor of the terminal in front are brought in. */
    method BringFront(front: nat)
      requires Valid() && front < TERMINALS
      modifies display`table, display`vidmap, cursor, display`screenX, display`screenY
      ensures Wired() && Value() == Fronted(old(Value()), front)
    {
      if !procs[running].onscreen {
        display.MapVideo(VIDEO);
        SwitchCursor(procs[running].terminal, front);
      }
    }

    /** The interrupted process gets its own page and cursor back. */
    method PutBack(front: nat)
      requires Valid() && front < TERMINALS && FakeAddress(procs[running].fake)
      modifies display`table, display`vidmap, cursor, display`screenX, display`screenY
      ensures Wired() && Value() == Restored(old(Value()), front)
    {
      display.MapVideo(procs[running].fake);
      SwitchCursor(front, procs[running].terminal);
    }

    method Press(front: nat, c: char)
      requires Valid() && front < TERMINALS
      modifies keyboard[front], keyboard[front].buffer, display.phys, display`screenX, display`screenY
      ensures Wired()
      ensures var s := old(Value());
              Value() == ShowPrivate(s, front, Type(Private(s.video.Shown(), s.lines[front]), c))
    {
      assert keyboard[front].Value() == Value().lines[front];
      keyboard[front].Press(display, c);
    }

    method Say(text: seq<char>)
      requires Wired() && display.Valid()
      modifies display.phys, display`screenX, display`screenY
      ensures Wired()
      ensures var s := old(Value()); Value() == s.(video := s.video.Show(PutAll(s.video.Shown(), text)))
    {
      display.Puts(text);
    }

    /** Alt-Fn, with the message if there is no such terminal to be had. */
    method SwitchOrComplain(front: nat, t: nat) returns (ends: bool)
      requires Valid() && front < TERMINALS && SwitchReady(Value(), t)
      modifies Footprint()
      ensures Wired() && (Value(), ends) == Acted(old(Value()), front, SwitchTo(t))
    {
      ghost var s := Value();
      var outcome := SwitchTerminal(t);
      if outcome == Failed {
        assert SwitchedTo(s, t) == (s, Failed);
        Say(Complaint(t));
        return true;
      }
      return outcome != Created;
    }

    /** Does what the key asks for; the answer is false when a new shell has been entered instead of returning. */
    method Act(front: nat, act: Action) returns (ends: bool)
      requires Valid() && front < TERMINALS && ActReady(Value(), act)
      modifies Footprint()
      ensures Wired() && (Value(), ends) == Acted(old(Value()), front, act)
    {
      ends := true;
      match act
      case Nothing =>
      case Wipe =>
        ClearScreen();
      case Char(c) =>
        Press(front, c);
      case SwitchTo(t) =>
        ends := SwitchOrComplain(front, t);
    }

    /** The key is decoded and acted upon, with the terminal in front in place. */
    method ReadKey(scan: nat, front: nat) returns (ends: bool)
      requires Valid() && front < TERMINALS && ActReady(Value(), ActionOf(keys, scan))
      modifies Footprint()
      ensures Wired()
      ensures var s := old(Value());
              var r := Acted(s, front, ActionOf(s.keys, scan));
              ends == r.1 && Value() == r.0.(keys := Keymap.Pressed(s.keys, scan))
    {
      ghost var s := Value();
      var acts := TrackKeys(scan);
      var act := if acts then Meaning(keys, scan) else Nothing;
      ActedKeys(s, front, act, keys);
      ends := Act(front, act);
    }

    /** The end of the handler. */
    method EndHandler(scan: nat, front: nat, away: bool)
      requires Valid() && front < TERMINALS && FakeAddress(procs[running].fake)
      modifies this`keys, display`table, display`vidmap, cursor, display`screenX, display`screenY
      ensures Wired()
      ensures var s := old(Value()).(keys := old(keys).(oldData := scan));
              Value() == if away then Restored(s, front) else s
    {
      keys := keys.(oldData := scan);
      if away {
        PutBack(front);
      }
    }

    method HandleKeyboard(scan: nat)
      requires Valid() && KeyReady(Value(), scan)
      modifies Footprint()
      ensures Wired() && Value() == KeyHandled(old(Value()), scan)
    {
      var onscreen := FindOnscreenTerminalNum();
      if onscreen.Some? {
        var front := onscreen.value;
        var away := !procs[running].onscreen;
        KeyParts(Value(), scan, front);
        BringFront(front);
        var ends := ReadKey(scan, front);
        if ends {
          EndHandler(scan, front, away);
        }
      }
    }

    // ---------- the other system calls ----------

    /** What terminal_write does for one byte. */
    method WriteByte(c: char)
      requires Valid()
      modifies display.phys, display`screenX, display`screenY
      ensures Wired() && Value() == HasWritten(old(Value()), c)
    {
      if c != '\0' {
        display.PutC(c);
      }
    }

    method TerminalRead(bytes: array<char>, n: int) returns (count: nat)
      requires Valid() && Room(n) <= bytes.Length && bytes !in Footprint()
      requires n != 0 ==> Value().lines[Value().Home()].Ready()
      modifies keyboard[procs[running].terminal], bytes
      ensures Wired() && Value() == HasRead(old(Value()), n)
      ensures var line := old(Value()).lines[old(Value()).Home()];
              bytes[..Room(n)] == Delivered(line, n) && count == |Handed(line, n)|
      ensures bytes[Room(n)..] == old(bytes[Room(n)..])
    {
      assert Value().lines[Value().Home()].Valid();
      var t := procs[running].terminal;
      ghost var lines := Value().lines;
      count := keyboard[t].Read(bytes, 0, n);
      assert Value().lines == lines[t := Taken(lines[t], n)];
    }

    method UserStore(i: nat, c: char)
      requires Valid() && i < SIZE
      modifies display.phys
      ensures Wired() && Value() == Stored(old(Value()), i, c)
    {
      display.UserStore(i, c);
    }
  }

  /** What the parts of the keyboard handler need and amount to. */
  lemma KeyParts(s: State, scan: nat, front: nat)
    requires KeyReady(s, scan) && OnscreenNum(s.table) == Some(front)
    ensures front < TERMINALS && ActReady(Fronted(s, front), ActionOf(s.keys, scan)) && Fronted(s, front).keys == s.keys
    ensures var (r, ends) := Acted(Fronted(s, front), front, ActionOf(s.keys, scan));
            && r.Valid() && FakeAddress(r.Self().fake)
            && KeyHandled(s, scan) ==
                 if !ends then r.(keys := Keymap.Pressed(s.keys, scan))
                 else if s.Self().onscreen then r.(keys := Keymap.Pressed(s.keys, scan).(oldData := scan))
                 else Restored(r.(keys := Keymap.Pressed(s.keys, scan).(oldData := scan)), front)
  {
  }

  /** The line buffers of the three terminals. */
  method NewKeyboards() returns (ks: seq<Keyboard>)
    ensures |ks| == TERMINALS && ks[0] != ks[1] && ks[0] != ks[2] && ks[1] != ks[2]
    ensures ks[0].buffer != ks[1].buffer && ks[0].buffer != ks[2].buffer && ks[1].buffer != ks[2].buffer
    ensures forall i | 0 <= i < TERMINALS :: fresh(ks[i]) && fresh(ks[i].buffer) && ks[i].Value() == EMPTY_LINE
  {
    var k0 := new Keyboard();
    var k1 := new Keyboard();
    var k2 := new Keyboard();
    ks := [k0, k1, k2];
  }

  lemma AsLoaded(s: State)
    requires |s.table.ids| == |s.table.procs| == MAX_PROCESSES && |s.cursors| == |s.lines| == TERMINALS
    requires forall i | 0 <= i < MAX_PROCESSES :: !s.table.ids[i] && s.table.procs[i] == ZERO_PROC
    requires forall t | 0 <= t < TERMINALS :: s.cursors[t] == Cursor(0, 0) && s.lines[t] == EMPTY_LINE
    requires s.running == 0 && !s.spinning && s.shellOk && s.frame == 0 && s.esp0 == EIGHT_MB && s.keys == NO_KEYS
    requires s.video.Valid()
    ensures s == PoweredUp(s.video)
  {
    assert s.table.ids == seq(MAX_PROCESSES, _ => false) && s.table.procs == seq(MAX_PROCESSES, _ => ZERO_PROC);
    assert s.cursors == seq(TERMINALS, _ => Cursor(0, 0)) && s.lines == seq(TERMINALS, _ => EMPTY_LINE);
  }

  /** What EnterProcess makes of a state in which the slot is taken. */
  function Entered(s: State, a: nat): State
    requires s.Valid() && a < MAX_PROCESSES && (a == 0 || a != s.running)
  {
    var procs := if a == 0 then Rooted(s.table).procs else Forked(s.table, a, s.running).procs;
    s.Load(a, EIGHT_MB - EIGHT_KB * a - 4).(table := s.table.(procs := procs), running := a)
  }

  lemma ExecutedParts(s: State, a: nat)
    requires s.Valid() && FreeSlot(s.table) == Some(a) && a < MAX_PROCESSES && (a == 0 || a != s.running)
    ensures var taken := s.(table := s.table.(ids := s.table.ids[a := true]));
            taken.Valid() && Executed(s, true) == Entered(taken, a)
  {
  }

  /** Taking a slot and setting it up amount to one update of the table. */
  lemma OpenedParts(s: State, on: nat, t: nat, a: nat)
    requires s.Valid() && t < TERMINALS && on < MAX_PROCESSES && FakeAddress(s.table.procs[on].fake)
    requires s.shellOk && FreeSlot(s.table) == Some(a) && a < MAX_PROCESSES && a != on
    ensures var taken := s.(table := s.table.(ids := s.table.ids[a := true]));
            && taken.Valid()
            && OpenedFrom(s, on, t) == (Started(taken, a, on, t).(running := a, spinning := false), Created)
  {
  }

  /** What StartShell makes of a state in which the slot is taken. */
  function Started(s: State, a: nat, on: nat, t: nat): State
    requires s.Valid() && t < TERMINALS && on < MAX_PROCESSES && a < MAX_PROCESSES && a != on
    requires FakeAddress(s.table.procs[on].fake)
  {
    var front := s.table.procs[on];
    var video := if front.terminal != t then s.video.SwitchMemory(front.fake, Fake(t)) else s.video;
    s.Load(a, EIGHT_MB - EIGHT_KB * a - 4)
     .(table := s.table.(procs := Opened(s.table, a, s.running, on, t).procs), video := video.Show(Cleared()))
  }

  /** One step down from a PCB, or from the last one to the first, is one step around the ring. */
  lemma NextAddress(current: nat, i: nat)
    requires current < MAX_PROCESSES
    ensures var at := (current + i) % MAX_PROCESSES;
            PcbAddress(Around(current, i)) ==
              (if PcbAddress(at) == EIGHT_MB - EIGHT_KB * MAX_PROCESSES then EIGHT_MB else PcbAddress(at)) - EIGHT_KB
    ensures (EIGHT_MB - PcbAddress(Around(current, i))) / EIGHT_KB - 1 == Around(current, i)
    ensures (current + (i + 1)) % MAX_PROCESSES == Around(current, i)
  {
  }
}
