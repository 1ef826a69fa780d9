/**
 Short runs from boot that reach the edges: what the guard of a halt keeps out and what goes astray does happen.

 Alt, F2 and a tick put the first shell behind the shell of terminal 1. If it exits there, two processes claim
 the screen. If Alt-F1 brings it to the front instead, what it prints before the next tick is lost, and opening
 a third terminal before that tick erases its text and lets the new shell print in its place. Opening a
 terminal over a running process moves its cursor. And a shell that was opened over a program whose slot is
 used again exits to a slot that no stack owns.
 */
module Edges {
  import opened Wrappers
  import opened Console
  import opened VideoMemory
  import opened LineDiscipline
  import opened Keymap
  import opened ProcessTable
  import opened KernelState
  import opened Isolation
  import opened Runs

  const LEFT_ALT := 0x38
  const F1 := 59
  const F2 := 60

  predicate Fresh(video: Video) {
    video.Valid() && video.entry == PG_TBL_IDX && video.vidmap == PG_TBL_IDX
  }

  const SECOND_SEATS: seq<nat> := [0, 1, 0, 0, 0, 0]

  /** Terminal 1 has been opened with Alt-F2 and the tick has gone back to the first shell, now behind. */
  const BEHIND: Control := Control([[0], [1], []], NO_SLOTS, NO_SLOTS, SECOND_SEATS, 1, 0, 0, false, 1)

  lemma FreeIs(k: Control, a: nat)
    requires |k.stacks| == TERMINALS && a < MAX_PROCESSES && !k.InUse(a) && forall i | 0 <= i < a :: k.InUse(i)
    ensures k.FreeSlot() == Some(a)
  {
    FirstTrueIs(seq(MAX_PROCESSES, i requires 0 <= i < MAX_PROCESSES => !k.InUse(i)), a);
  }

  lemma NextIs(k: Control, j: nat)
    requires |k.stacks| == TERMINALS && j < MAX_PROCESSES && k.IsTop(Around(k.running, j))
    requires forall l | 0 <= l < j :: !k.IsTop(Around(k.running, l))
    ensures k.NextTop() == Some(Around(k.running, j))
  {
    FirstTrueIs(seq(MAX_PROCESSES, j requires 0 <= j < MAX_PROCESSES => k.IsTop(Around(k.running, j))), j);
  }

  /** Holding Alt and pressing a function key. */
  lemma AltF(keys: Keys, f: nat)
    requires (keys == NO_KEYS || (keys.alt && !keys.ctrl)) && F1 <= f <= F2 + 1
    ensures keys == NO_KEYS ==> ActionOf(keys, LEFT_ALT) == Nothing
    ensures var k := if keys == NO_KEYS then After(keys, LEFT_ALT) else keys;
            k.oldData != f ==>
              ActionOf(k, f) == SwitchTo(f - F1) && Pressed(k, f).alt && !Pressed(k, f).ctrl
              && Pressed(k, f).oldData == k.oldData
  {
  }

  ghost predicate ReachesFrom(s0: State, k0: Control, events: seq<Event>, s: State, k: Control) {
    Represents(s0, k0) && RunAllowed(s0, k0, events) && Run(s0, k0, events) == (s, k)
  }

  /** The run from boot over `events` is allowed and ends in `s`, which `k` describes. */
  ghost predicate Reaches(video: Video, events: seq<Event>, s: State, k: Control) {
    Fresh(video) && ReachesFrom(Booted(video), FIRST, events, s, k)
  }

  lemma OneAtTheEnd(events: seq<Event>, e: Event)
    ensures events == [] ==> events + [e] == [e] && [e][1..] == []
    ensures events != [] ==> (events + [e])[0] == events[0] && (events + [e])[1..] == events[1..] + [e]
  {
  }

  lemma {:induction false} RunSnoc(s: State, k: Control, events: seq<Event>, e: Event)
    requires Represents(s, k) && RunAllowed(s, k, events)
    requires Allowed(Run(s, k, events).0, Run(s, k, events).1, e)
    ensures var (r, l) := Run(s, k, events);
            && RunAllowed(s, k, events + [e]) && Ready(r, e)
            && Run(s, k, events + [e]) == (Step(r, e), Next(l, e, ActOf(r, e)))
    decreases |events|
  {
    OneAtTheEnd(events, e);
    if events == [] {
      StepRefines(s, k, e);
      assert Run(Step(s, e), Next(k, e, ActOf(s, e)), []) == (Step(s, e), Next(k, e, ActOf(s, e)));
    } else {
      StepRefines(s, k, events[0]);
      RunSnoc(Step(s, events[0]), Next(k, events[0], ActOf(s, events[0])), events[1..], e);
    }
  }

  /** One more event. */
  lemma Then(video: Video, events: seq<Event>, s: State, k: Control, e: Event)
    requires Reaches(video, events, s, k) && Allowed(s, k, e)
    ensures Ready(s, e) && Represents(Step(s, e), Next(k, e, ActOf(s, e)))
    ensures Reaches(video, events + [e], Step(s, e), Next(k, e, ActOf(s, e)))
  {
    RunSnoc(Booted(video), FIRST, events, e);
    StepRefines(s, k, e);
  }

  lemma Boot(video: Video)
    requires Fresh(video)
    ensures Reaches(video, [], Booted(video), FIRST) && Booted(video).keys == NO_KEYS
  {
    BootRepresents(video);
  }

  lemma AltDownFacts(s: State, k: Control)
    requires Represents(s, k) && s.keys == NO_KEYS
    ensures Ready(s, Key(LEFT_ALT)) && Step(s, Key(LEFT_ALT)).keys == After(NO_KEYS, LEFT_ALT)
  {
    AltF(NO_KEYS, F2);
    StayForm(s, k, LEFT_ALT);
    LookedFacts(s, k, Nothing);
    RunningFacts(s, k);
    if !s.Self().onscreen {
      RestoredFacts(Looked(s, k, Nothing).(keys := After(s.keys, LEFT_ALT)), k.front, k.front, k.home, 0);
    }
  }

  /** Alt goes down. */
  lemma AltDown(video: Video, events: seq<Event>, s: State, k: Control)
    requires Reaches(video, events, s, k) && s.keys == NO_KEYS
    ensures Ready(s, Key(LEFT_ALT)) && Reaches(video, events + [Key(LEFT_ALT)], Step(s, Key(LEFT_ALT)), k)
    ensures Step(s, Key(LEFT_ALT)).keys == After(NO_KEYS, LEFT_ALT)
  {
    AltF(NO_KEYS, F2);
    AltDownFacts(s, k);
    Then(video, events, s, k, Key(LEFT_ALT));
  }

  lemma AltF2Facts(s: State, k: Control, a: nat)
    requires Represents(s, k) && s.keys == After(NO_KEYS, LEFT_ALT)
    requires k.stacks[1] == [] && k.FreeSlot() == Some(a) && a < MAX_PROCESSES && k.Top(k.front) < MAX_PROCESSES
    ensures ActionOf(s.keys, F2) == SwitchTo(1)
    ensures a != k.Top(k.front) && Ready(s, Key(F2))
    ensures Step(s, Key(F2)).keys == Pressed(s.keys, F2)
  {
    AltF(NO_KEYS, F2);
    OpenForm(s, k, F2, 1);
  }

  /** Alt-F2 opens terminal 1 in the first free slot, with the running process as recorded parent. */
  lemma AltF2Opens(video: Video, events: seq<Event>, s: State, k: Control, a: nat)
    requires Reaches(video, events, s, k) && s.keys == After(NO_KEYS, LEFT_ALT)
    requires k.stacks[1] == [] && k.FreeSlot() == Some(a) && a < MAX_PROCESSES
    requires k.Top(k.front) < MAX_PROCESSES
    ensures a != k.Top(k.front) && Ready(s, Key(F2))
    ensures Reaches(video, events + [Key(F2)], Step(s, Key(F2)), Open(k, a, 1))
    ensures Step(s, Key(F2)).keys == Pressed(s.keys, F2)
  {
    AltF2Facts(s, k, a);
    Then(video, events, s, k, Key(F2));
  }

  lemma TickTo(video: Video, events: seq<Event>, s: State, k: Control, l: Control)
    requires Reaches(video, events, s, k) && k.NextTop().Some? && Schedule(k) == l
    ensures Ready(s, Tick) && Reaches(video, events + [Tick], Step(s, Tick), l)
    ensures Step(s, Tick).keys == s.keys
  {
    Then(video, events, s, k, Tick);
  }

  /** The picture after Alt-F2 at boot. */
  const SECOND: Control := Control([[0], [1], []], NO_SLOTS, NO_SLOTS, SECOND_SEATS, 1, 1, 1, false, 0)

  lemma SecondOpens()
    ensures FIRST.FreeSlot() == Some(1) && Open(FIRST, 1, 1) == SECOND
    ensures SECOND.NextTop() == Some(0) && Schedule(SECOND) == BEHIND
  {
    FreeIs(FIRST, 1);
    NextIs(SECOND, 4);
  }

  /** What terminal 0 shows. */
  ghost function TextOf(s: State, k: Control): seq<char>
    requires s.Valid() && k.Valid()
  {
    Logical(s, k.front, 0).screen.cells
  }

  /** A tick, a key without an effect, a key that switches to an open terminal, or one that opens and clears another. */
  predicate Quiet(s: State, k: Control, e: Event)
    requires s.Valid() && k.Valid()
  {
    e == Tick || (e.Key? &&
      match ActionOf(s.keys, e.scan)
      case Nothing => true
      case SwitchTo(u) => k.stacks[u] != [] || (u != 0 && k.FreeSlot().Some? && k.Brush() != 1)
      case _ => false)
  }

  lemma QuietScript(s: State, k: Control, e: Event)
    requires s.Valid() && k.Valid() && Quiet(s, k, e)
    ensures var script := Script(s, k, e, 0); script == [] || (|script| == 1 && script[0].Jump?)
  {
  }

  lemma JumpLeavesText(p: Private, ops: seq<Op>)
    requires p.Valid() && OpsOk(ops) && (ops == [] || (|ops| == 1 && ops[0].Jump?))
    ensures ApplyAll(p, ops).screen.cells == p.screen.cells
  {
    if ops != [] {
      assert ops == [ops[0]] && OpOk(ops[0]);
      ApplyOne(p, ops[0]);
    }
  }

  /** Such an event at most moves the cursor of terminal 0. */
  lemma TextStays(s: State, k: Control, e: Event)
    requires Represents(s, k) && Allowed(s, k, e) && Quiet(s, k, e)
    ensures Ready(s, e) && Represents(Step(s, e), Next(k, e, ActOf(s, e)))
    ensures TextOf(Step(s, e), Next(k, e, ActOf(s, e))) == TextOf(s, k)
  {
    StepRefines(s, k, e);
    QuietScript(s, k, e);
    JumpLeavesText(Logical(s, k.front, 0), Script(s, k, e, 0));
  }

  lemma EventLists(a: Event, b: Event, c: Event, d: Event)
    ensures [] + [a] == [a] && [a] + [b] == [a, b] && [a, b] + [c] == [a, b, c] && [a, b, c] + [d] == [a, b, c, d]
  {
  }

  lemma FiveEvents(a: Event, b: Event, c: Event, d: Event, e: Event)
    ensures [a, b, c, d] + [e] == [a, b, c, d, e]
  {
  }

  /** From boot: Alt. */
  lemma AltAtBoot(video: Video) returns (s: State)
    requires Fresh(video)
    ensures Reaches(video, [Key(LEFT_ALT)], s, FIRST) && s.keys == After(NO_KEYS, LEFT_ALT)
    ensures TextOf(s, FIRST) == video.Shown().cells
    ensures Cursor(s.video.x, s.video.y) == Cursor(video.x, video.y) && s.cursors[0] == Cursor(0, 0)
  {
    Boot(video);
    AltF(NO_KEYS, F2);
    EventLists(Key(LEFT_ALT), Tick, Tick, Tick);
    AltDown(video, [], Booted(video), FIRST);
    TextStays(Booted(video), FIRST, Key(LEFT_ALT));
    StayForm(Booted(video), FIRST, LEFT_ALT);
    s := Step(Booted(video), Key(LEFT_ALT));
  }

  /** From boot: Alt, F2. */
  lemma SecondShell(video: Video) returns (s: State)
    requires Fresh(video)
    ensures Reaches(video, [Key(LEFT_ALT), Key(F2)], s, SECOND)
    ensures s.keys == Pressed(After(NO_KEYS, LEFT_ALT), F2) && TextOf(s, SECOND) == video.Shown().cells
  {
    var b := AltAtBoot(video);
    EventLists(Key(LEFT_ALT), Key(F2), Tick, Tick);
    SecondOpens();
    SecondFacts(b);
    AltF2Opens(video, [Key(LEFT_ALT)], b, FIRST, 1);
    s := Step(b, Key(F2));
  }

  lemma SecondFacts(b: State)
    requires Represents(b, FIRST) && b.keys == After(NO_KEYS, LEFT_ALT)
    ensures Ready(b, Key(F2)) && TextOf(Step(b, Key(F2)), SECOND) == TextOf(b, FIRST)
  {
    SecondOpens();
    AltF2Facts(b, FIRST, 1);
    TextStays(b, FIRST, Key(F2));
  }

  /** The cursor of terminal 0 does not survive that, unless it was in the corner at boot. */
  lemma OpeningMovesTheCursor(video: Video) returns (s: State)
    requires Fresh(video) && Cursor(video.x, video.y) != Cursor(0, 0)
    ensures Reaches(video, [Key(LEFT_ALT)], s, FIRST) && KeyReady(s, F2)
    ensures Logical(KeyHandled(s, F2), 1, 0) != Logical(s, 0, 0)
  {
    SecondOpens();
    s := AltAtBoot(video);
    AltF2Facts(s, FIRST, 1);
    RunningFacts(s, FIRST);
    OpeningKeepsCursorIff(s, FIRST, F2, 1);
  }

  /** From boot: Alt, F2, tick. The first shell runs, behind the shell of terminal 1. */
  lemma FirstShellBehind(video: Video) returns (s: State)
    requires Fresh(video)
    ensures Reaches(video, [Key(LEFT_ALT), Key(F2), Tick], s, BEHIND)
    ensures s.keys == Pressed(After(NO_KEYS, LEFT_ALT), F2) && TextOf(s, BEHIND) == video.Shown().cells
  {
    var b := SecondShell(video);
    EventLists(Key(LEFT_ALT), Key(F2), Tick, Tick);
    SecondOpens();
    TextStays(b, SECOND, Tick);
    TickTo(video, [Key(LEFT_ALT), Key(F2)], b, SECOND, BEHIND);
    s := Step(b, Tick);
  }

  /** If it exits there, two processes claim the screen: the table no longer stands for call stacks. */
  lemma FirstShellExitsBehind(video: Video) returns (s: State)
    requires Fresh(video)
    ensures Reaches(video, [Key(LEFT_ALT), Key(F2), Tick], s, BEHIND)
    ensures HaltReady(s) && !HaltGuard(BEHIND) && !Consistent(Halted(s).table)
  {
    s := FirstShellBehind(video);
    RunningFacts(s, BEHIND);
    HaltFacts(s, BEHIND);
    HaltGuardIsExact(s, BEHIND);
  }

  const F3 := 61
  const ASTRAY: Control := Control([[0], [1], []], NO_SLOTS, NO_SLOTS, SECOND_SEATS, 0, 0, 0, false, 1)

  lemma AltF1Facts(b: State)
    requires Represents(b, BEHIND) && b.keys == Pressed(After(NO_KEYS, LEFT_ALT), F2)
    ensures Allowed(b, BEHIND, Key(F1)) && Ready(b, Key(F1)) && Next(BEHIND, Key(F1), ActOf(b, Key(F1))) == ASTRAY
    ensures TextOf(Step(b, Key(F1)), ASTRAY) == TextOf(b, BEHIND)
    ensures ActionOf(Step(b, Key(F1)).keys, F3) == SwitchTo(2)
  {
    AltF(NO_KEYS, F2);
    AltF(b.keys, F1);
    assert Focus(BEHIND, 0) == ASTRAY;
    TextStays(b, BEHIND, Key(F1));
    AltF1Keys(b, b.keys);
  }

  lemma AltF1Keys(b: State, keys: Keys)
    requires Represents(b, BEHIND) && b.keys == keys && keys.alt && !keys.ctrl && keys.oldData == LEFT_ALT
    ensures Ready(b, Key(F1)) && ActionOf(Step(b, Key(F1)).keys, F3) == SwitchTo(2)
  {
    AltF(keys, F1);
    AltF(After(keys, F1), F3);
    FocusForm(b, BEHIND, F1, 0);
  }

  /** If Alt-F1 brings it to the front instead, it stays mapped to its hidden page. */
  lemma AltF1LeadsAstray(video: Video) returns (s: State)
    requires Fresh(video)
    ensures Reaches(video, [Key(LEFT_ALT), Key(F2), Tick, Key(F1)], s, ASTRAY) && Astray(s)
    ensures ActionOf(s.keys, F3) == SwitchTo(2) && TextOf(s, ASTRAY) == video.Shown().cells
  {
    var b := FirstShellBehind(video);
    EventLists(Key(LEFT_ALT), Key(F2), Tick, Key(F1));
    AltF1Facts(b);
    Then(video, [Key(LEFT_ALT), Key(F2), Tick], b, BEHIND, Key(F1));
    s := Step(b, Key(F1));
    AstrayFacts(s, ASTRAY);
  }

  /** What it prints before the next tick is then lost, ... */
  lemma AstrayOutputIsLost(video: Video) returns (s: State)
    requires Fresh(video)
    ensures Reaches(video, [Key(LEFT_ALT), Key(F2), Tick, Key(F1)], s, ASTRAY)
    ensures exists c | c != '\0' :: Logical(HasWritten(s, c), 0, 0).screen != PutC(Logical(s, 0, 0).screen, c)
  {
    s := AltF1LeadsAstray(video);
    OutputIsDeliveredIff(s, ASTRAY);
  }

  const THIRD_SEATS: seq<nat> := [0, 1, 2, 0, 0, 0]
  const ASTRAY_THIRD: Control := Control([[0], [1], [2]], NO_SLOTS, NO_SLOTS, THIRD_SEATS, 2, 2, 2, false, 1)

  lemma ThirdOpens()
    ensures ASTRAY.FreeSlot() == Some(2) && Open(ASTRAY, 2, 2) == ASTRAY_THIRD
  {
    FreeIs(ASTRAY, 2);
  }

  lemma ThirdErases(s: State)
    requires Represents(s, ASTRAY) && ActionOf(s.keys, F3) == SwitchTo(2)
    ensures Ready(s, Key(F3)) && Next(ASTRAY, Key(F3), ActOf(s, Key(F3))) == ASTRAY_THIRD
    ensures TextOf(Step(s, Key(F3)), ASTRAY_THIRD) == Blanks(SIZE)
  {
    ThirdOpens();
    AfterOpening(s, ASTRAY, F3, 2, 0);
  }

  /** ... and if Alt-F3 opens a third terminal before it, all the text of terminal 0 is gone, ... */
  lemma AstrayTextIsErased(video: Video) returns (s: State, r: State)
    requires Fresh(video)
    ensures Reaches(video, [Key(LEFT_ALT), Key(F2), Tick, Key(F1)], s, ASTRAY)
    ensures TextOf(s, ASTRAY) == video.Shown().cells
    ensures Reaches(video, [Key(LEFT_ALT), Key(F2), Tick, Key(F1), Key(F3)], r, ASTRAY_THIRD)
    ensures TextOf(r, ASTRAY_THIRD) == Blanks(SIZE)
  {
    s := AltF1LeadsAstray(video);
    ThirdErases(s);
    r := Step(s, Key(F3));
    FiveEvents(Key(LEFT_ALT), Key(F2), Tick, Key(F1), Key(F3));
    Then(video, [Key(LEFT_ALT), Key(F2), Tick, Key(F1)], s, ASTRAY, Key(F3));
  }

  /** ... and what the third shell prints before the tick lands in the text of terminal 0. */
  lemma ThirdShellPrintsElsewhere(video: Video) returns (r: State)
    requires Fresh(video)
    ensures Reaches(video, [Key(LEFT_ALT), Key(F2), Tick, Key(F1), Key(F3)], r, ASTRAY_THIRD) && r.Home() == 2
    ensures exists c | c != '\0' :: Logical(HasWritten(r, c), 2, 0).screen.cells != Logical(r, 2, 0).screen.cells
    ensures forall c :: Logical(HasWritten(r, c), 2, 2).screen.cells == Logical(r, 2, 2).screen.cells
  {
    var s;
    s, r := AstrayTextIsErased(video);
    RunningFacts(r, ASTRAY_THIRD);
    AstrayFacts(r, ASTRAY_THIRD);
    OutputSpillsIff(r, ASTRAY_THIRD, 0);
    AstrayPrintsNothing(r, ASTRAY_THIRD);
  }

  // ---------- a parent slot that is used again ----------

  lemma ExecTo(video: Video, events: seq<Event>, s: State, k: Control, a: nat)
    requires Reaches(video, events, s, k) && !k.spinning && k.FreeSlot() == Some(a) && a < MAX_PROCESSES
    requires a != k.running
    ensures Ready(s, Exec(true)) && Reaches(video, events + [Exec(true)], Step(s, Exec(true)), Push(k, a))
    ensures Step(s, Exec(true)).keys == s.keys
  {
    Then(video, events, s, k, Exec(true));
    SlotFacts(s, k);
  }

  lemma HaltTo(video: Video, events: seq<Event>, s: State, k: Control, l: Control)
    requires Reaches(video, events, s, k) && !k.spinning && |k.stacks[k.home]| > 1 && Pop(k) == l
    ensures Ready(s, Halt) && Reaches(video, events + [Halt], Step(s, Halt), l)
    ensures Step(s, Halt).keys == s.keys
  {
    HaltFacts(s, k);
    RunningFacts(s, k);
    Then(video, events, s, k, Halt);
  }

  const IN_1: seq<nat> := [0, 1, 0, 0, 0, 0]      // slot 1 has the second place in its stack
  const BY_1: seq<nat> := [0, 0, 1, 0, 0, 0]      // slot 2 was created while 1 was running, ...
  const BY_2: seq<nat> := [0, 2, 1, 0, 0, 0]      // ... and slot 1 then while 2 was
  const AT_1: seq<nat> := [0, 0, 1, 0, 0, 0]      // slot 2 serves terminal 1, ...
  const BOTH_AT_1: seq<nat> := [0, 1, 1, 0, 0, 0]   // ... and so does slot 1

  const PROGRAM: Control := Control([[0, 1], [], []], IN_1, NO_SLOTS, NO_SLOTS, 0, 1, 0, false, 0)
  const OPENED: Control := Control([[0, 1], [2], []], IN_1, BY_1, AT_1, 1, 2, 1, false, 0)
  const PROGRAM_BEHIND: Control := Control([[0, 1], [2], []], IN_1, BY_1, AT_1, 1, 1, 0, false, 1)
  const PROGRAM_GONE: Control := Control([[0], [2], []], IN_1, BY_1, AT_1, 1, 0, 0, false, 1)
  const SHELL_AGAIN: Control := Control([[0], [2], []], IN_1, BY_1, AT_1, 1, 2, 1, false, 0)
  const REUSED: Control := Control([[0], [2, 1], []], IN_1, BY_2, BOTH_AT_1, 1, 1, 1, false, 0)
  const SHELL_LAST: Control := Control([[0], [2], []], IN_1, BY_2, BOTH_AT_1, 1, 2, 1, false, 0)

  lemma ReusePictures()
    ensures FIRST.FreeSlot() == Some(1) && Push(FIRST, 1) == PROGRAM
    ensures PROGRAM.FreeSlot() == Some(2) && Open(PROGRAM, 2, 1) == OPENED
    ensures OPENED.NextTop() == Some(1) && Schedule(OPENED) == PROGRAM_BEHIND
    ensures Pop(PROGRAM_BEHIND) == PROGRAM_GONE
  {
    FreeIs(FIRST, 1);
    assert [0] + [1] == [0, 1] && FIRST.stacks[0 := [0, 1]] == PROGRAM.stacks;
    FreeIs(PROGRAM, 2);
    NextIs(OPENED, 4);
  }

  lemma ReuseGoesOn()
    ensures PROGRAM_GONE.NextTop() == Some(2) && Schedule(PROGRAM_GONE) == SHELL_AGAIN
    ensures SHELL_AGAIN.FreeSlot() == Some(1) && Push(SHELL_AGAIN, 1) == REUSED
    ensures Pop(REUSED) == SHELL_LAST
  {
    assert [2] + [1] == [2, 1] && SHELL_AGAIN.stacks[1 := [2, 1]] == REUSED.stacks;
    NextIs(PROGRAM_GONE, 1);
    FreeIs(SHELL_AGAIN, 1);
  }

  lemma ProgramRuns(video: Video) returns (s: State)
    requires Fresh(video)
    ensures Reaches(video, [Key(LEFT_ALT), Exec(true)], s, PROGRAM) && s.keys == After(NO_KEYS, LEFT_ALT)
  {
    ReusePictures();
    Boot(video);
    AltDown(video, [], Booted(video), FIRST);
    var b := Step(Booted(video), Key(LEFT_ALT));
    ExecTo(video, [] + [Key(LEFT_ALT)], b, FIRST, 1);
    s := Step(b, Exec(true));
    assert [] + [Key(LEFT_ALT)] + [Exec(true)] == [Key(LEFT_ALT), Exec(true)];
  }

  /** A program of terminal 0 runs in slot 1 when the shell of terminal 1 is opened, and ends; ... */
  lemma OpenedOverProgram(video: Video, before: seq<Event>, s: State) returns (r: State, events: seq<Event>)
    requires Reaches(video, before, s, PROGRAM) && s.keys == After(NO_KEYS, LEFT_ALT)
    ensures Reaches(video, events, r, PROGRAM_GONE)
  {
    ReusePictures();
    RunningFacts(s, PROGRAM);
    AltF2Opens(video, before, s, PROGRAM, 2);
    r, events := Step(s, Key(F2)), before + [Key(F2)];
    TickTo(video, events, r, OPENED, PROGRAM_BEHIND);
    r, events := Step(r, Tick), events + [Tick];
    HaltTo(video, events, r, PROGRAM_BEHIND, PROGRAM_GONE);
    r, events := Step(r, Halt), events + [Halt];
  }

  /** ... the shell runs a program of its own, which is given the same slot, and gives it back; ... */
  lemma SlotReused(video: Video, before: seq<Event>, s: State) returns (r: State, events: seq<Event>)
    requires Reaches(video, before, s, PROGRAM_GONE)
    ensures Reaches(video, events, r, SHELL_LAST)
  {
    ReuseGoesOn();
    TickTo(video, before, s, PROGRAM_GONE, SHELL_AGAIN);
    r, events := Step(s, Tick), before + [Tick];
    ExecTo(video, events, r, SHELL_AGAIN, 1);
    r, events := Step(r, Exec(true)), events + [Exec(true)];
    HaltTo(video, events, r, REUSED, SHELL_LAST);
    r, events := Step(r, Halt), events + [Halt];
  }

  lemma LastShellBreaks(s: State, k: Control)
    requires Represents(s, k) && k == SHELL_LAST
    ensures HaltReady(s) && !HaltGuard(k) && !Consistent(Halted(s).table)
  {
    assert k.seat[k.opener[2]] == 1;
    HaltGuardIsExact(s, k);
  }

  /** ... so that, when the shell exits, it is taken for the child of a slot that is free. */
  lemma ShellWithReusedParentExits(video: Video) returns (s: State, events: seq<Event>)
    requires Fresh(video)
    ensures Reaches(video, events, s, SHELL_LAST)
    ensures HaltReady(s) && !HaltGuard(SHELL_LAST) && !Consistent(Halted(s).table)
  {
    s := ProgramRuns(video);
    s, events := OpenedOverProgram(video, [Key(LEFT_ALT), Exec(true)], s);
    s, events := SlotReused(video, events, s);
    LastShellBreaks(s, SHELL_LAST);
  }
}
