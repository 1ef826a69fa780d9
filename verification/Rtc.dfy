/** The virtual real-time clock of rtc.c. */
module Rtc {
  // One hardware interrupt, 512 times a second, is counted down separately for each of the three terminals.

  const TERMINALS := 3
  const BASE := 512
  const HIGH_FREQ := 1024

  type Terminal = t: nat | t < TERMINALS

  datatype State = State(enabled: bool, base: nat, countNum: seq<nat>,
                         countDown: seq<nat>, frequency: seq<nat>, interrupt: seq<bool>) {
    predicate Valid() {
      |countNum| == TERMINALS && |countDown| == TERMINALS && |frequency| == TERMINALS && |interrupt| == TERMINALS
    }
  }

  const AT_BOOT := State(false, 0, [0, 0, 0], [0, 0, 0], [2, 2, 2], [false, false, false])

  // ---------- what the operations do ----------

  function Less(n: nat): nat {
    if n > 0 then n - 1 else 0
  }

  /** One hardware tick: every terminal counts down, and only the current one can be served. */
  function Ticked(s: State, current: Terminal): (r: State)
    requires s.Valid()
    ensures r.Valid()
  {
    if !s.enabled then s.(interrupt := s.interrupt[current := true])
    else
      var down := [Less(s.countDown[0]), Less(s.countDown[1]), Less(s.countDown[2])];
      if down[current] == 0
      then s.(countDown := down[current := s.countNum[current]], interrupt := s.interrupt[current := true])
      else s.(countDown := down)
  }

  /** A terminal gets a rate, and starts to count from there. */
  function Rated(s: State, t: Terminal, rate: nat): (r: State)
    requires s.Valid() && rate > 0
    ensures r.Valid()
  {
    s.(frequency := s.frequency[t := rate],
       countNum := s.countNum[t := s.base / rate], countDown := s.countDown[t := s.base / rate])
  }

  /** An open sets 2 Hz for its own terminal, and takes away the interrupts of all. */
  function Opened(s: State, t: Terminal): (r: State)
    requires s.Valid()
    ensures r.Valid()
  {
    Rated(s.(enabled := true, base := BASE, interrupt := [false, false, false]), t, 2)
  }

  /** Any rate up to 512 is taken, also one that is no power of two. */
  function Written(s: State, t: Terminal, rate: nat): (r: State)
    requires s.Valid() && rate > 0
    ensures r.Valid()
  {
    if rate > BASE then s else Rated(s.(enabled := true), t, rate)
  }

  /** A rate of 0 is stored, and the division by it faults. */
  function Faulted(s: State, t: Terminal): (r: State)
    requires s.Valid()
    ensures r.Valid()
  {
    s.(enabled := true, frequency := s.frequency[t := 0])
  }

  datatype Outcome = Code(code: int) | DivideError

  function Cleared(s: State, t: Terminal): (r: State)
    requires s.Valid()
    ensures r.Valid()
  {
    s.(interrupt := s.interrupt[t := false])
  }

  // ---------- the code ----------

  class Clock {
    var enabled: bool
    var base: nat
    const countNum: array<nat>
    const countDown: array<nat>
    const frequency: array<nat>
    const interrupt: array<bool>

    ghost predicate Wired() {
      && countNum.Length == TERMINALS && countDown.Length == TERMINALS
      && frequency.Length == TERMINALS && interrupt.Length == TERMINALS
      && countNum != countDown && countNum != frequency && countDown != frequency
    }

    ghost function Value(): State
      reads this, countNum, countDown, frequency, interrupt
    {
      State(enabled, base, countNum[..], countDown[..], frequency[..], interrupt[..])
    }

    constructor ()
      ensures Wired() && Value() == AT_BOOT
      ensures fresh(countNum) && fresh(countDown) && fresh(frequency) && fresh(interrupt)
    {
      enabled := false;
      base := 0;
      countNum := new nat[TERMINALS](_ => 0);
      countDown := new nat[TERMINALS](_ => 0);
      frequency := new nat[TERMINALS](_ => 2);
      interrupt := new bool[TERMINALS](_ => false);
    }

    /** `rtc_interrupt`. */
    method Interrupt(current: Terminal)
      requires Wired()
      modifies countDown, interrupt
      ensures Value() == Ticked(old(Value()), current)
    {
      if enabled {
        if countDown[0] > 0 {
          countDown[0] := countDown[0] - 1;
        }
        if countDown[1] > 0 {
          countDown[1] := countDown[1] - 1;
        }
        if countDown[2] > 0 {
          countDown[2] := countDown[2] - 1;
        }
        assert countDown[..] == [Less(old(countDown[0])), Less(old(countDown[1])), Less(old(countDown[2]))];
        if countDown[current] == 0 {
          countDown[current] := countNum[current];
          interrupt[current] := true;
        }
      } else {
        interrupt[current] := true;
      }
    }

    method SetRate(current: Terminal, rate: nat)
      requires Wired() && rate > 0
      modifies countNum, countDown, frequency
      ensures Value() == Rated(old(Value()), current, rate)
    {
      frequency[current] := rate;
      countNum[current] := base / frequency[current];
      countDown[current] := countNum[current];
    }

    /** `rtc_open`. */
    method Open(current: Terminal) returns (r: int)
      requires Wired()
      modifies this, countNum, countDown, frequency, interrupt
      ensures r == 0 && Value() == Opened(old(Value()), current)
    {
      interrupt[0] := false;
      interrupt[1] := false;
      interrupt[2] := false;
      enabled := true;
      base := BASE;
      assert interrupt[..] == [false, false, false];
      SetRate(current, 2);
      return 0;
    }

    /** `rtc_write`; for a rate of 0 it faults in the middle of setting the rate. */
    method Write(current: Terminal, rate: nat, nbytes: int) returns (r: Outcome)
      requires Wired()
      modifies this, countNum, countDown, frequency
      ensures r == if nbytes != 4 || rate > BASE then Code(-1) else if rate == 0 then DivideError else Code(0)
      ensures Value() == if nbytes != 4 then old(Value())
                         else if rate == 0 then Faulted(old(Value()), current)
                         else Written(old(Value()), current, rate)
    {
      if nbytes != 4 {
        return Code(-1);
      }
      if rate > HIGH_FREQ {
        return Code(-1);
      } else if rate > BASE {
        return Code(-1);
      }
      enabled := true;
      if rate == 0 {
        frequency[current] := rate;
        return DivideError;
      }
      SetRate(current, rate);
      return Code(0);
    }

    /** `rtc_read` up to its waiting loop, and again behind it. */
    method ClearInterrupt(current: Terminal)
      requires Wired()
      modifies interrupt
      ensures Value() == Cleared(old(Value()), current)
    {
      interrupt[current] := false;
    }
  }

  // ---------- runs ----------

  datatype Event = Tick(current: Terminal)
    | OpenBy(user: Terminal) | WriteBy(user: Terminal, rate: nat) | ClearBy(user: Terminal)

  function Step(s: State, e: Event): (r: State)
    requires s.Valid() && (e.WriteBy? ==> e.rate > 0)
    ensures r.Valid()
  {
    match e
    case Tick(current) => Ticked(s, current)
    case OpenBy(t) => Opened(s, t)
    case WriteBy(t, rate) => Written(s, t, rate)
    case ClearBy(t) => Cleared(s, t)
  }

  /** No write of rate 0, and nothing that sets the rate of terminal `t`. */
  predicate Leaves(e: Event, t: Terminal) {
    match e
    case OpenBy(user) => user != t
    case WriteBy(user, rate) => rate > 0 && (user != t || rate > BASE)
    case _ => true
  }

  predicate LeavesRate(events: seq<Event>, t: Terminal) {
    forall i | 0 <= i < |events| :: Leaves(events[i], t)
  }

  function Run(s: State, events: seq<Event>, t: Terminal): (r: State)
    requires s.Valid() && LeavesRate(events, t)
    ensures r.Valid()
  {
    if events == [] then s else Step(Run(s, events[..|events| - 1], t), events[|events| - 1])
  }

  /** The current terminals of the hardware ticks of a run. */
  function Schedule(events: seq<Event>): seq<Terminal> {
    if events == [] then []
    else
      var before, e := Schedule(events[..|events| - 1]), events[|events| - 1];
      if e.Tick? then before + [e.current] else before
  }

  /** A tick gives terminal `t` a virtual interrupt. */
  predicate Fires(s: State, e: Event, t: Terminal)
    requires s.Valid()
  {
    e.Tick? && e.current == t && s.enabled && s.countDown[t] <= 1
  }

  /** The numbers of the hardware ticks that gave terminal `t` a virtual interrupt, counted from 1. */
  function Interrupts(s: State, events: seq<Event>, t: Terminal): seq<nat>
    requires s.Valid() && LeavesRate(events, t)
  {
    if events == [] then []
    else
      var first, e := events[..|events| - 1], events[|events| - 1];
      if Fires(Run(s, first, t), e, t) then Interrupts(s, first, t) + [|Schedule(events)|] else Interrupts(s, first, t)
  }

  /** Tick `k` is the first at which `t` is current of those at least `n` after tick `last`. */
  predicate IsNext(schedule: seq<Terminal>, t: Terminal, n: nat, last: nat, k: nat) {
    && last + n <= k && 1 <= k <= |schedule| && schedule[k - 1] == t
    && NoneIn(schedule, t, last + n, k)
  }

  /** `t` is current at no tick from number `from` up to, but without, number `to`. */
  predicate NoneIn(schedule: seq<Terminal>, t: Terminal, from: nat, to: nat) {
    forall j | 0 <= j < |schedule| && from <= j + 1 < to :: schedule[j] != t
  }

  /** The tick before number `i` of a list, or the start. */
  function Before(ticks: seq<nat>, i: nat): nat
    requires i <= |ticks|
  {
    if i == 0 then 0 else ticks[i - 1]
  }

  function LastOf(ticks: seq<nat>): nat {
    Before(ticks, |ticks|)
  }

  ghost predicate Right(schedule: seq<Terminal>, t: Terminal, n: nat, ticks: seq<nat>, i: nat)
    requires i < |ticks|
  {
    IsNext(schedule, t, n, Before(ticks, i), ticks[i])
  }

  /**
   `ticks` is where a terminal with `n` ticks to wait is served: each follows from the one before, and none
   is left out.
   */
  ghost predicate Served(schedule: seq<Terminal>, t: Terminal, n: nat, ticks: seq<nat>) {
    && (forall i | 0 <= i < |ticks| :: Right(schedule, t, n, ticks, i))
    && NoneIn(schedule, t, LastOf(ticks) + n, |schedule| + 1)
  }

  /** What the counter of a terminal holds: the wait that is left since the last interrupt, however late that was. */
  ghost predicate Counts(s: State, t: Terminal, n: nat, past: nat) {
    s.Valid() && s.enabled && s.countNum[t] == n && s.countDown[t] == if past < n then n - past else 0
  }

  lemma TickCounts(s: State, t: Terminal, n: nat, past: nat, current: Terminal)
    requires Counts(s, t, n, past) && n > 0
    ensures Fires(s, Tick(current), t) <==> current == t && past + 1 >= n
    ensures Counts(Ticked(s, current), t, n, if current == t && past + 1 >= n then 0 else past + 1)
  {
  }

  lemma ServedGrows(schedule: seq<Terminal>, t: Terminal, n: nat, ticks: seq<nat>, current: Terminal)
    requires Served(schedule, t, n, ticks) && n > 0 && LastOf(ticks) <= |schedule|
    ensures var k := |schedule| + 1;
            Served(schedule + [current], t, n, if current == t && k >= LastOf(ticks) + n then ticks + [k] else ticks)
  {
    var k, longer := |schedule| + 1, schedule + [current];
    var more := if current == t && k >= LastOf(ticks) + n then ticks + [k] else ticks;
    forall i | 0 <= i < |ticks|
      ensures Right(longer, t, n, more, i)
    {
      assert Right(schedule, t, n, ticks, i);
    }
    assert forall i | 0 <= i < |more| :: Right(longer, t, n, more, i) by {
      assert |more| > |ticks| ==> Right(longer, t, n, more, |ticks|);
    }
  }

  /** One event of a run, seen from terminal `t`. */
  lemma EventCounts(s: State, e: Event, t: Terminal, n: nat, past: nat)
    requires Counts(s, t, n, past) && n > 0 && Leaves(e, t)
    ensures Counts(Step(s, e), t, n, if !e.Tick? then past else if Fires(s, e, t) then 0 else past + 1)
  {
    match e
    case Tick(current) => TickCounts(s, t, n, past, current);
    case _ =>
  }

  /**
   From the moment a terminal has set its rate, and whatever the other terminals do, its next virtual
   interrupt is at the first hardware tick that is at least `count_num` ticks after the last one and
   finds the terminal current.
   */
  lemma {:induction false} InterruptsAreServed(s: State, events: seq<Event>, t: Terminal, n: nat)
    requires n > 0 && Counts(s, t, n, 0) && LeavesRate(events, t)
    ensures Served(Schedule(events), t, n, Interrupts(s, events, t))
    ensures LastOf(Interrupts(s, events, t)) <= |Schedule(events)|
    ensures Counts(Run(s, events, t), t, n, |Schedule(events)| - LastOf(Interrupts(s, events, t)))
  {
    if events == [] {
    } else {
      var first, e := events[..|events| - 1], events[|events| - 1];
      InterruptsAreServed(s, first, t, n);
      OneEventMore(Run(s, first, t), e, t, n, Schedule(first), Interrupts(s, first, t), Interrupts(s, events, t));
    }
  }

  lemma OneEventMore(s: State, e: Event, t: Terminal, n: nat, schedule: seq<Terminal>, ticks: seq<nat>, more: seq<nat>)
    requires n > 0 && Leaves(e, t) && Served(schedule, t, n, ticks) && LastOf(ticks) <= |schedule|
    requires Counts(s, t, n, |schedule| - LastOf(ticks))
    requires more == if Fires(s, e, t) then ticks + [|schedule| + 1] else ticks
    ensures var longer := if e.Tick? then schedule + [e.current] else schedule;
            && Served(longer, t, n, more) && LastOf(more) <= |longer|
            && Counts(Step(s, e), t, n, |longer| - LastOf(more))
  {
    EventCounts(s, e, t, n, |schedule| - LastOf(ticks));
    if e.Tick? {
      TickCounts(s, t, n, |schedule| - LastOf(ticks), e.current);
      ServedGrows(schedule, t, n, ticks, e.current);
    }
  }

  /** An accepted rate of 1 to 512 starts such a run with at least one tick to wait. */
  lemma WriteStarts(s: State, t: Terminal, rate: nat)
    requires s.Valid() && s.base == BASE && 1 <= rate <= BASE
    ensures BASE / rate > 0 && Counts(Written(s, t, rate), t, BASE / rate, 0)
    ensures Written(s, t, rate).base == BASE && Written(s, t, rate).frequency[t] == rate
  {
  }

  /** A larger rate is refused and changes nothing. */
  lemma LargeRateIsRefused(s: State, t: Terminal, rate: nat)
    requires s.Valid() && rate > BASE
    ensures Written(s, t, rate) == s
  {
  }

  /** A write of rate 0 leaves its terminal, and the others, counting at their old rates. */
  lemma FaultKeepsCounting(s: State, t: Terminal, u: Terminal, n: nat, past: nat)
    requires Counts(s, u, n, past)
    ensures Counts(Faulted(s, t), u, n, past)
    ensures var r := Faulted(s, t);
            r.base == s.base && r.interrupt == s.interrupt && r.frequency[u] == if u == t then 0 else s.frequency[u]
  {
  }

  /** From the first open on, the hardware ticks 512 times a second, and no run changes that. */
  lemma {:induction false} BaseStays(s: State, events: seq<Event>, t: Terminal)
    requires s.Valid() && s.base == BASE && LeavesRate(events, t)
    ensures Run(s, events, t).base == BASE
  {
    if events == [] {
    } else {
      BaseStays(s, events[..|events| - 1], t);
    }
  }

  lemma OpenStarts(s: State, t: Terminal)
    requires s.Valid()
    ensures Counts(Opened(s, t), t, 256, 0) && Opened(s, t).base == BASE
  {
  }

  lemma {:induction false} SamePrefix(schedule: seq<Terminal>, t: Terminal, n: nat, a: seq<nat>, b: seq<nat>, i: nat)
    requires Served(schedule, t, n, a) && Served(schedule, t, n, b) && i <= |a| && i <= |b|
    ensures a[..i] == b[..i] && Before(a, i) == Before(b, i)
  {
    if i == 0 {
    } else {
      SamePrefix(schedule, t, n, a, b, i - 1);
      assert Right(schedule, t, n, a, i - 1) && Right(schedule, t, n, b, i - 1);
      NextIsUnique(schedule, t, n, Before(a, i - 1), a[i - 1], b[i - 1]);
      assert a[..i] == a[..i - 1] + [a[i - 1]] && b[..i] == b[..i - 1] + [b[i - 1]];
    }
  }

  lemma NextIsUnique(schedule: seq<Terminal>, t: Terminal, n: nat, last: nat, k: nat, l: nat)
    requires IsNext(schedule, t, n, last, k) && IsNext(schedule, t, n, last, l)
    ensures k == l
  {
  }

  /** The rule leaves no choice: two lists of ticks that follow it are the same. */
  lemma ServedIsUnique(schedule: seq<Terminal>, t: Terminal, n: nat, a: seq<nat>, b: seq<nat>)
    requires Served(schedule, t, n, a) && Served(schedule, t, n, b)
    ensures a == b
  {
    NotLonger(schedule, t, n, a, b);
    NotLonger(schedule, t, n, b, a);
    SamePrefix(schedule, t, n, a, b, |a|);
    assert a == a[..|a|] && b == b[..|b|];
  }

  lemma NotLonger(schedule: seq<Terminal>, t: Terminal, n: nat, a: seq<nat>, b: seq<nat>)
    requires Served(schedule, t, n, a) && Served(schedule, t, n, b)
    ensures |b| <= |a|
  {
    if |a| < |b| {
      SamePrefix(schedule, t, n, a, b, |a|);
      NoneLeft(schedule, t, n, b, |a|);
    }
  }

  /** Behind a tick of the list that another follows, the terminal is current again. */
  lemma NoneLeft(schedule: seq<Terminal>, t: Terminal, n: nat, ticks: seq<nat>, i: nat)
    requires Served(schedule, t, n, ticks) && i < |ticks|
    ensures !NoneIn(schedule, t, Before(ticks, i) + n, |schedule| + 1)
  {
    assert Right(schedule, t, n, ticks, i);
    assert schedule[ticks[i] - 1] == t;
  }

  predicate CurrentWithin(schedule: seq<Terminal>, t: Terminal, from: nat, gap: nat) {
    exists j | from <= j < from + gap && j < |schedule| :: schedule[j] == t
  }

  /** A terminal that is current at least every `gap` ticks waits less than `gap` ticks longer than it should. */
  lemma DelayIsBounded(schedule: seq<Terminal>, t: Terminal, n: nat, ticks: seq<nat>, gap: nat, i: nat)
    requires Served(schedule, t, n, ticks) && n > 0 && gap > 0 && i < |ticks|
    requires forall from: nat | from + gap <= |schedule| :: CurrentWithin(schedule, t, from, gap)
    ensures Before(ticks, i) + n <= ticks[i] < Before(ticks, i) + n + gap
  {
    var from := Before(ticks, i) + n;
    assert Right(schedule, t, n, ticks, i);
    if from - 1 + gap <= |schedule| {
      assert CurrentWithin(schedule, t, from - 1, gap);
      var j :| from - 1 <= j < from - 1 + gap && j < |schedule| && schedule[j] == t;
    }
  }

  // ---------- reading ----------

  /** An event that takes away what terminal `t` has not yet seen: its own clearing, and an open by anyone. */
  predicate TakesAway(e: Event, t: Terminal) {
    e.OpenBy? || e == ClearBy(t)
  }

  /** The number of hardware ticks before the last event that takes away, or 0. */
  function TakenAt(events: seq<Event>, t: Terminal): nat {
    if events == [] then 0
    else
      var first, e := events[..|events| - 1], events[|events| - 1];
      if TakesAway(e, t) then |Schedule(first)| else TakenAt(first, t)
  }

  lemma FlagStep(s: State, e: Event, t: Terminal)
    requires s.Valid() && s.enabled && (e.WriteBy? ==> e.rate > 0)
    ensures Step(s, e).interrupt[t] == (!TakesAway(e, t) && (s.interrupt[t] || Fires(s, e, t)))
  {
  }

  lemma {:induction false} TakenBefore(events: seq<Event>, t: Terminal)
    ensures TakenAt(events, t) <= |Schedule(events)|
  {
    if events == [] {
    } else {
      TakenBefore(events[..|events| - 1], t);
    }
  }

  /**
   A reader finds its flag set exactly if its last interrupt came after the last event that took one away,
   be it its own clearing or an open by any terminal.
   */
  lemma {:induction false} FlagIsSetIff(s: State, events: seq<Event>, t: Terminal, n: nat)
    requires n > 0 && Counts(s, t, n, 0) && !s.interrupt[t] && LeavesRate(events, t)
    ensures Run(s, events, t).interrupt[t] <==> LastOf(Interrupts(s, events, t)) > TakenAt(events, t)
  {
    if events == [] {
    } else {
      var first, e := events[..|events| - 1], events[|events| - 1];
      FlagIsSetIff(s, first, t, n);
      InterruptsAreServed(s, first, t, n);
      TakenBefore(first, t);
      assert Leaves(e, t);
      FlagStep(Run(s, first, t), e, t);
    }
  }

  predicate OnlyTicksAndClears(events: seq<Event>) {
    forall i | 0 <= i < |events| :: events[i].Tick? || events[i].ClearBy?
  }

  /** From event `from` on terminal `t` clears nothing. */
  predicate NoneCleared(events: seq<Event>, from: nat, t: Terminal) {
    forall j | from <= j < |events| :: events[j] != ClearBy(t)
  }

  /** Event `i` is a tick at which `t` is current, and `t` clears nothing after it. */
  predicate KeptFrom(events: seq<Event>, i: nat, t: Terminal)
    requires i < |events|
  {
    events[i] == Tick(t) && NoneCleared(events, i + 1, t)
  }

  ghost predicate IsKept(events: seq<Event>, t: Terminal, was: bool) {
    (was && NoneCleared(events, 0, t)) || exists i | 0 <= i < |events| :: KeptFrom(events, i, t)
  }

  lemma NoneClearedSnoc(events: seq<Event>, e: Event, from: nat, t: Terminal)
    requires from <= |events|
    ensures NoneCleared(events + [e], from, t) <==> NoneCleared(events, from, t) && e != ClearBy(t)
  {
    assert (events + [e])[|events|] == e;
    assert forall j | 0 <= j < |events| :: (events + [e])[j] == events[j];
  }

  lemma KeptSnoc(events: seq<Event>, e: Event, t: Terminal, was: bool)
    ensures IsKept(events + [e], t, was) <==> e == Tick(t) || (IsKept(events, t, was) && e != ClearBy(t))
  {
    var longer := events + [e];
    NoneClearedSnoc(events, e, 0, t);
    forall i | 0 <= i < |events|
      ensures KeptFrom(longer, i, t) <==> KeptFrom(events, i, t) && e != ClearBy(t)
    {
      NoneClearedSnoc(events, e, i + 1, t);
    }
    assert KeptFrom(longer, |events|, t) <==> e == Tick(t);
    if i :| 0 <= i < |events| && KeptFrom(events, i, t) {
      assert e != ClearBy(t) ==> KeptFrom(longer, i, t);
    }
  }

  /** While the virtual clock is disabled every hardware tick is an interrupt of the current terminal. */
  lemma {:induction false} WhileDisabled(s: State, events: seq<Event>, t: Terminal)
    requires s.Valid() && !s.enabled && OnlyTicksAndClears(events)
    ensures LeavesRate(events, t) && !Run(s, events, t).enabled
    ensures Run(s, events, t).interrupt[t] <==> IsKept(events, t, s.interrupt[t])
  {
    if events == [] {
    } else {
      var n := |events| - 1;
      WhileDisabled(s, events[..n], t);
      assert events == events[..n] + [events[n]];
      KeptSnoc(events[..n], events[n], t, s.interrupt[t]);
    }
  }

  /** A reader that clears its flag and then waits: `events` is what happens until it looks again. */
  predicate Waits(events: seq<Event>, t: Terminal) {
    forall i | 0 <= i < |events| :: events[i] != ClearBy(t)
  }

  /** Event `i` is an open, after hardware tick `k`. */
  predicate OpensAfter(events: seq<Event>, i: nat, k: nat)
    requires i < |events|
  {
    events[i].OpenBy? && |Schedule(events[..i])| >= k
  }

  /** It misses an interrupt exactly if a terminal opened the clock between the last interrupt and its look. */
  lemma InterruptIsLostIff(s: State, events: seq<Event>, t: Terminal, n: nat)
    requires n > 0 && Counts(s, t, n, 0) && !s.interrupt[t] && LeavesRate(events, t) && Waits(events, t)
    ensures Interrupts(s, events, t) != [] && !Run(s, events, t).interrupt[t]
      <==> Interrupts(s, events, t) != [] && exists i | 0 <= i < |events| ::
             OpensAfter(events, i, LastOf(Interrupts(s, events, t)))
  {
    FlagIsSetIff(s, events, t, n);
    if Interrupts(s, events, t) != [] {
      InterruptsAreServed(s, events, t, n);
      LastIsPositive(s, events, t, n);
      TakenIff(events, t, LastOf(Interrupts(s, events, t)));
    }
  }

  lemma LastIsPositive(s: State, events: seq<Event>, t: Terminal, n: nat)
    requires n > 0 && Counts(s, t, n, 0) && LeavesRate(events, t) && Interrupts(s, events, t) != []
    ensures LastOf(Interrupts(s, events, t)) > 0
  {
    var ticks := Interrupts(s, events, t);
    InterruptsAreServed(s, events, t, n);
    assert Right(Schedule(events), t, n, ticks, |ticks| - 1);
  }

  lemma OpensBefore(events: seq<Event>, e: Event, i: nat, k: nat)
    requires i <= |events|
    ensures OpensAfter(events + [e], i, k) <==>
              if i < |events| then OpensAfter(events, i, k) else e.OpenBy? && |Schedule(events)| >= k
  {
    if i < |events| {
      assert (events + [e])[..i] == events[..i];
    } else {
      assert (events + [e])[..i] == events;
    }
  }

  lemma {:induction false} TakenIff(events: seq<Event>, t: Terminal, k: nat)
    requires k > 0 && Waits(events, t)
    ensures TakenAt(events, t) >= k <==> exists i | 0 <= i < |events| :: OpensAfter(events, i, k)
  {
    if events == [] {
    } else {
      var last := |events| - 1;
      var first := events[..last];
      TakenIff(first, t, k);
      TakenBefore(first, t);
      assert events == first + [events[last]] && events[last] != ClearBy(t);
      forall i | 0 <= i <= last
        ensures OpensAfter(events, i, k) <==>
                  if i < last then OpensAfter(first, i, k) else events[last].OpenBy? && |Schedule(first)| >= k
      {
        OpensBefore(first, events[last], i, k);
      }
      if i :| 0 <= i < last && OpensAfter(first, i, k) {
        assert OpensAfter(events, i, k);
      }
      assert events[last].OpenBy? && |Schedule(first)| >= k ==> OpensAfter(events, last, k);
    }
  }

  /**
   Terminal 0 opens the clock, asks for 512 Hz and waits; the first tick serves it, and terminal 1 opens the
   clock.
   */
  lemma OpenLosesInterrupt()
    ensures var s, events := Written(Opened(AT_BOOT, 0), 0, 512), [Tick(0), OpenBy(1)];
            && Counts(s, 0, 1, 0) && !s.interrupt[0] && LeavesRate(events, 0)
            && Interrupts(s, events, 0) == [1] && !Run(s, events, 0).interrupt[0]
  {
    var s, events: seq<Event> := Written(Opened(AT_BOOT, 0), 0, 512), [Tick(0), OpenBy(1)];
    OpenStarts(AT_BOOT, 0);
    WriteStarts(Opened(AT_BOOT, 0), 0, 512);
    assert events[..1] == [Tick(0)] && [Tick(0)][..0] == [];
    assert Run(s, [Tick(0)], 0) == Ticked(s, 0);
    assert Interrupts(s, [Tick(0)], 0) == [] + [1];
  }
}
