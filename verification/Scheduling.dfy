/**
 Who runs when: the timer is a fair round robin over the active processes, whatever happens between
 its ticks, and calls nest on every terminal.
 */
module Scheduling {
  import opened Wrappers
  import opened Keymap
  import opened ProcessTable
  import opened Ring
  import opened KernelState
  import opened Isolation
  import opened Runs

  // ---------- ticks ----------

  function LiveSlots(t: Table): (b: seq<bool>)
    requires t.Valid()
    ensures |b| == MAX_PROCESSES
  {
    seq(MAX_PROCESSES, i requires 0 <= i < MAX_PROCESSES => t.Live(i))
  }

  lemma NextIsHead(t: Table, cur: nat)
    requires t.Valid() && cur < MAX_PROCESSES && NextActive(t, cur).Some?
    ensures var b, h := LiveSlots(t), NextActive(t, cur).value;
            Order(b, cur) != [] && Order(b, cur)[0] == h && Order(b, h) == Order(b, cur)[1..] + [h]
  {
    var hits := seq(MAX_PROCESSES, j requires 0 <= j < MAX_PROCESSES => t.Live(Around(cur, j)));
    var j := FirstTrue(hits).value;
    forall l | 0 <= l < j
      ensures !LiveSlots(t)[Around(cur, l)]
    {
      assert !hits[l];
    }
    assert hits[j];
    OrderRotates(LiveSlots(t), cur, j);
  }

  /** What a tick is to the scheduler. */
  lemma TickChooses(s: State, k: Control)
    requires Represents(s, k)
    ensures TickReady(s) && Ticked(s).table == s.table
    ensures NextActive(s.table, s.running).Some? && Ticked(s).running == NextActive(s.table, s.running).value
  {
    TickKeeps(s, k);
    ScansAgree(s.table, k);
  }

  /** The active processes are the same before and after every event of the run. */
  ghost predicate Steady(s: State, k: Control, events: seq<Event>)
    requires Represents(s, k) && RunAllowed(s, k, events)
    decreases |events|
  {
    events == [] || (
      StepRefines(s, k, events[0]);
      var s', k' := Step(s, events[0]), Next(k, events[0], ActOf(s, events[0]));
      LiveSlots(s'.table) == LiveSlots(s.table) && Steady(s', k', events[1..]))
  }

  /** The processes chosen by the ticks of a run. */
  ghost function Chosen(s: State, k: Control, events: seq<Event>): seq<nat>
    requires Represents(s, k) && RunAllowed(s, k, events)
    decreases |events|
  {
    if events == [] then []
    else
      StepRefines(s, k, events[0]);
      var s', k' := Step(s, events[0]), Next(k, events[0], ActOf(s, events[0]));
      (if events[0].Tick? then [s'.running] else []) + Chosen(s', k', events[1..])
  }

  /** The other events hand over the processor only by changing who is active. */
  lemma OnlyTicksSchedule(s: State, k: Control, e: Event)
    requires Represents(s, k) && Allowed(s, k, e) && !e.Tick?
    requires Ready(s, e) && LiveSlots(Step(s, e).table) == LiveSlots(s.table)
    ensures Step(s, e).running == s.running
  {
    StepRefines(s, k, e);
    SameActiveSameRunning(s.table, k, e, ActOf(s, e), Step(s, e).table, Next(k, e, ActOf(s, e)));
  }

  lemma SameActiveSameRunning(t: Table, k: Control, e: Event, act: Action, t': Table, k': Control)
    requires Holds(t, k) && Holds(t', k') && LiveSlots(t') == LiveSlots(t) && !e.Tick? && (e.Halt? ==> !k.spinning)
    requires (act.SwitchTo? ==> act.terminal < TERMINALS) && k' == Next(k, e, act)
    ensures k'.running == k.running
  {
    if e.Halt? && k.running != 0 && |k.stacks[k.home]| > 1 {
      PopDropsTop(t, k);
    }
    SameTops(t, k, t', k', k.running);
    SameTops(t, k, t', k', k'.running);
  }

  lemma PopDropsTop(t: Table, k: Control)
    requires Holds(t, k) && !k.spinning && |k.stacks[k.home]| > 1
    ensures k.IsTop(k.running) && !Pop(k).IsTop(k.running)
  {
    var n := |k.stacks[k.home]| - 1;
    assert Entry(t, k, k.home, n) && Entry(t, k, k.home, n - 1);
    forall u | 0 <= u < TERMINALS && u != k.home && k.stacks[u] != []
      ensures k.Top(u) != k.running
    {
      assert Entry(t, k, u, |k.stacks[u]| - 1);
    }
  }

  lemma SameTops(t: Table, k: Control, t': Table, k': Control, i: nat)
    requires Holds(t, k) && Holds(t', k') && LiveSlots(t) == LiveSlots(t') && i < MAX_PROCESSES
    ensures k.IsTop(i) == k'.IsTop(i)
    ensures k.IsTop(i) ==> k.InUse(i)
  {
    SlotAgrees(t, k, i);
    SlotAgrees(t', k', i);
    assert LiveSlots(t)[i] == LiveSlots(t')[i];
  }

  lemma {:induction false} TicksFollowOrder(s: State, k: Control, events: seq<Event>)
    requires Represents(s, k) && RunAllowed(s, k, events) && Steady(s, k, events)
    requires |Chosen(s, k, events)| <= |Order(LiveSlots(s.table), s.running)|
    ensures Chosen(s, k, events) == Order(LiveSlots(s.table), s.running)[..|Chosen(s, k, events)|]
    decreases |events|
  {
    if events == [] {
    } else {
      var e := events[0];
      StepRefines(s, k, e);
      var s', k' := Step(s, e), Next(k, e, ActOf(s, e));
      var order := Order(LiveSlots(s.table), s.running);
      if e.Tick? {
        TickChooses(s, k);
        NextIsHead(s.table, s.running);
        TicksFollowOrder(s', k', events[1..]);
        PrefixShifts(order, |Chosen(s, k, events)|);
      } else {
        OnlyTicksSchedule(s, k, e);
        TicksFollowOrder(s', k', events[1..]);
      }
    }
  }

  lemma PrefixShifts(order: seq<nat>, n: nat)
    requires 0 < n <= |order|
    ensures [order[0]] + (order[1..] + [order[0]])[..n - 1] == order[..n]
  {
  }

  /** How many processes are active. */
  function LiveCount(s: State): nat
    requires s.Valid()
  {
    |Order(LiveSlots(s.table), s.running)|
  }

  /**
   Round robin: whatever else happens, as long as the set of active processes stays the same, as many
   ticks as there are active processes, at least one and at most three, choose each of them exactly once.
   */
  lemma TicksAreFair(s: State, k: Control, events: seq<Event>)
    requires Represents(s, k) && RunAllowed(s, k, events) && Steady(s, k, events)
    requires |Chosen(s, k, events)| == LiveCount(s)
    ensures 1 <= LiveCount(s) <= TERMINALS
    ensures forall i: nat :: multiset(Chosen(s, k, events))[i] == if i < MAX_PROCESSES && s.table.Live(i) then 1 else 0
  {
    var order := Order(LiveSlots(s.table), s.running);
    TicksFollowOrder(s, k, events);
    assert order[..|order|] == order;
    TickChooses(s, k);
    NextIsHead(s.table, s.running);
    forall i: nat
      ensures multiset(order)[i] == if i < MAX_PROCESSES && s.table.Live(i) then 1 else 0
    {
      OrderOnce(LiveSlots(s.table), s.running, i);
    }
    AtMostThree(s.table, k, order);
  }

  /** Each terminal has one active process at most, so there are at most three. */
  lemma AtMostThree(t: Table, k: Control, order: seq<nat>)
    requires Holds(t, k)
    requires forall i: nat :: multiset(order)[i] == if i < MAX_PROCESSES && t.Live(i) then 1 else 0
    ensures |order| <= TERMINALS
  {
    var tops: multiset<nat> := (if k.stacks[0] != [] then multiset{k.Top(0)} else multiset{})
              + (if k.stacks[1] != [] then multiset{k.Top(1)} else multiset{})
              + (if k.stacks[2] != [] then multiset{k.Top(2)} else multiset{});
    forall i: nat
      ensures multiset(order)[i] <= tops[i]
    {
      if i < MAX_PROCESSES {
        SlotAgrees(t, k, i);
      }
    }
    assert multiset(order) <= tops;
    SubmultisetSize(multiset(order), tops);
  }

  lemma SubmultisetSize(a: multiset<nat>, b: multiset<nat>)
    requires a <= b
    ensures |a| <= |b|
  {
    assert b == a + (b - a);
  }

  // ---------- calls and returns ----------

  /** The stack of terminal `u` never gets shorter than `d` during the run. */
  ghost predicate StaysAbove(s: State, k: Control, events: seq<Event>, u: nat, d: nat)
    requires Represents(s, k) && RunAllowed(s, k, events) && u < TERMINALS
    decreases |events|
  {
    d <= |k.stacks[u]| && (events == [] || (
      StepRefines(s, k, events[0]);
      StaysAbove(Step(s, events[0]), Next(k, events[0], ActOf(s, events[0])), events[1..], u, d)))
  }

  lemma StepKeepsBottom(k: Control, e: Event, act: Action, u: nat, d: nat)
    requires k.Valid() && u < TERMINALS && (act.SwitchTo? ==> act.terminal < TERMINALS)
    requires d <= |k.stacks[u]| && d <= |Next(k, e, act).stacks[u]|
    requires k.FreeSlot().Some? ==> k.FreeSlot().value < MAX_PROCESSES
    ensures Next(k, e, act).stacks[u][..d] == k.stacks[u][..d]
  {
  }

  lemma {:induction false} BottomSurvives(s: State, k: Control, events: seq<Event>, u: nat, d: nat)
    requires Represents(s, k) && RunAllowed(s, k, events) && u < TERMINALS && StaysAbove(s, k, events, u, d)
    ensures d <= |Run(s, k, events).1.stacks[u]|
    ensures Run(s, k, events).1.stacks[u][..d] == k.stacks[u][..d]
    decreases |events|
  {
    if events == [] {
    } else {
      StepRefines(s, k, events[0]);
      var s', k' := Step(s, events[0]), Next(k, events[0], ActOf(s, events[0]));
      SlotFacts(s, k);
      BottomSurvives(s', k', events[1..], u, d);
      StepKeepsBottom(k, events[0], ActOf(s, events[0]), u, d);
    }
  }

  /** Calls nest on every terminal, however the terminals are interleaved: a balanced run restores the stack. */
  lemma BalancedRunRestoresStack(s: State, k: Control, events: seq<Event>, u: nat)
    requires Represents(s, k) && RunAllowed(s, k, events) && u < TERMINALS
    requires StaysAbove(s, k, events, u, |k.stacks[u]|)
    requires |Run(s, k, events).1.stacks[u]| == |k.stacks[u]|
    ensures Run(s, k, events).1.stacks[u] == k.stacks[u]
  {
    BottomSurvives(s, k, events, u, |k.stacks[u]|);
    WholePrefix(Run(s, k, events).1.stacks[u], k.stacks[u]);
  }

  lemma WholePrefix(a: seq<nat>, b: seq<nat>)
    requires |a| == |b| && a[..|b|] == b[..|b|]
    ensures a == b
  {
    assert a == a[..|b|] && b == b[..|b|];
  }

  /** The stacks and the terminal in front determine who is allocated, active and on the screen. */
  lemma StacksDetermineFlags(t: Table, k: Control, t': Table, k': Control)
    requires Holds(t, k) && Holds(t', k') && k.stacks == k'.stacks && k.front == k'.front
    ensures t.ids == t'.ids
    ensures forall i | 0 <= i < MAX_PROCESSES ::
              t.procs[i].active == t'.procs[i].active && t.procs[i].onscreen == t'.procs[i].onscreen
  {
    forall i | 0 <= i < MAX_PROCESSES
      ensures t.ids[i] == t'.ids[i] && t.procs[i].active == t'.procs[i].active
      ensures t.procs[i].onscreen == t'.procs[i].onscreen
    {
      SlotAgrees(t, k, i);
      SlotAgrees(t', k', i);
      if !t.ids[i] {
        FreeIsIdle(t, k, i);
        FreeIsIdle(t', k', i);
      }
    }
  }

  /** Only calls, returns and what processes do in between. */
  predicate CallsOnly(events: seq<Event>) {
    forall e | e in events :: !e.Tick? && !e.Key?
  }

  lemma {:induction false} CallsStayHome(s: State, k: Control, events: seq<Event>)
    requires Represents(s, k) && RunAllowed(s, k, events) && CallsOnly(events) && !k.spinning
    requires StaysAbove(s, k, events, k.home, |k.stacks[k.home]|)
    ensures var l := Run(s, k, events).1;
            && l.home == k.home && l.front == k.front && !l.spinning
            && forall u | 0 <= u < TERMINALS && u != k.home :: l.stacks[u] == k.stacks[u]
    decreases |events|
  {
    CallsStayHomeAbove(s, k, events, |k.stacks[k.home]|);
  }

  lemma CallIsAtHome(s: State, k: Control, e: Event, d: nat)
    requires Represents(s, k) && Allowed(s, k, e) && !e.Tick? && !e.Key? && !k.spinning && d > 0
    requires |Next(k, e, ActOf(s, e)).stacks| == TERMINALS && |Next(k, e, ActOf(s, e)).stacks[k.home]| >= d
    ensures var l := Next(k, e, ActOf(s, e));
            && l.home == k.home && l.front == k.front && !l.spinning
            && forall u | 0 <= u < TERMINALS && u != k.home :: l.stacks[u] == k.stacks[u]
  {
  }

  lemma {:induction false} CallsStayHomeAbove(s: State, k: Control, events: seq<Event>, d: nat)
    requires Represents(s, k) && RunAllowed(s, k, events) && CallsOnly(events) && !k.spinning && d > 0
    requires StaysAbove(s, k, events, k.home, d)
    ensures var l := Run(s, k, events).1;
            && l.home == k.home && l.front == k.front && !l.spinning
            && forall u | 0 <= u < TERMINALS && u != k.home :: l.stacks[u] == k.stacks[u]
    decreases |events|
  {
    if events == [] {
    } else {
      var e := events[0];
      StepRefines(s, k, e);
      CallIsAtHome(s, k, e, d);
      assert forall e | e in events[1..] :: e in events;
      CallsStayHomeAbove(Step(s, e), Next(k, e, ActOf(s, e)), events[1..], d);
    }
  }

  /** A balanced nest of execute and halt leaves the table as it was: slots, flags and running process. */
  lemma BalancedCallsRestoreTable(s: State, k: Control, events: seq<Event>)
    requires Represents(s, k) && RunAllowed(s, k, events) && CallsOnly(events) && !k.spinning
    requires StaysAbove(s, k, events, k.home, |k.stacks[k.home]|)
    requires |Run(s, k, events).1.stacks[k.home]| == |k.stacks[k.home]|
    ensures var r := Run(s, k, events).0;
            && r.table.ids == s.table.ids && r.running == s.running
            && forall i | 0 <= i < MAX_PROCESSES ::
                 r.table.procs[i].active == s.table.procs[i].active
                 && r.table.procs[i].onscreen == s.table.procs[i].onscreen
  {
    var (r, l) := Run(s, k, events);
    CallsStayHome(s, k, events);
    BalancedRunRestoresStack(s, k, events, k.home);
    assert l.stacks == k.stacks;
    StacksDetermineFlags(r.table, l, s.table, k);
  }
}
