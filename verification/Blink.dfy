/** The blinking characters of the fish animation (blink.S, fish.c). */
module Blink {
  // Their list is threaded through a fixed pool of structures, and a tasklet counts them down.

  import opened Wrappers

  const CELLS := 2000
  const WORD := 0x1_0000

  type Word = n: nat | n < WORD

  datatype Entry = Entry(location: Word, onChar: char, offChar: char,
                          onLength: Word, offLength: Word, countdown: Word, on: bool)

  /** The list, the latest addition first, and the characters on the screen. */
  datatype State = State(list: seq<Entry>, screen: seq<char>) {
    predicate Valid() {
      && |screen| == CELLS
      && forall i | 0 <= i < |list| :: 0 < list[i].location < CELLS
    }
  }

  // ---------- what the operations do ----------

  function Started(e: Entry): Entry {
    e.(countdown := e.onLength, on := true)
  }

  /** Location 0 is not added here: it marks free slots in the pool. */
  function Added(s: State, e: Entry): (r: State)
    requires s.Valid() && 0 < e.location < CELLS && |s.list| < CELLS
    ensures r.Valid()
  {
    State([Started(e)] + s.list, s.screen[e.location := e.onChar])
  }

  /** The latest addition at a location. */
  function IndexOf(list: seq<Entry>, location: Word): (r: Option<nat>)
    ensures r.Some? ==> r.value < |list| && list[r.value].location == location
                        && forall j | 0 <= j < r.value :: list[j].location != location
    ensures r.None? ==> forall j | 0 <= j < |list| :: list[j].location != location
  {
    if list == [] then None
    else if list[0].location == location then Some(0)
    else match IndexOf(list[1..], location)
      case None => None
      case Some(i) => Some(i + 1)
  }

  /** A list without its number `i`. */
  function Without<T>(list: seq<T>, i: nat): (r: seq<T>)
    requires i < |list|
    ensures |r| == |list| - 1 && forall j {:trigger r[j]} | 0 <= j < |r| :: r[j] == list[if j < i then j else j + 1]
  {
    seq(|list| - 1, j requires 0 <= j < |list| - 1 => list[if j < i then j else j + 1])
  }

  function Find(s: State, location: Word): (r: Option<Entry>) {
    match IndexOf(s.list, location)
    case None => None
    case Some(i) => Some(s.list[i])
  }

  function Removed(s: State, location: Word): (r: State)
    requires s.Valid()
    ensures r.Valid()
  {
    match IndexOf(s.list, location)
    case None => s
    case Some(i) => s.(list := Without(s.list, i))
  }

  /** `to` blinks from now on like `from`. */
  function Following(from: Entry, to: Entry): Entry {
    to.(onLength := from.onLength, offLength := from.offLength, countdown := from.countdown, on := from.on)
  }

  /** The character shown at once is always the one for off: the conditional move behind the test never moves. */
  function Synced(s: State, from: Word, to: Word): (r: State)
    requires s.Valid()
    ensures r.Valid()
  {
    match (IndexOf(s.list, from), IndexOf(s.list, to))
    case (Some(i), Some(j)) =>
      State(s.list[j := Following(s.list[i], s.list[j])], s.screen[s.list[j].location := s.list[j].offChar])
    case _ => s
  }

  /** The countdown is a 16-bit word that is compared as a signed number. */
  predicate RunsOn(countdown: Word) {
    0 < (countdown + WORD - 1) % WORD < WORD / 2
  }

  function Ticked(e: Entry): Entry {
    if RunsOn(e.countdown) then e.(countdown := (e.countdown + WORD - 1) % WORD)
    else e.(countdown := if e.on then e.offLength else e.onLength, on := !e.on)
  }

  function Drawn(e: Entry, screen: seq<char>): (r: seq<char>)
    requires |screen| == CELLS && e.location < CELLS
    ensures |r| == CELLS
  {
    if RunsOn(e.countdown) then screen else screen[e.location := if e.on then e.offChar else e.onChar]
  }

  /** The first `n` entries are counted down. */
  function TickedTo(list: seq<Entry>, n: nat): (r: seq<Entry>)
    ensures |r| == |list|
  {
    seq(|list|, i requires 0 <= i < |list| => if i < n then Ticked(list[i]) else list[i])
  }

  /** The first `n` entries are drawn, from the front of the list on. */
  function DrawnTo(list: seq<Entry>, n: nat, screen: seq<char>): (r: seq<char>)
    requires n <= |list| && |screen| == CELLS && forall i | 0 <= i < |list| :: list[i].location < CELLS
    ensures |r| == CELLS
  {
    if n == 0 then screen else Drawn(list[n - 1], DrawnTo(list, n - 1, screen))
  }

  function AfterTick(s: State): (r: State)
    requires s.Valid()
    ensures r.Valid()
  {
    State(TickedTo(s.list, |s.list|), DrawnTo(s.list, |s.list|, s.screen))
  }

  // ---------- the pool and its threads ----------

  /** The pool as values: a pointer is the number of a slot, and -1 is the null pointer. */
  datatype Memory = Memory(cells: seq<Entry>, links: seq<int>, head: int) {
    predicate Shape() {
      |cells| == CELLS && |links| == CELLS
    }
  }

  /** The pointer to number `i` of a list of slots. */
  function Nth(order: seq<nat>, i: nat): int {
    if i < |order| then order[i] else -1
  }

  /** `order` is the slots in use, each once. */
  ghost predicate InUse(cells: seq<Entry>, order: seq<nat>)
    requires |cells| == CELLS
  {
    && (forall i | 0 <= i < |order| :: order[i] < CELLS && 0 < cells[order[i]].location < CELLS)
    && (forall i, j | 0 <= i < j < |order| :: order[i] != order[j])
    && forall k: nat | k < CELLS :: cells[k].location != 0 ==> k in order
  }

  /** The pointers run from the head through `order` to their end. */
  ghost predicate Linked(links: seq<int>, head: int, order: seq<nat>)
    requires |links| == CELLS && forall i | 0 <= i < |order| :: order[i] < CELLS
  {
    head == Nth(order, 0)
    && forall i {:trigger links[order[i]]} | 0 <= i < |order| :: links[order[i]] == Nth(order, i + 1)
  }

  ghost predicate Threads(m: Memory, order: seq<nat>) {
    m.Shape() && InUse(m.cells, order) && Linked(m.links, m.head, order)
  }

  function Listed(cells: seq<Entry>, order: seq<nat>): (list: seq<Entry>)
    requires forall i | 0 <= i < |order| :: order[i] < |cells|
    ensures |list| == |order| && forall i | 0 <= i < |list| :: list[i] == cells[order[i]]
  {
    seq(|order|, i requires 0 <= i < |order| => cells[order[i]])
  }

  /** The slot the allocator gives. */
  function FirstFree(cells: seq<Entry>): (slot: Option<nat>)
    ensures slot.Some? ==> slot.value < |cells| && cells[slot.value].location == 0
    ensures slot.None? ==> forall k | 0 <= k < |cells| :: cells[k].location != 0
  {
    if cells == [] then None
    else if cells[0].location == 0 then Some(0)
    else match FirstFree(cells[1..])
      case None => None
      case Some(k) => Some(k + 1)
  }

  /** Whatever the list is, the slot goes to its front. */
  function Pushed(m: Memory, slot: nat, e: Entry): Memory
    requires m.Shape() && slot < CELLS
  {
    Memory(m.cells[slot := e], m.links[slot := m.head], slot)
  }

  const ZERO := Entry(0, '\0', '\0', 0, 0, 0, false)

  /** The slot leaves the list, where the pointer of `prev` (or the head) leads to it, and is zeroed. */
  function Unlinked(m: Memory, prev: int, slot: nat): Memory
    requires m.Shape() && slot < CELLS && -1 <= prev < CELLS
  {
    var links := if prev == -1 then m.links else m.links[prev := m.links[slot]];
    Memory(m.cells[slot := ZERO], links[slot := -1], if prev == -1 then m.links[slot] else m.head)
  }

  /** The slot before number `i` of a list of slots, or the head. */
  function Prev(order: seq<nat>, i: nat): int
    requires i <= |order|
  {
    if i == 0 then -1 else order[i - 1]
  }

  lemma PushInUse(cells: seq<Entry>, order: seq<nat>, slot: nat, e: Entry)
    requires |cells| == CELLS && InUse(cells, order) && slot < CELLS && cells[slot].location == 0
    requires 0 < e.location < CELLS
    ensures InUse(cells[slot := e], [slot] + order)
  {
    var o := [slot] + order;
    assert forall i | 0 < i < |o| :: o[i] == order[i - 1] && o[i] != slot;
    forall k: nat | k < CELLS && cells[slot := e][k].location != 0
      ensures k in o
    {
      assert k == slot || k in order;
    }
  }

  lemma PushListed(cells: seq<Entry>, order: seq<nat>, slot: nat, e: Entry)
    requires slot < |cells| && forall i | 0 <= i < |order| :: order[i] < |cells| && order[i] != slot
    ensures forall i | 0 <= i <= |order| :: ([slot] + order)[i] < |cells|
    ensures Listed(cells[slot := e], [slot] + order) == [e] + Listed(cells, order)
  {
  }

  lemma PushThreads(m: Memory, order: seq<nat>, slot: nat, e: Entry)
    requires Threads(m, order) && slot < CELLS && m.cells[slot].location == 0 && 0 < e.location < CELLS
    ensures Threads(Pushed(m, slot, e), [slot] + order)
    ensures Listed(Pushed(m, slot, e).cells, [slot] + order) == [e] + Listed(m.cells, order)
  {
    var links, o := Pushed(m, slot, e).links, [slot] + order;
    PushInUse(m.cells, order, slot, e);
    PushListed(m.cells, order, slot, e);
    forall i | 0 <= i < |o|
      ensures links[o[i]] == Nth(o, i + 1)
    {
      if i > 0 {
        assert o[i] == order[i - 1] && m.links[order[i - 1]] == Nth(order, i);
      }
    }
  }

  lemma UnlinkInUse(cells: seq<Entry>, order: seq<nat>, i: nat)
    requires |cells| == CELLS && InUse(cells, order) && i < |order|
    ensures InUse(cells[order[i] := ZERO], Without(order, i))
  {
    var c, o := cells[order[i] := ZERO], Without(order, i);
    forall j | 0 <= j < |o|
      ensures o[j] < CELLS && 0 < c[o[j]].location < CELLS
    {
      assert o[j] != order[i];
    }
    forall k: nat | k < CELLS && c[k].location != 0
      ensures k in o
    {
      StillIn(order, i, k);
    }
  }

  lemma StillIn(order: seq<nat>, i: nat, k: nat)
    requires i < |order| && k in order && k != order[i]
    ensures k in Without(order, i)
  {
    var j :| 0 <= j < |order| && order[j] == k;
    assert Without(order, i)[if j < i then j else j - 1] == k;
  }

  lemma UnlinkListed(cells: seq<Entry>, order: seq<nat>, i: nat)
    requires i < |order| && (forall j | 0 <= j < |order| :: order[j] < |cells|)
    requires forall j | 0 <= j < |order| && j != i :: order[j] != order[i]
    ensures (forall j | 0 <= j < |order| - 1 :: Without(order, i)[j] < |cells|)
    ensures Listed(cells[order[i] := ZERO], Without(order, i)) == Without(Listed(cells, order), i)
  {
  }

  lemma UnlinkLinked(m: Memory, order: seq<nat>, i: nat, n: Memory, o: seq<nat>)
    requires m.Shape() && i < |order| && (forall j | 0 <= j < |order| :: order[j] < CELLS)
    requires Linked(m.links, m.head, order) && forall j, k | 0 <= j < k < |order| :: order[j] != order[k]
    requires n == Unlinked(m, Prev(order, i), order[i]) && o == Without(order, i)
    ensures n.Shape() && (forall j | 0 <= j < |o| :: o[j] < CELLS) && Linked(n.links, n.head, o)
  {
    assert m.links[order[i]] == Nth(order, i + 1);
    forall j | 0 <= j < |o|
      ensures n.links[o[j]] == Nth(o, j + 1)
    {
      var k := if j < i then j else j + 1;
      assert m.links[order[k]] == Nth(order, k + 1);
    }
  }

  lemma UnlinkThreads(m: Memory, order: seq<nat>, i: nat)
    requires Threads(m, order) && i < |order|
    ensures var n, o := Unlinked(m, Prev(order, i), order[i]), Without(order, i);
            Threads(n, o) && Listed(n.cells, o) == Without(Listed(m.cells, order), i)
  {
    var n, o := Unlinked(m, Prev(order, i), order[i]), Without(order, i);
    UnlinkLinked(m, order, i, n, o);
    UnlinkInUse(m.cells, order, i);
    UnlinkListed(m.cells, order, i);
  }

  /** A change to one cell that leaves its location is a change to one entry. */
  lemma ChangeThreads(m: Memory, order: seq<nat>, i: nat, e: Entry)
    requires Threads(m, order) && i < |order| && e.location == m.cells[order[i]].location
    ensures var n := m.(cells := m.cells[order[i] := e]);
            Threads(n, order) && Listed(n.cells, order) == Listed(m.cells, order)[i := e]
  {
    var n := m.(cells := m.cells[order[i] := e]);
    assert forall j {:trigger n.links[order[j]]} | 0 <= j < |order| :: n.links[order[j]] == m.links[order[j]];
  }

  /** The allocator fails exactly when the list has as many nodes as the pool has slots. */
  lemma PoolIsFull(cells: seq<Entry>, order: seq<nat>)
    requires |cells| == CELLS && InUse(cells, order)
    ensures |order| <= CELLS
    ensures FirstFree(cells).None? <==> |order| == CELLS
  {
    Pigeons(order, CELLS);
    match FirstFree(cells)
    case None =>
      HolesFilled(order, CELLS);
    case Some(k) =>
      assert k !in order;
  }

  lemma Pigeons(order: seq<nat>, n: nat)
    requires forall i, j | 0 <= i < j < |order| :: order[i] != order[j]
    requires forall i | 0 <= i < |order| :: order[i] < n
    ensures |order| <= n
    ensures |order| == n ==> forall k: nat | k < n :: k in order
  {
    SizeOfDistinct(order);
    Subset(Elements(order), Range(n));
  }

  lemma HolesFilled(order: seq<nat>, n: nat)
    requires forall k: nat | k < n :: k in order
    requires forall i, j | 0 <= i < j < |order| :: order[i] != order[j]
    ensures |order| >= n
  {
    SizeOfDistinct(order);
    Subset(Range(n), Elements(order));
  }

  function Range(n: nat): (r: set<nat>)
    ensures |r| == n && forall k: nat :: k in r <==> k < n
  {
    if n == 0 then {} else Range(n - 1) + {n - 1}
  }

  function Elements(s: seq<nat>): (r: set<nat>)
    ensures forall k: nat :: k in r <==> k in s
  {
    if s == [] then {} else {s[0]} + Elements(s[1..])
  }

  lemma {:induction false} SizeOfDistinct(s: seq<nat>)
    requires forall i, j | 0 <= i < j < |s| :: s[i] != s[j]
    ensures |Elements(s)| == |s|
  {
    if s == [] {
    } else {
      SizeOfDistinct(s[1..]);
      assert forall j | 0 <= j < |s[1..]| :: s[1..][j] == s[j + 1] && s[0] != s[j + 1];
      assert s[0] !in Elements(s[1..]);
    }
  }

  lemma {:induction false} Subset(a: set<nat>, b: set<nat>)
    requires a <= b
    ensures |a| <= |b| && (|a| == |b| ==> a == b)
  {
    if a == {} {
    } else {
      var x :| x in a;
      Subset(a - {x}, b - {x});
    }
  }

  lemma {:induction false} IndexOfIs(list: seq<Entry>, location: Word, i: nat)
    requires i < |list| && list[i].location == location && forall j | 0 <= j < i :: list[j].location != location
    ensures IndexOf(list, location) == Some(i)
  {
    if i == 0 {
    } else {
      IndexOfIs(list[1..], location, i - 1);
    }
  }

  lemma {:induction false} FirstFreeIs(cells: seq<Entry>, k: nat)
    requires k < |cells| && cells[k].location == 0 && forall j | 0 <= j < k :: cells[j].location != 0
    ensures FirstFree(cells) == Some(k)
  {
    if k == 0 {
    } else {
      FirstFreeIs(cells[1..], k - 1);
    }
  }

  // ---------- the operations on the pool ----------

  /** All of the driver's memory; `order` is no part of it but says where the list runs. */
  datatype Heap = Heap(mem: Memory, order: seq<nat>, screen: seq<char>) {
    ghost predicate Valid() {
      Threads(mem, order) && |screen| == CELLS
    }

    function Value(): (s: State)
      requires Valid()
      ensures s.Valid()
    {
      State(Listed(mem.cells, order), screen)
    }
  }

  /** Only whether a slot is free is looked at, never the list. */
  function RawAdded(h: Heap, e: Entry): (r: (Heap, int))
    requires h.mem.Shape() && |h.screen| == CELLS
  {
    if e.location >= CELLS then (h, -1)
    else match FirstFree(h.mem.cells)
      case None => (h, -1)
      case Some(k) => (Heap(Pushed(h.mem, k, Started(e)), [k] + h.order, h.screen[e.location := e.onChar]), 0)
  }

  function RemovedAt(h: Heap, i: nat): Heap
    requires h.mem.Shape() && i < |h.order| && h.order[i] < CELLS && (i > 0 ==> h.order[i - 1] < CELLS)
  {
    Heap(Unlinked(h.mem, Prev(h.order, i), h.order[i]), Without(h.order, i), h.screen)
  }

  function RawRemoved(h: Heap, location: Word): Heap
    requires h.Valid()
  {
    match IndexOf(h.Value().list, location)
    case None => h
    case Some(i) => RemovedAt(h, i)
  }

  /** The second of two slots follows the first. */
  function SyncedAt(h: Heap, a: nat, b: nat): Heap
    requires h.mem.Shape() && a < CELLS && b < CELLS && h.mem.cells[b].location < |h.screen|
  {
    var from, to := h.mem.cells[a], h.mem.cells[b];
    Heap(h.mem.(cells := h.mem.cells[b := Following(from, to)]), h.order, h.screen[to.location := to.offChar])
  }

  function RawSynced(h: Heap, from: Word, to: Word): Heap
    requires h.Valid()
  {
    match (IndexOf(h.Value().list, from), IndexOf(h.Value().list, to))
    case (Some(i), Some(j)) => SyncedAt(h, h.order[i], h.order[j])
    case _ => h
  }

  /** One node of the tasklet's loop. */
  function CountedAt(h: Heap, k: nat): Heap
    requires h.mem.Shape() && k < CELLS && h.mem.cells[k].location < CELLS && |h.screen| == CELLS
  {
    Heap(h.mem.(cells := h.mem.cells[k := Ticked(h.mem.cells[k])]), h.order, Drawn(h.mem.cells[k], h.screen))
  }

  /** The cells after the first `n` nodes of the list have been counted down. */
  function CellsTicked(cells: seq<Entry>, order: seq<nat>, n: nat): (r: seq<Entry>)
    requires n <= |order|
    ensures |r| == |cells|
    ensures forall k | 0 <= k < |cells| :: r[k] == if k in order[..n] then Ticked(cells[k]) else cells[k]
  {
    seq(|cells|, k requires 0 <= k < |cells| => if k in order[..n] then Ticked(cells[k]) else cells[k])
  }

  /** The tasklet after `n` nodes. */
  function RawTicked(h: Heap, n: nat): Heap
    requires h.Valid() && n <= |h.order|
  {
    Heap(h.mem.(cells := CellsTicked(h.mem.cells, h.order, n)), h.order, DrawnTo(h.Value().list, n, h.screen))
  }

  lemma CellsTickedNext(cells: seq<Entry>, order: seq<nat>, n: nat)
    requires n < |order| && order[n] < |cells| && forall j | 0 <= j < n :: order[j] != order[n]
    ensures var t := CellsTicked(cells, order, n);
            && t[order[n]] == cells[order[n]]
            && CellsTicked(cells, order, n + 1) == t[order[n] := Ticked(cells[order[n]])]
  {
    assert order[..n + 1] == order[..n] + [order[n]];
  }

  lemma TickStart(h: Heap)
    requires h.Valid()
    ensures RawTicked(h, 0) == h
  {
    assert CellsTicked(h.mem.cells, h.order, 0) == h.mem.cells;
  }

  lemma TickStep(h: Heap, n: nat)
    requires h.Valid() && n < |h.order|
    ensures RawTicked(h, n).mem.cells[h.order[n]].location < CELLS
    ensures RawTicked(h, n + 1) == CountedAt(RawTicked(h, n), h.order[n])
  {
    CellsTickedNext(h.mem.cells, h.order, n);
  }

  /** The slots of the list are different, so that each of its nodes is counted down once. */
  lemma CellsTickedAgree(cells: seq<Entry>, order: seq<nat>, n: nat)
    requires n <= |order| && (forall i | 0 <= i < |order| :: order[i] < |cells|)
    requires forall i, j | 0 <= i < j < |order| :: order[i] != order[j]
    ensures Listed(CellsTicked(cells, order, n), order) == TickedTo(Listed(cells, order), n)
  {
    forall i | 0 <= i < |order|
      ensures order[i] in order[..n] <==> i < n
    {
    }
  }

  lemma TickedAgrees(h: Heap, n: nat)
    requires h.Valid() && n <= |h.order|
    ensures RawTicked(h, n).Valid()
    ensures RawTicked(h, n).Value() == State(TickedTo(h.Value().list, n), DrawnTo(h.Value().list, n, h.screen))
  {
    CellsTickedAgree(h.mem.cells, h.order, n);
  }

  /** The pool and the list agree: adding puts a node in front, and fails only for lack of room. */
  lemma AddedAgrees(h: Heap, e: Entry)
    requires h.Valid() && e.location != 0
    ensures RawAdded(h, e).0.Valid()
    ensures RawAdded(h, e).1 == if e.location < CELLS && |h.Value().list| < CELLS then 0 else -1
    ensures RawAdded(h, e).0.Value() == if RawAdded(h, e).1 == 0 then Added(h.Value(), e) else h.Value()
  {
    PoolIsFull(h.mem.cells, h.order);
    match FirstFree(h.mem.cells)
    case None =>
    case Some(k) =>
      if e.location < CELLS {
        PushThreads(h.mem, h.order, k, Started(e));
      }
  }

  lemma RemovedAgrees(h: Heap, location: Word)
    requires h.Valid()
    ensures RawRemoved(h, location).Valid() && RawRemoved(h, location).Value() == Removed(h.Value(), location)
  {
    match IndexOf(h.Value().list, location)
    case None =>
    case Some(i) =>
      UnlinkThreads(h.mem, h.order, i);
  }

  lemma SyncedAgrees(h: Heap, from: Word, to: Word)
    requires h.Valid()
    ensures RawSynced(h, from, to).Valid() && RawSynced(h, from, to).Value() == Synced(h.Value(), from, to)
  {
    match (IndexOf(h.Value().list, from), IndexOf(h.Value().list, to))
    case (Some(i), Some(j)) =>
      ChangeThreads(h.mem, h.order, j, Following(h.mem.cells[h.order[i]], h.mem.cells[h.order[j]]));
    case _ =>
  }

  // ---------- whole runs ----------

  datatype Op = AddOp(e: Entry) | RemoveOp(location: Word) | SyncOp(from: Word, to: Word) | TickOp

  /** Adding fails beyond the screen and when the pool is used up. */
  function Do(s: State, op: Op): (r: State)
    requires s.Valid() && (op.AddOp? ==> op.e.location != 0)
    ensures r.Valid()
  {
    match op
    case AddOp(e) => if e.location < CELLS && |s.list| < CELLS then Added(s, e) else s
    case RemoveOp(location) => Removed(s, location)
    case SyncOp(from, to) => Synced(s, from, to)
    case TickOp => AfterTick(s)
  }

  predicate Proper(ops: seq<Op>) {
    forall i | 0 <= i < |ops| :: ops[i].AddOp? ==> ops[i].e.location != 0
  }

  function DoAll(s: State, ops: seq<Op>): (r: State)
    requires s.Valid() && Proper(ops)
    ensures r.Valid()
  {
    if ops == [] then s else Do(DoAll(s, ops[..|ops| - 1]), ops[|ops| - 1])
  }

  function RawDo(h: Heap, op: Op): Heap
    requires h.Valid()
  {
    match op
    case AddOp(e) => RawAdded(h, e).0
    case RemoveOp(location) => RawRemoved(h, location)
    case SyncOp(from, to) => RawSynced(h, from, to)
    case TickOp => RawTicked(h, |h.order|)
  }

  lemma DoAgrees(h: Heap, op: Op)
    requires h.Valid() && (op.AddOp? ==> op.e.location != 0)
    ensures RawDo(h, op).Valid() && RawDo(h, op).Value() == Do(h.Value(), op)
  {
    match op
    case AddOp(e) => AddedAgrees(h, e);
    case RemoveOp(location) => RemovedAgrees(h, location);
    case SyncOp(from, to) => SyncedAgrees(h, from, to);
    case TickOp => TickedAgrees(h, |h.order|);
  }

  function RawDoAll(h: Heap, ops: seq<Op>): (r: Heap)
    requires h.Valid() && Proper(ops)
    ensures r.Valid() && r.Value() == DoAll(h.Value(), ops)
  {
    if ops == [] then h
    else
      var before, op := RawDoAll(h, ops[..|ops| - 1]), ops[|ops| - 1];
      DoAgrees(before, op);
      RawDo(before, op)
  }

  /**
   From an empty pool on, the pointers always run through the list without a cycle, and the list is the
   slots in use.
   */
  lemma PoolAndListAgree(screen: seq<char>, ops: seq<Op>)
    requires |screen| == CELLS && Proper(ops)
    ensures EmptyHeap(screen).Valid()
    ensures var h := RawDoAll(EmptyHeap(screen), ops);
            && Threads(h.mem, h.order) && |h.order| <= CELLS
            && (forall k: nat | k < CELLS :: k in h.order <==> h.mem.cells[k].location != 0)
            && h.Value() == DoAll(State([], screen), ops)
  {
    assert EmptyHeap(screen).Value() == State([], screen);
    var h := RawDoAll(EmptyHeap(screen), ops);
    PoolIsFull(h.mem.cells, h.order);
    forall k: nat | k < CELLS
      ensures k in h.order <==> h.mem.cells[k].location != 0
    {
    }
  }

  function EmptyHeap(screen: seq<char>): Heap {
    Heap(Memory(seq(CELLS, _ => ZERO), seq(CELLS, _ => -1), -1), [], screen)
  }

  /** The slots that are not in use hold nothing. */
  predicate Clean(m: Memory) {
    m.Shape() && forall k | 0 <= k < CELLS && m.cells[k].location == 0 :: m.cells[k] == ZERO && m.links[k] == -1
  }

  lemma CleanStays(h: Heap, op: Op)
    requires h.Valid() && Clean(h.mem) && (op.AddOp? ==> op.e.location != 0)
    ensures Clean(RawDo(h, op).mem)
  {
    match op
    case AddOp(e) =>
    case RemoveOp(location) => RemovedIsClean(h, location);
    case SyncOp(from, to) =>
    case TickOp =>
  }

  lemma RemovedIsClean(h: Heap, location: Word)
    requires h.Valid() && Clean(h.mem)
    ensures Clean(RawRemoved(h, location).mem)
  {
    match IndexOf(h.Value().list, location)
    case None =>
    case Some(i) =>
      assert i > 0 ==> h.mem.cells[h.order[i - 1]].location != 0 && h.order[i - 1] != h.order[i];
  }

  /** A slot that was given back is as the pool was at the beginning. */
  lemma {:induction false} FreeSlotsAreClean(screen: seq<char>, ops: seq<Op>)
    requires |screen| == CELLS && Proper(ops)
    ensures EmptyHeap(screen).Valid() && Clean(RawDoAll(EmptyHeap(screen), ops).mem)
  {
    if ops == [] {
    } else {
      var before := ops[..|ops| - 1];
      FreeSlotsAreClean(screen, before);
      CleanStays(RawDoAll(EmptyHeap(screen), before), ops[|ops| - 1]);
    }
  }

  lemma RemoveUndoesAdd(s: State, e: Entry)
    requires s.Valid() && 0 < e.location < CELLS && |s.list| < CELLS
    ensures Find(Added(s, e), e.location) == Some(e.(countdown := e.onLength, on := true))
    ensures Removed(Added(s, e), e.location) == s.(screen := s.screen[e.location := e.onChar])
  {
    assert Without([Started(e)] + s.list, 0) == s.list;
  }

  /** Adding keeps the list a list exactly if the location is not 0 or the addition fails. */
  lemma AddKeepsListIff(h: Heap, e: Entry)
    requires h.Valid()
    ensures (exists order :: Threads(RawAdded(h, e).0.mem, order)) <==> e.location != 0 || |h.order| == CELLS
  {
    PoolIsFull(h.mem.cells, h.order);
    var n := RawAdded(h, e).0;
    if e.location != 0 || |h.order| == CELLS {
      if e.location != 0 {
        AddedAgrees(h, e);
      }
      assert Threads(n.mem, n.order);
    } else {
      forall order
        ensures !Threads(n.mem, order)
      {
      }
    }
  }

  /** After an addition at location 0 the next one takes the same slot, and the list ends in a circle. */
  lemma ZeroMakesACircle(h: Heap, e: Entry, f: Entry)
    requires h.Valid() && |h.order| < CELLS && e.location == 0 && f.location < CELLS
    ensures var n := RawAdded(RawAdded(h, e).0, f).0;
            0 <= n.mem.head < CELLS && n.mem.links[n.mem.head] == n.mem.head
  {
    PoolIsFull(h.mem.cells, h.order);
    var k := FirstFree(h.mem.cells).value;
    FirstFreeIsLeast(h.mem.cells);
    FirstFreeIs(RawAdded(h, e).0.mem.cells, k);
  }

  lemma {:induction false} FirstFreeIsLeast(cells: seq<Entry>)
    ensures FirstFree(cells).Some? ==> forall j | 0 <= j < FirstFree(cells).value :: cells[j].location != 0
  {
    if cells == [] || cells[0].location == 0 {
    } else {
      FirstFreeIsLeast(cells[1..]);
    }
  }

  // ---------- timing ----------

  /** How many ticks a length lasts: the 16-bit countdown is compared as a signed number. */
  function Lasts(length: Word): (n: nat)
    ensures n > 0
  {
    if 1 <= length <= WORD / 2 then length else 1
  }

  function Period(e: Entry): (n: nat)
    ensures n > 0
  {
    Lasts(e.onLength) + Lasts(e.offLength)
  }

  /** Where in its period an entry stands, as its countdown and status tell. */
  function Phase(e: Entry): int {
    if e.on then Lasts(e.onLength) - Lasts(e.countdown) else Period(e) - Lasts(e.countdown)
  }

  ghost predicate InPhase(e: Entry) {
    0 <= Phase(e) < Period(e) && (e.on <==> Phase(e) < Lasts(e.onLength))
  }

  function Ticks(e: Entry, n: nat): Entry {
    if n == 0 then e else Ticked(Ticks(e, n - 1))
  }

  lemma TickAdvances(e: Entry)
    requires InPhase(e)
    ensures InPhase(Ticked(e)) && Period(Ticked(e)) == Period(e) && Ticked(e).onLength == e.onLength
    ensures Phase(Ticked(e)) == if Phase(e) + 1 == Period(e) then 0 else Phase(e) + 1
  {
  }

  /** `n` steps around a circle. */
  function Around(phase: nat, n: nat, period: nat): nat {
    if n == 0 then phase
    else if Around(phase, n - 1, period) + 1 == period then 0
    else Around(phase, n - 1, period) + 1
  }

  lemma {:induction false} AroundIsRemainder(n: nat, period: nat)
    requires period > 0
    ensures Around(0, n, period) == n % period
  {
    if n == 0 {
    } else {
      AroundIsRemainder(n - 1, period);
      NextRemainder(n - 1, period, (n - 1) / period, (n - 1) % period);
    }
  }

  lemma NextRemainder(n: nat, period: nat, q: nat, r: nat)
    requires period > 0 && n == period * q + r && r < period
    ensures (n + 1) % period == if r + 1 == period then 0 else r + 1
  {
    if r + 1 == period {
      assert n + 1 == period * (q + 1) + 0;
      Remainder(period, q + 1, 0);
    } else {
      Remainder(period, q, r + 1);
    }
  }

  lemma Remainder(period: nat, q: nat, r: nat)
    requires r < period
    ensures (period * q + r) % period == r
  {
    var x := period * q + r;
    SameQuotient(period, q, r, x / period, x % period);
  }

  lemma SameQuotient(period: nat, q: nat, r: nat, a: nat, b: nat)
    requires r < period && b < period && period * q + r == period * a + b
    ensures r == b
  {
    if q > a {
      assert period * q == period * a + period * (q - a);
      Multiple(period, q - a);
    } else if q < a {
      assert period * a == period * q + period * (a - q);
      Multiple(period, a - q);
    }
  }

  lemma {:induction false} Multiple(period: nat, d: nat)
    requires d > 0
    ensures period * d >= period
  {
    if d <= 1 {
    } else {
      Multiple(period, d - 1);
      assert period * d == period * (d - 1) + period;
    }
  }

  lemma {:induction false} PhaseAfter(e: Entry, n: nat)
    requires InPhase(e)
    ensures var t := Ticks(e, n);
            && InPhase(t) && Period(t) == Period(e) && t.onLength == e.onLength
            && Phase(t) == Around(Phase(e), n, Period(e))
  {
    if n == 0 {
    } else {
      PhaseAfter(e, n - 1);
      TickAdvances(Ticks(e, n - 1));
    }
  }

  /** A new blink is on in the first part of every period. */
  lemma BlinkTiming(e: Entry, n: nat)
    ensures Ticks(Started(e), n).on <==> n % Period(e) < Lasts(e.onLength)
  {
    PhaseAfter(Started(e), n);
    AroundIsRemainder(n, Period(e));
  }

  // ---------- one location in a run ----------

  /** Nothing is added at, removed from or synchronised to a location. */
  predicate Leaves(op: Op, location: Word) {
    match op
    case AddOp(e) => e.location != location
    case RemoveOp(l) => l != location
    case SyncOp(_, to) => to != location
    case TickOp => true
  }

  predicate AllLeave(ops: seq<Op>, location: Word) {
    forall i | 0 <= i < |ops| :: Leaves(ops[i], location)
  }

  function TickCount(ops: seq<Op>): nat {
    if ops == [] then 0 else TickCount(ops[..|ops| - 1]) + if ops[|ops| - 1] == TickOp then 1 else 0
  }

  /** What the latest addition at a location becomes by one operation elsewhere, or by a tick. */
  lemma FindAfter(s: State, op: Op, location: Word)
    requires s.Valid() && (op.AddOp? ==> op.e.location != 0) && Leaves(op, location) && Find(s, location).Some?
    ensures Find(Do(s, op), location) ==
              Some(if op == TickOp then Ticked(Find(s, location).value) else Find(s, location).value)
  {
    var i := IndexOf(s.list, location).value;
    match op
    case AddOp(e) => AddElsewhere(s, e, location, i);
    case RemoveOp(l) => RemoveElsewhere(s, l, location, i);
    case SyncOp(from, to) => IndexOfIs(Do(s, op).list, location, i);
    case TickOp => IndexOfIs(Do(s, op).list, location, i);
  }

  lemma AddElsewhere(s: State, e: Entry, location: Word, i: nat)
    requires s.Valid() && e.location != 0 && e.location != location && IndexOf(s.list, location) == Some(i)
    ensures Find(Do(s, AddOp(e)), location) == Some(s.list[i])
  {
    if e.location < CELLS && |s.list| < CELLS {
      IndexOfIs(Added(s, e).list, location, i + 1);
    }
  }

  lemma RemoveElsewhere(s: State, l: Word, location: Word, i: nat)
    requires s.Valid() && l != location && IndexOf(s.list, location) == Some(i)
    ensures Find(Removed(s, l), location) == Some(s.list[i])
  {
    match IndexOf(s.list, l)
    case None =>
    case Some(k) => IndexOfIs(Removed(s, l).list, location, if i < k then i else i - 1);
  }

  lemma {:induction false} FindAfterAll(s: State, ops: seq<Op>, location: Word)
    requires s.Valid() && Proper(ops) && AllLeave(ops, location) && Find(s, location).Some?
    ensures Find(DoAll(s, ops), location) == Some(Ticks(Find(s, location).value, TickCount(ops)))
  {
    if ops == [] {
    } else {
      var last := |ops| - 1;
      FindAfterAll(s, ops[..last], location);
      FindAfter(DoAll(s, ops[..last]), ops[last], location);
    }
  }

  /** The same place, characters and lengths. */
  predicate SameBlink(a: Entry, b: Entry) {
    && a.location == b.location && a.onChar == b.onChar && a.offChar == b.offChar
    && a.onLength == b.onLength && a.offLength == b.offLength
  }

  lemma {:induction false} TicksKeepBlink(e: Entry, n: nat)
    ensures SameBlink(Ticks(e, n), e)
  {
    if n == 0 {
    } else {
      TicksKeepBlink(e, n - 1);
    }
  }

  /** Whatever happens elsewhere, a blink is what was added and keeps its rhythm from that moment. */
  lemma BlinkKeepsRhythm(s: State, e: Entry, ops: seq<Op>)
    requires s.Valid() && 0 < e.location < CELLS && |s.list| < CELLS && Proper(ops) && AllLeave(ops, e.location)
    ensures var found := Find(DoAll(Added(s, e), ops), e.location);
            && found.Some? && SameBlink(found.value, e)
            && (found.value.on <==> TickCount(ops) % Period(e) < Lasts(e.onLength))
  {
    RemoveUndoesAdd(s, e);
    FindAfterAll(Added(s, e), ops, e.location);
    BlinkTiming(e, TickCount(ops));
    TicksKeepBlink(Started(e), TickCount(ops));
  }

  predicate InStep(a: Entry, b: Entry) {
    a.onLength == b.onLength && a.offLength == b.offLength && a.countdown == b.countdown && a.on == b.on
  }

  lemma {:induction false} TicksInStep(a: Entry, b: Entry, n: nat)
    requires InStep(a, b)
    ensures InStep(Ticks(a, n), Ticks(b, n))
  {
    if n == 0 {
    } else {
      TicksInStep(a, b, n - 1);
    }
  }

  /** Two blinks that were synchronised stay in step for as long as both are left alone. */
  lemma SyncedStayInStep(s: State, from: Word, to: Word, ops: seq<Op>)
    requires s.Valid() && Find(s, from).Some? && Find(s, to).Some?
    requires Proper(ops) && AllLeave(ops, from) && AllLeave(ops, to)
    ensures var t := DoAll(Synced(s, from, to), ops);
            && Find(t, from).Some? && Find(t, to).Some? && InStep(Find(t, from).value, Find(t, to).value)
            && SameBlink(Find(t, from).value, Find(s, from).value)
            && Find(t, to).value.onChar == Find(s, to).value.onChar && Find(t, to).value.location == to
            && Find(t, to).value.offChar == Find(s, to).value.offChar
  {
    var i, j := IndexOf(s.list, from).value, IndexOf(s.list, to).value;
    var t := Synced(s, from, to);
    IndexOfIs(t.list, from, i);
    IndexOfIs(t.list, to, j);
    FindAfterAll(t, ops, from);
    FindAfterAll(t, ops, to);
    TicksInStep(Find(t, from).value, Find(t, to).value, TickCount(ops));
    TicksKeepBlink(Find(t, from).value, TickCount(ops));
    TicksKeepBlink(Find(t, to).value, TickCount(ops));
  }

  // ---------- what is seen ----------

  function Shown(e: Entry): char {
    if e.on then e.onChar else e.offChar
  }

  /** Number `i` is the only blink at its location, and the screen shows it. */
  ghost predicate Alone(s: State, location: Word, i: nat) {
    && s.Valid() && i < |s.list| && s.list[i].location == location
    && (forall j | 0 <= j < |s.list| && j != i :: s.list[j].location != location)
    && s.screen[location] == Shown(s.list[i])
  }

  lemma {:induction false} DrawnAlone(s: State, location: Word, i: nat, n: nat)
    requires Alone(s, location, i) && n <= |s.list|
    ensures DrawnTo(s.list, n, s.screen)[location] == Shown(if i < n then Ticked(s.list[i]) else s.list[i])
  {
    if n == 0 {
    } else {
      DrawnAlone(s, location, i, n - 1);
    }
  }

  lemma AddLeavesAlone(s: State, e: Entry, location: Word, i: nat) returns (j: nat)
    requires Alone(s, location, i) && e.location != 0 && e.location != location
    ensures Alone(Do(s, AddOp(e)), location, j)
  {
    j := if e.location < CELLS && |s.list| < CELLS then i + 1 else i;
  }

  lemma RemoveLeavesAlone(s: State, l: Word, location: Word, i: nat) returns (j: nat)
    requires Alone(s, location, i) && l != location
    ensures Alone(Removed(s, l), location, j)
  {
    match IndexOf(s.list, l)
    case None => j := i;
    case Some(k) => j := if i < k then i else i - 1;
  }

  lemma SyncLeavesAlone(s: State, from: Word, to: Word, location: Word, i: nat)
    requires Alone(s, location, i) && to != location
    ensures Alone(Synced(s, from, to), location, i)
  {
  }

  lemma TickLeavesAlone(s: State, location: Word, i: nat)
    requires Alone(s, location, i)
    ensures Alone(AfterTick(s), location, i)
  {
    DrawnAlone(s, location, i, |s.list|);
  }

  /** An operation elsewhere leaves such a blink alone, and a tick shows it as it then is. */
  lemma StaysAlone(s: State, op: Op, location: Word, i: nat) returns (j: nat)
    requires Alone(s, location, i) && (op.AddOp? ==> op.e.location != 0) && Leaves(op, location)
    ensures Alone(Do(s, op), location, j)
  {
    j := i;
    match op
    case AddOp(e) => j := AddLeavesAlone(s, e, location, i);
    case RemoveOp(l) => j := RemoveLeavesAlone(s, l, location, i);
    case SyncOp(from, to) => SyncLeavesAlone(s, from, to, location, i);
    case TickOp => TickLeavesAlone(s, location, i);
  }

  lemma {:induction false} StaysAloneAll(s: State, ops: seq<Op>, location: Word, i: nat) returns (j: nat)
    requires Alone(s, location, i) && Proper(ops) && AllLeave(ops, location)
    ensures Alone(DoAll(s, ops), location, j)
  {
    if ops == [] {
      j := i;
    } else {
      var last := |ops| - 1;
      j := StaysAloneAll(s, ops[..last], location, i);
      j := StaysAlone(DoAll(s, ops[..last]), ops[last], location, j);
    }
  }

  /**
   What is seen at a place of its own: after any number of ticks, and whatever happens elsewhere, the character that
   the rhythm says.
   */
  lemma BlinkIsSeen(s: State, e: Entry, ops: seq<Op>)
    requires s.Valid() && 0 < e.location < CELLS && |s.list| < CELLS && Find(s, e.location).None?
    requires Proper(ops) && AllLeave(ops, e.location)
    ensures DoAll(Added(s, e), ops).screen[e.location] ==
              if TickCount(ops) % Period(e) < Lasts(e.onLength) then e.onChar else e.offChar
  {
    var t := DoAll(Added(s, e), ops);
    assert Alone(Added(s, e), e.location, 0);
    var j := StaysAloneAll(Added(s, e), ops, e.location, 0);
    IndexOfIs(t.list, e.location, j);
    BlinkKeepsRhythm(s, e, ops);
  }

  /** Synchronising shows the off character at once, which is right only by chance. */
  lemma SyncShowsRightlyIff(s: State, from: Word, to: Word)
    requires s.Valid() && Find(s, from).Some? && Find(s, to).Some?
    ensures var t, e := Synced(s, from, to), Find(s, from).value;
            Find(t, to).Some? && (t.screen[Find(t, to).value.location] == Shown(Find(t, to).value)
              <==> !e.on || Find(s, to).value.onChar == Find(s, to).value.offChar)
  {
    var j := IndexOf(s.list, to).value;
    IndexOfIs(Synced(s, from, to).list, to, j);
  }

  /** The entries of the list are at different places, and the screen shows each of them. */
  ghost predicate Faithful(s: State) {
    && s.Valid()
    && (forall i, j | 0 <= i < j < |s.list| :: s.list[i].location != s.list[j].location)
    && forall i | 0 <= i < |s.list| :: s.screen[s.list[i].location] == Shown(s.list[i])
  }

  lemma {:induction false} DrawnAt(s: State, n: nat)
    requires Faithful(s) && n <= |s.list|
    ensures forall i | 0 <= i < |s.list| ::
              DrawnTo(s.list, n, s.screen)[s.list[i].location] == Shown(if i < n then Ticked(s.list[i]) else s.list[i])
  {
    if n == 0 {
    } else {
      DrawnAt(s, n - 1);
    }
  }

  /**
   An operation that keeps the screen right: an addition to a place of its own, and a synchronisation with
   a blink that is off, or of one whose two characters are equal.
   */
  predicate Tidy(s: State, op: Op)
    requires s.Valid()
  {
    match op
    case AddOp(e) => e.location < CELLS && |s.list| < CELLS ==> Find(s, e.location).None?
    case SyncOp(from, to) =>
      Find(s, from).Some? && Find(s, to).Some? ==>
        !Find(s, from).value.on || Find(s, to).value.onChar == Find(s, to).value.offChar
    case _ => true
  }

  lemma AddStaysFaithfulIff(s: State, e: Entry)
    requires Faithful(s) && e.location != 0
    ensures Faithful(Do(s, AddOp(e))) <==> Tidy(s, AddOp(e))
  {
    if e.location < CELLS && |s.list| < CELLS {
      var t := Added(s, e);
      if Tidy(s, AddOp(e)) {
        assert forall i | 0 < i < |t.list| :: t.list[i] == s.list[i - 1] && t.list[i].location != e.location;
      } else {
        var i := IndexOf(s.list, e.location).value;
        assert t.list[i + 1] == s.list[i] && t.list[0].location == t.list[i + 1].location;
      }
    }
  }

  lemma SyncStaysFaithfulIff(s: State, from: Word, to: Word)
    requires Faithful(s)
    ensures Faithful(Synced(s, from, to)) <==> Tidy(s, SyncOp(from, to))
  {
    if Find(s, from).Some? && Find(s, to).Some? {
      var t, j := Synced(s, from, to), IndexOf(s.list, to).value;
      SyncShowsRightlyIff(s, from, to);
      assert forall k | 0 <= k < |t.list| && k != j ::
        t.list[k] == s.list[k] && t.list[k].location != t.list[j].location;
      IndexOfIs(t.list, to, j);
    }
  }

  lemma StepStaysFaithfulIff(s: State, op: Op)
    requires Faithful(s) && (op.AddOp? ==> op.e.location != 0)
    ensures Faithful(Do(s, op)) <==> Tidy(s, op)
  {
    match op
    case AddOp(e) => AddStaysFaithfulIff(s, e);
    case RemoveOp(l) => RemoveStaysFaithful(s, l);
    case SyncOp(from, to) => SyncStaysFaithfulIff(s, from, to);
    case TickOp => TickStaysFaithful(s);
  }

  lemma RemoveStaysFaithful(s: State, location: Word)
    requires Faithful(s)
    ensures Faithful(Removed(s, location))
  {
  }

  lemma TickStaysFaithful(s: State)
    requires Faithful(s)
    ensures Faithful(AfterTick(s))
  {
    DrawnAt(s, |s.list|);
  }

  ghost predicate AlwaysFaithful(s: State, ops: seq<Op>)
    requires s.Valid() && Proper(ops)
    decreases |ops|
  {
    Faithful(s) && (ops == [] || AlwaysFaithful(Do(s, ops[0]), ops[1..]))
  }

  predicate AlwaysTidy(s: State, ops: seq<Op>)
    requires s.Valid() && Proper(ops)
    decreases |ops|
  {
    ops == [] || (Tidy(s, ops[0]) && AlwaysTidy(Do(s, ops[0]), ops[1..]))
  }

  /** All along a run the screen shows what the blinks are, exactly if every operation of the run is a tidy one. */
  lemma {:induction false} ScreenStaysFaithfulIff(s: State, ops: seq<Op>)
    requires Faithful(s) && Proper(ops)
    ensures AlwaysFaithful(s, ops) <==> AlwaysTidy(s, ops)
    decreases |ops|
  {
    if ops == [] {
    } else {
      StepStaysFaithfulIff(s, ops[0]);
      if Tidy(s, ops[0]) {
        ScreenStaysFaithfulIff(Do(s, ops[0]), ops[1..]);
      }
    }
  }

  // ---------- the code ----------

  class Node {
    var location: Word
    var onChar: char
    var offChar: char
    var onLength: Word
    var offLength: Word
    var countdown: Word
    var on: bool
    var next: Node?

    /** The place in the array of structures. */
    const slot: nat

    constructor (slot: nat)
      ensures Value() == ZERO && next == null && this.slot == slot
    {
      location, onChar, offChar, onLength, offLength, countdown, on := 0, '\0', '\0', 0, 0, 0, false;
      next := null;
      this.slot := slot;
    }

    ghost function Value(): Entry
      reads this`location, this`onChar, this`offChar, this`onLength, this`offLength, this`countdown, this`on
    {
      Entry(location, onChar, offChar, onLength, offLength, countdown, on)
    }

    method CopyFrom(e: Entry)
      modifies this`location, this`onChar, this`offChar, this`onLength, this`offLength, this`countdown, this`on
      ensures Value() == e
    {
      location, onChar, offChar := e.location, e.onChar, e.offChar;
      onLength, offLength, countdown, on := e.onLength, e.offLength, e.countdown, e.on;
    }

    /** The countdown of one node; the tasklet draws the other character when it is over. */
    method Tick() returns (toggled: bool)
      modifies this`countdown, this`on
      ensures Value() == Ticked(old(Value())) && toggled == !RunsOn(old(countdown))
    {
      countdown := (countdown + WORD - 1) % WORD;
      toggled := !(0 < countdown < WORD / 2);
      if toggled {
        countdown := if on then offLength else onLength;
        on := !on;
      }
    }

    /** `sync_copy_loop`. */
    method Follow(from: Node)
      modifies this`onLength, this`offLength, this`countdown, this`on
      ensures Value() == Following(old(from.Value()), old(Value()))
    {
      onLength := from.onLength;
      offLength := from.offLength;
      countdown := from.countdown;
      on := from.on;
    }
  }

  class Driver {
    const pool: seq<Node>
    const screen: array<char>
    var head: Node?

    /** The contents of the pool, and the slots of the list from the head on. */
    ghost var mem: Memory
    ghost var order: seq<nat>

    ghost predicate Shape() {
      |pool| == CELLS && screen.Length == CELLS && forall k | 0 <= k < CELLS :: pool[k].slot == k
    }

    ghost predicate InPool(b: Node?)
      requires Shape()
    {
      b != null ==> b.slot < CELLS && pool[b.slot] == b
    }

    ghost function Pointer(b: Node?): int {
      if b == null then -1 else b.slot
    }

    /** `mem` is what the pool holds; all pointers lead into it. */
    ghost predicate Wired()
      reads this, pool
    {
      && Shape() && mem.Shape()
      && mem.head == Pointer(head) && InPool(head)
      && (forall k | 0 <= k < CELLS :: mem.cells[k] == pool[k].Value())
      && forall k | 0 <= k < CELLS :: mem.links[k] == Pointer(pool[k].next) && InPool(pool[k].next)
    }

    ghost function Raw(): Heap
      reads this, screen
    {
      Heap(mem, order, screen[..])
    }

    /** The list runs without a cycle through exactly the slots in use. */
    ghost predicate Valid()
      reads this, pool, screen
    {
      Wired() && Raw().Valid()
    }

    /** The array of structures, cleared. */
    constructor (vmem: array<char>)
      requires vmem.Length == CELLS
      ensures screen == vmem && Wired() && Raw() == EmptyHeap(vmem[..])
    {
      screen := vmem;
      head := null;
      var slots: seq<Node> := [];
      var i := 0;
      while i < CELLS
        invariant 0 <= i == |slots| <= CELLS
        invariant forall k | 0 <= k < i :: slots[k].slot == k && slots[k].Value() == ZERO && slots[k].next == null
      {
        var node := new Node(i);
        slots := slots + [node];
        i := i + 1;
      }
      pool := slots;
      mem := EmptyHeap(vmem[..]).mem;
      order := [];
    }

    method Store(b: Node, e: Entry)
      requires Wired() && InPool(b)
      modifies this`mem, b`location, b`onChar, b`offChar, b`onLength, b`offLength, b`countdown, b`on
      ensures Wired() && mem == old(mem).(cells := old(mem).cells[b.slot := e])
    {
      b.CopyFrom(e);
      mem := mem.(cells := mem.cells[b.slot := e]);
    }

    /** A store through the address of a pointer: that of `prev`, or the head. */
    method SetPointer(prev: Node?, n: Node?)
      requires Wired() && InPool(prev) && InPool(n)
      modifies this`mem, this`head, pool`next
      ensures Wired()
      ensures mem == if prev == null then old(mem).(head := Pointer(n))
                     else old(mem).(links := old(mem).links[prev.slot := Pointer(n)])
    {
      if prev == null {
        head := n;
        mem := mem.(head := Pointer(n));
      } else {
        prev.next := n;
        mem := mem.(links := mem.links[prev.slot := Pointer(n)]);
      }
    }

    /** `mp1_malloc`: the first slot whose location is 0. */
    method Malloc() returns (slot: Node?)
      requires Wired()
      ensures match FirstFree(mem.cells)
        case None => slot == null
        case Some(k) => slot == pool[k]
    {
      var i := 0;
      while i < CELLS
        invariant 0 <= i <= CELLS && forall j | 0 <= j < i :: mem.cells[j].location != 0
      {
        if pool[i].location == 0 {
          FirstFreeIs(mem.cells, i);
          return pool[i];
        }
        i := i + 1;
      }
      return null;
    }

    /** The slot goes to the front, whatever the list is. */
    method Add(e: Entry) returns (r: int)
      requires Wired()
      modifies this`head, this`mem, this`order, pool, screen
      ensures Wired() && (Raw(), r) == RawAdded(old(Raw()), e)
    {
      if e.location >= CELLS {
        return -1;
      }
      var slot := Malloc();
      if slot == null {
        return -1;
      }
      Push(slot, e.(on := true, countdown := e.onLength));
      screen[e.location] := e.onChar;
      return 0;
    }

    method Push(slot: Node, e: Entry)
      requires Wired() && InPool(slot)
      modifies this`head, this`mem, this`order, pool
      ensures Wired() && mem == Pushed(old(mem), slot.slot, e) && order == [slot.slot] + old(order)
    {
      Store(slot, e);
      SetPointer(slot, head);
      SetPointer(null, slot);
      order := [slot.slot] + order;
    }

    /** `mp1_find_helper`; `location` is the low word of its argument. */
    method FindHelper(location: Word) returns (b: Node?, ghost i: nat)
      requires Valid()
      ensures InPool(b)
      ensures IndexOf(Raw().Value().list, location) == if b == null then None else Some(i)
      ensures b != null ==> i < |order| && b.slot == order[i]
    {
      ghost var list := Raw().Value().list;
      b, i := head, 0;
      while b != null && location != b.location
        invariant 0 <= i <= |order| && Pointer(b) == Nth(order, i) && InPool(b)
        invariant forall j | 0 <= j < i :: list[j].location != location
        decreases |order| - i
      {
        assert mem.links[order[i]] == Nth(order, i + 1);
        b := b.next;
        i := i + 1;
      }
      if b != null {
        IndexOfIs(list, location, i);
      }
    }

    /** Unlinks the latest addition at a location and gives its slot back. */
    method Remove(location: Word) returns (r: int)
      requires Valid()
      modifies this`head, this`mem, this`order, pool
      ensures Wired() && Raw() == RawRemoved(old(Raw()), location)
      ensures r == if IndexOf(old(Raw()).Value().list, location).None? then -1 else 0
    {
      var b, i := FindHelper(location);
      if b == null {
        return -1;
      }
      Extract(b, i);
      return 0;
    }

    method Extract(b: Node, ghost i: nat)
      requires Valid() && i < |order| && b.slot == order[i] && InPool(b)
      modifies this`head, this`mem, this`order, pool
      ensures Wired() && Raw() == RemovedAt(old(Raw()), i)
    {
      ghost var h := Raw();
      var prev := FindPrev(b, i);
      Unlink(prev, b);
      order := Without(h.order, i);
    }

    method Unlink(prev: Node?, b: Node)
      requires Wired() && InPool(prev) && InPool(b)
      modifies this`head, this`mem, pool
      ensures Wired() && mem == Unlinked(old(mem), Pointer(prev), b.slot)
    {
      SetPointer(prev, b.next);
      SetPointer(b, null);
      Store(b, ZERO);
    }

    /** Where the pointer behind `prev` leads, or the head. */
    lemma LeadsTo(prev: Node?, k: nat)
      requires Valid() && k < |order| && InPool(prev) && Pointer(prev) == Prev(order, k)
      ensures var next := if prev == null then head else prev.next; InPool(next) && Pointer(next) == order[k]
    {
      assert k > 0 ==> mem.links[order[k - 1]] == Nth(order, k);
    }

    /** The node whose pointer leads to `b`; null stands for the head. */
    method FindPrev(b: Node, ghost i: nat) returns (prev: Node?)
      requires Valid() && i < |order| && b.slot == order[i] && InPool(b)
      ensures InPool(prev) && Pointer(prev) == Prev(order, i)
    {
      prev := null;
      ghost var k: nat := 0;
      LeadsTo(prev, k);
      while (if prev == null then head else prev.next) != b
        invariant 0 <= k <= i && InPool(prev) && Pointer(prev) == Prev(order, k)
        invariant var next := if prev == null then head else prev.next; InPool(next) && Pointer(next) == order[k]
        decreases i - k
      {
        prev := if prev == null then head else prev.next;
        k := k + 1;
        LeadsTo(prev, k);
      }
    }

    method FindEntry(location: Word) returns (e: Option<Entry>)
      requires Valid()
      ensures e == Find(Raw().Value(), location)
    {
      var b, i := FindHelper(location);
      if b == null {
        return None;
      }
      return Some(Entry(b.location, b.onChar, b.offChar, b.onLength, b.offLength, b.countdown, b.on));
    }

    method Sync(from: Word, to: Word) returns (r: int)
      requires Valid()
      modifies this`mem, pool`onLength, pool`offLength, pool`countdown, pool`on, screen
      ensures Wired() && Raw() == RawSynced(old(Raw()), from, to)
      ensures r == if Find(old(Raw()).Value(), from).Some? && Find(old(Raw()).Value(), to).Some? then 0 else -1
    {
      var a, i := FindHelper(from);
      if a == null {
        return -1;
      }
      var b, j := FindHelper(to);
      if b == null {
        return -1;
      }
      Join(a, b);
      return 0;
    }

    method Join(a: Node, b: Node)
      requires Wired() && InPool(a) && InPool(b) && b.location < CELLS
      modifies this`mem, b`onLength, b`offLength, b`countdown, b`on, screen
      ensures Wired() && Raw() == SyncedAt(old(Raw()), a.slot, b.slot)
    {
      b.Follow(a);
      mem := mem.(cells := mem.cells[b.slot := Following(mem.cells[a.slot], mem.cells[b.slot])]);
      screen[b.location] := b.offChar;
    }

    /** One node of the tasklet's loop. */
    method Count(b: Node)
      requires Wired() && InPool(b) && b.location < CELLS
      modifies this`mem, b`countdown, b`on, screen
      ensures Wired() && Raw() == CountedAt(old(Raw()), b.slot)
    {
      var toggled := b.Tick();
      mem := mem.(cells := mem.cells[b.slot := Ticked(mem.cells[b.slot])]);
      if toggled {
        screen[b.location] := if b.on then b.onChar else b.offChar;
      }
    }

    /** One turn of the tasklet's loop. */
    method CountNext(b: Node, ghost h: Heap, ghost i: nat) returns (next: Node?)
      requires Wired() && h.Valid() && order == h.order && i < |order| && Raw() == RawTicked(h, i)
      requires InPool(b) && Pointer(b) == order[i]
      modifies this`mem, pool`countdown, pool`on, screen
      ensures Wired() && Raw() == RawTicked(h, i + 1) && InPool(next) && Pointer(next) == Nth(order, i + 1)
    {
      assert mem.links[order[i]] == Nth(order, i + 1);
      TickStep(h, i);
      Count(b);
      next := b.next;
    }

    /** `mp1_rtc_tasklet`. */
    method Tasklet()
      requires Valid()
      modifies this`mem, pool`countdown, pool`on, screen
      ensures Wired() && Raw() == RawTicked(old(Raw()), |order|)
    {
      ghost var h := Raw();
      var b := head;
      ghost var i: nat := 0;
      TickStart(h);
      while b != null
        invariant 0 <= i <= |order| && Pointer(b) == Nth(order, i) && InPool(b)
        invariant h.Valid() && order == h.order
        invariant Wired() && Raw() == RawTicked(h, i)
        decreases |order| - i
      {
        b := CountNext(b, h, i);
        i := i + 1;
      }
      assert i == |order|;
    }
  }
}
