/** Walking around the ring of process slots (find_next_active_pcb). */
module Ring {
  import opened ProcessTable
  import Text

  /** The slots in the order in which the walk that starts at `cur` looks at them; `cur` comes last. */
  function Walk(cur: nat): (w: seq<nat>)
    ensures |w| == MAX_PROCESSES && forall i | 0 <= i < |w| :: w[i] == Around(cur, i) < MAX_PROCESSES
  {
    seq(MAX_PROCESSES, i requires 0 <= i < MAX_PROCESSES => Around(cur, i))
  }

  /** The marked slots of a walk. */
  function Marked(b: seq<bool>, walk: seq<nat>): seq<nat>
    requires forall i | 0 <= i < |walk| :: walk[i] < |b|
  {
    if walk == [] then [] else (if b[walk[0]] then [walk[0]] else []) + Marked(b, walk[1..])
  }

  /** All marked slots, in the order in which they are met after `cur`. */
  function Order(b: seq<bool>, cur: nat): seq<nat>
    requires |b| == MAX_PROCESSES
  {
    Marked(b, Walk(cur))
  }

  lemma {:induction false} MarkedAppend(b: seq<bool>, v: seq<nat>, w: seq<nat>)
    requires forall i | 0 <= i < |v| :: v[i] < |b|
    requires forall i | 0 <= i < |w| :: w[i] < |b|
    ensures Marked(b, v + w) == Marked(b, v) + Marked(b, w)
  {
    if v == [] {
      assert v + w == w;
    } else {
      MarkedAppend(b, v[1..], w);
      assert (v + w)[1..] == v[1..] + w;
      Text.Regroup(if b[v[0]] then [v[0]] else [], Marked(b, v[1..]), Marked(b, w));
    }
  }

  lemma {:induction false} NoneMarked(b: seq<bool>, walk: seq<nat>)
    requires forall i | 0 <= i < |walk| :: walk[i] < |b| && !b[walk[i]]
    ensures Marked(b, walk) == []
  {
    if walk == [] {
    } else {
      NoneMarked(b, walk[1..]);
    }
  }

  lemma AroundAdds(cur: nat, j: nat, i: nat)
    requires i < MAX_PROCESSES && j < MAX_PROCESSES
    ensures Around(Around(cur, j), i) ==
              Around(cur, if j + 1 + i < MAX_PROCESSES then j + 1 + i else j + 1 + i - MAX_PROCESSES)
  {
  }

  /** The walk from the slot met at place `j` is the same walk, turned. */
  lemma WalkTurns(cur: nat, j: nat)
    requires j < MAX_PROCESSES
    ensures Walk(Around(cur, j)) == Walk(cur)[j + 1..] + Walk(cur)[..j] + [Around(cur, j)]
  {
    var walk, h := Walk(cur), Around(cur, j);
    var turned := walk[j + 1..] + walk[..j] + [h];
    forall i | 0 <= i < MAX_PROCESSES
      ensures Walk(h)[i] == turned[i]
    {
      AroundAdds(cur, j, i);
      TurnedAt(walk, j, i);
    }
  }

  lemma TurnedAt(walk: seq<nat>, j: nat, i: nat)
    requires |walk| == MAX_PROCESSES && i < |walk| && j < |walk|
    ensures (walk[j + 1..] + walk[..j] + [walk[j]])[i] ==
              walk[if j + 1 + i < MAX_PROCESSES then j + 1 + i else j + 1 + i - MAX_PROCESSES]
  {
  }

  lemma MarkedTurns(b: seq<bool>, before: seq<nat>, h: nat, after: seq<nat>)
    requires forall i | 0 <= i < |before| :: before[i] < |b| && !b[before[i]]
    requires h < |b| && b[h] && forall i | 0 <= i < |after| :: after[i] < |b|
    ensures Marked(b, before + ([h] + after)) == [h] + Marked(b, after)
    ensures Marked(b, after + before + [h]) == Marked(b, after) + [h]
  {
    NoneMarked(b, before);
    assert Marked(b, [h]) == [h] + Marked(b, []);
    MarkedAppend(b, before, [h] + after);
    MarkedAppend(b, [h], after);
    MarkedAppend(b, after + before, [h]);
    MarkedAppend(b, after, before);
  }

  /** The first marked slot after `cur` goes from the head of the order to its end. */
  lemma OrderRotates(b: seq<bool>, cur: nat, j: nat)
    requires |b| == MAX_PROCESSES && j < |b| && b[Around(cur, j)]
    requires forall l | 0 <= l < j :: !b[Around(cur, l)]
    ensures var h := Around(cur, j);
            Order(b, cur) != [] && Order(b, cur)[0] == h && Order(b, h) == Order(b, cur)[1..] + [h]
  {
    var walk := Walk(cur);
    MarkedTurns(b, walk[..j], walk[j], walk[j + 1..]);
    assert walk == walk[..j] + ([walk[j]] + walk[j + 1..]);
    WalkTurns(cur, j);
  }

  lemma {:induction false} MarkedCount(b: seq<bool>, walk: seq<nat>, i: nat)
    requires forall l | 0 <= l < |walk| :: walk[l] < |b|
    ensures multiset(Marked(b, walk))[i] == if i < |b| && b[i] then multiset(walk)[i] else 0
  {
    if walk == [] {
    } else {
      MarkedCount(b, walk[1..], i);
      assert walk == [walk[0]] + walk[1..];
    }
  }

  lemma Turned(walk: seq<nat>, j: nat)
    requires j < |walk|
    ensures multiset(walk[j + 1..] + walk[..j] + [walk[j]]) == multiset(walk)
  {
    assert walk == walk[..j] + [walk[j]] + walk[j + 1..];
  }

  lemma LastWalk()
    ensures Walk(MAX_PROCESSES - 1) == [0, 1, 2, 3, 4, 5]
  {
  }

  lemma SlotsOnce(i: nat)
    ensures multiset([0, 1, 2, 3, 4, 5])[i] == if i < MAX_PROCESSES then 1 else 0
  {
  }

  lemma WalkOnce(cur: nat, i: nat)
    requires cur < MAX_PROCESSES
    ensures multiset(Walk(cur))[i] == if i < MAX_PROCESSES then 1 else 0
  {
    var last := Walk(MAX_PROCESSES - 1);
    WalkTurns(MAX_PROCESSES - 1, cur);
    assert Around(MAX_PROCESSES - 1, cur) == cur == last[cur];
    Turned(last, cur);
    LastWalk();
    SlotsOnce(i);
  }

  /** The order holds each marked slot exactly once. */
  lemma OrderOnce(b: seq<bool>, cur: nat, i: nat)
    requires |b| == MAX_PROCESSES && cur < MAX_PROCESSES
    ensures multiset(Order(b, cur))[i] == if i < MAX_PROCESSES && b[i] then 1 else 0
  {
    MarkedCount(b, Walk(cur), i);
    WalkOnce(cur, i);
  }
}
