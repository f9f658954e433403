/** `timer.c` in memory: the delta list around the global sentinel, node 0. */
module TimerQueue {
  import opened Bits
  import opened DList
  import opened DeltaList
  import opened Links
  import opened TimerOrder
  import opened TimerSpec

  class TimerList {
    const links: LinkMemory     // ntimer::list of every node
    const rtick: array<int>     // relative ticks
    const itick: array<int>     // reload ticks, 0 for one-shot
    ghost var q: seq<int>       // running timers in list order

    ghost predicate Memory() {
      && links.Valid() && 0 < links.next.Length == rtick.Length == itick.Length
      && links.next != rtick && links.next != itick && links.prev != rtick && links.prev != itick && rtick != itick
    }

    ghost predicate IsTimer(t: int) {
      0 < t < links.next.Length
    }

    /** The list is a ring through the sentinel and idle nodes point to themselves. */
    ghost predicate Shape()
      reads this, links.next, links.prev
    {
      && Memory() && links.IsRing([0] + q) && Distinct(q)
      && (forall t | t in q :: IsTimer(t))
      && (forall t | IsTimer(t) && t !in q :: links.next[t] == t)
    }

    /** The numbers on the list: no negative delta, every prefix sum fits in 32 bits. */
    ghost predicate Core()
      reads this, links.next, links.prev, rtick, itick
    {
      && Shape() && rtick[0] == UINT32_MAX && WellFormed(rtick[..], q, UINT32_MAX)
      && (forall t | 0 <= t < itick.Length :: 0 <= itick[t] <= UINT32_MAX)
    }

    /** The running timers in order, with the ticks they have left. */
    ghost function Order(): Line
      requires Core()
      reads this, links.next, links.prev, rtick, itick
    {
      Line(q, Lefts(rtick[..], q))
    }

    /** Between interrupts no timer is overdue. */
    ghost predicate Valid()
      reads this, links.next, links.prev, rtick, itick
    {
      Core() && (forall t | t in q :: Lefts(rtick[..], q)[t] >= 1)
    }

    /** The abstract timers. */
    ghost function View(): Timers
      requires Core()
      reads this, links.next, links.prev, rtick, itick
    {
      Entries(Lefts(rtick[..], q), itick[..])
    }

    /** The node at list position `j`, the sentinel past the end. */
    ghost function NodeAt(j: nat): int
      reads this
    {
      if j < |q| then q[j] else 0
    }

    lemma NextOf(j: nat)
      requires Shape() && j <= |q|
      ensures j < |q| ==> q[j] in q && IsTimer(q[j])
      ensures j > 0 ==> q[j - 1] in q && IsTimer(q[j - 1])
      ensures links.next[if j == 0 then 0 else q[j - 1]] == NodeAt(j)
      ensures j > 0 ==> links.prev[q[j - 1]] == if j > 1 then q[j - 2] else 0
      ensures 0 <= NodeAt(j) < links.next.Length && (NodeAt(j) == 0 <==> j == |q|) && 0 !in q
    {
      var r := [0] + q;
      assert j > 0 ==> r[j] == q[j - 1];
      assert After(r, j) == NodeAt(j);
      if j == 0 {
        Anchor(links.next[..], links.prev[..], 0, r);
      } else {
        Neighbours(links.next[..], links.prev[..], 0, r, j);
      }
      assert forall i | 0 < i < |r| :: r[i] != r[0];
    }

    /** Every node in its initial, idle state: `ntimer_init` and the static sentinel. */
    constructor (nodes: nat)
      requires nodes > 0
      ensures Valid() && View() == map[] && links.next.Length == nodes
      ensures fresh(links) && fresh(links.next) && fresh(links.prev) && fresh(rtick) && fresh(itick)
    {
      links := new LinkMemory(nodes);
      var ticks := new int[nodes](_ => 0);
      ticks[0] := UINT32_MAX;
      rtick := ticks;
      itick := new int[nodes](_ => 0);
      q := [];
      new;
      assert LinkedAt(links.next[..], links.prev[..], 0, [0] + q, 0);
    }

    /** The search loop of `insert_timer`: the first timer due no earlier, else the sentinel. */
    method FindPlace(timer: int) returns (current: int, ghost j: nat)
      requires Core() && IsTimer(timer) && timer !in q && 0 <= rtick[timer] <= UINT32_MAX
      modifies rtick
      ensures j <= |q| && current == NodeAt(j)
      ensures var rt, d := old(rtick[..]), old(rtick[timer]);
              && rtick[..] == rt[timer := d - Sum(rt, q, j)] && (j == 0 || Sum(rt, q, j) < d)
              && (j < |q| ==> q[j] in q && d <= Sum(rt, q, j) + rt[q[j]])
    {
      hide Lefts;
      ghost var rt, d := rtick[..], rtick[timer];
      j := 0;
      NextOf(0);
      current := links.next[0];
      while rtick[current] < rtick[timer]
        invariant j <= |q| && current == NodeAt(j) && 0 <= current < rtick.Length
        invariant rtick[..] == rt[timer := d - Sum(rt, q, j)] && (j == 0 || Sum(rt, q, j) < d)
        decreases |q| - j
      {
        SumMonotone(rt, q, 0, j);
        assert rtick[0] == rt[0];
        NextOf(j + 1);
        rtick[timer] := rtick[timer] - rtick[current];
        current := links.next[current];
        j := j + 1;
      }
      NextOf(j);
    }

    /** The successor's delta shrinks by the new timer's: the last step of `insert_timer`. */
    method ReduceNext(current: int, timer: int, ghost rt: seq<int>, ghost q0: seq<int>, ghost j: nat, ghost d: int)
      requires InBounds(rt, q0) && j <= |q0| && 0 <= timer < |rt| && timer !in q0
      requires |rt| == rtick.Length && rtick[..] == rt[timer := d - Sum(rt, q0, j)]
      requires if j < |q0| then current == q0[j] && q0[j] in q0 && current != 0 else current == 0
      modifies rtick
      ensures rtick[..] == InsertDeltas(rt, q0, j, timer, d)
    {
      if current != 0 {
        rtick[current] := rtick[current] - rtick[timer];
      }
    }

    /** `ndlist_add_before` at list position `j`. */
    method LinkBefore(current: int, timer: int, ghost j: nat)
      requires Shape() && IsTimer(timer) && timer !in q && j <= |q| && current == NodeAt(j)
      modifies links.next, links.prev, this`q
      ensures Shape() && q == WithAt(old(q), j, timer) && forall t :: t in q <==> t in old(q) || t == timer
    {
      NextOf(j);
      ConsWithAt(0, q, j, timer);
      assert After([0] + q, j) == NodeAt(j);
      links.AddBefore(current, timer, [0] + q, j + 1);
      WithAtMembers(q, j, timer);
      q := WithAt(q, j, timer);
    }

    /** `insert_timer`: `rtick` of the timer holds its ticks from now. */
    method InsertTimer(timer: int)
      requires Core() && IsTimer(timer) && timer !in q
      requires 0 <= rtick[timer] <= UINT32_MAX && 0 <= itick[timer] <= UINT32_MAX
      modifies links.next, links.prev, rtick, this`q
      ensures Core() && (old(rtick[timer]) > 0 ==> rtick[timer] > 0)
      ensures Order() == Entered(old(Order()), timer, old(rtick[timer]))
    {
      hide Sum, Lefts, InsertDeltas, WithAt, Place;
      ghost var rt, d, q0 := rtick[..], rtick[timer], q;
      var current, j := FindPlace(timer);
      NextOf(j);
      PlaceFound(rt, q0, d, j, UINT32_MAX);
      LinkBefore(current, timer, j);
      ReduceNext(current, timer, rt, q0, j, d);
      InsertWellFormed(rt, q0, j, timer, d, UINT32_MAX);
    }

    /** `ndlist_remove` of the timer at list position `k`. */
    method UnlinkNode(timer: int, ghost k: nat)
      requires Shape() && Distinct(q) && k < |q| && timer == q[k]
      modifies links.next, links.prev, this`q
      ensures Shape() && q == Without(old(q), k) && forall t :: t in q <==> t in old(q) && t != timer
    {
      ConsWithout(0, q, k);
      assert ([0] + q)[k + 1] == q[k];
      links.Remove(timer, [0] + q, k + 1);
      WithoutMembers(q, k);
      q := Without(q, k);
    }

    /** `remove_timer` for the timer at list position `k`, whose ticks its successor has taken. */
    method Unlink(timer: int, ghost rt: seq<int>, ghost k: nat)
      requires Shape() && rtick[0] == UINT32_MAX && WellFormed(rt, q, UINT32_MAX) && |rt| == rtick.Length
      requires k < |q| && timer == q[k] && rtick[..] == RemoveDeltas(rt, q, k)
      requires forall t | 0 <= t < itick.Length :: 0 <= itick[t] <= UINT32_MAX
      modifies links.next, links.prev, this`q
      ensures Core() && rtick[..] == old(rtick[..]) && q == Without(old(q), k)
      ensures Lefts(rtick[..], q) == Lefts(rt, old(q)) - {timer}
      ensures forall t :: t in q <==> t in old(q) && t != timer
    {
      ghost var q0 := q;
      UnlinkNode(timer, k);
      RemoveWellFormed(rt, q0, k, UINT32_MAX);
    }

    /** `ntimer_is_running_i`. */
    method IsRunning(timer: int) returns (running: bool)
      requires Shape() && IsTimer(timer)
      ensures running <==> timer in q
    {
      running := links.next[timer] != timer;
      if timer in q {
        ghost var i := IndexOf(q, timer);
        NextOf(i + 1);
        if i + 1 < |q| { assert ([0] + q)[i + 1] != ([0] + q)[i + 2]; }
      }
    }

    /** The field writes of `ntimer_start_i`, with `tick` already incremented. */
    method Arm(timer: int, tick: nat, repeat: bool)
      requires Core() && IsTimer(timer) && timer !in q && tick <= UINT32_MAX
      modifies rtick, itick
      ensures Core() && Lefts(rtick[..], q) == old(Lefts(rtick[..], q))
      ensures rtick[timer] == tick && itick[timer] == (if repeat then tick else 0)
      ensures forall t | t in q :: itick[t] == old(itick[t])
    {
      OutsideWrite(rtick[..], q, timer, tick, UINT32_MAX);
      ghost var rt := rtick[..];
      rtick[timer] := tick;
      assert rtick[..] == rt[timer := tick];
      if repeat {
        itick[timer] := tick;
      } else {
        itick[timer] := 0;
      }
    }

    /** `ntimer_start_i`: start a timer that is not running. The increment wraps for the largest
        `tick` only; then, and only then, a timer is left overdue with no tick to count down. */
    method StartTimer(timer: int, tick: nat, repeat: bool)
      requires Valid() && IsTimer(timer) && timer !in q && 0 < tick <= UINT32_MAX
      modifies links.next, links.prev, rtick, itick, this`q
      ensures Core() && (Valid() <==> tick < UINT32_MAX)
      ensures View() == if tick < UINT32_MAX then Started(old(View()), timer, tick, repeat)
                        else old(View())[timer := Entry(0, 0)]
      ensures Order() == Entered(old(Order()), timer, (tick + 1) % 0x1_0000_0000)
    {
      hide Sum, WellFormed, Entries, Place;
      ghost var l, it := Lefts(rtick[..], q), itick[..];
      var ticks := (tick + 1) % 0x1_0000_0000;
      assert ticks == if tick < UINT32_MAX then tick + 1 else 0;
      Arm(timer, ticks, repeat);
      InsertTimer(timer);
      EntriesStart(l, it, itick[..], timer, ticks, repeat);
      assert timer in q && Lefts(rtick[..], q)[timer] == ticks;
    }

    /** The successor of a cancelled timer takes over its ticks. */
    method HandOver(timer: int, ghost k: nat)
      requires Core() && k < |q| && timer == q[k]
      modifies rtick
      ensures rtick[..] == RemoveDeltas(old(rtick[..]), q, k) && rtick[0] == UINT32_MAX
    {
      hide Sum, Lefts;
      NextOf(k + 1);
      assert q[k] in q && (k + 1 < |q| ==> q[k + 1] in q);
      if links.next[timer] != 0 {
        DeltaPair(rtick[..], q, k, UINT32_MAX);
        assert rtick[links.next[timer]] + rtick[timer] <= UINT32_MAX;
        rtick[links.next[timer]] := rtick[links.next[timer]] + rtick[timer];
      }
    }

    /** The body of `ntimer_cancel_i` for a running timer. */
    method CancelRunning(timer: int)
      requires Core() && timer in q
      modifies links.next, links.prev, rtick, this`q
      ensures Core() && Lefts(rtick[..], q) == old(Lefts(rtick[..], q)) - {timer}
      ensures q == Without(old(q), IndexOf(old(q), timer)) && forall t :: t in q <==> t in old(q) && t != timer
    {
      ghost var rt, k := rtick[..], IndexOf(q, timer);
      HandOver(timer, k);
      Unlink(timer, rt, k);
    }

    /** `ntimer_cancel_i`. */
    method CancelTimer(timer: int)
      requires Valid() && IsTimer(timer)
      modifies links.next, links.prev, rtick, this`q
      ensures Valid() && View() == Cancelled(old(View()), timer)
      ensures q == if timer in old(q) then Without(old(q), IndexOf(old(q), timer)) else old(q)
    {
      hide Sum, Lefts, WellFormed, Entries;
      EntriesCancel(Lefts(rtick[..], q), itick[..], timer);
      var running := IsRunning(timer);
      if running {
        CancelRunning(timer);
      }
    }

    /** `ntimer_remaining`: walk back from the timer to the sentinel, adding deltas. */
    method Remaining(timer: int) returns (remaining: int)
      requires Core() && IsTimer(timer)
      ensures remaining == if timer in View() then View()[timer].left else 0
      ensures 0 <= remaining <= UINT32_MAX
    {
      remaining := 0;
      var running := IsRunning(timer);
      if running {
        ghost var k := IndexOf(q, timer);
        ghost var i := k;
        var t := timer;
        while true
          invariant 0 <= i <= k < |q| && t == q[i] && remaining == Sum(rtick[..], q, k + 1) - Sum(rtick[..], q, i + 1)
          decreases i
        {
          assert q[i] in q;
          remaining := remaining + rtick[t];
          NextOf(i + 1);
          t := links.prev[t];
          if t == 0 { break; }
          i := i - 1;
        }
        SumMonotone(rtick[..], q, 0, k + 1);
      }
    }

    /** All remaining ticks are at least the head's delta. */
    lemma HeadIsLeast()
      requires Core() && |q| > 0
      ensures q[0] in q && Lefts(rtick[..], q)[q[0]] == rtick[q[0]]
      ensures forall t | t in q :: Lefts(rtick[..], q)[t] >= rtick[q[0]]
    {
      LeftsAt(rtick[..], q, 0);
      assert Sum(rtick[..], q, 1) == rtick[q[0]];
      forall t | t in q ensures Lefts(rtick[..], q)[t] >= rtick[q[0]] {
        SumMonotone(rtick[..], q, 1, IndexOf(q, t) + 1);
      }
    }

    /** A repeat timer that has fired re-enters the list. */
    method Reload(timer: int)
      requires Core() && IsTimer(timer) && timer !in q && 0 < itick[timer] <= UINT32_MAX
      modifies links.next, links.prev, rtick, this`q
      ensures Core() && Order() == Entered(old(Order()), timer, itick[timer])
    {
      OutsideWrite(rtick[..], q, timer, itick[timer], UINT32_MAX);
      ghost var rt := rtick[..];
      rtick[timer] := itick[timer];
      assert rtick[..] == rt[timer := itick[timer]];
      InsertTimer(timer);
    }

    /** One pass of the interrupt loop: a due head leaves the list and may come back. */
    method Expire(timer: int)
      requires Core() && |q| > 0 && timer == q[0] && timer in q && rtick[timer] == 0
      modifies links.next, links.prev, rtick, this`q
      ensures Core() && Order() == Called(old(Order()), itick[..])
      ensures Lefts(rtick[..], q) == (if itick[timer] != 0 then old(Lefts(rtick[..], q))[timer := itick[timer]]
                                      else old(Lefts(rtick[..], q)) - {timer})
    {
      hide Sum, Lefts, Without, RemoveDeltas, Place;
      ghost var rt := rtick[..];
      ZeroHead(rt, q);
      HeadLeaves(Order());
      Unlink(timer, rt, 0);
      if itick[timer] != 0 {
        Reload(timer);
      }
    }

    /** The decrement that starts an interrupt. */
    method Decrement(current: int)
      requires Valid() && |q| > 0 && current == q[0]
      modifies rtick
      ensures Core() && Lefts(rtick[..], q) == Decreased(old(Lefts(rtick[..], q)))
    {
      HeadIsLeast();
      NextOf(0);
      TickLefts(rtick[..], q);
      ghost var rt := rtick[..];
      rtick[current] := rtick[current] - 1;
      assert rtick[..] == rt[q[0] := rt[q[0]] - 1];
    }

    /** In the interrupt loop, from the timers `o` on: those in `fired` have been called, in order. */
    ghost predicate Calling(o: Line, fired: seq<int>)
      reads this, links.next, links.prev, rtick, itick
    {
      && Core() && Consistent(o) && Sorted(o) && (forall t | t in o.q :: t in o.left && o.left[t] >= 0)
      && Distinct(fired) && (forall t | t in fired :: t in o.left && o.left[t] == 0 && 0 <= t < itick.Length)
      && |fired| <= |o.q| && fired == o.q[..|fired|] && Order() == AfterCalls(o, itick[..], |fired|)
      && Lefts(rtick[..], q) == Expired(o.left, fired, itick[..])
    }

    /** The body of the interrupt loop. */
    method CallHead(current: int, ghost o: Line, ghost fired: seq<int>) returns (next: int)
      requires Calling(o, fired) && current == NodeAt(0) && 0 <= current < rtick.Length && rtick[current] == 0
      modifies links.next, links.prev, rtick, this`q
      ensures |fired| < |o.q| && Calling(o, fired + [current]) && next == NodeAt(0) && 0 <= next < rtick.Length
    {
      hide Sum, Lefts, Expired, Called, AfterCalls, Sorted, Consistent;
      NextOf(0);
      HeadIsLeast();
      HeadIsDue(o.left, fired, itick[..], rtick[..], q, current);
      NextInLine(o, itick[..], fired, current);
      Expire(current);
      NextOf(0);
      next := links.next[0];
      ExpiredStep(o.left, fired, itick[..], current);
    }

    /** The loop of `ncore_timer_isr`; `fired` lists the callbacks called, in order. */
    method ExpireDue() returns (fired: seq<int>)
      requires Core()
      modifies links.next, links.prev, rtick, this`q
      ensures Valid() && |fired| <= |old(q)| && fired == old(q)[..|fired|]
      ensures Order() == AfterCalls(old(Order()), itick[..], |fired|)
      ensures Distinct(fired)
      ensures forall t | t in fired ::
                t in old(Lefts(rtick[..], q)) && old(Lefts(rtick[..], q))[t] == 0 && 0 <= t < itick.Length
      ensures Lefts(rtick[..], q) == Expired(old(Lefts(rtick[..], q)), fired, itick[..])
    {
      hide Sum, Lefts, Expired, Called, AfterCalls, Sorted, Consistent;
      fired := [];
      ghost var o := Order();
      NoCalls(o, itick[..]);
      LineSorted(rtick[..], q, UINT32_MAX);
      ExpiredNone(o.left, itick[..]);
      NextOf(0);
      var current := links.next[0];
      while rtick[current] == 0
        invariant Calling(o, fired) && current == NodeAt(0) && 0 <= current < rtick.Length
        decreases |o.q| - |fired|
      {
        var tmp := current;
        current := CallHead(current, o, fired);
        fired := fired + [tmp];
      }
      if |q| > 0 { HeadIsLeast(); }
    }

    /** `ncore_timer_isr`. */
    method TimerIsr() returns (fired: seq<int>)
      requires Valid()
      modifies links.next, links.prev, rtick, this`q
      ensures Valid() && View() == Ticked(old(View()))
      ensures Distinct(fired) && forall t :: t in fired <==> Due(old(View()), t)
      ensures |fired| <= |old(q)| && fired == old(q)[..|fired|]
      ensures Consistent(LessOne(old(Order()))) && Order() == AfterCalls(LessOne(old(Order())), itick[..], |fired|)
    {
      hide Sum, Lefts, Expired, WellFormed, Entries, AfterCalls;
      fired := [];
      ghost var o := Order();
      assert Consistent(LessOne(o));
      NextOf(0);
      if links.next[0] != 0 {
        ghost var l := Lefts(rtick[..], q);
        Decrement(links.next[0]);
        ghost var l0 := Lefts(rtick[..], q);
        assert Order() == LessOne(o);
        fired := ExpireDue();
        InterruptIsTick(l, l0, fired, itick[..], Lefts(rtick[..], q));
      } else {
        NothingTicks(Lefts(rtick[..], q), itick[..]);
        assert LessOne(o).left == o.left by { NothingDecreases(o.left); }
        NoCalls(o, itick[..]);
      }
    }
  }

  /** The place the search has found is the one the specification names. */
  lemma PlaceFound(rt: seq<int>, q: seq<int>, d: int, j: nat, max: int)
    requires WellFormed(rt, q, max) && j <= |q| && (j == 0 || Sum(rt, q, j) < d)
    requires j < |q| ==> q[j] in q && d <= Sum(rt, q, j) + rt[q[j]]
    ensures Known(Lefts(rt, q), q) && Place(Lefts(rt, q), q, d) == j
  {
    forall i | 0 <= i < |q| ensures q[i] in q && Lefts(rt, q)[q[i]] == Sum(rt, q, i + 1) { LeftsAt(rt, q, i); }
    forall i | 0 <= i < j ensures q[i] in Lefts(rt, q) && Lefts(rt, q)[q[i]] < d { SumMonotone(rt, q, i + 1, j); }
    PlaceUnique(Lefts(rt, q), q, d, j);
  }

  lemma NoCalls(o: Line, it: seq<int>)
    requires Consistent(o)
    ensures AfterCalls(o, it, 0) == o
  {
  }

  /** The `n` timers called so far, and a due one that is not among them, by list position. */
  lemma DuePosition(o: Line, n: nat, t: int) returns (z: nat)
    requires Consistent(o) && Sorted(o) && n <= |o.q| && (forall k | 0 <= k < n :: o.q[k] != t) && t in o.left
             && o.left[t] == 0
    requires forall x | x in o.q :: x in o.left && o.left[x] >= 0
    ensures n < z <= |o.q| && Leads(o, z)
  {
    LineKnown(o);
    z := Place(o.left, o.q, 1);
    PlaceIsFirst(o.left, o.q, 1);
    assert Leads(o, z) by { assert forall k | 0 <= k < z :: o.q[k] in o.q; }
    forall k | z <= k < |o.q| ensures o.q[k] != t {
      if k > z { assert NoLater(o, z, k); }
    }
    assert o.q[IndexOf(o.q, t)] == t;
  }

  /** A due timer that now leads the list is the one behind those already called. */
  lemma NextInLine(o: Line, it: seq<int>, fired: seq<int>, t: int)
    requires Consistent(o) && Sorted(o) && (forall x | 0 <= x < |it| :: it[x] >= 0)
    requires forall x | x in o.q :: x in o.left && o.left[x] >= 0
    requires |fired| <= |o.q| && fired == o.q[..|fired|] && t !in fired && t in o.left && o.left[t] == 0
    requires var r := AfterCalls(o, it, |fired|); r.q != [] && r.q[0] == t
    ensures |fired| < |o.q| && fired + [t] == o.q[..|fired| + 1]
    ensures AfterCalls(o, it, |fired| + 1) == Called(AfterCalls(o, it, |fired|), it)
  {
    CalledOnce(o, it, |fired|);
    hide Sorted, Consistent, Called, AfterCalls, Leads;
    NotInPrefix(o.q, fired, t);
    var z := DuePosition(o, |fired|, t);
    LeadHead(o, it, |fired|, z);
    PrefixGrows(o.q, |fired|);
  }

  lemma NotInPrefix(q: seq<int>, fired: seq<int>, t: int)
    requires |fired| <= |q| && fired == q[..|fired|] && t !in fired
    ensures forall k | 0 <= k < |fired| :: q[k] != t
  {
    forall k | 0 <= k < |fired| ensures q[k] != t { assert fired[k] in fired; }
  }

  lemma PrefixGrows(q: seq<int>, n: nat)
    requires n < |q|
    ensures q[..n] + [q[n]] == q[..n + 1]
  {
  }

  lemma CalledOnce(o: Line, it: seq<int>, n: nat)
    requires Consistent(o)
    ensures AfterCalls(o, it, n + 1) == Called(AfterCalls(o, it, n), it)
  {
  }

  lemma LeadHead(o: Line, it: seq<int>, n: nat, z: nat)
    requires Consistent(o) && n < z && Leads(o, z) && forall x | 0 <= x < |it| :: it[x] >= 0
    ensures AfterCalls(o, it, n).q != [] && AfterCalls(o, it, n).q[0] == o.q[n]
  {
    hide AfterCalls;
    DueLead(o, it, n, z);
    assert AfterCalls(o, it, n).q[..z - n][0] == o.q[n..z][0];
  }

  lemma LineSorted(rt: seq<int>, q: seq<int>, max: int)
    requires WellFormed(rt, q, max)
    ensures Consistent(Line(q, Lefts(rt, q))) && Sorted(Line(q, Lefts(rt, q)))
    ensures forall t | t in q :: Lefts(rt, q)[t] >= 0
  {
    forall i | 0 <= i < |q| ensures q[i] in q && Lefts(rt, q)[q[i]] == Sum(rt, q, i + 1) { LeftsAt(rt, q, i); }
    forall i, j | 0 <= i < j < |q| ensures NoLater(Line(q, Lefts(rt, q)), i, j) { SumMonotone(rt, q, i + 1, j + 1); }
    forall t | t in q ensures Lefts(rt, q)[t] >= 0 { SumMonotone(rt, q, 0, IndexOf(q, t) + 1); }
  }

  /** Once nobody is left overdue, the interrupt has done to every timer what a tick does. */
  lemma InterruptIsTick(l: map<int, int>, l0: map<int, int>, fired: seq<int>, it: seq<int>, l1: map<int, int>)
    requires (forall t | t in l :: 0 <= t < |it|) && (forall t | t in fired :: t in l0 && l0[t] == 0)
    requires l0.Keys == l.Keys && forall t | t in l :: l0[t] == l[t] - 1
    requires l1 == Expired(l0, fired, it) && (forall t | t in l1 :: l1[t] >= 1)
    ensures Entries(l1, it) == Ticked(Entries(l, it))
    ensures forall t :: t in fired <==> Due(Entries(l, it), t)
  {
    var m := Entries(l, it);
    forall t ensures t in fired <==> Due(m, t) {
      assert t in l0 && t !in fired ==> t in l1;
    }
  }

  lemma HeadIsDue(l0: map<int, int>, fired: seq<int>, it: seq<int>, rt: seq<int>, q: seq<int>, t: int)
    requires InBounds(rt, q) && (forall x | x in fired :: 0 <= x < |it|)
             && (forall x | x in q :: 0 <= x < |it| && 0 <= it[x])
    requires Lefts(rt, q) == Expired(l0, fired, it) && t in q && Lefts(rt, q)[t] == 0
    ensures t in l0 && t !in fired && l0[t] == 0
  {
    assert t in Expired(l0, fired, it);
  }

  /** Remaining ticks and reload values, put together. */
  ghost function Entries(l: map<int, int>, it: seq<int>): Timers
    requires forall t | t in l :: 0 <= t < |it|
  {
    map t | t in l :: if t in l then Entry(l[t], it[t]) else Entry(0, 0)
  }

  lemma EntriesStart(l: map<int, int>, it: seq<int>, it': seq<int>, t: int, ticks: nat, repeat: bool)
    requires (forall x | x in l :: 0 <= x < |it|) && |it'| == |it| && 0 <= t < |it|
    requires (forall x | x in l && x != t :: it'[x] == it[x]) && it'[t] == if repeat then ticks else 0
    ensures Entries(l[t := ticks], it') == Entries(l, it)[t := Entry(ticks, if repeat then ticks else 0)]
  {
  }

  lemma NothingTicks(l: map<int, int>, it: seq<int>)
    requires forall t :: t !in l
    ensures Ticked(Entries(l, it)) == Entries(l, it) && forall t :: !Due(Entries(l, it), t)
  {
  }

  lemma NothingDecreases(l: map<int, int>)
    requires forall t :: t !in l
    ensures Decreased(l) == l
  {
    assert forall t :: t !in Decreased(l);
    assert Decreased(l) == map[] && l == map[];
  }

  lemma EntriesCancel(l: map<int, int>, it: seq<int>, t: int)
    requires forall x | x in l :: 0 <= x < |it|
    ensures Entries(l - {t}, it) == Cancelled(Entries(l, it), t)
    ensures t !in l ==> Entries(l, it) == Cancelled(Entries(l, it), t)
  {
  }

  /** Remaining ticks in mid-interrupt: timers that fired have been reloaded or are gone. */
  ghost function Expired(l0: map<int, int>, fired: seq<int>, it: seq<int>): map<int, int>
    requires forall t | t in fired :: 0 <= t < |it|
  {
    map t | t in l0 && (t !in fired || it[t] != 0) ::
      if t !in l0 then 0 else if t in fired then it[t] else l0[t]
  }

  lemma ExpiredNone(l0: map<int, int>, it: seq<int>)
    ensures Expired(l0, [], it) == l0
  {
  }

  lemma ExpiredStep(l0: map<int, int>, fired: seq<int>, it: seq<int>, t: int)
    requires (forall x | x in fired :: 0 <= x < |it|) && 0 <= t < |it| && t in l0 && t !in fired
    ensures Expired(l0, fired + [t], it) ==
              if it[t] != 0 then Expired(l0, fired, it)[t := it[t]] else Expired(l0, fired, it) - {t}
  {
    assert forall x :: x in fired + [t] <==> x in fired || x == t;
  }
}
