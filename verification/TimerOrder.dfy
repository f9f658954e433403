/** The order of running timers: who is called first when several are due in one interrupt. */
module TimerOrder {
  import opened DList
  import opened DeltaList

  /** Running timers in list order, with the ticks each has left. */
  datatype Line = Line(q: seq<int>, left: map<int, int>)

  ghost predicate Consistent(o: Line) {
    Distinct(o.q) && forall t :: t in o.q <==> t in o.left
  }

  ghost predicate Known(left: map<int, int>, q: seq<int>) {
    forall i | 0 <= i < |q| :: q[i] in left
  }

  lemma LineKnown(o: Line)
    requires Consistent(o)
    ensures Known(o.left, o.q)
  {
    assert forall i | 0 <= i < |o.q| :: o.q[i] in o.q;
  }

  /** The timer at position `i` is due no later than the one at position `j`. */
  ghost predicate NoLater(o: Line, i: int, j: int) {
    0 <= i < |o.q| && 0 <= j < |o.q| && o.q[i] in o.left && o.q[j] in o.left && o.left[o.q[i]] <= o.left[o.q[j]]
  }

  /** The ticks left grow along the list. */
  ghost predicate Sorted(o: Line) {
    forall i, j | 0 <= i < j < |o.q| :: NoLater(o, i, j)
  }

  /** Where a timer due in `d` ticks enters: in front of the first one due no earlier. */
  ghost function Place(left: map<int, int>, q: seq<int>, d: int): (k: nat)
    requires Known(left, q)
    ensures k <= |q|
  {
    if q == [] || left[q[0]] >= d then 0 else 1 + Place(left, q[1..], d)
  }

  lemma {:induction false} PlaceIsFirst(left: map<int, int>, q: seq<int>, d: int)
    requires Known(left, q)
    ensures var k := Place(left, q, d);
            && (forall i | 0 <= i < k :: q[i] in left && left[q[i]] < d)
            && (k < |q| ==> q[k] in left && left[q[k]] >= d)
  {
    if q != [] && left[q[0]] < d {
      PlaceIsFirst(left, q[1..], d);
      assert forall i | 0 < i < |q| :: q[i] == q[1..][i - 1];
    }
  }

  lemma PlaceUnique(left: map<int, int>, q: seq<int>, d: int, k: nat)
    requires Known(left, q) && k <= |q|
    requires forall i | 0 <= i < k :: q[i] in left && left[q[i]] < d
    requires k < |q| ==> q[k] in left && left[q[k]] >= d
    ensures Place(left, q, d) == k
  {
    PlaceIsFirst(left, q, d);
  }

  ghost function Entered(o: Line, t: int, d: int): Line
    requires Consistent(o) && t !in o.q
  {
    LineKnown(o);
    Line(WithAt(o.q, Place(o.left, o.q, d), t), o.left[t := d])
  }

  lemma EnteredConsistent(o: Line, t: int, d: int)
    requires Consistent(o) && t !in o.q
    ensures Consistent(Entered(o, t, d))
  {
    LineKnown(o);
    WithAtMembers(o.q, Place(o.left, o.q, d), t);
  }

  /** The head is called: it leaves the list and, if it repeats, enters it again. */
  ghost function Called(o: Line, period: seq<int>): Line
    requires Consistent(o)
  {
    if o.q == [] then o
    else
      var t, rest := o.q[0], Line(o.q[1..], o.left - {o.q[0]});
      HeadLeaves(o);
      if 0 <= t < |period| && period[t] != 0 then Entered(rest, t, period[t]) else rest
  }

  lemma HeadLeaves(o: Line)
    requires Consistent(o) && o.q != []
    ensures o.q[1..] == Without(o.q, 0) && o.q[0] !in o.q[1..]
    ensures Consistent(Line(o.q[1..], o.left - {o.q[0]}))
  {
    WithoutMembers(o.q, 0);
    assert Without(o.q, 0) == o.q[1..];
  }

  lemma CalledConsistent(o: Line, period: seq<int>)
    requires Consistent(o)
    ensures Consistent(Called(o, period))
  {
    if o.q != [] {
      HeadLeaves(o);
      var t, rest := o.q[0], Line(o.q[1..], o.left - {o.q[0]});
      if 0 <= t < |period| && period[t] != 0 { EnteredConsistent(rest, t, period[t]); }
    }
  }

  /** A tick has passed for everybody. */
  ghost function LessOne(o: Line): Line {
    Line(o.q, Decreased(o.left))
  }

  /** The list after `n` calls. */
  ghost function AfterCalls(o: Line, period: seq<int>, n: nat): (r: Line)
    requires Consistent(o)
    ensures Consistent(r)
  {
    if n == 0 then o
    else
      CalledConsistent(AfterCalls(o, period, n - 1), period);
      Called(AfterCalls(o, period, n - 1), period)
  }

  // ---- what the order means ----

  lemma InsertedIndex(s: seq<int>, k: nat, a: int, x: int)
    requires Distinct(s) && k <= |s| && a !in s && (x in s || x == a)
    ensures x in WithAt(s, k, a)
    ensures IndexOf(WithAt(s, k, a), x) ==
              if x == a then k else if IndexOf(s, x) < k then IndexOf(s, x) else IndexOf(s, x) + 1
  {
    WithAtMembers(s, k, a);
    var i := if x == a then k else if IndexOf(s, x) < k then IndexOf(s, x) else IndexOf(s, x) + 1;
    assert WithAt(s, k, a)[i] == x;
    IndexOfAt(WithAt(s, k, a), i);
  }

  /** A timer that enters stands in front of exactly those due no earlier, so of two due together
      the later to enter is called first. The others keep their order, and the list stays sorted. */
  lemma EntersInFront(o: Line, t: int, d: int)
    requires Consistent(o) && Sorted(o) && t !in o.q
    ensures Consistent(Entered(o, t, d)) && Sorted(Entered(o, t, d))
    ensures forall x, y :: SameOrder(o.q, Entered(o, t, d).q, x, y)
    ensures var q' := Entered(o, t, d).q;
            forall x | x in o.q ::
              x in o.left && t in q' && x in q' && (IndexOf(q', t) < IndexOf(q', x) <==> o.left[x] >= d)
  {
    LineKnown(o);
    var k, o' := Place(o.left, o.q, d), Entered(o, t, d);
    EnteredConsistent(o, t, d);
    PlaceIsFirst(o.left, o.q, d);
    InsertedIndex(o.q, k, t, t);
    forall x, y ensures SameOrder(o.q, o'.q, x, y) {
      if x in o.q && y in o.q {
        InsertedIndex(o.q, k, t, x);
        InsertedIndex(o.q, k, t, y);
      }
    }
    forall x | x in o.q
      ensures x in o.left && t in o'.q && x in o'.q && (IndexOf(o'.q, t) < IndexOf(o'.q, x) <==> o.left[x] >= d)
    {
      InsertedIndex(o.q, k, t, x);
      var i := IndexOf(o.q, x);
      if i > k { assert NoLater(o, k, i); }
    }
    EnteredSorted(o, t, d);
  }

  /** What stands at a position of the list after the insertion. */
  lemma EnteredAt(o: Line, t: int, d: int, i: nat)
    requires Consistent(o) && t !in o.q && i <= |o.q|
    ensures Known(o.left, o.q)
    ensures var k, o' := Place(o.left, o.q, d), Entered(o, t, d);
            var i0 := if i < k then i else i - 1;
            && |o'.q| == |o.q| + 1
            && if i == k then o'.q[i] == t && o'.left[t] == d
               else o'.q[i] == o.q[i0] && o.q[i0] in o.left && o.q[i0] in o'.left && o'.left[o.q[i0]] == o.left[o.q[i0]]
  {
    LineKnown(o);
    var k := Place(o.left, o.q, d);
    var i0 := if i < k then i else i - 1;
    if i != k { assert o.q[i0] in o.q; }
  }

  lemma EnteredSorted(o: Line, t: int, d: int)
    requires Consistent(o) && Sorted(o) && t !in o.q
    ensures Sorted(Entered(o, t, d))
  {
    LineKnown(o);
    var k, o' := Place(o.left, o.q, d), Entered(o, t, d);
    PlaceIsFirst(o.left, o.q, d);
    EnteredAt(o, t, d, 0);
    forall i, j | 0 <= i < j < |o'.q| ensures NoLater(o', i, j) {
      EnteredAt(o, t, d, i);
      EnteredAt(o, t, d, j);
      EnteredPair(o, t, d, i, j);
    }
  }

  lemma EnteredPair(o: Line, t: int, d: int, i: nat, j: nat)
    requires Consistent(o) && Sorted(o) && t !in o.q && i < j <= |o.q|
    ensures NoLater(Entered(o, t, d), i, j)
  {
    LineKnown(o);
    var k := Place(o.left, o.q, d);
    PlaceIsFirst(o.left, o.q, d);
    EnteredAt(o, t, d, i);
    EnteredAt(o, t, d, j);
    var i0, j0 := if i < k then i else i - 1, if j < k then j else j - 1;
    hide Entered, Place, Consistent, Known, WithAt;
    if i != k && j != k { assert NoLater(o, i0, j0); }
    if i == k && j0 > k { assert NoLater(o, k, j0); }
  }

  /** The timers due at first are called in list order, whatever re-enters in the meantime: after
      `n` calls those not yet called still lead the list in their old order. */
  lemma {:induction false} DueLead(o: Line, period: seq<int>, n: nat, z: nat)
    requires Consistent(o) && n <= z && Leads(o, z)
    requires forall t | 0 <= t < |period| :: period[t] >= 0
    ensures Leads(AfterCalls(o, period, n), z - n) && AfterCalls(o, period, n).q[..z - n] == o.q[n..z]
  {
    if n > 0 {
      DueLead(o, period, n - 1, z);
      var r := AfterCalls(o, period, n - 1);
      CalledKeepsLead(r, period, z - n);
      assert r.q[1..z - n + 1] == r.q[..z - n + 1][1..] == o.q[n - 1..z][1..] == o.q[n..z];
    }
  }

  /** The first `m` timers are due. */
  ghost predicate Leads(o: Line, m: nat) {
    m <= |o.q| && forall i | 0 <= i < m :: o.q[i] in o.left && o.left[o.q[i]] == 0
  }

  /** A call changes nothing about the due timers behind the one called. */
  lemma CalledKeepsLead(r: Line, period: seq<int>, m: nat)
    requires Consistent(r) && Leads(r, m + 1)
    requires forall t | 0 <= t < |period| :: period[t] >= 0
    ensures Leads(Called(r, period), m) && Called(r, period).q[..m] == r.q[1..m + 1]
  {
    HeadLeaves(r);
    var t, rest := r.q[0], Line(r.q[1..], r.left - {r.q[0]});
    assert Leads(rest, m) by {
      assert forall i | 0 <= i < m :: rest.q[i] == r.q[i + 1] && rest.q[i] in rest.q;
    }
    assert rest.q[..m] == r.q[1..m + 1];
    if 0 <= t < |period| && period[t] != 0 { EntersBehind(rest, t, period[t], m); }
  }

  /** A timer not due at once enters behind those that are. */
  lemma EntersBehind(o: Line, t: int, d: int, m: nat)
    requires Consistent(o) && t !in o.q && d > 0 && Leads(o, m)
    ensures Leads(Entered(o, t, d), m) && Entered(o, t, d).q[..m] == o.q[..m]
  {
    LineKnown(o);
    PlaceIsFirst(o.left, o.q, d);
    EnteredAt(o, t, d, 0);
    forall i | 0 <= i < m ensures Entered(o, t, d).q[i] == o.q[i] { EnteredAt(o, t, d, i); }
    forall i | 0 <= i < m
      ensures Entered(o, t, d).q[i] in Entered(o, t, d).left && Entered(o, t, d).left[Entered(o, t, d).q[i]] == 0
    {
      EnteredAt(o, t, d, i);
    }
  }
}
