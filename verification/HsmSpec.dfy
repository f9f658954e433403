/** What dispatching an event to a hierarchical state machine does, for every tree and every
    handler behaviour, and why the active states stay the ancestors of the current one. */
module HsmSpec {
  import opened StateTree
  import opened Options

  datatype Signal = Entry | Exit | Init | User(id: nat)

  /** What a state handler answers. */
  datatype Action = ToSuper | TransitTo(target: State) | Handled | Ignored

  /** A handler call, as an observer sees it. */
  datatype Call = Call(state: State, signal: Signal)

  /** Handlers may depend on everything that happened before. */
  type Behaviour = (seq<Call>, State, Signal) -> Action

  /** A tree with handlers on it. `rank` bounds chains of INIT transitions. */
  datatype Chart = Chart(tree: Tree, react: Behaviour, rank: State -> nat) {
    /** The contract of a handler: the top state ignores everything, ENTRY and EXIT do not
        transit, nobody transits to the top state, INIT transitions descend in rank. */
    ghost predicate Obeys(h: seq<Call>, s: State, sig: Signal) {
      var a := react(h, s, sig);
      && (s == TOP ==> a == Ignored)
      && (sig.Entry? || sig.Exit? ==> !a.TransitTo?)
      && (a.TransitTo? ==> a.target != TOP)
      && (sig.Init? && a.TransitTo? ==> rank(a.target) < rank(s))
    }

    ghost predicate Valid() {
      tree.Valid() && forall h: seq<Call>, s: State, sig: Signal :: Obeys(h, s, sig)
    }
  }

  /** Levels left below a state in a tree less than `n` deep. */
  function LevelsBelow(t: Tree, n: nat): State -> nat {
    s => if t.depth(s) < n then n - t.depth(s) else 0
  }

  /** In a tree of bounded depth, handlers that keep the other rules and make INIT transitions to
      proper descendants only keep all of them: such a chart is valid. */
  lemma DescendingInitHasRank(t: Tree, react: Behaviour, n: nat)
    requires t.Valid() && forall s: State :: t.depth(s) < n
    requires forall h: seq<Call>, s: State, sig: Signal :: Polite(t, react, h, s, sig)
    ensures Chart(t, react, LevelsBelow(t, n)).Valid()
  {
    var c := Chart(t, react, LevelsBelow(t, n));
    forall h: seq<Call>, s: State, sig: Signal ensures c.Obeys(h, s, sig) {
      assert Polite(t, react, h, s, sig);
    }
  }

  /** The rules of a handler in the source's own terms. */
  ghost predicate Polite(t: Tree, react: Behaviour, h: seq<Call>, s: State, sig: Signal) {
    var a := react(h, s, sig);
    && (s == TOP ==> a == Ignored)
    && (sig.Entry? || sig.Exit? ==> !a.TransitTo?)
    && (a.TransitTo? ==> a.target != TOP)
    && (sig.Init? && a.TransitTo? ==> ProperAncestor(t, s, a.target))
  }

  // ---- the pivot ----

  lemma {:induction false} CommonBelow(t: Tree, a: State, b: State, d: nat) returns (p: State)
    requires t.Valid() && d < t.depth(a) && d < t.depth(b)
    ensures Common(t, p, a, b) && t.depth(p) <= d
    ensures forall c | Common(t, c, a, b) && t.depth(c) <= d :: t.depth(c) <= t.depth(p)
    decreases d
  {
    var i, j := t.depth(a) - d, t.depth(b) - d;
    UpDepth(t, a, i);
    UpDepth(t, b, j);
    if Up(t, a, i) == Up(t, b, j) {
      p := Up(t, a, i);
    } else {
      assert d > 0 by { UpDepth(t, a, t.depth(a)); UpDepth(t, b, t.depth(b)); }
      p := CommonBelow(t, a, b, d - 1);
    }
  }

  lemma PivotExists(t: Tree, source: State, target: State)
    requires t.Valid() && source != TOP && target != TOP
    ensures exists p :: IsPivot(t, source, target, p)
  {
    OnlyTopAtZero(t, source);
    OnlyTopAtZero(t, target);
    var d := (if t.depth(source) < t.depth(target) then t.depth(source) else t.depth(target)) - 1;
    var p := CommonBelow(t, source, target, d);
    if target == source { assert IsPivot(t, source, target, t.parent(source)); }
    else if ProperAncestor(t, source, target) { assert IsPivot(t, source, target, source); }
    else if target == t.parent(source) { assert IsPivot(t, source, target, target); }
    else { assert IsPivot(t, source, target, p); }
  }

  ghost function Pivot(t: Tree, source: State, target: State): (p: State)
    requires t.Valid() && source != TOP && target != TOP
    ensures IsPivot(t, source, target, p)
  {
    PivotExists(t, source, target);
    var p :| IsPivot(t, source, target, p); p
  }

  /** The pivot is an ancestor of both ends, proper except where it is one of them. */
  lemma PivotAbove(t: Tree, source: State, target: State)
    requires t.Valid() && source != TOP && target != TOP
    ensures var p := Pivot(t, source, target);
            && t.depth(p) <= t.depth(source) && Up(t, source, t.depth(source) - t.depth(p)) == p
            && t.depth(p) <= t.depth(target) && Up(t, target, t.depth(target) - t.depth(p)) == p
  {
    OnlyTopAtZero(t, source);
    assert Up(t, source, 0) == source && Up(t, target, 0) == target;
    assert Up(t, source, 1) == t.parent(source);
  }

  /** A transition to an ancestor two or more levels up leaves that ancestor and enters it
      again, while one to the parent does not. */
  lemma AncestorTarget(t: Tree, source: State, target: State)
    requires t.Valid() && source != TOP && target != TOP && ProperAncestor(t, target, source)
    ensures Pivot(t, source, target) == if target == t.parent(source) then target else t.parent(target)
  {
    hide Up;
    var k := t.depth(source) - t.depth(target);
    var p := if target == t.parent(source) then target else t.parent(target);
    OnlyTopAtZero(t, source);
    OnlyTopAtZero(t, target);
    UpDepth(t, source, k);
    UpOne(t, source, k);
    UpOne(t, target, 0);
    UpIsAncestor(t, target, 1);
    UpIsAncestor(t, source, k + 1);
    PivotUnique(t, source, target, p, Pivot(t, source, target));
  }

  lemma UpOne(t: Tree, s: State, k: nat)
    ensures Up(t, s, k + 1) == t.parent(Up(t, s, k)) && Up(t, s, 0) == s
  {
  }

  // ---- dispatching ----

  /** The event climbs from `s` until a handler does not pass it on. */
  ghost function Walk(c: Chart, log: seq<Call>, s: State, ev: Signal): (seq<Call>, State, Action)
    requires c.Valid()
    decreases c.tree.depth(s)
  {
    assert c.Obeys(log, s, ev);
    var a := c.react(log, s, ev);
    if a.ToSuper? then (OnlyTopAtZero(c.tree, s); Walk(c, log + [Call(s, ev)], c.tree.parent(s), ev))
    else (log + [Call(s, ev)], s, a)
  }

  /** EXIT to `s` and the states above it, `k` in all, innermost first. */
  ghost function Exits(t: Tree, s: State, k: nat): seq<Call> {
    if k == 0 then [] else Exits(t, s, k - 1) + [Call(Up(t, s, k - 1), Exit)]
  }

  /** ENTRY to `k` states down to `s`, outermost first. */
  ghost function Enters(t: Tree, s: State, k: nat): seq<Call> {
    if k == 0 then [] else [Call(Up(t, s, k - 1), Entry)] + Enters(t, s, k - 1)
  }

  /** One transition: exit up to the pivot, enter down to the target. */
  ghost function Moved(t: Tree, log: seq<Call>, current: State, source: State, target: State): seq<Call>
    requires t.Valid() && source != TOP && target != TOP
  {
    var p := Pivot(t, source, target);
    var up: int, down: int := t.depth(current) - t.depth(p), t.depth(target) - t.depth(p);
    log + Exits(t, current, if up < 0 then 0 else up) + Enters(t, target, if down < 0 then 0 else down)
  }

  /** Transitions chained by INIT, until one settles. */
  ghost function Settle(c: Chart, log: seq<Call>, current: State, source: State, target: State): (seq<Call>, State)
    requires c.Valid() && source != TOP && target != TOP
    decreases c.rank(target)
  {
    var log1 := Moved(c.tree, log, current, source, target);
    assert c.Obeys(log1, target, Init);
    var a := c.react(log1, target, Init);
    var log2 := log1 + [Call(target, Init)];
    if a.TransitTo? then Settle(c, log2, target, target, a.target) else (log2, target)
  }

  /** The calls made and the state reached by one event. */
  ghost function Dispatch(c: Chart, log: seq<Call>, s: State, ev: Signal): (seq<Call>, State)
    requires c.Valid()
  {
    var (log1, source, a) := Walk(c, log, s, ev);
    WalkSource(c, log, s, ev);
    if a.TransitTo? then Settle(c, log1, s, source, a.target) else (log1, s)
  }

  lemma {:induction false} WalkSource(c: Chart, log: seq<Call>, s: State, ev: Signal)
    requires c.Valid()
    ensures var (log1, source, a) := Walk(c, log, s, ev);
            && !a.ToSuper? && (a.TransitTo? ==> source != TOP && a.target != TOP)
            && c.tree.depth(source) <= c.tree.depth(s)
            && Up(c.tree, s, c.tree.depth(s) - c.tree.depth(source)) == source
    decreases c.tree.depth(s)
  {
    assert c.Obeys(log, s, ev);
    if c.react(log, s, ev).ToSuper? {
      OnlyTopAtZero(c.tree, s);
      var p := c.tree.parent(s);
      WalkSource(c, log + [Call(s, ev)], p, ev);
      var (log1, source, a) := Walk(c, log, s, ev);
      UpUp(c.tree, s, 1, c.tree.depth(p) - c.tree.depth(source));
      assert Up(c.tree, s, 1) == p;
    }
  }

  // ---- what was asked and what was done ----

  /** The event climbed `k` levels from `s`: the handlers of the states below passed it on, the one
      `k` levels up answered it, and the log grew by exactly these calls. */
  ghost predicate Climbed(c: Chart, log: seq<Call>, s: State, ev: Signal, k: nat, log1: seq<Call>, answer: Action) {
    && |log1| == |log| + k + 1 && log1[..|log|] == log
    && (forall j: nat | j <= k :: log1[|log| + j] == Call(Up(c.tree, s, j), ev))
    && (forall j: nat | j < k :: c.react(log1[..|log| + j], Up(c.tree, s, j), ev).ToSuper?)
    && answer == c.react(log1[..|log| + k], Up(c.tree, s, k), ev) && !answer.ToSuper?
  }

  /** An event reaches exactly the superstates up to the first one that does not pass it on. */
  lemma {:induction false} WalkExplained(c: Chart, log: seq<Call>, s: State, ev: Signal) returns (k: nat)
    requires c.Valid()
    ensures var (log1, source, answer) := Walk(c, log, s, ev);
            k <= c.tree.depth(s) && source == Up(c.tree, s, k) && Climbed(c, log, s, ev, k, log1, answer)
    decreases c.tree.depth(s)
  {
    assert c.Obeys(log, s, ev);
    var (log1, source, answer) := Walk(c, log, s, ev);
    k := 0;
    if c.react(log, s, ev).ToSuper? {
      OnlyTopAtZero(c.tree, s);
      var next := log + [Call(s, ev)];
      var k1 := WalkExplained(c, next, c.tree.parent(s), ev);
      k := k1 + 1;
      ClimbedFurther(c, log, s, ev, k1, log1, answer);
    }
  }

  lemma ClimbedFurther(c: Chart, log: seq<Call>, s: State, ev: Signal, k: nat, log1: seq<Call>, answer: Action)
    requires c.react(log, s, ev).ToSuper?
    requires Climbed(c, log + [Call(s, ev)], c.tree.parent(s), ev, k, log1, answer)
    ensures Climbed(c, log, s, ev, k + 1, log1, answer)
    ensures Up(c.tree, s, k + 1) == Up(c.tree, c.tree.parent(s), k)
  {
    var t, next := c.tree, log + [Call(s, ev)];
    assert log1[|log|] == log1[..|next|][|log|] == Call(s, ev);
    assert log1[..|log|] == log1[..|next|][..|log|] == log;
    forall j: nat ensures Up(t, s, j + 1)
        == Up(t, t.parent(s), j) { UpUp(t, s, 1, j); assert Up(t, s, 1) == t.parent(s); }
    forall j: nat | j <= k + 1 ensures log1[|log| + j] == Call(Up(t, s, j), ev) {
      if j > 0 { assert log1[|next| + (j - 1)] == Call(Up(t, t.parent(s), j - 1), ev); }
    }
    forall j: nat | j < k + 1 ensures c.react(log1[..|log| + j], Up(t, s, j), ev).ToSuper? {
      if j > 0 { assert c.react(log1[..|next| + (j - 1)], Up(t, t.parent(s), j - 1), ev).ToSuper?; }
    }
  }

  /** A transition logged: EXIT to the current state and its ancestors strictly below the pivot,
      innermost first, then ENTRY to the ancestors of the target strictly below the pivot and to the
      target itself, outermost first, and nothing else. */
  ghost predicate Logged(t: Tree, before: seq<Call>, after: seq<Call>, current: State, source: State, target: State)
    requires t.Valid()
  {
    && source != TOP && target != TOP
    && var p := Pivot(t, source, target);
    && t.depth(p) <= t.depth(current) && t.depth(p) <= t.depth(target)
    && var up, down := t.depth(current) - t.depth(p), t.depth(target) - t.depth(p);
    && |after| == |before| + up + down && after[..|before|] == before
    && (forall i: nat | i < up :: after[|before| + i] == Call(Up(t, current, i), Exit))
    && EntriesLogged(t, after, |before| + up, target, down)
  }

  /** The `j`-th of `n` ENTRY calls, logged from `base` on, is for the ancestor it should be for. */
  ghost predicate EnteredAt(t: Tree, log: seq<Call>, base: nat, target: State, n: nat, j: nat) {
    j < n && base + j < |log| && log[base + j] == Call(Up(t, target, n - 1 - j), Entry)
  }

  ghost predicate EntriesLogged(t: Tree, log: seq<Call>, base: nat, target: State, n: nat) {
    forall j: nat | j < n :: EnteredAt(t, log, base, target, n, j)
  }

  lemma {:induction false} ExitsAt(t: Tree, s: State, k: nat, i: nat)
    requires i < k
    ensures |Exits(t, s, k)| == k && Exits(t, s, k)[i] == Call(Up(t, s, i), Exit)
  {
    ExitsLength(t, s, k - 1);
    if i < k - 1 { ExitsAt(t, s, k - 1, i); }
  }

  lemma {:induction false} ExitsLength(t: Tree, s: State, k: nat)
    ensures |Exits(t, s, k)| == k
  {
    if k > 0 { ExitsLength(t, s, k - 1); }
  }

  lemma {:induction false} EntersAt(t: Tree, s: State, k: nat, j: nat)
    requires j < k
    ensures |Enters(t, s, k)| == k && Enters(t, s, k)[j] == Call(Up(t, s, k - 1 - j), Entry)
  {
    EntersLength(t, s, k - 1);
    if j > 0 { EntersAt(t, s, k - 1, j - 1); }
  }

  lemma {:induction false} EntersLength(t: Tree, s: State, k: nat)
    ensures |Enters(t, s, k)| == k
  {
    if k > 0 { EntersLength(t, s, k - 1); }
  }

  lemma EntriesAt(t: Tree, log: seq<Call>, target: State, n: nat)
    ensures EntriesLogged(t, log + Enters(t, target, n), |log|, target, n)
  {
    forall j: nat | j < n ensures EnteredAt(t, log + Enters(t, target, n), |log|, target, n, j) {
      EntersAt(t, target, n, j);
    }
  }

  lemma MovedExplained(t: Tree, log: seq<Call>, current: State, source: State, target: State)
    requires t.Valid() && source != TOP && target != TOP && t.depth(source) <= t.depth(current)
    ensures Logged(t, log, Moved(t, log, current, source, target), current, source, target)
  {
    hide IsPivot, Exits, Enters, Up;
    PivotAbove(t, source, target);
    var p := Pivot(t, source, target);
    var up, down := t.depth(current) - t.depth(p), t.depth(target) - t.depth(p);
    ExitsLength(t, current, up);
    EntersLength(t, target, down);
    forall i: nat | i < up
        ensures Exits(t, current, up)[i] == Call(Up(t, current, i), Exit) { ExitsAt(t, current, up, i); }
    EntriesAt(t, log + Exits(t, current, up), target, down);
  }

  /** One transition of a chain: from `logs` to `logs'`, ending with INIT to the target, which
      answers with the next target or, at the end of the chain, without one. */
  ghost predicate Hop(c: Chart, log: seq<Call>, log': seq<Call>, current: State, source: State, target: State,
                      next: Option<State>)
    requires c.Valid()
  {
    && |log'| > 0 && log'[|log'| - 1] == Call(target, Init)
    && var moved := log'[..|log'| - 1];
    && Logged(c.tree, log, moved, current, source, target)
    && var a := c.react(moved, target, Init);
    && (next.Some? <==> a.TransitTo?) && (a.TransitTo? ==> next == Some(a.target))
  }

  /** The `i`-th transition of a chain through `targets`. The first one starts from `source`, the
      others from the target before. */
  ghost predicate HopAt(c: Chart, logs: seq<seq<Call>>, current: State, source: State, targets: seq<State>, i: nat)
    requires c.Valid() && i < |targets| < |logs|
  {
    var next := if i + 1 < |targets| then Some(targets[i + 1]) else None;
    if i == 0 then Hop(c, logs[0], logs[1], current, source, targets[0], next)
    else Hop(c, logs[i], logs[i + 1], targets[i - 1], targets[i - 1], targets[i], next)
  }

  /** The chain of transitions through `targets`, with the logs before and after each. */
  ghost predicate Hops(c: Chart, logs: seq<seq<Call>>, current: State, source: State, targets: seq<State>)
    requires c.Valid()
  {
    |logs| == |targets| + 1 && forall i | 0 <= i < |targets| :: HopAt(c, logs, current, source, targets, i)
  }

  lemma {:induction false} SettleExplained(c: Chart, log: seq<Call>, current: State, source: State, target: State)
    returns (targets: seq<State>, logs: seq<seq<Call>>)
    requires c.Valid() && source != TOP && target != TOP && c.tree.depth(source) <= c.tree.depth(current)
    ensures |targets| > 0 && targets[0] == target && Hops(c, logs, current, source, targets) && logs[0] == log
    ensures Settle(c, log, current, source, target) == (logs[|targets|], targets[|targets| - 1])
    decreases c.rank(target)
  {
    hide Logged, Moved;
    var log1 := Moved(c.tree, log, current, source, target);
    MovedExplained(c.tree, log, current, source, target);
    assert c.Obeys(log1, target, Init);
    var a := c.react(log1, target, Init);
    var log2 := log1 + [Call(target, Init)];
    assert log2[..|log2| - 1] == log1;
    targets, logs := [target], [log, log2];
    if a.TransitTo? {
      var targets', logs' := SettleExplained(c, log2, target, target, a.target);
      assert Hop(c, log, log2, current, source, target, Some(targets'[0]));
      targets, logs := [target] + targets', [log] + logs';
      MoreHops(c, log, logs', current, source, target, targets');
    }
  }

  lemma MoreHops(c: Chart, log: seq<Call>, logs: seq<seq<Call>>, current: State, source: State, target: State,
                 targets: seq<State>)
    requires c.Valid() && |targets| > 0 && Hops(c, logs, target, target, targets)
    requires Hop(c, log, logs[0], current, source, target, Some(targets[0]))
    ensures Hops(c, [log] + logs, current, source, [target] + targets)
  {
    hide Hop;
    var ts, ls := [target] + targets, [log] + logs;
    forall i | 0 <= i < |ts| ensures HopAt(c, ls, current, source, ts, i) {
      if i > 0 { assert HopAt(c, logs, target, target, targets, i - 1); }
    }
  }

  /** The whole dispatch, without its recursion. The event climbs `k` levels to the first handler that
      does not pass it on. Unless that one names a target, nothing more happens and the state stays.
      Otherwise the transition starts from the state that answered, and each INIT that names a further
      target starts another one from there, until one does not. */
  lemma DispatchExplained(c: Chart, log: seq<Call>, s: State, ev: Signal)
    returns (k: nat, log1: seq<Call>, answer: Action, targets: seq<State>, logs: seq<seq<Call>>)
    requires c.Valid()
    ensures k <= c.tree.depth(s) && Climbed(c, log, s, ev, k, log1, answer)
    ensures if answer.TransitTo? then
              && |targets| > 0 && targets[0] == answer.target
              && Hops(c, logs, s, Up(c.tree, s, k), targets) && logs[0] == log1
              && Dispatch(c, log, s, ev) == (logs[|targets|], targets[|targets| - 1])
            else
              Dispatch(c, log, s, ev) == (log1, s)
  {
    hide Hops, Climbed, Settle;
    k := WalkExplained(c, log, s, ev);
    WalkSource(c, log, s, ev);
    var (l, source, a) := Walk(c, log, s, ev);
    log1, answer, targets, logs := l, a, [], [];
    if a.TransitTo? {
      targets, logs := SettleExplained(c, log1, s, source, a.target);
    }
  }

  // ---- the stack of active states ----

  /** Replays ENTRY as push and EXIT as pop. `None` when an EXIT is not for the innermost
      active state or an ENTRY not for one of its children. */
  ghost function Replay(t: Tree, stack: seq<State>, calls: seq<Call>): Option<seq<State>> {
    if |calls| == 0 then Some(stack)
    else
      var before := Replay(t, stack, calls[..|calls| - 1]);
      var c := calls[|calls| - 1];
      if before.None? then None
      else if c.signal.Exit? then
        if |before.value| > 0 && Last(before.value) == c.state then Some(before.value[..|before.value| - 1]) else None
      else if c.signal.Entry? then
        if |before.value| > 0 && c.state != TOP && t.parent(c.state) == Last(before.value)
        then Some(before.value + [c.state]) else None
      else before
  }

  lemma ReplayOne(t: Tree, stack: seq<State>, calls: seq<Call>, c: Call)
    ensures Replay(t, stack, calls + [c]) ==
              (var before := Replay(t, stack, calls);
               if before.None? then None
               else if c.signal.Exit? then
                 if |before.value| > 0 && Last(before.value) == c.state
                 then Some(before.value[..|before.value| - 1]) else None
               else if c.signal.Entry? then
                 if |before.value| > 0 && c.state != TOP && t.parent(c.state) == Last(before.value)
                 then Some(before.value + [c.state]) else None
               else before)
  {
    assert (calls + [c])[..|calls|] == calls;
  }

  lemma {:induction false} ReplayExits(t: Tree, stack: seq<State>, log: seq<Call>, s: State, k: nat)
    requires t.Valid() && k <= t.depth(s) && Replay(t, stack, log) == Some(Chain(t, s))
    ensures Replay(t, stack, log + Exits(t, s, k)) == Some(Chain(t, Up(t, s, k)))
  {
    if k == 0 {
      assert log + [] == log;
    } else {
      ReplayExits(t, stack, log, s, k - 1);
      UpDepth(t, s, k - 1);
      var u := Up(t, s, k - 1);
      ReplayOne(t, stack, log + Exits(t, s, k - 1), Call(u, Exit));
      assert log + Exits(t, s, k) == (log + Exits(t, s, k - 1)) + [Call(u, Exit)];
      ChainLast(t, u);
    }
  }

  lemma {:induction false} ReplayEnters(t: Tree, stack: seq<State>, log: seq<Call>, s: State, k: nat)
    requires t.Valid() && k <= t.depth(s) && Replay(t, stack, log) == Some(Chain(t, Up(t, s, k)))
    ensures Replay(t, stack, log + Enters(t, s, k)) == Some(Chain(t, s))
    decreases k
  {
    if k == 0 {
      assert log + [] == log;
    } else {
      UpDepth(t, s, k - 1);
      var u := Up(t, s, k - 1);
      ChainLast(t, Up(t, s, k));
      ChainLast(t, u);
      ReplayOne(t, stack, log, Call(u, Entry));
      assert Chain(t, u) == Chain(t, t.parent(u)) + [u];
      ReplayEnters(t, stack, log + [Call(u, Entry)], s, k - 1);
      assert log + Enters(t, s, k) == (log + [Call(u, Entry)]) + Enters(t, s, k - 1);
    }
  }

  lemma {:induction false} ReplayWalk(c: Chart, stack: seq<State>, log: seq<Call>, s: State, ev: Signal)
    requires c.Valid() && !ev.Entry? && !ev.Exit?
    ensures Replay(c.tree, stack, Walk(c, log, s, ev).0) == Replay(c.tree, stack, log)
    decreases c.tree.depth(s)
  {
    assert c.Obeys(log, s, ev);
    ReplayOne(c.tree, stack, log, Call(s, ev));
    if c.react(log, s, ev).ToSuper? {
      OnlyTopAtZero(c.tree, s);
      ReplayWalk(c, stack, log + [Call(s, ev)], c.tree.parent(s), ev);
    }
  }

  lemma ReplayMoved(t: Tree, stack: seq<State>, log: seq<Call>, current: State, source: State, target: State)
    requires t.Valid() && source != TOP && target != TOP && Replay(t, stack, log) == Some(Chain(t, current))
    requires t.depth(source) <= t.depth(current) && Up(t, current, t.depth(current) - t.depth(source)) == source
    ensures Replay(t, stack, Moved(t, log, current, source, target)) == Some(Chain(t, target))
  {
    hide IsPivot, Replay, Chain, Exits, Enters, Up;
    var p := Pivot(t, source, target);
    PivotAbove(t, source, target);
    UpUp(t, current, t.depth(current) - t.depth(source), t.depth(source) - t.depth(p));
    ReplayExits(t, stack, log, current, t.depth(current) - t.depth(p));
    ReplayEnters(t, stack, log + Exits(t, current, t.depth(current) - t.depth(p)), target,
                 t.depth(target) - t.depth(p));
  }

  lemma {:induction false} ReplaySettle(c: Chart, stack: seq<State>, log: seq<Call>, current: State, source: State,
                                        target: State)
    requires c.Valid() && source != TOP && target != TOP && Replay(c.tree, stack, log) == Some(Chain(c.tree, current))
    requires c.tree.depth(source) <= c.tree.depth(current)
             && Up(c.tree, current, c.tree.depth(current) - c.tree.depth(source)) == source
    ensures var (log', s') := Settle(c, log, current, source, target);
            Replay(c.tree, stack, log') == Some(Chain(c.tree, s'))
    decreases c.rank(target)
  {
    ReplayMoved(c.tree, stack, log, current, source, target);
    var log1 := Moved(c.tree, log, current, source, target);
    assert c.Obeys(log1, target, Init);
    ReplayOne(c.tree, stack, log1, Call(target, Init));
    var a := c.react(log1, target, Init);
    if a.TransitTo? {
      ReplaySettle(c, stack, log1 + [Call(target, Init)], target, target, a.target);
    }
  }

  /** The main theorem. Whatever the tree and the handlers, if the active states are the
      ancestors of the current one before an event, they are again after it: every EXIT
      was for the innermost active state and every ENTRY for one of its children. */
  lemma DispatchKeepsActive(c: Chart, stack: seq<State>, log: seq<Call>, s: State, ev: Signal)
    requires c.Valid() && !ev.Entry? && !ev.Exit? && Replay(c.tree, stack, log) == Some(Chain(c.tree, s))
    ensures var (log', s') := Dispatch(c, log, s, ev);
            Replay(c.tree, stack, log') == Some(Chain(c.tree, s'))
  {
    ReplayWalk(c, stack, log, s, ev);
    WalkSource(c, log, s, ev);
    var (log1, source, a) := Walk(c, log, s, ev);
    if a.TransitTo? {
      ReplaySettle(c, stack, log1, s, source, a.target);
    }
  }

  /** An event nobody transits on leaves the state as it was and enters and exits nothing. */
  lemma {:induction false} NoTransitionNoChange(c: Chart, log: seq<Call>, s: State, ev: Signal)
    requires c.Valid() && !Walk(c, log, s, ev).2.TransitTo?
    ensures Dispatch(c, log, s, ev).1 == s
    ensures var log' := Dispatch(c, log, s, ev).0;
            && log <= log' && forall i | |log| <= i < |log'| :: log'[i].signal == ev
    decreases c.tree.depth(s)
  {
    assert c.Obeys(log, s, ev);
    WalkSource(c, log, s, ev);
    if c.react(log, s, ev).ToSuper? {
      OnlyTopAtZero(c.tree, s);
      NoTransitionNoChange(c, log + [Call(s, ev)], c.tree.parent(s), ev);
    }
  }

  /** Events one after the other. */
  ghost function DispatchAll(c: Chart, log: seq<Call>, s: State, evs: seq<Signal>): (seq<Call>, State)
    requires c.Valid()
    decreases |evs|
  {
    if |evs| == 0 then (log, s)
    else var (log', s') := Dispatch(c, log, s, evs[0]); DispatchAll(c, log', s', evs[1..])
  }

  /** The same over any run of events. */
  lemma {:induction false} RunKeepsActive(c: Chart, stack: seq<State>, log: seq<Call>, s: State, evs: seq<Signal>)
    requires c.Valid() && (forall e | e in evs :: !e.Entry? && !e.Exit?)
    requires Replay(c.tree, stack, log) == Some(Chain(c.tree, s))
    ensures var (log', s') := DispatchAll(c, log, s, evs);
            Replay(c.tree, stack, log') == Some(Chain(c.tree, s'))
    decreases |evs|
  {
    if |evs| > 0 {
      DispatchKeepsActive(c, stack, log, s, evs[0]);
      var (log', s') := Dispatch(c, log, s, evs[0]);
      RunKeepsActive(c, stack, log', s', evs[1..]);
    }
  }
}
