/** `smp.c` in memory: the dispatcher of hierarchical state machines with its two path
    buffers. */
module Hsm {
  import opened StateTree
  import opened HsmSpec

  /** `struct hsm_path`. */
  class HsmPath {
    const buff: array<State>
    var index: nat

    constructor (n: nat)
      ensures buff.Length == n && index == 0 && fresh(buff)
    {
      buff := new State[n](_ => TOP);
      index := 0;
    }
  }

  /** The first `m` slots of a buffer hold `s` and its ancestors. */
  ghost predicate Holds(t: Tree, buff: seq<State>, s: State, m: nat) {
    m <= |buff| && forall i: nat | i < m :: buff[i] == Up(t, s, i)
  }

  /** None of the ancestors of `s` at distances `lo` to `hi` is `p`. */
  ghost predicate Avoids(t: Tree, s: State, lo: nat, hi: nat, p: State) {
    forall i: nat | lo <= i <= hi :: Up(t, s, i) != p
  }

  // ---- why each case of the search finds the pivot ----

  /** No ancestor from distance 1 to the top is `p`: `p` is not a proper ancestor. */
  lemma NotAncestor(t: Tree, s: State, p: State)
    requires t.Valid() && Avoids(t, s, 1, t.depth(s), p)
    ensures !ProperAncestor(t, p, s)
  {
  }

  /** The source's parent, found among the target's ancestors, is the deepest common one. */
  lemma ParentIsPivot(t: Tree, source: State, target: State, j: nat)
    requires t.Valid() && source != TOP && target != TOP && source != target && target != t.parent(source)
    requires !ProperAncestor(t, source, target) && 1 <= j <= t.depth(target) && Up(t, target, j) == t.parent(source)
    ensures IsPivot(t, source, target, t.parent(source))
  {
    OnlyTopAtZero(t, source);
    assert Up(t, source, 1) == t.parent(source) by { assert Up(t, source, 0) == source; }
    UpIsAncestor(t, source, 1);
    UpIsAncestor(t, target, j);
  }

  /** The first ancestor of the source, from below, that is an ancestor of the target is the
      deepest common one. */
  lemma FirstCommonIsPivot(t: Tree, source: State, target: State, i: nat, j: nat)
    requires t.Valid() && source != TOP && target != TOP && source != target && target != t.parent(source)
    requires !ProperAncestor(t, source, target)
    requires 1 <= i <= t.depth(source) && 1 <= j <= t.depth(target) && Up(t, target, j) == Up(t, source, i)
    requires forall k: nat | 1 <= k < i :: !ProperAncestor(t, Up(t, source, k), target)
    ensures IsPivot(t, source, target, Up(t, source, i))
  {
    UpIsAncestor(t, source, i);
    UpIsAncestor(t, target, j);
    var p := Up(t, source, i);
    UpDepth(t, source, i);
    forall c | Common(t, c, source, target) ensures t.depth(c) <= t.depth(p) {
      var k := t.depth(source) - t.depth(c);
      assert Up(t, source, k) == c;
    }
  }

  class Machine {
    const chart: Chart
    const n: nat              // CONFIG_SMP_HSM_PATH_DEPTH
    var state: State
    var log: seq<Call>        // the handler calls so far, NSM_SUPER queries left out

    /** Handlers keep their contract and no state is `n` or more levels deep. */
    ghost predicate Fits() {
      chart.Valid() && forall s: State :: chart.tree.depth(s) < n
    }

    constructor (chart: Chart, n: nat, init: State)
      ensures this.chart == chart && this.n == n && state == init && log == []
    {
      this.chart, this.n, state, log := chart, n, init, [];
    }

    /** Run a handler: its answer, with `sm->state` set when it names a state. */
    method Ask(s: State, sig: Signal) returns (a: Action)
      requires Fits() && (chart.react(log, s, sig).ToSuper? ==> s != TOP)
      modifies this
      ensures a == chart.react(old(log), s, sig) && log == old(log) + [Call(s, sig)]
      ensures state == if a.ToSuper? then chart.tree.parent(s) else if a.TransitTo? then a.target else old(state)
    {
      a := chart.react(log, s, sig);
      log := log + [Call(s, sig)];
      if a.ToSuper? {
        state := chart.tree.parent(s);
      } else if a.TransitTo? {
        state := a.target;
      }
    }

    /** `hsm_get_state_super`: a handler's answer to NSM_SUPER. The top state is never asked. */
    method GetSuper(s: State) returns (super: State)
      requires s != TOP
      modifies this`state
      ensures super == chart.tree.parent(s) == state
    {
      state := chart.tree.parent(s);
      super := state;
    }

    /** `hsm_path_exit`. */
    method PathExit(exit: HsmPath, ghost current: State)
      requires Fits() && Holds(chart.tree, exit.buff[..], current, exit.index)
               && exit.index <= chart.tree.depth(current)
      modifies this
      ensures log == old(log) + Exits(chart.tree, current, exit.index)
    {
      var count := 0;
      while count < exit.index
        invariant 0 <= count <= exit.index
        invariant log == old(log) + Exits(chart.tree, current, count)
      {
        assert exit.buff[count] == exit.buff[..][count] == Up(chart.tree, current, count);
        UpDepth(chart.tree, current, count);
        assert chart.Obeys(log, exit.buff[count], Exit);
        var a := Ask(exit.buff[count], Exit);
        count := count + 1;
      }
    }

    /** `hsm_path_enter`. */
    method PathEnter(entry: HsmPath, ghost target: State)
      requires Fits() && Holds(chart.tree, entry.buff[..], target, entry.index)
               && entry.index <= chart.tree.depth(target)
      modifies this
      ensures log == old(log) + Enters(chart.tree, target, entry.index)
    {
      var index := entry.index;
      ghost var l := log;
      while index != 0
        invariant 0 <= index <= entry.index
        invariant log + Enters(chart.tree, target, index) == l + Enters(chart.tree, target, entry.index)
      {
        index := index - 1;
        assert entry.buff[index] == entry.buff[..][index] == Up(chart.tree, target, index);
        UpDepth(chart.tree, target, index);
        assert chart.Obeys(log, entry.buff[index], Entry);
        ghost var l1 := log;
        var a := Ask(entry.buff[index], Entry);
        assert l1 + ([Call(Up(chart.tree, target, index), Entry)] + Enters(chart.tree, target, index))
            == log + Enters(chart.tree, target, index);
      }
    }

    /** Two separate path buffers of the configured length; the exit buffer starts with the
        chain from the current state up to the source at index `e`. */
    ghost predicate Search(entry: HsmPath, exit: HsmPath, current: State, e: nat, target: State)
      reads entry.buff, exit.buff
    {
      && Fits() && entry != exit && entry.buff != exit.buff && entry.buff.Length == exit.buff.Length == n
      && e < chart.tree.depth(current) && target != TOP
      && Holds(chart.tree, entry.buff[..], target, 1) && Holds(chart.tree, exit.buff[..], current, e + 1)
    }

    /** The paths found: both chains strictly below one state, the pivot. */
    ghost predicate Built(entry: HsmPath, exit: HsmPath, current: State, source: State, target: State)
      reads entry, entry.buff, exit, exit.buff
    {
      var t := chart.tree;
      && Holds(t, entry.buff[..], target, entry.index) && entry.index <= t.depth(target)
      && Holds(t, exit.buff[..], current, exit.index) && exit.index <= t.depth(current)
      && Up(t, current, exit.index) == Up(t, target, entry.index)
      && IsPivot(t, source, target, Up(t, target, entry.index))
    }

    /** Case e: climb from the target looking for the source, filling the entry buffer. */
    method FindSource(entry: HsmPath, exit: HsmPath, ghost current: State, ghost e: nat, ghost target: State)
      returns (found: bool)
      requires Search(entry, exit, current, e, target) && exit.index == e && entry.index == 1
      requires Holds(chart.tree, entry.buff[..], target, 2) && Up(chart.tree, target, 1) != Up(chart.tree, current, e)
      modifies this`state, entry`index, entry.buff
      ensures Search(entry, exit, current, e, target)
      ensures 1 <= entry.index <= chart.tree.depth(target) && Holds(chart.tree, entry.buff[..], target, entry.index + 1)
      ensures if found then Up(chart.tree, target, entry.index) == Up(chart.tree, current, e)
              else (&& entry.index == chart.tree.depth(target)
                    && Avoids(chart.tree, target, 1, entry.index, Up(chart.tree, current, e)))
    {
      ghost var t := chart.tree;
      OnlyTopAtZero(t, target);
      UpDepth(t, target, 1);
      while entry.buff[entry.index] != TOP
        invariant 1 <= entry.index <= t.depth(target) < n
        invariant Search(entry, exit, current, e, target)
        invariant Holds(t, entry.buff[..], target, entry.index + 1)
        invariant Avoids(t, target, 1, entry.index, Up(t, current, e))
        decreases t.depth(target) - entry.index
      {
        ghost var m := entry.index;
        assert entry.buff[m] == entry.buff[..][m] == Up(t, target, m);
        UpDepth(t, target, m);
        var super := GetSuper(entry.buff[entry.index]);
        entry.index := entry.index + 1;
        ghost var b := entry.buff[..];
        entry.buff[entry.index] := super;
        assert entry.buff[..] == b[m + 1 := super] && super == Up(t, target, m + 1);
        assert exit.buff[exit.index] == exit.buff[..][e] == Up(t, current, e);
        if exit.buff[exit.index] == entry.buff[entry.index] {
          return true;
        }
      }
      assert entry.buff[entry.index] == entry.buff[..][entry.index];
      UpDepth(t, target, entry.index);
      return false;
    }

    /** Case f: look for the source's parent among the target's ancestors, from the top. */
    method FindParent(entry: HsmPath, exit: HsmPath, ghost current: State, ghost x: nat, ghost target: State)
      returns (found: bool)
      requires Fits() && entry != exit && exit.index == x < exit.buff.Length
               && exit.buff[x] == Up(chart.tree, current, x)
      requires 1 <= entry.index == chart.tree.depth(target)
               && Holds(chart.tree, entry.buff[..], target, entry.index + 1)
      requires Up(chart.tree, target, 1) != Up(chart.tree, current, x)
      modifies entry`index
      ensures 1 <= entry.index <= chart.tree.depth(target)
      ensures if found then Up(chart.tree, target, entry.index) == Up(chart.tree, current, x)
              else (&& entry.index == 1
                    && Avoids(chart.tree, target, 1, chart.tree.depth(target), Up(chart.tree, current, x)))
    {
      ghost var t := chart.tree;
      while entry.index != 1
        invariant 1 <= entry.index <= t.depth(target)
        invariant Avoids(t, target, entry.index + 1, t.depth(target), Up(t, current, x))
      {
        assert entry.buff[entry.index] == entry.buff[..][entry.index] == Up(t, target, entry.index);
        if exit.buff[exit.index] == entry.buff[entry.index] {
          return true;
        }
        entry.index := entry.index - 1;
      }
      return false;
    }

    /** The inner loop of case g: is the state at `exit.index` among the target's ancestors? */
    method FindAmong(entry: HsmPath, exit: HsmPath, ghost current: State, ghost x: nat, ghost target: State)
      returns (found: bool)
      requires Fits() && entry != exit && target != TOP && exit.index == x < exit.buff.Length
               && exit.buff[x] == Up(chart.tree, current, x)
      requires Holds(chart.tree, entry.buff[..], target, chart.tree.depth(target) + 1)
      modifies entry`index
      ensures 1 <= entry.index <= chart.tree.depth(target)
      ensures if found then Up(chart.tree, target, entry.index) == Up(chart.tree, current, x)
              else Avoids(chart.tree, target, 1, chart.tree.depth(target), Up(chart.tree, current, x))
    {
      ghost var t := chart.tree;
      OnlyTopAtZero(t, target);
      entry.index := 0;
      while true
        invariant 0 <= entry.index < t.depth(target)
        invariant Avoids(t, target, 1, entry.index, Up(t, current, x))
        decreases t.depth(target) - entry.index
      {
        entry.index := entry.index + 1;
        assert entry.buff[entry.index] == entry.buff[..][entry.index] == Up(t, target, entry.index);
        UpDepth(t, target, entry.index);
        if exit.buff[exit.index] == entry.buff[entry.index] {
          return true;
        }
        if entry.buff[entry.index] == TOP { break; }
      }
      return false;
    }

    /** Case g: climb from the source's parent until an ancestor of the target is met. */
    method ClimbToCommon(entry: HsmPath, exit: HsmPath, ghost current: State, ghost e: nat, ghost target: State)
      requires Search(entry, exit, current, e, target) && exit.index == e + 1
               && Holds(chart.tree, exit.buff[..], current, e + 2)
      requires Holds(chart.tree, entry.buff[..], target, chart.tree.depth(target) + 1)
      requires Avoids(chart.tree, target, 1, chart.tree.depth(target), Up(chart.tree, current, e + 1))
      modifies this`state, entry`index, exit`index, exit.buff
      ensures Search(entry, exit, current, e, target)
      ensures 1 <= entry.index <= chart.tree.depth(target) && e + 1 < exit.index <= chart.tree.depth(current)
      ensures Holds(chart.tree, exit.buff[..], current, exit.index)
              && Up(chart.tree, target, entry.index) == Up(chart.tree, current, exit.index)
      ensures forall x: nat | e + 1 <= x < exit.index ::
              Avoids(chart.tree, target, 1, chart.tree.depth(target), Up(chart.tree, current, x))
    {
      ghost var t := chart.tree;
      while true
        invariant e + 1 <= exit.index <= t.depth(current)
        invariant Search(entry, exit, current, e, target)
        invariant Holds(t, exit.buff[..], current, exit.index + 1)
        invariant forall x: nat | e + 1 <= x <= exit.index :: Avoids(t, target, 1, t.depth(target), Up(t, current, x))
        decreases t.depth(current) - exit.index
      {
        ghost var x := exit.index;
        assert exit.buff[x] == exit.buff[..][x] == Up(t, current, x);
        TopIsMet(t, target, current, x);
        var super := GetSuper(exit.buff[exit.index]);
        exit.index := exit.index + 1;
        ghost var b := exit.buff[..];
        exit.buff[exit.index] := super;
        assert exit.buff[..] == b[x + 1 := super] && super == Up(t, current, x + 1);
        var found := FindAmong(entry, exit, current, x + 1, target);
        if found { return; }
      }
    }

    /** Cases e to g of `hsm_build_path`; `entry.index` is back at the target's parent. */
    method BuildFar(entry: HsmPath, exit: HsmPath, ghost current: State, ghost e: nat, ghost target: State)
      requires Search(entry, exit, current, e, target) && exit.index == e && entry.index == 1
      requires Holds(chart.tree, entry.buff[..], target, 2) && Holds(chart.tree, exit.buff[..], current, e + 2)
      requires var t, source := chart.tree, Up(chart.tree, current, e);
               && source != TOP && source != target && target != t.parent(source)
               && Up(t, target, 1) != source && Up(t, target, 1) != t.parent(source)
      modifies this`state, entry`index, entry.buff, exit`index, exit.buff
      ensures Built(entry, exit, current, Up(chart.tree, current, e), target) && Search(entry, exit, current, e, target)
    {
      hide IsPivot, ProperAncestor;
      ghost var t := chart.tree;
      ghost var source := Up(t, current, e);
      // e) the source is a higher ancestor of the target
      ghost var b := exit.buff[..];
      var found := FindSource(entry, exit, current, e, target);
      if found {
        AncestorPivot(t, source, target, entry.index);
        return;
      }
      NotAncestor(t, target, source);
      // f) the source's parent is a higher ancestor of the target
      exit.index := exit.index + 1;
      assert exit.buff[e + 1] == exit.buff[..][e + 1] == Up(t, current, e + 1);
      found := FindParent(entry, exit, current, e + 1, target);
      if found {
        ParentIsPivot(t, source, target, entry.index);
        return;
      }
      // g) a higher ancestor of both
      ClimbToCommon(entry, exit, current, e, target);
      CommonFound(t, current, e, target, exit.index, entry.index);
    }

    /** Cases c and d of `hsm_build_path`, and on to the others. */
    method BuildNear(entry: HsmPath, exit: HsmPath, ghost current: State, ghost e: nat, ghost target: State)
      requires Search(entry, exit, current, e, target) && exit.index == e && entry.index == 1
      requires Holds(chart.tree, entry.buff[..], target, 2)
      requires var source := Up(chart.tree, current, e);
               source != TOP && source != target && Up(chart.tree, target, 1) != source
      modifies this`state, entry`index, entry.buff, exit`index, exit.buff
      ensures Built(entry, exit, current, Up(chart.tree, current, e), target) && entry.buff[0] == target
    {
      hide IsPivot, ProperAncestor;
      ghost var t := chart.tree;
      ghost var source := Up(t, current, e);
      OnlyTopAtZero(t, target);
      assert Up(t, target, 0) == target && Up(t, current, e + 1) == t.parent(source);
      assert entry.buff[..][0] == target && entry.buff[..][1] == Up(t, target, 1) && exit.buff[..][e] == source;
      // c) both have the same parent
      var super := GetSuper(exit.buff[exit.index]);
      exit.index := exit.index + 1;
      ghost var b := exit.buff[..];
      exit.buff[exit.index] := super;
      assert exit.buff[..] == b[e + 1 := super];
      if exit.buff[exit.index] == entry.buff[entry.index] {
        SiblingPivot(t, source, target);
        return;
      }
      // d) the target is the source's parent
      entry.index := entry.index - 1;
      if exit.buff[exit.index] == entry.buff[entry.index] {
        ParentNotBelow(t, source, target);
        return;
      }
      exit.index := exit.index - 1;
      entry.index := entry.index + 1;
      BuildFar(entry, exit, current, e, target);
      assert entry.buff[0] == entry.buff[..][0];
    }

    /** `hsm_build_path`: seven ways to the pivot. */
    method BuildPath(entry: HsmPath, exit: HsmPath, ghost current: State, ghost e: nat, ghost target: State)
      requires Search(entry, exit, current, e, target) && exit.index == e + 1
      modifies this`state, entry`index, entry.buff, exit`index, exit.buff
      ensures Built(entry, exit, current, Up(chart.tree, current, e), target)
      ensures entry.buff[0] == target
    {
      hide IsPivot, ProperAncestor;
      ghost var t := chart.tree;
      ghost var source := Up(t, current, e);
      UpDepth(t, current, e);
      OnlyTopAtZero(t, target);
      assert Up(t, target, 0) == target && Up(t, target, 1) == t.parent(target);
      assert entry.buff[..][0] == target && exit.buff[..][e] == source;
      entry.index := 0;
      exit.index := exit.index - 1;
      // a) source is the target
      if exit.buff[exit.index] == entry.buff[entry.index] {
        entry.index := entry.index + 1;
        exit.index := exit.index + 1;
        SelfPivot(t, source);
        return;
      }
      // b) source is the target's parent
      var super := GetSuper(entry.buff[entry.index]);
      entry.index := entry.index + 1;
      ghost var b := entry.buff[..];
      entry.buff[entry.index] := super;
      assert entry.buff[..] == b[1 := super];
      if exit.buff[exit.index] == entry.buff[entry.index] {
        AncestorPivot(t, source, target, 1);
        return;
      }
      BuildNear(entry, exit, current, e, target);
    }

    /** The first loop of `n_sm_hsm_dispatch`: the event climbs, the way up is recorded. */
    method WalkUp(exit: HsmPath, event: Signal) returns (ret: Action)
      requires Fits() && exit.index == 0 && exit.buff.Length == n
      modifies this, exit`index, exit.buff
      ensures 1 <= exit.index <= chart.tree.depth(old(state)) + 1
              && Holds(chart.tree, exit.buff[..], old(state), exit.index)
      ensures Walk(chart, old(log), old(state), event) == (log, Up(chart.tree, old(state), exit.index - 1), ret)
      ensures ret.TransitTo? ==> state == ret.target
    {
      ghost var t, l0, s0 := chart.tree, log, state;
      ret := ToSuper;
      while true
        invariant exit.index <= t.depth(s0) && Holds(t, exit.buff[..], s0, exit.index) && state == Up(t, s0, exit.index)
        invariant Walk(chart, log, state, event) == Walk(chart, l0, s0, event)
        decreases t.depth(state)
      {
        ghost var x := exit.index;
        UpDepth(t, s0, x);
        ghost var b := exit.buff[..];
        exit.buff[exit.index] := state;
        exit.index := exit.index + 1;
        assert exit.buff[..] == b[x := Up(t, s0, x)];
        assert chart.Obeys(log, state, event);
        OnlyTopAtZero(t, state);
        ret := Ask(state, event);
        if !ret.ToSuper? { break; }
      }
    }

    /** One pass of the second loop of `n_sm_hsm_dispatch`: leave, enter, initialise. */
    method Transit(entry: HsmPath, exit: HsmPath, ghost current: State, ghost e: nat, ghost target: State)
      returns (ret: Action)
      requires Fits() && entry != exit && entry.buff != exit.buff && entry.buff.Length == exit.buff.Length == n
      requires exit.index == e + 1 && e < chart.tree.depth(current) && Holds(chart.tree, exit.buff[..], current, e + 1)
      requires state == target != TOP && Up(chart.tree, current, e) != TOP
      modifies this, entry`index, entry.buff, exit`index, exit.buff
      ensures entry.buff[0] == target
      ensures var log1 := Moved(chart.tree, old(log), current, Up(chart.tree, current, e), target);
              && ret == chart.react(log1, target, Init) && log == log1 + [Call(target, Init)]
              && (ret.TransitTo? ==> state == ret.target != TOP && chart.rank(ret.target) < chart.rank(target))
    {
      hide IsPivot, Exits, Enters, Settle, Walk;
      ghost var t, source, l0 := chart.tree, Up(chart.tree, current, e), log;
      entry.buff[0] := state;
      BuildPath(entry, exit, current, e, target);
      ghost var p := Up(t, target, entry.index);
      UpDepth(t, current, exit.index);
      UpDepth(t, target, entry.index);
      PivotUnique(t, source, target, p, Pivot(t, source, target));
      PathExit(exit, current);
      PathEnter(entry, target);
      assert log == Moved(t, l0, current, source, target);
      assert chart.Obeys(log, target, Init);
      ret := Ask(entry.buff[0], Init);
    }

    /** `n_sm_hsm_dispatch`. */
    method HsmDispatch(event: Signal)
      requires Fits() && !event.Entry? && !event.Exit?
      modifies this
      ensures (log, state) == Dispatch(chart, old(log), old(state), event)
    {
      hide Walk, Moved, Settle, Pivot, IsPivot;
      ghost var l0, s0 := log, state;
      var entry := new HsmPath(n);
      var exit := new HsmPath(n);
      var currentState := state;
      var ret := WalkUp(exit, event);
      WalkSource(chart, l0, s0, event);
      ghost var e: nat := exit.index - 1;
      UpDepth(chart.tree, s0, e);
      ghost var final := Dispatch(chart, l0, s0, event);
      ghost var t := chart.tree;
      while ret.TransitTo?
        invariant Fits() && entry != exit && entry.buff != exit.buff && entry.buff.Length == exit.buff.Length == n
        invariant fresh(entry) && fresh(exit) && fresh(entry.buff) && fresh(exit.buff)
        invariant ret.TransitTo? ==>
                    && exit.index == e + 1 && e < t.depth(currentState) && Holds(t, exit.buff[..], currentState, e + 1)
                    && state == ret.target != TOP && Up(t, currentState, e) != TOP
                    && Settle(chart, log, currentState, Up(t, currentState, e), state) == final
        invariant !ret.TransitTo? ==> (log, currentState) == final
        decreases if ret.TransitTo? then chart.rank(state) + 1 else 0
      {
        ghost var target := state;
        SettleOnce(chart, log, currentState, Up(t, currentState, e), target);
        ret := Transit(entry, exit, currentState, e, target);
        exit.buff[0] := entry.buff[0];
        currentState := entry.buff[0];
        exit.index := 1;
        e := 0;
        OnlyTopAtZero(t, target);
      }
      state := currentState;
    }
  }

  /** A state whose ancestry misses the target's is not yet the top. */
  lemma TopIsMet(t: Tree, target: State, current: State, x: nat)
    requires t.Valid() && target != TOP && x <= t.depth(current)
    requires Avoids(t, target, 1, t.depth(target), Up(t, current, x))
    ensures x < t.depth(current) && Up(t, current, x) != TOP
  {
    OnlyTopAtZero(t, target);
    UpDepth(t, target, t.depth(target));
    UpDepth(t, current, x);
  }

  /** One transition and what its INIT call leads to. */
  lemma SettleOnce(c: Chart, log: seq<Call>, current: State, source: State, target: State)
    requires c.Valid() && source != TOP && target != TOP
    ensures var log1 := Moved(c.tree, log, current, source, target);
            var a := c.react(log1, target, Init);
            && (a.TransitTo? ==> a.target != TOP)
            && Settle(c, log, current, source, target) ==
               if a.TransitTo? then Settle(c, log1 + [Call(target, Init)], target, target, a.target)
               else (log1 + [Call(target, Init)], target)
  {
    assert c.Obeys(Moved(c.tree, log, current, source, target), target, Init);
  }

  lemma SelfPivot(t: Tree, source: State)
    ensures IsPivot(t, source, source, t.parent(source))
  {
  }

  lemma AncestorPivot(t: Tree, source: State, target: State, j: nat)
    requires t.Valid() && target != source && 1 <= j <= t.depth(target) && Up(t, target, j) == source
    ensures IsPivot(t, source, target, source)
  {
    UpIsAncestor(t, target, j);
  }

  lemma SiblingPivot(t: Tree, source: State, target: State)
    requires t.Valid() && source != TOP && target != TOP && source != target
    requires t.parent(source) == Up(t, target, 1) && source != Up(t, target, 1)
    ensures IsPivot(t, source, target, t.parent(source))
  {
    OnlyTopAtZero(t, source);
    OnlyTopAtZero(t, target);
    UpDepth(t, target, 1);
    assert t.depth(target) == t.depth(source);
    if target == t.parent(source) { assert false; }
    ParentIsPivot(t, source, target, 1);
  }

  /** A state is not below its own child. */
  lemma ParentNotBelow(t: Tree, source: State, target: State)
    requires t.Valid() && source != TOP && target == t.parent(source)
    ensures !ProperAncestor(t, source, target) && source != target
    ensures IsPivot(t, source, target, target)
  {
    OnlyTopAtZero(t, source);
  }

  /** Where the climb ends is the pivot. */
  lemma CommonFound(t: Tree, current: State, e: nat, target: State, x: nat, j: nat)
    requires t.Valid() && e + 1 < x <= t.depth(current) && target != TOP && 1 <= j <= t.depth(target)
    requires var source := Up(t, current, e);
             && source != TOP && source != target && target != t.parent(source) && !ProperAncestor(t, source, target)
    requires Up(t, target, j) == Up(t, current, x)
    requires forall y: nat | e + 1 <= y < x :: Avoids(t, target, 1, t.depth(target), Up(t, current, y))
    ensures IsPivot(t, Up(t, current, e), target, Up(t, current, x))
  {
    hide Up, IsPivot, ProperAncestor;
    var source := Up(t, current, e);
    UpDepth(t, current, e);
    UpUp(t, current, e, x - e);
    forall k: nat | 1 <= k < x - e ensures !ProperAncestor(t, Up(t, source, k), target) {
      UpUp(t, current, e, k);
      assert Avoids(t, target, 1, t.depth(target), Up(t, current, e + k));
      NotAncestor(t, target, Up(t, current, e + k));
    }
    FirstCommonIsPivot(t, source, target, x - e, j);
  }
}