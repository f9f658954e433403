/** State trees of hierarchical machines: ancestors, the pivot of a transition and the
    stack of active states. */
module StateTree {

  type State = nat

  const TOP: State := 0      // ntop_state

  /** Every state but the top one has a parent one level up. */
  datatype Tree = Tree(parent: State -> State, depth: State -> nat) {
    ghost predicate Level(s: State) {
      s != TOP ==> depth(s) == depth(parent(s)) + 1
    }

    ghost predicate Valid() {
      depth(TOP) == 0 && forall s :: Level(s)
    }
  }

  /** The `k`-th ancestor; the 0-th is the state itself. */
  function Up(t: Tree, s: State, k: nat): State {
    if k == 0 then s else t.parent(Up(t, s, k - 1))
  }

  lemma {:induction false} UpDepth(t: Tree, s: State, k: nat)
    requires t.Valid() && k <= t.depth(s)
    ensures t.depth(Up(t, s, k)) == t.depth(s) - k
    ensures Up(t, s, k) == TOP <==> k == t.depth(s)
  {
    if k > 0 {
      UpDepth(t, s, k - 1);
      OnlyTopAtZero(t, Up(t, s, k - 1));
    }
    OnlyTopAtZero(t, Up(t, s, k));
  }

  lemma OnlyTopAtZero(t: Tree, s: State)
    requires t.Valid()
    ensures t.depth(s) == 0 <==> s == TOP
    ensures s != TOP ==> t.depth(s) == t.depth(t.parent(s)) + 1
  {
    assert t.Level(s);
  }

  lemma {:induction false} UpUp(t: Tree, s: State, i: nat, j: nat)
    ensures Up(t, Up(t, s, i), j) == Up(t, s, i + j)
  {
    if j > 0 { UpUp(t, s, i, j - 1); }
  }

  /** `a` is an ancestor of `s` at least one level up. */
  ghost predicate ProperAncestor(t: Tree, a: State, s: State) {
    t.depth(a) < t.depth(s) && Up(t, s, t.depth(s) - t.depth(a)) == a
  }

  lemma UpIsAncestor(t: Tree, s: State, k: nat)
    requires t.Valid() && 0 < k <= t.depth(s)
    ensures ProperAncestor(t, Up(t, s, k), s)
  {
    UpDepth(t, s, k);
  }

  /** Proper ancestors shared by two states. */
  ghost predicate Common(t: Tree, p: State, a: State, b: State) {
    ProperAncestor(t, p, a) && ProperAncestor(t, p, b)
  }

  /** The pivot of a transition: what is exited and entered lies strictly below it. */
  ghost predicate IsPivot(t: Tree, source: State, target: State, p: State) {
    if target == source then p == t.parent(source)
    else if ProperAncestor(t, source, target) then p == source
    else if target == t.parent(source) then p == target
    else Common(t, p, source, target) && forall c | Common(t, c, source, target) :: t.depth(c) <= t.depth(p)
  }

  /** There is only one pivot. */
  lemma PivotUnique(t: Tree, source: State, target: State, p: State, p': State)
    requires t.Valid() && IsPivot(t, source, target, p) && IsPivot(t, source, target, p')
    ensures p == p'
  {
  }

  // ---- active states ----

  /** The chain from the top state down to `s`. */
  ghost function Chain(t: Tree, s: State): seq<State>
    requires t.Valid()
    decreases t.depth(s)
  {
    if s == TOP then [TOP] else (assert t.Level(s); Chain(t, t.parent(s)) + [s])
  }

  ghost function Last(s: seq<State>): State
    requires |s| > 0
  {
    s[|s| - 1]
  }

  lemma ChainLast(t: Tree, s: State)
    requires t.Valid()
    ensures |Chain(t, s)| > 0 && Last(Chain(t, s)) == s
    ensures s != TOP ==> Chain(t, s)[..|Chain(t, s)| - 1] == Chain(t, t.parent(s))
  {
  }
}
