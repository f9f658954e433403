/** Circular doubly linked lists. A pointer is the index of a node in a memory of
    two link fields; `Ring` says which node sequence the links spell out. */
module DList {

  ghost predicate Distinct(s: seq<int>) {
    forall i, j | 0 <= i < j < |s| :: s[i] != s[j]
  }

  /** A position of `x` in `s`, the only one when `s` is distinct. */
  ghost function IndexOf(s: seq<int>, x: int): (i: nat)
    requires x in s
    ensures i < |s| && s[i] == x
  {
    var i: nat :| i < |s| && s[i] == x; i
  }

  /** The node after position `k`, wrapping from the last one to the first. */
  ghost function After(r: seq<int>, k: nat): int
    requires k < |r|
  {
    if k + 1 < |r| then r[k + 1] else r[0]
  }

  /** The link fields of node `a` sit at `a + off`. */
  ghost predicate InMemory(next: seq<int>, prev: seq<int>, off: int, r: seq<int>) {
    |next| == |prev| && forall k | 0 <= k < |r| :: 0 <= r[k] + off < |next|
  }

  ghost predicate LinkedAt(next: seq<int>, prev: seq<int>, off: int, r: seq<int>, k: nat)
    requires InMemory(next, prev, off, r) && k < |r|
  {
    next[r[k] + off] == After(r, k) && prev[After(r, k) + off] == r[k]
  }

  /** Following `next` visits exactly the nodes of `r`, in order, and comes back to
      `r[0]`; `prev` is its mirror. */
  ghost predicate Ring(next: seq<int>, prev: seq<int>, off: int, r: seq<int>) {
    && |r| > 0 && Distinct(r) && InMemory(next, prev, off, r)
    && forall k | 0 <= k < |r| :: LinkedAt(next, prev, off, r, k)
  }

  ghost function Without(s: seq<int>, k: nat): seq<int>
    requires k < |s|
  {
    s[..k] + s[k + 1..]
  }

  ghost function WithAt(s: seq<int>, k: nat, x: int): seq<int>
    requires k <= |s|
  {
    s[..k] + [x] + s[k..]
  }

  lemma ConsWithAt(x: int, s: seq<int>, k: nat, y: int)
    requires k <= |s|
    ensures WithAt([x] + s, k + 1, y) == [x] + WithAt(s, k, y)
  {
  }

  lemma ConsWithout(x: int, s: seq<int>, k: nat)
    requires k < |s|
    ensures Without([x] + s, k + 1) == [x] + Without(s, k)
  {
  }

  lemma WithoutMembers(s: seq<int>, k: nat)
    requires Distinct(s) && k < |s|
    ensures Distinct(Without(s, k))
    ensures forall x :: x in Without(s, k) <==> x in s && x != s[k]
  {
    var t := Without(s, k);
    forall x | x in s && x != s[k] ensures x in t {
      var i :| 0 <= i < |s| && s[i] == x;
      assert t[if i < k then i else i - 1] == x;
    }
  }

  lemma WithAtMembers(s: seq<int>, k: nat, y: int)
    requires Distinct(s) && k <= |s| && y !in s
    ensures Distinct(WithAt(s, k, y))
    ensures forall x :: x in WithAt(s, k, y) <==> x in s || x == y
  {
    var t := WithAt(s, k, y);
    assert t[k] == y;
    forall x | x in s ensures x in t {
      var i :| 0 <= i < |s| && s[i] == x;
      assert t[if i < k then i else i + 1] == x;
    }
  }

  lemma ReplacedMembers(s: seq<int>, k: nat, y: int)
    requires Distinct(s) && k < |s| && y !in s
    ensures Distinct(s[k := y])
    ensures forall x :: x in s[k := y] <==> (x in s && x != s[k]) || x == y
  {
    var t := s[k := y];
    assert t[k] == y;
    forall x | x in s && x != s[k] ensures x in t {
      var i :| 0 <= i < |s| && s[i] == x;
      assert t[i] == x;
    }
  }

  // ---- relative order ----

  lemma IndexOfAt(s: seq<int>, i: nat)
    requires Distinct(s) && i < |s|
    ensures s[i] in s && IndexOf(s, s[i]) == i
  {
    assert s[i] in s;
  }

  /** Two elements of both lists stand in the same order in both. */
  ghost predicate SameOrder(s: seq<int>, s': seq<int>, x: int, y: int) {
    x in s && x in s' && y in s && y in s' ==>
      (IndexOf(s', x) < IndexOf(s', y) <==> IndexOf(s, x) < IndexOf(s, y))
  }

  lemma WithoutIndex(s: seq<int>, k: nat, x: int)
    requires Distinct(s) && k < |s| && x in s && x != s[k]
    ensures x in Without(s, k) && IndexOf(s, x) != k
    ensures IndexOf(Without(s, k), x) == if IndexOf(s, x) < k then IndexOf(s, x) else IndexOf(s, x) - 1
  {
    WithoutMembers(s, k);
    var i := IndexOf(s, x);
    var j := if i < k then i else i - 1;
    assert Without(s, k)[j] == x;
    IndexOfAt(Without(s, k), j);
  }

  lemma WithoutOrder(s: seq<int>, k: nat, x: int, y: int)
    requires Distinct(s) && k < |s|
    ensures SameOrder(s, Without(s, k), x, y)
  {
    WithoutMembers(s, k);
    if x in Without(s, k) && y in Without(s, k) {
      WithoutIndex(s, k, x);
      WithoutIndex(s, k, y);
    }
  }

  lemma ReplacedIndex(s: seq<int>, k: nat, y: int, x: int)
    requires Distinct(s) && k < |s| && y !in s && x in s[k := y]
    ensures if x == y then IndexOf(s[k := y], x) == k else x in s && IndexOf(s[k := y], x) == IndexOf(s, x)
  {
    ReplacedMembers(s, k, y);
    if x == y {
      IndexOfAt(s[k := y], k);
    } else {
      assert s[k := y][IndexOf(s, x)] == x;
      IndexOfAt(s[k := y], IndexOf(s, x));
    }
  }

  lemma PushedIndex(s: seq<int>, a: int, x: int)
    requires Distinct(s) && a !in s && x in s
    ensures x in [a] + s && IndexOf([a] + s, x) == IndexOf(s, x) + 1
  {
    WithAtMembers(s, 0, a);
    assert WithAt(s, 0, a) == [a] + s;
    assert ([a] + s)[IndexOf(s, x) + 1] == x;
    IndexOfAt([a] + s, IndexOf(s, x) + 1);
  }

  /** Node `a` has the same links in both memories. */
  ghost predicate SameLinks(next: seq<int>, prev: seq<int>, next': seq<int>, prev': seq<int>, off: int, a: int) {
    && |next| == |prev| == |next'| == |prev'| && 0 <= a + off < |next|
    && next'[a + off] == next[a + off] && prev'[a + off] == prev[a + off]
  }

  /** Links outside the ring do not matter to it. */
  lemma RingFrame(next: seq<int>, prev: seq<int>, next': seq<int>, prev': seq<int>, off: int, r: seq<int>)
    requires Ring(next, prev, off, r)
    requires forall a | a in r :: SameLinks(next, prev, next', prev', off, a)
    ensures Ring(next', prev', off, r)
  {
    assert SameLinks(next, prev, next', prev', off, r[0]);
    forall k | 0 <= k < |r| ensures 0 <= r[k] + off < |next'| { assert r[k] in r; }
    forall k | 0 <= k < |r| ensures LinkedAt(next', prev', off, r, k) {
      assert LinkedAt(next, prev, off, r, k);
      assert r[k] in r && After(r, k) in r;
      assert SameLinks(next, prev, next', prev', off, r[k]);
      assert SameLinks(next, prev, next', prev', off, After(r, k));
    }
  }

  /** The neighbours of a node other than the anchor. */
  lemma Neighbours(next: seq<int>, prev: seq<int>, off: int, r: seq<int>, k: nat)
    requires Ring(next, prev, off, r) && 0 < k < |r|
    ensures next[r[k] + off] == After(r, k) && prev[r[k] + off] == r[k - 1]
  {
    assert LinkedAt(next, prev, off, r, k) && LinkedAt(next, prev, off, r, k - 1);
  }

  lemma Anchor(next: seq<int>, prev: seq<int>, off: int, r: seq<int>)
    requires Ring(next, prev, off, r)
    ensures next[r[0] + off] == After(r, 0) && prev[r[0] + off] == r[|r| - 1]
  {
    assert LinkedAt(next, prev, off, r, 0) && LinkedAt(next, prev, off, r, |r| - 1);
  }

  /** In a ring of distinct nodes the successors are distinct too. */
  lemma AfterDistinct(r: seq<int>, i: nat, j: nat)
    requires Distinct(r) && i < |r| && j < |r| && i != j
    ensures After(r, i) != After(r, j)
  {
  }

  /** Unlinking the node at a position other than the anchor. */
  lemma RingRemove(next: seq<int>, prev: seq<int>, off: int, r: seq<int>, k: nat)
    requires Ring(next, prev, off, r) && 0 < k < |r|
    ensures Ring(next[r[k - 1] + off := After(r, k)], prev[After(r, k) + off := r[k - 1]], off, Without(r, k))
  {
    var r' := Without(r, k);
    var next', prev' := next[r[k - 1] + off := After(r, k)], prev[After(r, k) + off := r[k - 1]];
    forall j | 0 <= j < |r'| ensures LinkedAt(next', prev', off, r', j) {
      var i := if j < k then j else j + 1;
      assert r'[j] == r[i] && LinkedAt(next, prev, off, r, i);
      AfterDistinct(r, i, k);
      if i == k - 1 {
        assert After(r', j) == After(r, k);
      } else {
        assert After(r', j) == After(r, i);
      }
    }
  }

  /** Linking a new node in front of position `k`; position |r| is in front of the anchor. */
  lemma RingInsert(next: seq<int>, prev: seq<int>, off: int, r: seq<int>, k: nat, x: int)
    requires Ring(next, prev, off, r) && 0 < k <= |r|
    requires x !in r && 0 <= x + off < |next|
    ensures var c, p := After(r, k - 1), r[k - 1];
            && prev[c + off] == p
            && Ring(next[x + off := c][p + off := x], prev[x + off := p][c + off := x], off, WithAt(r, k, x))
  {
    hide Distinct;
    var c, p := After(r, k - 1), r[k - 1];
    assert LinkedAt(next, prev, off, r, k - 1);
    var r' := WithAt(r, k, x);
    WithAtMembers(r, k, x);
    var next', prev' := next[x + off := c][p + off := x], prev[x + off := p][c + off := x];
    forall j | 0 <= j < |r'| ensures LinkedAt(next', prev', off, r', j) {
      if j == k {
        assert r'[j] == x && After(r', j) == c;
      } else {
        var i := if j < k then j else j - 1;
        assert r'[j] == r[i] && LinkedAt(next, prev, off, r, i);
        if i == k - 1 {
          assert After(r', j) == x;
        } else {
          AfterDistinct(r, i, k - 1);
          assert After(r', j) == After(r, i);
          assert After(r, i) in r;
        }
      }
    }
  }

  /** Putting a new node in the place of an old one. */
  lemma RingReplace(next: seq<int>, prev: seq<int>, off: int, r: seq<int>, k: nat, x: int)
    requires Ring(next, prev, off, r) && 0 < k < |r|
    requires x !in r && 0 <= x + off < |next|
    ensures var n, p := After(r, k), r[k - 1];
            Ring(next[x + off := n][p + off := x], prev[x + off := p][n + off := x], off, r[k := x])
  {
    var n, p := After(r, k), r[k - 1];
    var r' := r[k := x];
    var next', prev' := next[x + off := n][p + off := x], prev[x + off := p][n + off := x];
    forall j | 0 <= j < |r'| ensures LinkedAt(next', prev', off, r', j) {
      assert LinkedAt(next, prev, off, r, j);
      assert After(r, j) in r;
      if j == k {
        assert After(r', j) == n;
      } else if j == k - 1 {
        assert After(r', j) == x;
      } else {
        AfterDistinct(r, j, k - 1);
        AfterDistinct(r, j, k);
        assert After(r', j) == After(r, j);
      }
    }
  }
}
