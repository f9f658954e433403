/** What the heap promises over whole runs, proved about the layouts of `HeapLayout`. */
module HeapTheorems {
  import opened Bits
  import opened DList
  import opened HeapLayout
  import opened Options

  // ---- conservation and full coalescing ----

  /** Headers and payloads of the first `k` blocks. */
  ghost function Bytes(p: int, l: Layout, k: nat): int
    requires k < |l.blocks|
  {
    if k == 0 then 0 else Bytes(p, l, k - 1) + p + Capacity(p, l, k - 1)
  }

  /** Headers and payloads of all blocks always add up to the region below the sentinel. */
  lemma {:induction false} BytesConserved(p: int, l: Layout, k: nat)
    requires Tiling(p, l.blocks) && k < |l.blocks|
    ensures Bytes(p, l, k) == l.blocks[k]
  {
    if k > 0 { BytesConserved(p, l, k - 1); }
  }

  /** Once nothing is live the region is one free block again. */
  lemma FullCoalescing(p: int, l: Layout)
    requires WF(p, l)
    ensures (forall a :: !IsLive(l, a)) <==> l == InitLayout(Sentinel(l) + 2 * p, p)
  {
    TilingDistinct(p, l.blocks);
    if forall a :: !IsLive(l, a) {
      assert !IsLive(l, l.blocks[0]);
      assert Separated(l, 0);
      assert |l.free| > 1 ==> l.free[0] != l.free[1];
      assert |l.blocks| > 2 ==> !IsLive(l, l.blocks[1]);
      assert l.blocks == [0, Sentinel(l)];
      assert 0 in l.free && forall k | 0 <= k < |l.free| :: l.free[k] == 0 by {
        forall k | 0 <= k < |l.free| ensures l.free[k] == 0 { assert l.free[k] in l.free; }
      }
      assert |l.free| == 1;
      assert l.free == [0];
    }
    if l == InitLayout(Sentinel(l) + 2 * p, p) {
      forall a ensures !IsLive(l, a) { assert 0 in [0]; }
    }
  }

  // ---- live blocks ----

  /** Live payloads are pairwise disjoint, stay below the sentinel and hold no header. */
  lemma LiveDisjoint(p: int, l: Layout, a: int, b: int)
    requires WF(p, l) && IsLive(l, a) && b in l.blocks && a != b
    ensures 0 <= a && a + p + CapacityAt(p, l, a) <= Sentinel(l)
    ensures b + p <= a + p || a + p + CapacityAt(p, l, a) <= b
    ensures IsLive(l, b) ==> b + p + CapacityAt(p, l, b) <= a || a + p + CapacityAt(p, l, a) <= b
  {
    var i := BlockIndex(p, l, a);
    var j := IndexOf(l.blocks, b);
    if i > 0 { Ordered(p, l.blocks, 0, i); }
    if i + 1 < |l.blocks| - 1 { Ordered(p, l.blocks, i + 1, |l.blocks| - 1); }
    if j < i {
      Ordered(p, l.blocks, j, i);
      if j + 1 < i { Ordered(p, l.blocks, j + 1, i); }
    } else if i + 1 < j {
      Ordered(p, l.blocks, i + 1, j);
    }
  }

  lemma CapacityOf(p: int, l: Layout, i: int)
    requires Tiling(p, l.blocks) && 0 <= i && i + 1 < |l.blocks|
    ensures l.blocks[i] in l.blocks && l.blocks[i] != Sentinel(l)
    ensures CapacityAt(p, l, l.blocks[i]) == l.blocks[i + 1] - l.blocks[i] - p >= p
  {
    Ordered(p, l.blocks, i, |l.blocks| - 1);
    assert Gap(p, l.blocks, i);
    IndexUnique(p, l.blocks, i);
  }

  /** Splitting a free block leaves every live block as large as it was. */
  lemma SplitCapacity(p: int, l: Layout, n: int, k: nat, x: int)
    requires WF(p, l) && k < |l.free| && n >= p && CapacityAt(p, l, l.free[k]) > n + 2 * p
    requires IsLive(l, x) || x == l.free[k]
    ensures Tiling(p, Split(p, l, n, k).blocks) && IsLive(Split(p, l, n, k), x)
    ensures CapacityAt(p, Split(p, l, n, k), x) == if x == l.free[k] then n else CapacityAt(p, l, x)
  {
    var i := SplitShape(p, l, n, k);
    SplitWF(p, l, n, k);
    assert l.free[k] in l.free;
    var j := BlockIndex(p, l, x);
    var l' := Split(p, l, n, k);
    CapacityOf(p, l, j);
    if j <= i {
      assert l'.blocks[j] == x;
      CapacityOf(p, l', j);
    } else {
      assert l'.blocks[j + 1] == x && l'.blocks[j + 2] == l.blocks[j + 1];
      CapacityOf(p, l', j + 1);
    }
  }

  /** Allocating leaves every live block as large as it was, and the new one is at least
      as large as asked and at most a header and a pair of links larger. */
  lemma AllocCapacity(p: int, l: Layout, n: int, x: int)
    requires WF(p, l) && n >= p && (IsLive(l, x) || Alloc(p, l, n).1 == Some(x))
    ensures WF(p, Alloc(p, l, n).0) && IsLive(Alloc(p, l, n).0, x)
    ensures var c := CapacityAt(p, Alloc(p, l, n).0, x);
            if Alloc(p, l, n).1 == Some(x) then n <= c <= n + 2 * p else c == CapacityAt(p, l, x)
  {
    AllocWF(p, l, n);
    FirstFitComplete(p, l, n, 0);
    var k := FirstFit(p, l, n, 0);
    if k < |l.free| {
      assert l.free[k] in l.free;
      if CapacityAt(p, l, l.free[k]) > n + 2 * p {
        SplitCapacity(p, l, n, k, x);
      }
    }
  }

  /** Freeing a block leaves every other live block as large as it was. */
  lemma FreeCapacity(p: int, l: Layout, a: int, x: int)
    requires WF(p, l) && IsLive(l, a) && IsLive(l, x) && x != a
    ensures WF(p, Free(p, l, a)) && IsLive(Free(p, l, a), x)
    ensures CapacityAt(p, Free(p, l, a), x) == CapacityAt(p, l, x)
  {
    FreeWF(p, l, a);
    var i := BlockIndex(p, l, a);
    var j := BlockIndex(p, Free(p, l, a), x);
    FreeShape(p, l, i, j);
    FreeShape(p, l, i, j + 1);
    FreeNextHeader(p, l, i, j);
    CapacityOf(p, Free(p, l, a), j);
    CapacityOf(p, l, Origin(l, i, j));
  }

  /** A block that stays live keeps the header behind it. */
  lemma FreeNextHeader(p: int, l: Layout, i: int, j: int)
    requires WF(p, l) && 0 <= i && i + 1 < |l.blocks| && IsLive(l, l.blocks[i])
    requires 0 <= j && 0 <= Origin(l, i, j) < |l.blocks| && !IsFree(l, Origin(l, i, j)) && Origin(l, i, j) != i
    ensures Origin(l, i, j + 1) == Origin(l, i, j) + 1
  {
  }

  // ---- the order of the free list ----

  /** The place of a freed block in the free list. The blocks that are free before and after keep
      their order, so a predecessor that absorbs the block keeps its place. If the successor alone
      is free, the block takes its place; if neither neighbour is, the block comes first. */
  lemma FreeOrder(p: int, l: Layout, a: int)
    requires WF(p, l) && IsLive(l, a)
    ensures var i, l' := IndexOf(l.blocks, a), Free(p, l, a);
            && i + 1 < |l.blocks|
            && (forall x, y :: SameOrder(l.free, l'.free, x, y))
            && (IsFree(l, i - 1) ==> l.blocks[i - 1] in l'.free && a !in l'.free)
            && (!IsFree(l, i - 1) && IsFree(l, i + 1) ==>
                  a in l'.free && IndexOf(l'.free, a) == IndexOf(l.free, l.blocks[i + 1])
                  && forall y | y in l.free && y in l'.free :: IndexOf(l'.free, y) == IndexOf(l.free, y))
            && (!IsFree(l, i - 1) && !IsFree(l, i + 1) ==> l'.free != [] && l'.free[0] == a)
  {
    var i: int := FreeMembers(p, l, a);
    if i > 0 { Ordered(p, l.blocks, i - 1, i + 1); }
    var b := l.blocks[i + 1];
    hide Tiling, Separated, Distinct;
    if IsFree(l, i + 1) && IsFree(l, i - 1) {
      forall x, y ensures SameOrder(l.free, Free(p, l, a).free, x, y) { WithoutOrder(l.free, FreePos(l, b), x, y); }
    } else if IsFree(l, i + 1) {
      TakesPlace(p, l, a, i);
    } else if !IsFree(l, i - 1) {
      forall x, y ensures SameOrder(l.free, Free(p, l, a).free, x, y) { PushedOrder(l.free, a, x, y); }
    }
  }

  lemma PushedOrder(s: seq<int>, a: int, x: int, y: int)
    requires Distinct(s) && a !in s
    ensures SameOrder(s, [a] + s, x, y)
  {
    if x in s && y in s {
      PushedIndex(s, a, x);
      PushedIndex(s, a, y);
    }
  }

  /** A block that is freed in front of a free one takes its place exactly. */
  lemma TakesPlace(p: int, l: Layout, a: int, i: int)
    requires WF(p, l) && IsLive(l, a) && 0 <= i && i + 1 < |l.blocks| && i == IndexOf(l.blocks, a)
    requires !IsFree(l, i - 1) && IsFree(l, i + 1)
    ensures var f, f' := l.free, Free(p, l, a).free;
            && (forall x, y :: SameOrder(f, f', x, y))
            && a in f' && IndexOf(f', a) == IndexOf(f, l.blocks[i + 1])
            && forall y | y in f && y in f' :: IndexOf(f', y) == IndexOf(f, y)
  {
    var f, f', k := l.free, Free(p, l, a).free, FreePos(l, l.blocks[i + 1]);
    assert f' == f[k := a] && a !in f;
    ReplacedMembers(f, k, a);
    hide WF, Free, Distinct;
    forall y | y in f' ensures if y == a then IndexOf(f', y) == k else y in f && IndexOf(f', y) == IndexOf(f, y) {
      ReplacedIndex(f, k, a, y);
    }
  }

  // ---- an allocation undone ----

  /** Freeing what was just allocated restores the physical layout; after a split it also
      restores the free list, after a whole-block grant the block moves to its front. */
  lemma AllocThenFree(p: int, l: Layout, n: int)
    requires WF(p, l) && n >= p && Alloc(p, l, n).1.Some?
    ensures var (l1, r) := Alloc(p, l, n);
            && WF(p, l1) && IsLive(l1, r.value)
            && r.value in l.free
            && var l2 := Free(p, l1, r.value);
            && l2.blocks == l.blocks
            && l2.free == (if CapacityAt(p, l, r.value) > n + 2 * p then l.free
                           else [r.value] + Without(l.free, FirstFit(p, l, n, 0)))
  {
    AllocWF(p, l, n);
    var k := FirstFit(p, l, n, 0);
    var a := l.free[k];
    assert a in l.free;
    if CapacityAt(p, l, a) > n + 2 * p {
      SplitThenFree(p, l, n, k);
    } else {
      GrantThenFree(p, l, k);
    }
  }

  lemma GrantThenFree(p: int, l: Layout, k: nat)
    requires WF(p, l) && k < |l.free|
    ensures WF(p, Grant(l, k)) && IsLive(Grant(l, k), l.free[k])
    ensures Free(p, Grant(l, k), l.free[k]) == Layout(l.blocks, [l.free[k]] + Without(l.free, k))
  {
    GrantWF(p, l, k);
    WithoutMembers(l.free, k);
    assert l.free[k] in l.free;
    var i: int := BlockIndex(p, l, l.free[k]);
    assert Separated(l, i) && (i > 0 ==> Separated(l, i - 1));
  }

  lemma SplitThenFree(p: int, l: Layout, n: int, k: nat)
    requires WF(p, l) && k < |l.free| && n >= p && CapacityAt(p, l, l.free[k]) > n + 2 * p
    ensures WF(p, Split(p, l, n, k)) && IsLive(Split(p, l, n, k), l.free[k])
    ensures Free(p, Split(p, l, n, k), l.free[k]) == l
  {
    var a, t, l1 := l.free[k], l.free[k] + n + p, Split(p, l, n, k);
    assert a in l.free;
    SplitWF(p, l, n, k);
    SplitMembers(p, l, n, k);
    var i: int := SplitShape(p, l, n, k);
    assert l1.blocks[i] == a && l1.blocks[i + 1] == t && l1.free[k] == t;
    IndexUnique(p, l1.blocks, i);
    assert i > 0 ==> Separated(l, i - 1) && l1.blocks[i - 1] == l.blocks[i - 1];
    if i > 0 { Ordered(p, l1.blocks, i - 1, i + 1); }
    assert !IsFree(l1, i - 1) && IsFree(l1, i + 1);
    assert FreePos(l1, t) == k;
    assert Without(l1.blocks, i + 1) == l.blocks;
    assert l1.free[k := a] == l.free;
  }

  // ---- alignment ----

  predicate Multiple(k: nat, a: int) {
    a >= 0 && Aligned(k, a)
  }

  lemma MultipleSum(k: nat, a: int, b: int)
    requires Multiple(k, a) && Multiple(k, b)
    ensures Multiple(k, a + b)
  {
    AlignedSum(k, a, b);
  }

  /** Every header but the sentinel is a multiple of the header size 2^k, whatever the size of the
      region. */
  ghost predicate OnGrid(k: nat, l: Layout) {
    |l.blocks| > 0 && forall a | a in l.blocks && a != Sentinel(l) :: Multiple(k, a)
  }

  /** Cutting a multiple of 2^k bytes off a block puts the new header on the grid too. */
  lemma SplitOnGrid(k: nat, l: Layout, n: nat, j: nat)
    requires WF(Pow2(k), l) && OnGrid(k, l) && j < |l.free| && Multiple(k, n) && n >= Pow2(k)
    requires CapacityAt(Pow2(k), l, l.free[j]) > n + 2 * Pow2(k)
    ensures OnGrid(k, Split(Pow2(k), l, n, j))
  {
    var p, a := Pow2(k), l.free[j];
    assert a in l.free && Multiple(k, p) by { AlignedPow2(k); }
    hide Distinct, Separated, Pow2, Split, Multiple;
    SplitMembers(p, l, n, j);
    MultipleSum(k, a, n);
    MultipleSum(k, a + n, p);
  }

  lemma AllocOnGrid(k: nat, l: Layout, n: nat)
    requires WF(Pow2(k), l) && OnGrid(k, l) && Multiple(k, n) && n >= Pow2(k)
    ensures OnGrid(k, Alloc(Pow2(k), l, n).0)
  {
    hide OnGrid, Tiling;
    var p := Pow2(k);
    var j := FirstFit(p, l, n, 0);
    if j < |l.free| {
      assert l.free[j] in l.free;
      if CapacityAt(p, l, l.free[j]) > n + 2 * p { SplitOnGrid(k, l, n, j); } else { SameGrid(k, l, Grant(l, j)); }
    }
  }

  lemma SameGrid(k: nat, l: Layout, l': Layout)
    requires OnGrid(k, l) && l'.blocks == l.blocks
    ensures OnGrid(k, l')
  {
  }

  lemma FreeOnGrid(k: nat, l: Layout, a: int)
    requires WF(Pow2(k), l) && OnGrid(k, l) && IsLive(l, a)
    ensures OnGrid(k, Free(Pow2(k), l, a))
  {
    hide Multiple, Free;
    var i := FreeMembers(Pow2(k), l, a);
  }

  // ---- runs ----

  /** A client's request: `size` bytes, or the release of a header handed out before. */
  datatype Request = Want(size: nat) | Release(a: int)

  /** A layout together with the size each live block was asked for. */
  datatype Session = Session(l: Layout, asked: map<int, nat>)

  /** The source's rounding: the next multiple of a header of 2^k bytes. */
  function Rounded(k: nat, size: nat): (n: nat)
    requires k <= 30 && size < INT32_MAX
  {
    Pow2Monotone(k, 30); AlignUp(32, size, Pow2(k))
  }

  lemma RoundedBounds(k: nat, size: nat)
    requires k <= 30 && size < INT32_MAX
    ensures Aligned(k, Rounded(k, size)) && size <= Rounded(k, size) < size + Pow2(k)
    ensures size > 0 ==> Rounded(k, size) >= Pow2(k)
    ensures Rounded(k, size) <= INT32_MAX + 1
    ensures Rounded(k, size) <= INT32_MAX <==> size <= INT32_MAX + 1 - Pow2(k)
  {
    Pow2Monotone(k, 30);
    Pow2Values();
    AlignUpRounds(32, size, k);
    var r := Rounded(k, size);
    if size > 0 { AlignedAtLeast(k, r); }
    RoundedLimit(k, size, r);
  }

  /** Rounding stays below 2^31 exactly up to one step below it. */
  lemma RoundedLimit(k: nat, size: nat, r: nat)
    requires k <= 30 && Aligned(k, r) && size <= r < size + Pow2(k) && size <= INT32_MAX
    ensures r <= INT32_MAX + 1
    ensures r <= INT32_MAX <==> size <= INT32_MAX + 1 - Pow2(k)
  {
    Pow2Values();
    Pow2Monotone(k, 30);
    AlignedPow2(31);
    AlignedCoarser(k, 31, Pow2(31));
    AlignedPow2(k);
    AlignedLeast(k, size, r, Pow2(31));
    AlignedSum(k, Pow2(31), Pow2(k));
    if size <= Pow2(31) - Pow2(k) { AlignedLeast(k, size, r, Pow2(31) - Pow2(k)); }
    AlignedSum(k, Pow2(31), r);
    if r < Pow2(31) { AlignedAtLeast(k, Pow2(31) - r); }
  }

  lemma {:induction false} AlignedCoarser(k: nat, m: nat, x: nat)
    requires k <= m && Aligned(m, x)
    ensures Aligned(k, x)
  {
    if k > 0 { AlignedCoarser(k - 1, m - 1, x / 2); }
  }

  /** The requests `heap_alloc` and `heap_free` serve as documented: exactly those for which
      `CastIsExact` finds the casts harmless. */
  ghost predicate Allowed(k: nat, s: Session, r: Request)
    requires k <= 30
  {
    match r
    case Want(size) => 0 < size < INT32_MAX && (size <= INT32_MAX + 1 - Pow2(k) || s.l.free == [])
    case Release(a) => IsLive(s.l, a)
  }

  ghost function Step(k: nat, s: Session, r: Request): Session
    requires k <= 30 && WF(Pow2(k), s.l) && Allowed(k, s, r)
  {
    match r
    case Want(size) =>
      var (l', g) := Alloc(Pow2(k), s.l, Rounded(k, size));
      if g.Some? then Session(l', s.asked[g.value := size]) else Session(l', s.asked)
    case Release(a) =>
      Session(Free(Pow2(k), s.l, a), s.asked - {a})
  }

  /** Between calls: the layout is well formed, the live blocks are exactly those handed
      out and not yet released, and each still holds what it was asked for. */
  ghost predicate SessionInv(k: nat, s: Session)
    requires k <= 30
  {
    var p := Pow2(k);
    && WF(p, s.l) && OnGrid(k, s.l)
    && (forall a :: IsLive(s.l, a) <==> a in s.asked)
    && forall a | a in s.asked ::
         && s.asked[a] < INT32_MAX
         && s.asked[a] <= Rounded(k, s.asked[a]) <= CapacityAt(p, s.l, a) <= Rounded(k, s.asked[a]) + 2 * p
  }

  lemma WantKeeps(k: nat, s: Session, size: nat)
    requires k <= 30 && SessionInv(k, s) && Allowed(k, s, Want(size))
    ensures SessionInv(k, Step(k, s, Want(size))) && Sentinel(Step(k, s, Want(size)).l) == Sentinel(s.l)
  {
    var p, n := Pow2(k), Rounded(k, size);
    RoundedBounds(k, size);
    AllocWF(p, s.l, n);
    AllocOnGrid(k, s.l, n);
    var s' := Step(k, s, Want(size));
    forall a | a in s'.asked ensures
        && s'.asked[a] < INT32_MAX
        && s'.asked[a] <= Rounded(k, s'.asked[a]) <= CapacityAt(p, s'.l, a) <= Rounded(k, s'.asked[a]) + 2 * p
    {
      AllocCapacity(p, s.l, n, a);
    }
  }

  lemma ReleaseKeeps(k: nat, s: Session, a: int)
    requires k <= 30 && SessionInv(k, s) && Allowed(k, s, Release(a))
    ensures SessionInv(k, Step(k, s, Release(a))) && Sentinel(Step(k, s, Release(a)).l) == Sentinel(s.l)
  {
    FreeWF(Pow2(k), s.l, a);
    FreeOnGrid(k, s.l, a);
    forall x | x in s.asked && x != a
      ensures CapacityAt(Pow2(k), Step(k, s, Release(a)).l, x) == CapacityAt(Pow2(k), s.l, x)
    {
      FreeCapacity(Pow2(k), s.l, a, x);
    }
  }

  /** Runs can always go on: any size up to 2^31 less a header may be asked for, any block handed out
      may be released, and an allocation succeeds exactly if a free block is large enough. */
  lemma RequestsServed(k: nat, s: Session, size: nat, a: int)
    requires k <= 30 && SessionInv(k, s)
    requires 0 < size <= INT32_MAX + 1 - Pow2(k) && size < INT32_MAX && a in s.asked
    ensures Allowed(k, s, Want(size)) && Allowed(k, s, Release(a))
    ensures Step(k, s, Release(a)).asked == s.asked - {a}
    ensures var s' := Step(k, s, Want(size));
            if forall x | x in s.l.free :: CapacityAt(Pow2(k), s.l, x) < Rounded(k, size) then s' == s
            else exists x :: x !in s.asked && s'.asked == s.asked[x := size]
  {
    assert IsLive(s.l, a);
    RoundedBounds(k, size);
    AllocComplete(Pow2(k), s.l, Rounded(k, size));
    AllocWF(Pow2(k), s.l, Rounded(k, size));
    var g := Alloc(Pow2(k), s.l, Rounded(k, size)).1;
    if g.Some? { assert g.value !in s.asked && Step(k, s, Want(size)).asked == s.asked[g.value := size]; }
  }

  /** Every request of the run is allowed when its turn comes. */
  ghost predicate Runs(k: nat, s: Session, rs: seq<Request>)
    requires k <= 30
    decreases |rs|
  {
    WF(Pow2(k), s.l) && (|rs| > 0 ==> Allowed(k, s, rs[0]) && Runs(k, Step(k, s, rs[0]), rs[1..]))
  }

  ghost function Run(k: nat, s: Session, rs: seq<Request>): Session
    requires k <= 30 && Runs(k, s, rs)
    decreases |rs|
  {
    if |rs| == 0 then s else Run(k, Step(k, s, rs[0]), rs[1..])
  }

  lemma {:induction false} RunKeeps(k: nat, s: Session, rs: seq<Request>)
    requires k <= 30 && SessionInv(k, s) && Runs(k, s, rs)
    ensures SessionInv(k, Run(k, s, rs)) && Sentinel(Run(k, s, rs).l) == Sentinel(s.l)
    decreases |rs|
  {
    if |rs| > 0 {
      match rs[0] {
        case Want(size) => WantKeeps(k, s, size);
        case Release(a) => ReleaseKeeps(k, s, a);
      }
      RunKeeps(k, Step(k, s, rs[0]), rs[1..]);
    }
  }

  lemma InitInv(k: nat, size: int)
    requires k <= 30 && size > 4 * Pow2(k)
    ensures SessionInv(k, Session(InitLayout(size, Pow2(k)), map[]))
    ensures Sentinel(InitLayout(size, Pow2(k))) == size - 2 * Pow2(k)
  {
    var p, l := Pow2(k), InitLayout(size, Pow2(k));
    assert Gap(p, l.blocks, 0);
    assert l.free[0] == 0 && l.blocks[0] == 0;
    assert forall a :: !IsLive(l, a);
    AlignedPow2(k);
  }

  /** What is handed out is a multiple of the header size. */
  lemma PayloadAligned(k: nat, s: Session, a: int)
    requires k <= 30 && SessionInv(k, s) && a in s.asked
    ensures Multiple(k, a + Pow2(k))
  {
    assert Multiple(k, Pow2(k)) by { AlignedPow2(k); }
    hide WF, Pow2, Multiple;
    assert IsLive(s.l, a);
    MultipleSum(k, a, Pow2(k));
  }

  /** What the client's invariant says about the whole region. */
  lemma Outstanding(k: nat, size: int, s: Session)
    requires k <= 30 && SessionInv(k, s) && Sentinel(s.l) == size - 2 * Pow2(k)
    ensures |s.l.blocks| > 0 && Bytes(Pow2(k), s.l, |s.l.blocks| - 1) == size - 2 * Pow2(k)
    ensures forall a | a in s.asked :: Multiple(k, a + Pow2(k))
    ensures s.asked == map[] <==> s.l == InitLayout(size, Pow2(k))
  {
    hide Tiling, Separated, Multiple, InitLayout, Rounded, IsLive, Pow2;
    BytesConserved(Pow2(k), s.l, |s.l.blocks| - 1);
    FullCoalescing(Pow2(k), s.l);
    forall a | a in s.asked ensures Multiple(k, a + Pow2(k)) { PayloadAligned(k, s, a); }
    NoKeys(s.asked);
  }

  lemma NoKeys(m: map<int, nat>)
    ensures m == map[] <==> forall a :: a !in m
  {
    assert m == map[] <==> m.Keys == {};
    assert (forall a :: a !in m.Keys) ==> m.Keys == {};
  }

  /** The main run theorem. After any run from initialisation the heap is well formed, its
      bytes are conserved, each block handed out and not released still has at least the
      bytes asked for and is aligned to the header size, and releasing everything yields the
      initial single free block. */
  lemma HeapRun(k: nat, size: int, rs: seq<Request>)
    requires k <= 30 && size > 4 * Pow2(k)
    requires Runs(k, Session(InitLayout(size, Pow2(k)), map[]), rs)
    ensures var p, s := Pow2(k), Run(k, Session(InitLayout(size, Pow2(k)), map[]), rs);
            && SessionInv(k, s)
            && |s.l.blocks| > 0 && Bytes(p, s.l, |s.l.blocks| - 1) == size - 2 * p
            && (forall a | a in s.asked :: Multiple(k, a + p))
            && (s.asked == map[] <==> s.l == InitLayout(size, p))
  {
    hide SessionInv, Run, Runs, InitLayout, Multiple, Sentinel;
    InitInv(k, size);
    RunKeeps(k, Session(InitLayout(size, Pow2(k)), map[]), rs);
    Outstanding(k, size, Run(k, Session(InitLayout(size, Pow2(k)), map[]), rs));
  }

  // ---- the signed casts ----

  /** Conversion of an unsigned size to `int32_t`. */
  function ToInt32(x: nat): int {
    var m := x % 0x1_0000_0000;
    if m <= INT32_MAX then m else m - 0x1_0000_0000
  }

  /** The search as written: sizes are compared with the rounded request cast to `int32_t`. */
  ghost function CastFit(p: int, l: Layout, n: nat, k: nat): (r: nat)
    requires WF(p, l) && k <= |l.free|
    ensures k <= r <= |l.free|
    decreases |l.free| - k
  {
    if k == |l.free| || CapacityAt(p, l, l.free[k]) >= ToInt32(n) then k
    else CastFit(p, l, n, k + 1)
  }

  /** `heap_alloc` as written, with both of its casts. */
  ghost function CastAlloc(p: int, l: Layout, n: nat): (Layout, Option<int>)
    requires WF(p, l)
  {
    var k := CastFit(p, l, n, 0);
    if k == |l.free| then (l, None)
    else if CapacityAt(p, l, l.free[k]) > ToInt32(n + 2 * p) then (Split(p, l, n, k), Some(l.free[k]))
    else (Grant(l, k), Some(l.free[k]))
  }

  lemma {:induction false} CastFitExact(p: int, l: Layout, n: nat, k: nat)
    requires WF(p, l) && k <= |l.free| && n <= INT32_MAX
    ensures CastFit(p, l, n, k) == FirstFit(p, l, n, k)
    decreases |l.free| - k
  {
    if k < |l.free| && CapacityAt(p, l, l.free[k]) < n { CastFitExact(p, l, n, k + 1); }
  }

  /** In a region below 2^31 bytes a free block leaves room for its header and the sentinel. */
  lemma FreeCapacityBound(p: int, l: Layout, a: int)
    requires WF(p, l) && a in l.free
    ensures 0 <= a && a + p + CapacityAt(p, l, a) <= Sentinel(l) && CapacityAt(p, l, a) >= p
  {
    var i := BlockIndex(p, l, a);
    CapacityOf(p, l, i);
    if i > 0 { Ordered(p, l.blocks, 0, i); }
    if i + 1 < |l.blocks| - 1 { Ordered(p, l.blocks, i + 1, |l.blocks| - 1); }
  }

  /** Above the limit every free block passes both comparisons though none is large enough, and
      the header that the split writes next lies outside the region. */
  lemma OversizePasses(k: nat, l: Layout, size: nat, a: int)
    requires k <= 30 && WF(Pow2(k), l) && Sentinel(l) + 2 * Pow2(k) < INT32_MAX
    requires INT32_MAX + 1 - Pow2(k) < size < INT32_MAX && a in l.free
    ensures var p, n := Pow2(k), Rounded(k, size);
            && ToInt32(n) <= CapacityAt(p, l, a) < size
            && ToInt32(n + 2 * p) < CapacityAt(p, l, a)
            && a + n + p >= Sentinel(l) + 2 * p
  {
    RoundedBounds(k, size);
    FreeCapacityBound(Pow2(k), l, a);
  }

  lemma CastAllocExact(p: int, l: Layout, n: nat)
    requires WF(p, l) && Sentinel(l) + 2 * p < INT32_MAX && n <= INT32_MAX
    ensures CastAlloc(p, l, n) == Alloc(p, l, n)
  {
    hide Split, Grant, Separated;
    CastFitExact(p, l, n, 0);
    FirstFitComplete(p, l, n, 0);
    var r := FirstFit(p, l, n, 0);
    if r < |l.free| {
      assert l.free[r] in l.free;
      FreeCapacityBound(p, l, l.free[r]);
    }
  }

  /** The casts are harmless if and only if the request is at most 2^31 less a header or nothing is
      free: then `heap_alloc` as written is first-fit allocation, and otherwise it is not. */
  lemma CastIsExact(k: nat, l: Layout, size: nat)
    requires k <= 30 && WF(Pow2(k), l) && Sentinel(l) + 2 * Pow2(k) < INT32_MAX && 0 < size < INT32_MAX
    ensures CastAlloc(Pow2(k), l, Rounded(k, size)) == Alloc(Pow2(k), l, Rounded(k, size))
       <==> size <= INT32_MAX + 1 - Pow2(k) || l.free == []
    ensures CastFit(Pow2(k), l, Rounded(k, size), 0) == FirstFit(Pow2(k), l, Rounded(k, size), 0)
       <==> size <= INT32_MAX + 1 - Pow2(k) || l.free == []
  {
    hide WF, Split, Grant, CapacityAt, Rounded;
    var p, n := Pow2(k), Rounded(k, size);
    RoundedBounds(k, size);
    if n <= INT32_MAX {
      CastFitExact(p, l, n, 0);
      CastAllocExact(p, l, n);
    } else if l.free != [] {
      assert l.free[0] in l.free;
      OversizePasses(k, l, size, l.free[0]);
      NothingFits(k, l, size, n);
    }
  }

  lemma NothingFits(k: nat, l: Layout, size: nat, n: nat)
    requires k <= 30 && WF(Pow2(k), l) && Sentinel(l) + 2 * Pow2(k) < INT32_MAX && n > INT32_MAX
    ensures FirstFit(Pow2(k), l, n, 0) == |l.free|
  {
    var r := FirstFit(Pow2(k), l, n, 0);
    FirstFitComplete(Pow2(k), l, n, 0);
    if r < |l.free| { FreeCapacityBound(Pow2(k), l, l.free[r]); }
  }

  /** A request the cast spoils: the largest one, with 16-byte headers. */
  lemma CastSpoilsLargest()
    ensures ToInt32(Rounded(4, INT32_MAX - 1)) == -0x8000_0000
  {
    RoundedBounds(4, INT32_MAX - 1);
  }
}
