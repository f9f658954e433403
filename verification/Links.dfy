/** The list operations on a shared memory of link fields, changed in place. Each says
    which ring results and that no other node's links are touched. */
module Links {
  import opened DList

  /** `struct ndlist` nodes at the indices of two arrays. */
  class LinkMemory {
    const next: array<int>
    const prev: array<int>

    ghost predicate Valid() {
      next != prev && next.Length == prev.Length
    }

    ghost predicate IsRing(r: seq<int>)
      reads next, prev
    {
      Valid() && Ring(next[..], prev[..], 0, r)
    }

    /** `size` nodes, each linked to itself: `ndlist_init` on all of them. */
    constructor (size: nat)
      ensures Valid() && fresh(next) && fresh(prev) && next.Length == size
      ensures forall a | 0 <= a < size :: next[a] == a && prev[a] == a
    {
      next := new int[size](i => i);
      prev := new int[size](i => i);
    }

    /** `ndlist_add_before`: `node` goes in front of position `k` of ring `r`. */
    method AddBefore(current: int, node: int, ghost r: seq<int>, ghost k: nat)
      requires IsRing(r) && 0 < k <= |r| && current == After(r, k - 1)
      requires node !in r && 0 <= node < next.Length
      modifies next, prev
      ensures IsRing(WithAt(r, k, node))
      ensures forall a | 0 <= a < next.Length && a !in r && a != node ::
                next[a] == old(next[a]) && prev[a] == old(prev[a])
    {
      RingInsert(next[..], prev[..], 0, r, k, node);
      assert After(r, k - 1) in r && r[k - 1] in r;
      ghost var u0, u1 := next[..], prev[..];
      next[node] := current;
      prev[node] := prev[current];
      next[prev[current]] := node;
      prev[current] := node;
      assert next[..] == u0[node := current][r[k - 1] := node];
      assert prev[..] == u1[node := r[k - 1]][current := node];
    }

    /** `ndlist_remove`: the node at position `k` leaves ring `r` and points to itself. */
    method Remove(node: int, ghost r: seq<int>, ghost k: nat)
      requires IsRing(r) && 0 < k < |r| && node == r[k]
      modifies next, prev
      ensures IsRing(Without(r, k)) && next[node] == node
      ensures forall a | 0 <= a < next.Length && a !in r :: next[a] == old(next[a]) && prev[a] == old(prev[a])
    {
      Neighbours(next[..], prev[..], 0, r, k);
      RingRemove(next[..], prev[..], 0, r, k);
      WithoutMembers(r, k);
      ghost var u0, u1 := next[..], prev[..];
      ghost var n, p := After(r, k), r[k - 1];
      assert n in r && p in r && n != node && p != node by { assert node in r; }
      prev[next[node]] := prev[node];
      next[prev[node]] := next[node];
      ghost var v0, v1 := next[..], prev[..];
      assert v0 == u0[p := n] && v1 == u1[n := p];
      next[node] := node;
      assert next[..] == v0[node := node];
      forall a | a in Without(r, k) ensures SameLinks(v0, v1, next[..], prev[..], 0, a) {
        assert a in r;
      }
      RingFrame(v0, v1, next[..], prev[..], 0, Without(r, k));
    }
  }
}
