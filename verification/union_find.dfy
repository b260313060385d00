/** The capacity-bounded union-find shared by all three sketches: parent,
    rank and size arrays updated in place, recursive `find` with path
    compression, union by rank, and a merge refused once the combined region
    would exceed `maxSize` (MAX_REGION_SIZE). */
module Clustering {
  import opened Forest

  class UnionFind {
    const n: nat
    const maxSize: nat
    const parent: array<int>
    const rank: array<int>
    const size: array<int>

    /** the forest is shaped, and every root's `size` is the number of
        cells in its region, which never exceeds the cap */
    ghost predicate Valid()
      reads this, parent, rank, size
    {
      && parent.Length == n && rank.Length == n && size.Length == n
      && parent != rank && parent != size && rank != size
      && Sized(parent[..], rank[..], size[..], maxSize)
    }

    ghost function Root(x: int): (r: int)
      reads this, parent, rank, size
      requires Valid() && 0 <= x < n
      ensures 0 <= r < n && parent[r] == r
    {
      Forest.Root(parent[..], rank[..], x)
    }

    /** the root of every node, in node order */
    ghost function Roots(): (rs: seq<int>)
      reads this, parent, rank, size
      requires Valid()
      ensures |rs| == n && forall i :: 0 <= i < n ==> rs[i] == Root(i)
      ensures forall i :: 0 <= i < n ==> 0 <= rs[i] < n && rs[rs[i]] == rs[i]
    {
      State().roots
    }

    /** the clusters the arrays show: every node's root, rank and size */
    ghost function State(): (c: Clusters)
      reads this, parent, rank, size
      requires Valid()
      ensures Labelled(c) && |c.roots| == n
    {
      Observe(parent[..], rank[..], size[..])
    }

    ghost function Region(r: int): set<int>
      reads this, parent, rank, size
      requires Valid()
    {
      Members(parent[..], rank[..], r)
    }

    /** every cell starts as its own region of size 1 and rank 0 */
    constructor (count: nat, maxRegionSize: nat)
      requires maxRegionSize >= 1
      ensures Valid() && n == count && maxSize == maxRegionSize
      ensures fresh(parent) && fresh(rank) && fresh(size)
      ensures forall i :: 0 <= i < n ==> parent[i] == i && rank[i] == 0 && size[i] == 1
      ensures forall i :: 0 <= i < n ==> Root(i) == i && Region(i) == {i}
      ensures State() == Fresh(n)
    {
      n, maxSize := count, maxRegionSize;
      parent := new int[count](i => i);
      rank := new int[count](_ => 0);
      size := new int[count](_ => 1);
      new;
      forall r | 0 <= r < count
        ensures Members(parent[..], rank[..], r) == {r}
      {
        Singletons(parent[..], rank[..], r);
      }
      assert State().roots == Fresh(n).roots;
    }

    /** find(x): the root of `x`, with `x` repointed straight at it; no
        node's root moves and rank and size are untouched */
    method Find(x: int) returns (r: int)
      requires Valid() && 0 <= x < n
      modifies parent
      ensures Valid()
      ensures r == old(Root(x)) && parent[r] == r && parent[x] == r
      ensures forall i :: 0 <= i < n ==> Root(i) == old(Root(i))
      ensures forall i :: 0 <= i < n ==> Region(i) == old(Region(i))
      ensures rank[..] == old(rank[..]) && size[..] == old(size[..])
      ensures SameRoots(old(parent[..]), rank[..], parent[..], rank[..])
      decreases Above(rank[..], x)
    {
      ghost var p0, k0 := parent[..], rank[..];
      if parent[x] != x {
        AboveShrinks(k0, x, parent[x]);
        var root := Find(parent[x]);
        ghost var p1 := parent[..];
        assert root == Forest.Root(p1, k0, x) == Forest.Root(p0, k0, x);
        CompressSized(p1, k0, size[..], maxSize, x);
        parent[x] := root;
        assert parent[..] == p1[x := root];
        assert SameRoots(p0, k0, parent[..], k0) by {
          forall i | 0 <= i < n ensures Forest.Root(parent[..], k0, i) == Forest.Root(p0, k0, i) {
            assert Forest.Root(parent[..], k0, i) == Forest.Root(p1, k0, i);
          }
        }
      }
      r := parent[x];
      forall r ensures Members(parent[..], k0, r) == Members(p0, k0, r) {
        SameRootsSameMembers(p0, k0, parent[..], k0, r);
      }
    }

    /** getSize(x): the number of cells in the region of `x` */
    method GetSize(x: int) returns (s: int)
      requires Valid() && 0 <= x < n
      modifies parent
      ensures Valid()
      ensures s == |old(Region(Root(x)))| && 1 <= s <= maxSize
      ensures forall i :: 0 <= i < n ==> Root(i) == old(Root(i))
    {
      var r := Find(x);
      RootIsMember(parent[..], rank[..], r);
      s := size[r];
    }

    /** union(x, y): merges the regions of `x` and `y` unless they are
        already one region or the merged region would exceed `maxSize`. */
    method Union(x: int, y: int) returns (merged: bool)
      requires Valid() && 0 <= x < n && 0 <= y < n
      modifies parent, rank, size
      ensures Valid()
      ensures merged <==>
        old(Root(x)) != old(Root(y)) && old(size[Root(x)] + size[Root(y)]) <= maxSize
      ensures !merged ==>
        && rank[..] == old(rank[..]) && size[..] == old(size[..])
        && forall i :: 0 <= i < n ==> Root(i) == old(Root(i))
      ensures merged ==>
        UnionedByRank(old(parent[..]), old(rank[..]), old(size[..]), parent[..], rank[..], size[..],
                      old(Root(x)), old(Root(y)))
      ensures State() == UnionStep(old(State()), maxSize, x, y)
    {
      ghost var p0 := parent[..];
      var rootX := Find(x);
      var rootY := Find(y);
      ghost var p1, k1, s1 := parent[..], rank[..], size[..];
      assert SameRoots(p0, k1, p1, k1);
      if rootX == rootY {
        RefusedStep(p0, k1, s1, maxSize, p1, x, y);
        return false;
      }
      if size[rootX] + size[rootY] > maxSize {
        RefusedStep(p0, k1, s1, maxSize, p1, x, y);
        return false;
      }
      LinkRoots(rootX, rootY);
      FindsThenLink(p0, k1, s1, maxSize, p1, parent[..], rank[..], size[..], rootX, rootY);
      UnionedStep(p0, k1, s1, maxSize, parent[..], rank[..], size[..], x, y);
      merged := true;
    }

    /** the linking step of union(x, y): the lower-ranked root goes under
        the other, a tie puts `rootY` under `rootX` and raises its rank, and
        the surviving root's size becomes the sum */
    method LinkRoots(rootX: int, rootY: int)
      requires Valid() && 0 <= rootX < n && 0 <= rootY < n && rootX != rootY
      requires parent[rootX] == rootX && parent[rootY] == rootY
      requires size[rootX] + size[rootY] <= maxSize
      modifies parent, rank, size
      ensures Valid()
      ensures LinkedByRank(old(parent[..]), old(rank[..]), old(size[..]),
                           parent[..], rank[..], size[..], rootX, rootY)
      ensures forall i :: 0 <= i < n ==>
        Forest.Root(parent[..], rank[..], i) ==
          var r := Forest.Root(old(parent[..]), old(rank[..]), i);
          if r in {rootX, rootY} then Survivor(old(rank[..]), rootX, rootY) else r
      ensures Members(parent[..], rank[..], Survivor(old(rank[..]), rootX, rootY)) ==
        Members(old(parent[..]), old(rank[..]), rootX) + Members(old(parent[..]), old(rank[..]), rootY)
    {
      ghost var p0, k0, s0 := parent[..], rank[..], size[..];
      if rank[rootX] < rank[rootY] {
        parent[rootX] := rootY;
        size[rootY] := size[rootY] + size[rootX];
      } else if rank[rootX] > rank[rootY] {
        parent[rootY] := rootX;
        size[rootX] := size[rootX] + size[rootY];
      } else {
        parent[rootY] := rootX;
        size[rootX] := size[rootX] + size[rootY];
        rank[rootX] := rank[rootX] + 1;
      }
      assert LinkedByRank(p0, k0, s0, parent[..], rank[..], size[..], rootX, rootY);
      LinkByRankSized(p0, k0, s0, maxSize, parent[..], rank[..], size[..], rootX, rootY);
    }
  }
}
