/** The value-level theory of the union-find forest: a `parent` array in
    which every link climbs to a node of strictly higher `rank`. The class in
    union_find.dfy keeps its arrays in this shape; the lemmas here say what
    path compression and linking two roots do to the root of every node. */
module Forest {

  /** parent links stay in range and climb strictly in rank */
  ghost predicate Shaped(parent: seq<int>, rank: seq<int>) {
    && |rank| == |parent|
    && (forall i :: 0 <= i < |parent| ==> 0 <= parent[i] < |parent|)
    && (forall i :: 0 <= i < |parent| && parent[i] != i ==> rank[i] < rank[parent[i]])
  }

  ghost predicate IsRoot(parent: seq<int>, r: int) {
    0 <= r < |parent| && parent[r] == r
  }

  /** the nodes ranked above `x`; it shrinks strictly along every parent link */
  ghost function Above(rank: seq<int>, x: int): set<int>
    requires 0 <= x < |rank|
  {
    set j | 0 <= j < |rank| && rank[j] > rank[x]
  }

  lemma AboveShrinks(rank: seq<int>, x: int, y: int)
    requires 0 <= x < |rank| && 0 <= y < |rank| && rank[x] < rank[y]
    ensures Above(rank, y) < Above(rank, x)
  {
    assert y in Above(rank, x) && y !in Above(rank, y);
  }

  /** the root that following parent links from `x` reaches */
  ghost function Root(parent: seq<int>, rank: seq<int>, x: int): (r: int)
    requires Shaped(parent, rank) && 0 <= x < |parent|
    ensures IsRoot(parent, r)
    ensures r != x ==> rank[x] < rank[r]
    decreases Above(rank, x)
  {
    if parent[x] == x then x
    else
      AboveShrinks(rank, x, parent[x]);
      Root(parent, rank, parent[x])
  }

  /** the members of the region whose root is `r` */
  ghost function Members(parent: seq<int>, rank: seq<int>, r: int): set<int>
    requires Shaped(parent, rank)
  {
    set i | 0 <= i < |parent| && Root(parent, rank, i) == r
  }

  ghost predicate SameRoots(parent: seq<int>, rank: seq<int>, parent': seq<int>, rank': seq<int>)
    requires Shaped(parent, rank) && Shaped(parent', rank')
  {
    |parent'| == |parent| &&
    forall i :: 0 <= i < |parent| ==> Root(parent', rank', i) == Root(parent, rank, i)
  }

  /** forests with the same roots have the same regions */
  lemma SameRootsSameMembers(parent: seq<int>, rank: seq<int>, parent': seq<int>, rank': seq<int>, r: int)
    requires Shaped(parent, rank) && Shaped(parent', rank')
    requires SameRoots(parent, rank, parent', rank')
    ensures Members(parent', rank', r) == Members(parent, rank, r)
  {
  }

  /** a root belongs to its own region */
  lemma RootIsMember(parent: seq<int>, rank: seq<int>, r: int)
    requires Shaped(parent, rank) && IsRoot(parent, r)
    ensures r in Members(parent, rank, r)
  {
  }

  /** Path compression: pointing `x` straight at its root keeps the forest
      shaped and changes no node's root. */
  lemma Compress(parent: seq<int>, rank: seq<int>, x: int)
    requires Shaped(parent, rank) && 0 <= x < |parent|
    ensures Shaped(parent[x := Root(parent, rank, x)], rank)
    ensures SameRoots(parent, rank, parent[x := Root(parent, rank, x)], rank)
  {
    var parent' := parent[x := Root(parent, rank, x)];
    forall i | 0 <= i < |parent|
      ensures Root(parent', rank, i) == Root(parent, rank, i)
    {
      CompressAt(parent, rank, x, i);
    }
  }

  lemma {:induction false} CompressAt(parent: seq<int>, rank: seq<int>, x: int, i: int)
    requires Shaped(parent, rank) && 0 <= x < |parent| && 0 <= i < |parent|
    ensures Shaped(parent[x := Root(parent, rank, x)], rank)
    ensures Root(parent[x := Root(parent, rank, x)], rank, i) == Root(parent, rank, i)
    decreases Above(rank, i)
  {
    var root := Root(parent, rank, x);
    var parent' := parent[x := root];
    if i == x {
      if root != x {
        assert parent'[root] == root;
        assert Root(parent', rank, root) == root;
      }
    } else if parent[i] != i {
      AboveShrinks(rank, i, parent[i]);
      CompressAt(parent, rank, x, parent[i]);
    }
  }

  /** Linking root `l` under root `w`, with `w`'s rank raised to `k`, keeps
      the forest shaped and moves exactly `l`'s region under `w`. */
  lemma Link(parent: seq<int>, rank: seq<int>, l: int, w: int, k: int)
    requires Shaped(parent, rank)
    requires IsRoot(parent, l) && IsRoot(parent, w) && l != w
    requires rank[w] <= k && rank[l] < k
    ensures Shaped(parent[l := w], rank[w := k])
    ensures forall i :: 0 <= i < |parent| ==>
      Root(parent[l := w], rank[w := k], i) ==
        (if Root(parent, rank, i) == l then w else Root(parent, rank, i))
  {
    forall i | 0 <= i < |parent|
      ensures Root(parent[l := w], rank[w := k], i) ==
        (if Root(parent, rank, i) == l then w else Root(parent, rank, i))
    {
      LinkAt(parent, rank, l, w, k, i);
    }
  }

  lemma {:induction false} LinkAt(parent: seq<int>, rank: seq<int>, l: int, w: int, k: int, i: int)
    requires Shaped(parent, rank)
    requires IsRoot(parent, l) && IsRoot(parent, w) && l != w
    requires rank[w] <= k && rank[l] < k
    requires 0 <= i < |parent|
    ensures Shaped(parent[l := w], rank[w := k])
    ensures Root(parent[l := w], rank[w := k], i) ==
      (if Root(parent, rank, i) == l then w else Root(parent, rank, i))
    decreases Above(rank, i)
  {
    var parent', rank' := parent[l := w], rank[w := k];
    forall j | 0 <= j < |parent'| && parent'[j] != j
      ensures rank'[j] < rank'[parent'[j]]
    {
      if j != l {
        assert j != w && rank'[j] == rank[j];
      }
    }
    if i == l {
      assert parent'[w] == w;
      assert Root(parent', rank', w) == w;
    } else if parent[i] != i {
      AboveShrinks(rank, i, parent[i]);
      LinkAt(parent, rank, l, w, k, parent[i]);
    }
  }

  /** Linking `l` under `w` pools their regions and leaves every other
      region as it was. */
  lemma LinkMembers(parent: seq<int>, rank: seq<int>, l: int, w: int, k: int, r: int)
    requires Shaped(parent, rank)
    requires IsRoot(parent, l) && IsRoot(parent, w) && l != w
    requires rank[w] <= k && rank[l] < k
    ensures Shaped(parent[l := w], rank[w := k])
    ensures r == w ==>
      Members(parent[l := w], rank[w := k], r) == Members(parent, rank, w) + Members(parent, rank, l)
    ensures r != w && r != l ==> Members(parent[l := w], rank[w := k], r) == Members(parent, rank, r)
    ensures Members(parent, rank, w) !! Members(parent, rank, l)
  {
    Link(parent, rank, l, w, k);
  }

  /** the identity forest: every node is its own singleton region */
  lemma Singletons(parent: seq<int>, rank: seq<int>, r: int)
    requires Shaped(parent, rank)
    requires forall i :: 0 <= i < |parent| ==> parent[i] == i
    requires 0 <= r < |parent|
    ensures Members(parent, rank, r) == {r}
  {
  }

  /** a shaped forest whose roots record the size of their region, capped */
  ghost predicate Sized(parent: seq<int>, rank: seq<int>, size: seq<int>, cap: int) {
    && Shaped(parent, rank)
    && |size| == |parent|
    && forall r {:trigger IsRoot(parent, r)} :: IsRoot(parent, r) ==> size[r] == |Members(parent, rank, r)| <= cap
  }

  /** path compression keeps the recorded sizes right */
  lemma CompressSized(parent: seq<int>, rank: seq<int>, size: seq<int>, cap: int, x: int)
    requires Sized(parent, rank, size, cap) && 0 <= x < |parent|
    ensures Sized(parent[x := Root(parent, rank, x)], rank, size, cap)
    ensures SameRoots(parent, rank, parent[x := Root(parent, rank, x)], rank)
    ensures forall r :: Members(parent[x := Root(parent, rank, x)], rank, r) == Members(parent, rank, r)
  {
    var parent' := parent[x := Root(parent, rank, x)];
    Compress(parent, rank, x);
    forall r ensures Members(parent', rank, r) == Members(parent, rank, r) {
      SameRootsSameMembers(parent, rank, parent', rank, r);
    }
    forall r | IsRoot(parent', r) ensures size[r] == |Members(parent', rank, r)| <= cap {
      assert r != x || Root(parent, rank, x) == x;
      assert IsRoot(parent, r);
    }
  }

  /** linking two roots whose regions fit under the cap, with the survivor's
      size set to the sum, keeps the recorded sizes right */
  lemma LinkSized(parent: seq<int>, rank: seq<int>, size: seq<int>, cap: int, l: int, w: int, k: int)
    requires Sized(parent, rank, size, cap)
    requires IsRoot(parent, l) && IsRoot(parent, w) && l != w
    requires rank[w] <= k && rank[l] < k
    requires size[w] + size[l] <= cap
    ensures Sized(parent[l := w], rank[w := k], size[w := size[w] + size[l]], cap)
    ensures forall i :: 0 <= i < |parent| ==>
      Root(parent[l := w], rank[w := k], i) ==
        (if Root(parent, rank, i) == l then w else Root(parent, rank, i))
    ensures Members(parent[l := w], rank[w := k], w) == Members(parent, rank, w) + Members(parent, rank, l)
  {
    var parent', rank', size' := parent[l := w], rank[w := k], size[w := size[w] + size[l]];
    Link(parent, rank, l, w, k);
    forall r | IsRoot(parent', r)
      ensures size'[r] == |Members(parent', rank', r)| <= cap
    {
      LinkMembers(parent, rank, l, w, k, r);
      assert r != l;
      assert IsRoot(parent, r);
      if r == w {
        assert IsRoot(parent, l);
      }
    }
    LinkMembers(parent, rank, l, w, k, w);
  }

  /** union by rank applied to the distinct roots `rx` and `ry`: the root of
      lower rank is linked under the other (`ry` under `rx` on a tie), the
      survivor's size becomes the sum of both, and its rank rises by one
      exactly on a tie; nothing else changes */
  ghost predicate LinkedByRank(parent: seq<int>, rank: seq<int>, size: seq<int>,
                               parent': seq<int>, rank': seq<int>, size': seq<int>, rx: int, ry: int)
    requires |rank| == |size| == |parent| && 0 <= rx < |parent| && 0 <= ry < |parent|
  {
    if rank[rx] < rank[ry] then
      && parent' == parent[rx := ry]
      && size' == size[ry := size[rx] + size[ry]]
      && rank' == rank
    else
      && parent' == parent[ry := rx]
      && size' == size[rx := size[rx] + size[ry]]
      && rank' == (if rank[rx] == rank[ry] then rank[rx := rank[rx] + 1] else rank)
  }

  /** the root that survives union by rank of `rx` and `ry` */
  function Survivor(rank: seq<int>, rx: int, ry: int): int
    requires 0 <= rx < |rank| && 0 <= ry < |rank|
  {
    if rank[rx] < rank[ry] then ry else rx
  }

  /** union by rank as updates of the three arrays: the loser points at the
      survivor, the survivor's size becomes the sum, and its rank rises by
      one exactly on a tie */
  lemma LinkedByRankUpdates(parent: seq<int>, rank: seq<int>, size: seq<int>,
                            parent': seq<int>, rank': seq<int>, size': seq<int>, rx: int, ry: int)
    requires |rank| == |size| == |parent| && 0 <= rx < |parent| && 0 <= ry < |parent|
    requires LinkedByRank(parent, rank, size, parent', rank', size', rx, ry)
    ensures var w := Survivor(rank, rx, ry);
      var l := if rank[rx] < rank[ry] then rx else ry;
      && parent' == parent[l := w]
      && size' == size[w := size[rx] + size[ry]]
      && rank' == rank[w := if rank[rx] == rank[ry] then rank[w] + 1 else rank[w]]
  {
    if rank[rx] < rank[ry] {
      assert rank[ry := rank[ry]] == rank;
    }
  }

  /** union by rank of two distinct roots whose regions fit under the cap
      keeps the recorded sizes right and roots both regions at the survivor */
  lemma LinkByRankSized(parent: seq<int>, rank: seq<int>, size: seq<int>, cap: int,
                        parent': seq<int>, rank': seq<int>, size': seq<int>, rx: int, ry: int)
    requires Sized(parent, rank, size, cap)
    requires IsRoot(parent, rx) && IsRoot(parent, ry) && rx != ry
    requires size[rx] + size[ry] <= cap
    requires LinkedByRank(parent, rank, size, parent', rank', size', rx, ry)
    ensures Sized(parent', rank', size', cap)
    ensures forall i :: 0 <= i < |parent| ==>
      Root(parent', rank', i) ==
        (if Root(parent, rank, i) in {rx, ry} then Survivor(rank, rx, ry) else Root(parent, rank, i))
    ensures Members(parent', rank', Survivor(rank, rx, ry)) == Members(parent, rank, rx) + Members(parent, rank, ry)
  {
    if rank[rx] < rank[ry] {
      LinkSized(parent, rank, size, cap, rx, ry, rank[ry]);
      assert rank == rank[ry := rank[ry]];
    } else if rank[rx] > rank[ry] {
      LinkSized(parent, rank, size, cap, ry, rx, rank[rx]);
      assert rank == rank[rx := rank[rx]];
      assert size' == size[rx := size[rx] + size[ry]];
    } else {
      LinkSized(parent, rank, size, cap, ry, rx, rank[rx] + 1);
    }
  }

  /** what union(x, y) promises about roots, ranks and sizes when it
      merges: measured against the forest before both finds, the loser among
      the roots `rx` and `ry` points at the survivor, which stays a root; the
      survivor's size becomes the sum and its rank rises by one exactly on a
      tie; every node rooted at the loser is now rooted at the survivor and
      every other root is unchanged */
  ghost predicate RenamedByRank(parent: seq<int>, rank: seq<int>, size: seq<int>,
                                parent': seq<int>, rank': seq<int>, size': seq<int>, rx: int, ry: int)
    requires Shaped(parent, rank) && Shaped(parent', rank') && |parent'| == |parent| == |size|
    requires 0 <= rx < |parent| && 0 <= ry < |parent|
  {
    var w := Survivor(rank, rx, ry);
    var l := if rank[rx] < rank[ry] then rx else ry;
    && parent'[l] == w && parent'[w] == w
    && size' == size[w := size[rx] + size[ry]]
    && rank' == rank[w := if rank[rx] == rank[ry] then rank[w] + 1 else rank[w]]
    && (forall i :: 0 <= i < |parent| ==>
          Root(parent', rank', i) == if Root(parent, rank, i) == l then w else Root(parent, rank, i))
  }

  /** everything union(x, y) promises when it merges: the renaming above,
      and the survivor's region is the union of the two */
  ghost predicate UnionedByRank(parent: seq<int>, rank: seq<int>, size: seq<int>,
                                parent': seq<int>, rank': seq<int>, size': seq<int>, rx: int, ry: int)
    requires Shaped(parent, rank) && Shaped(parent', rank') && |parent'| == |parent| == |size|
    requires 0 <= rx < |parent| && 0 <= ry < |parent|
  {
    && RenamedByRank(parent, rank, size, parent', rank', size', rx, ry)
    && Members(parent', rank', Survivor(rank, rx, ry)) == Members(parent, rank, rx) + Members(parent, rank, ry)
  }

  /** finds, which keep every root, followed by union by rank of the two
      roots they return, give the outcome union(x, y) promises */
  lemma FindsThenLink(parent: seq<int>, rank: seq<int>, size: seq<int>, cap: int, found: seq<int>,
                      parent': seq<int>, rank': seq<int>, size': seq<int>, rx: int, ry: int)
    requires Shaped(parent, rank) && Sized(found, rank, size, cap) && SameRoots(parent, rank, found, rank)
    requires IsRoot(found, rx) && IsRoot(found, ry) && rx != ry
    requires size[rx] + size[ry] <= cap
    requires LinkedByRank(found, rank, size, parent', rank', size', rx, ry)
    ensures Sized(parent', rank', size', cap)
    ensures UnionedByRank(parent, rank, size, parent', rank', size', rx, ry)
  {
    LinkByRankSized(found, rank, size, cap, parent', rank', size', rx, ry);
    LinkedByRankUpdates(found, rank, size, parent', rank', size', rx, ry);
    SameRootsSameMembers(parent, rank, found, rank, rx);
    SameRootsSameMembers(parent, rank, found, rank, ry);
  }
  /** what a forest tells the rest of generateRegions: the root of every
      node, with the rank and size arrays that steer later unions */
  datatype Clusters = Clusters(roots: seq<int>, rank: seq<int>, size: seq<int>)

  /** one entry per node in each array, and every node's root is a node
      that is its own root */
  predicate Labelled(c: Clusters) {
    && |c.rank| == |c.roots| && |c.size| == |c.roots|
    && forall i :: 0 <= i < |c.roots| ==> 0 <= c.roots[i] < |c.roots| && c.roots[c.roots[i]] == c.roots[i]
  }

  /** a fresh union-find: every node its own root, with rank 0 and size 1 */
  function Fresh(n: nat): (c: Clusters)
    ensures Labelled(c) && |c.roots| == n
  {
    Clusters(seq(n, i => i), seq(n, _ => 0), seq(n, _ => 1))
  }

  /** the clusters a shaped forest with a `size` array shows */
  ghost function Observe(parent: seq<int>, rank: seq<int>, size: seq<int>): (c: Clusters)
    requires Shaped(parent, rank) && |size| == |parent|
    ensures Labelled(c) && c.rank == rank && c.size == size && |c.roots| == |parent|
    ensures forall i :: 0 <= i < |parent| ==> c.roots[i] == Root(parent, rank, i)
  {
    Clusters(seq(|parent|, i requires 0 <= i < |parent| && Shaped(parent, rank) => Root(parent, rank, i)), rank, size)
  }

  /** union(x, y) seen through the clusters: it joins exactly when `x` and
      `y` have different roots whose sizes fit the cap together; the root of
      lower rank (`y`'s on a tie) is then renamed to the survivor, whose
      size becomes the sum and whose rank rises on a tie */
  function UnionStep(c: Clusters, cap: int, x: int, y: int): (c': Clusters)
    requires Labelled(c) && 0 <= x < |c.roots| && 0 <= y < |c.roots|
    ensures Labelled(c') && |c'.roots| == |c.roots|
  {
    var rx, ry := c.roots[x], c.roots[y];
    if rx == ry || c.size[rx] + c.size[ry] > cap then c
    else
      var w := Survivor(c.rank, rx, ry);
      var l := if c.rank[rx] < c.rank[ry] then rx else ry;
      Clusters(seq(|c.roots|, i requires 0 <= i < |c.roots| => if c.roots[i] == l then w else c.roots[i]),
               c.rank[w := if c.rank[rx] == c.rank[ry] then c.rank[w] + 1 else c.rank[w]],
               c.size[w := c.size[rx] + c.size[ry]])
  }

  /** after union(x, y) the two share a root exactly when they already did
      or their regions fit the cap together; a refusal changes nothing;
      nodes that shared a root still do, and the only nodes newly joined are
      those of the regions of `x` and `y` */
  lemma UnionStepJoins(c: Clusters, cap: int, x: int, y: int)
    requires Labelled(c) && 0 <= x < |c.roots| && 0 <= y < |c.roots|
    ensures var c' := UnionStep(c, cap, x, y);
      && (c'.roots[x] == c'.roots[y] <==> c.roots[x] == c.roots[y] || c.size[c.roots[x]] + c.size[c.roots[y]] <= cap)
      && (c.roots[x] == c.roots[y] || c.size[c.roots[x]] + c.size[c.roots[y]] > cap ==> c' == c)
      && (forall i, j :: 0 <= i < |c.roots| && 0 <= j < |c.roots| && c.roots[i] == c.roots[j] ==>
            c'.roots[i] == c'.roots[j])
      && (forall i, j :: 0 <= i < |c.roots| && 0 <= j < |c.roots| && c'.roots[i] == c'.roots[j] ==>
            c.roots[i] == c.roots[j] || (c.roots[i] in {c.roots[x], c.roots[y]} && c.roots[j] in {c.roots[x], c.roots[y]}))
  {
  }

  /** a refused union, after finds that keep every root, shows the same
      clusters as the forest before it */
  lemma RefusedStep(parent: seq<int>, rank: seq<int>, size: seq<int>, cap: int, parent': seq<int>, x: int, y: int)
    requires Sized(parent, rank, size, cap) && Shaped(parent', rank) && SameRoots(parent, rank, parent', rank)
    requires 0 <= x < |parent| && 0 <= y < |parent|
    requires var rx, ry := Root(parent, rank, x), Root(parent, rank, y);
      rx == ry || size[rx] + size[ry] > cap
    ensures Observe(parent', rank, size) == UnionStep(Observe(parent, rank, size), cap, x, y)
  {
    var c, c' := Observe(parent, rank, size), Observe(parent', rank, size);
    assert c'.roots == c.roots;
  }

  /** clusters that rename the loser's root to the survivor's and update
      the survivor's size and rank as union by rank does are UnionStep's */
  lemma RenamedIsStep(c: Clusters, cap: int, x: int, y: int, c': Clusters)
    requires Labelled(c) && 0 <= x < |c.roots| && 0 <= y < |c.roots|
    requires c.roots[x] != c.roots[y] && c.size[c.roots[x]] + c.size[c.roots[y]] <= cap
    requires var rx, ry := c.roots[x], c.roots[y];
      var w := Survivor(c.rank, rx, ry);
      var l := if c.rank[rx] < c.rank[ry] then rx else ry;
      && c'.rank == c.rank[w := if c.rank[rx] == c.rank[ry] then c.rank[w] + 1 else c.rank[w]]
      && c'.size == c.size[w := c.size[rx] + c.size[ry]]
      && |c'.roots| == |c.roots|
      && forall i :: 0 <= i < |c.roots| ==> c'.roots[i] == if c.roots[i] == l then w else c.roots[i]
    ensures c' == UnionStep(c, cap, x, y)
  {
    var s := UnionStep(c, cap, x, y);
    assert c'.roots == s.roots;
  }

  /** a union that links the roots of `x` and `y` by rank shows the
      clusters UnionStep computes */
  lemma UnionedStep(parent: seq<int>, rank: seq<int>, size: seq<int>, cap: int,
                    parent': seq<int>, rank': seq<int>, size': seq<int>, x: int, y: int)
    requires Shaped(parent, rank) && Shaped(parent', rank') && |parent'| == |parent| == |size| == |size'|
    requires 0 <= x < |parent| && 0 <= y < |parent|
    requires var rx, ry := Root(parent, rank, x), Root(parent, rank, y);
      && rx != ry && size[rx] + size[ry] <= cap
      && RenamedByRank(parent, rank, size, parent', rank', size', rx, ry)
    ensures Observe(parent', rank', size') == UnionStep(Observe(parent, rank, size), cap, x, y)
  {
    var c, c' := Observe(parent, rank, size), Observe(parent', rank', size');
    RenamedIsStep(c, cap, x, y, c');
  }
}
