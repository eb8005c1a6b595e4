/** The node grid behind the cloud-object labelling of
    l4-7_cfmask/src/object_cloud_shadow_match.c: `cloud_node **cloud` is an
    `nrows` x `ncols` array of records, each carrying a cloud label
    (`value`), its own coordinates, a union-find `parent` pointer and a
    `child` pointer that threads the pixels of a cloud into a chain.  A
    pointer to `cloud[r][c]` is the position `Pos(r, c)`; the operations
    `Find`, `Find_child` and `Union_child` work on the array in place and
    are specified through its contents as a sequence of rows. */
module CloudNodes {
  import opened Grids

  datatype Pos = Pos(row: int, col: int)

  datatype Option<T> = None | Some(value: T)

  /** `cloud_node`. */
  datatype CloudNode = CloudNode(value: int, row: int, col: int, parent: Pos, child: Pos)

  /** The contents of the node array, row by row. */
  type Nodes = seq<seq<CloudNode>>

  /** A node as the initialisation loop before `label` leaves it: no label,
      coordinates (0, 0), its own parent and child. */
  function Initial(p: Pos): CloudNode {
    CloudNode(0, 0, 0, p, p)
  }

  predicate In(G: Nodes, p: Pos) {
    0 <= p.row < |G| && 0 <= p.col < |G[p.row]|
  }

  function At(G: Nodes, p: Pos): CloudNode
    requires In(G, p)
  {
    G[p.row][p.col]
  }

  /** `G` with the node at `p` replaced by `n`. */
  function Put(G: Nodes, p: Pos, n: CloudNode): (H: Nodes)
    requires In(G, p)
    ensures |H| == |G| && forall i :: 0 <= i < |G| ==> |H[i]| == |G[i]|
    ensures forall q :: In(H, q) <==> In(G, q)
    ensures forall q {:trigger At(H, q)} :: In(G, q) ==> At(H, q) == if q == p then n else At(G, q)
  {
    G[p.row := G[p.row][p.col := n]]
  }

  ghost function WithParent(G: Nodes, p: Pos, a: Pos): (H: Nodes)
    requires In(G, p) && In(G, a)
    ensures PointersIn(G) ==> PointersIn(H)
  {
    var n := At(G, p).(parent := a);
    if PointersIn(G) then PutPointers(G, p, n); Put(G, p, n) else Put(G, p, n)
  }

  ghost function WithChild(G: Nodes, p: Pos, c: Pos): (H: Nodes)
    requires In(G, p) && In(G, c)
    ensures PointersIn(G) ==> PointersIn(H)
  {
    var n := At(G, p).(child := c);
    if PointersIn(G) then PutPointers(G, p, n); Put(G, p, n) else Put(G, p, n)
  }

  /** Every parent and child pointer points into the grid. */
  ghost predicate PointersIn(G: Nodes) {
    forall p {:trigger At(G, p)} :: In(G, p) ==> In(G, At(G, p).parent) && In(G, At(G, p).child)
  }

  /** `H` is `G` with possibly other labels and coordinates, but the same
      shape and the same pointers. */
  ghost predicate SameLinks(G: Nodes, H: Nodes) {
    |H| == |G| && (forall i :: 0 <= i < |G| ==> |H[i]| == |G[i]|) &&
    forall q {:trigger At(H, q)} :: In(G, q) ==> At(H, q).parent == At(G, q).parent && At(H, q).child == At(G, q).child
  }

  // ---------------------------------------------------------------------
  // Union-find over parent pointers

  /** Pointers stay in the grid, and every non-root points to a node of
      strictly higher rank; ranks are bounded by `bound`.  Ranks are proof
      bookkeeping only: they show that every parent walk ends. */
  ghost predicate Ranked(G: Nodes, R: map<Pos, nat>, bound: nat) {
    PointersIn(G) &&
    (forall p {:trigger In(G, p)} :: In(G, p) ==> p in R && R[p] <= bound) &&
    (forall p {:trigger At(G, p)} :: In(G, p) && At(G, p).parent != p ==> R[p] < R[At(G, p).parent])
  }

  /** The node the parent walk from `p` ends at. */
  ghost function RootOf(G: Nodes, R: map<Pos, nat>, bound: nat, p: Pos): (r: Pos)
    requires Ranked(G, R, bound) && In(G, p)
    ensures In(G, r) && At(G, r).parent == r
    decreases bound - R[p]
  {
    if At(G, p).parent == p then p else RootOf(G, R, bound, At(G, p).parent)
  }

  /** The nodes the parent walk from `p` passes before reaching the root. */
  ghost function PathOf(G: Nodes, R: map<Pos, nat>, bound: nat, p: Pos): (s: set<Pos>)
    requires Ranked(G, R, bound) && In(G, p)
    ensures forall q {:trigger q in s} :: q in s ==> In(G, q) && At(G, q).parent != q && R[p] <= R[q]
    ensures p in s <==> At(G, p).parent != p
    decreases bound - R[p]
  {
    if At(G, p).parent == p then {} else {p} + PathOf(G, R, bound, At(G, p).parent)
  }

  /** Every node on the path has the same root, and a non-root lies strictly
      below its root in rank. */
  lemma {:induction false} PathShareRoot(G: Nodes, R: map<Pos, nat>, bound: nat, p: Pos)
    requires Ranked(G, R, bound) && In(G, p)
    ensures forall q :: q in PathOf(G, R, bound, p) ==> RootOf(G, R, bound, q) == RootOf(G, R, bound, p)
    ensures At(G, p).parent != p ==> R[p] < R[RootOf(G, R, bound, p)]
    decreases bound - R[p]
  {
    if At(G, p).parent != p {
      PathShareRoot(G, R, bound, At(G, p).parent);
    }
  }

  /** Redirecting the parent pointer of `y` to a node of higher rank keeps
      the ranking. */
  lemma ReparentRanked(G: Nodes, R: map<Pos, nat>, bound: nat, y: Pos, a: Pos)
    requires Ranked(G, R, bound) && In(G, y) && In(G, a) && (a != y ==> R[y] < R[a])
    ensures Ranked(WithParent(G, y, a), R, bound)
  {
    var H := WithParent(G, y, a);
    ReparentOrdered(G, R, bound, y, a);
    assert forall p :: In(H, p) ==> In(G, p);
  }

  lemma ReparentOrdered(G: Nodes, R: map<Pos, nat>, bound: nat, y: Pos, a: Pos)
    requires Ranked(G, R, bound) && In(G, y) && In(G, a) && (a != y ==> R[y] < R[a])
    ensures forall p {:trigger At(WithParent(G, y, a), p)} :: In(WithParent(G, y, a), p) && At(WithParent(G, y, a), p).parent != p ==>
      R[p] < R[At(WithParent(G, y, a), p).parent]
  {
    var H := WithParent(G, y, a);
    forall p {:trigger At(H, p)} | In(H, p) && At(H, p).parent != p
      ensures R[p] < R[At(H, p).parent]
    {
      assert At(H, p) == if p == y then At(G, y).(parent := a) else At(G, p);
    }
  }

  /** Storing a node whose pointers stay in the grid keeps every pointer in
      the grid. */
  lemma PutPointers(G: Nodes, y: Pos, n: CloudNode)
    requires PointersIn(G) && In(G, y) && In(G, n.parent) && In(G, n.child)
    ensures PointersIn(Put(G, y, n))
  {
    var H := Put(G, y, n);
    forall p {:trigger At(H, p)} | In(H, p)
      ensures In(H, At(H, p).parent) && In(H, At(H, p).child)
    {
      assert At(H, p) == if p == y then n else At(G, p);
    }
  }

  /** Pointing `y` straight at its root keeps the ranking. */
  lemma CompressRanked(G: Nodes, R: map<Pos, nat>, bound: nat, y: Pos)
    requires Ranked(G, R, bound) && In(G, y)
    ensures Ranked(WithParent(G, y, RootOf(G, R, bound, y)), R, bound)
  {
    PathShareRoot(G, R, bound, y);
    ReparentRanked(G, R, bound, y, RootOf(G, R, bound, y));
  }

  /** Pointing `y` straight at its root (one step of path compression)
      keeps every node's root. */
  lemma {:induction false} CompressKeepsRoots(G: Nodes, R: map<Pos, nat>, bound: nat, y: Pos, q: Pos)
    requires Ranked(G, R, bound) && In(G, y) && In(G, q)
    requires Ranked(WithParent(G, y, RootOf(G, R, bound, y)), R, bound)
    ensures RootOf(WithParent(G, y, RootOf(G, R, bound, y)), R, bound, q) == RootOf(G, R, bound, q)
    decreases bound - R[q]
  {
    var root := RootOf(G, R, bound, y);
    var H := WithParent(G, y, root);
    assert At(H, q) == if q == y then At(G, y).(parent := root) else At(G, q);
    if q == y {
      assert At(H, root) == At(G, root);
    } else if At(G, q).parent != q {
      CompressKeepsRoots(G, R, bound, y, At(G, q).parent);
    }
  }

  /** `Link(R, b, a)`: `a` is lifted above `b` in rank. */
  ghost function LinkRank(R: map<Pos, nat>, b: Pos, a: Pos): map<Pos, nat>
    requires a in R && b in R
  {
    R[a := if R[a] > R[b] then R[a] else R[b] + 1]
  }

  function Max(x: nat, y: nat): nat { if x < y then y else x }

  /** Lifting the rank of a root keeps the ranking. */
  lemma RaiseRootRanked(G: Nodes, R: map<Pos, nat>, bound: nat, a: Pos, k: nat)
    requires Ranked(G, R, bound) && In(G, a) && At(G, a).parent == a && R[a] <= k
    ensures Ranked(G, R[a := k], Max(bound, k))
  {
    var R' := R[a := k];
    forall p {:trigger In(G, p)} | In(G, p)
      ensures p in R' && R'[p] <= Max(bound, k)
    {
    }
    forall p {:trigger At(G, p)} | In(G, p) && At(G, p).parent != p
      ensures R'[p] < R'[At(G, p).parent]
    {
      assert p != a;
    }
  }

  /** Making the root `b` a child of the distinct root `a` keeps the
      ranking once `a` is lifted above `b`. */
  lemma LinkRanked(G: Nodes, R: map<Pos, nat>, bound: nat, b: Pos, a: Pos)
    requires Ranked(G, R, bound) && In(G, a) && In(G, b)
    requires At(G, a).parent == a && At(G, b).parent == b && a != b
    ensures Ranked(WithParent(G, b, a), LinkRank(R, b, a), Max(bound, LinkRank(R, b, a)[a]))
  {
    var R' := LinkRank(R, b, a);
    RaiseRootRanked(G, R, bound, a, R'[a]);
    ReparentRanked(G, R', Max(bound, R'[a]), b, a);
  }

  /** After linking root `b` below root `a`, exactly the nodes whose root
      was `b` have root `a`; every other root is unchanged. */
  lemma {:induction false} LinkRoots(G: Nodes, R: map<Pos, nat>, bound: nat, b: Pos, a: Pos, q: Pos)
    requires Ranked(G, R, bound) && In(G, a) && In(G, b) && In(G, q)
    requires At(G, a).parent == a && At(G, b).parent == b && a != b
    requires Ranked(WithParent(G, b, a), LinkRank(R, b, a), Max(bound, LinkRank(R, b, a)[a]))
    ensures RootOf(WithParent(G, b, a), LinkRank(R, b, a), Max(bound, LinkRank(R, b, a)[a]), q)
         == if RootOf(G, R, bound, q) == b then a else RootOf(G, R, bound, q)
    decreases bound - R[q]
  {
    var H := WithParent(G, b, a);
    assert At(H, q) == if q == b then At(G, b).(parent := a) else At(G, q);
    assert At(H, a) == At(G, a);
    if At(G, q).parent != q {
      LinkRoots(G, R, bound, b, a, At(G, q).parent);
    }
  }

  /** `H` is `G` with possibly other labels, coordinates or child pointers,
      but the same shape and the same parent pointers. */
  ghost predicate SameParents(G: Nodes, H: Nodes) {
    |H| == |G| && (forall i :: 0 <= i < |G| ==> |H[i]| == |G[i]|) &&
    forall q {:trigger At(H, q)} :: In(G, q) ==> At(H, q).parent == At(G, q).parent
  }

  /** Changing labels, coordinates or child pointers keeps the ranking. */
  lemma SameParentsRanked(G: Nodes, H: Nodes, R: map<Pos, nat>, bound: nat)
    requires Ranked(G, R, bound) && SameParents(G, H) && PointersIn(H)
    ensures Ranked(H, R, bound)
  {
    assert forall p :: In(H, p) <==> In(G, p);
  }

  /** Changing labels, coordinates or child pointers keeps the ranking and
      every root. */
  lemma {:induction false} SameParentsSameRoots(G: Nodes, H: Nodes, R: map<Pos, nat>, bound: nat, q: Pos)
    requires Ranked(G, R, bound) && SameParents(G, H) && PointersIn(H) && In(G, q)
    ensures Ranked(H, R, bound) && In(H, q)
    ensures RootOf(H, R, bound, q) == RootOf(G, R, bound, q)
    decreases bound - R[q]
  {
    assert forall p :: In(H, p) <==> In(G, p);
    assert At(H, q).parent == At(G, q).parent;
    if At(G, q).parent != q {
      SameParentsSameRoots(G, H, R, bound, At(G, q).parent);
    }
  }

  // ---------------------------------------------------------------------
  // Child chains

  /** The nodes a walk along child pointers from `p` visits: it stops at a
      tail (a node that is its own child) or after `fuel` steps. */
  ghost function ChainNodes(G: Nodes, p: Pos, fuel: nat): (ns: seq<Pos>)
    requires PointersIn(G) && In(G, p)
    ensures 1 <= |ns| <= fuel + 1 && ns[0] == p
    ensures forall q :: q in ns ==> In(G, q)
    decreases fuel
  {
    if At(G, p).child == p || fuel == 0 then [p] else [p] + ChainNodes(G, At(G, p).child, fuel - 1)
  }

  /** The tail of the chain from `p`, or `None` when the walk has not
      reached one within `fuel` steps. */
  ghost function ChainTail(G: Nodes, p: Pos, fuel: nat): (t: Option<Pos>)
    requires PointersIn(G) && In(G, p)
    ensures t.Some? ==> In(G, t.value) && At(G, t.value).child == t.value
    decreases fuel
  {
    if At(G, p).child == p then Some(p) else if fuel == 0 then None else ChainTail(G, At(G, p).child, fuel - 1)
  }

  /** The tail, when found, is the last node the walk visits; a walk that
      finds none takes all `fuel` steps. */
  lemma {:induction false} TailEndsChain(G: Nodes, p: Pos, fuel: nat)
    requires PointersIn(G) && In(G, p)
    ensures var ns := ChainNodes(G, p, fuel); var last := ns[|ns| - 1];
      last in ns && In(G, last) &&
      ChainTail(G, p, fuel) == (if At(G, last).child == last then Some(last) else None) &&
      (At(G, last).child != last ==> |ns| == fuel + 1)
    decreases fuel
  {
    var ns := ChainNodes(G, p, fuel);
    if At(G, p).child != p && fuel > 0 {
      var rest := ChainNodes(G, At(G, p).child, fuel - 1);
      TailEndsChain(G, At(G, p).child, fuel - 1);
      assert ns == [p] + rest;
      assert ns[|ns| - 1] == rest[|rest| - 1];
    }
  }

  /** Same pointers, same pointers into the grid. */
  lemma SameLinksPointersIn(G: Nodes, H: Nodes)
    requires PointersIn(G) && SameLinks(G, H)
    ensures PointersIn(H) && forall q :: In(H, q) <==> In(G, q)
  {
    forall q {:trigger At(H, q)} | In(H, q)
      ensures In(H, At(H, q).parent) && In(H, At(H, q).child)
    {
      assert In(G, At(G, q).parent) && In(G, At(G, q).child);
    }
  }

  /** Chains follow child pointers only. */
  lemma {:induction false} SameLinksSameChain(G: Nodes, H: Nodes, p: Pos, fuel: nat)
    requires PointersIn(G) && SameLinks(G, H) && In(G, p)
    ensures PointersIn(H) && In(H, p)
    ensures ChainNodes(H, p, fuel) == ChainNodes(G, p, fuel)
    decreases fuel
  {
    SameLinksPointersIn(G, H);
    assert At(H, p).child == At(G, p).child;
    if At(G, p).child != p && fuel > 0 {
      SameLinksSameChain(G, H, At(G, p).child, fuel - 1);
    }
  }

  lemma {:induction false} SameLinksSameTail(G: Nodes, H: Nodes, p: Pos, fuel: nat)
    requires PointersIn(G) && SameLinks(G, H) && In(G, p)
    ensures PointersIn(H) && In(H, p)
    ensures ChainTail(H, p, fuel) == ChainTail(G, p, fuel)
    decreases fuel
  {
    SameLinksPointersIn(G, H);
    assert At(H, p).child == At(G, p).child;
    if At(G, p).child != p && fuel > 0 {
      SameLinksSameTail(G, H, At(G, p).child, fuel - 1);
    }
  }

  /** All positions of the grid. */
  function Cells(G: Nodes): (K: set<Pos>)
    ensures forall p :: In(G, p) <==> p in K
  {
    var K := set r, c | 0 <= r < |G| && 0 <= c < |G[r]| :: Pos(r, c);
    assert forall p :: In(G, p) ==> p in K by {
      forall p | In(G, p)
        ensures p in K
      {
        assert p == Pos(p.row, p.col);
      }
    }
    K
  }

  /** The positions of row `r` up to column `n`. */
  function RowCells(r: int, n: nat): (s: set<Pos>)
    ensures forall p: Pos :: p in s <==> p.row == r && 0 <= p.col < n
  {
    var s := set c | 0 <= c < n :: Pos(r, c);
    assert forall p: Pos :: p.row == r && 0 <= p.col < n ==> p in s by {
      forall p: Pos | p.row == r && 0 <= p.col < n
        ensures p in s
      {
        assert p == Pos(r, p.col);
      }
    }
    s
  }

  lemma {:induction false} RowCellsCard(r: int, n: nat)
    ensures |RowCells(r, n)| == n
  {
    if n > 0 {
      RowCellsCard(r, n - 1);
      assert RowCells(r, n) == RowCells(r, n - 1) + {Pos(r, n - 1)};
    }
  }

  /** Number of nodes of a rectangular grid. */
  function NodeCount(G: Nodes): nat {
    |G| * Cols(G)
  }

  lemma MulSucc(k: nat, n: nat)
    ensures (k + 1) * n == k * n + n
  {
  }

  /** The positions of a grid are those of all rows but the last, and
      those of the last row. */
  lemma CellsSplit(G: Nodes)
    requires G != []
    ensures Cells(G) == Cells(G[..|G| - 1]) + RowCells(|G| - 1, |G[|G| - 1]|)
    ensures Cells(G[..|G| - 1]) !! RowCells(|G| - 1, |G[|G| - 1]|)
  {
    var G' := G[..|G| - 1];
    assert forall p :: In(G', p) <==> In(G, p) && p.row < |G| - 1;
  }

  /** A rectangular grid has `rows * cols` positions. */
  lemma {:induction false} CellsCard(G: Nodes)
    requires Rectangular(G)
    ensures |Cells(G)| == NodeCount(G)
    decreases |G|
  {
    if G != [] {
      var G' := G[..|G| - 1];
      var n := Cols(G);
      assert |G[|G| - 1]| == n;
      if G' != [] {
        assert Cols(G') == n;
      }
      assert Rectangular(G');
      CellsCard(G');
      RowCellsCard(|G| - 1, n);
      CellsSplit(G);
      MulSucc(|G'|, n);
    }
  }

  /** A sequence without repeats has as many distinct elements as entries. */
  lemma {:induction false} DistinctCard(s: seq<Pos>)
    requires forall i, j :: 0 <= i < j < |s| ==> s[i] != s[j]
    ensures |set i | 0 <= i < |s| :: s[i]| == |s|
  {
    if s != [] {
      var t := s[..|s| - 1];
      DistinctCard(t);
      var A := set i | 0 <= i < |t| :: t[i];
      var B := set i | 0 <= i < |s| :: s[i];
      assert B == A + {s[|s| - 1]};
      assert s[|s| - 1] !in A;
    }
  }

  /** More entries than there are possible values forces a repeat. */
  lemma Pigeonhole(ns: seq<Pos>, K: set<Pos>)
    requires forall i :: 0 <= i < |ns| ==> ns[i] in K
    requires |ns| > |K|
    ensures exists i, j :: 0 <= i < j < |ns| && ns[i] == ns[j]
  {
    if forall i, j :: 0 <= i < j < |ns| ==> ns[i] != ns[j] {
      DistinctCard(ns);
      CardSubset(set i | 0 <= i < |ns| :: ns[i], K);
    }
  }

  lemma CardSubset(A: set<Pos>, B: set<Pos>)
    requires A <= B
    ensures |A| <= |B|
  {
    assert B == A + (B - A);
  }

  /** A chain walk of at least as many steps as there are nodes that finds
      no tail visits some node twice; from there the walk repeats forever,
      so the unbounded walks of `Find_child` and `Union_child` never end. */
  lemma ChainExhaustedRepeats(G: Nodes, p: Pos, n: nat)
    requires PointersIn(G) && In(G, p) && |Cells(G)| <= n
    requires ChainTail(G, p, n) == None
    ensures var ns := ChainNodes(G, p, n);
      exists i, j :: 0 <= i < j < |ns| && ns[i] == ns[j]
  {
    var ns := ChainNodes(G, p, n);
    TailEndsChain(G, p, n);
    var K := Cells(G);
    forall i | 0 <= i < |ns|
      ensures ns[i] in K
    {
      assert ns[i] in ns;
    }
    Pigeonhole(ns, K);
  }

  // ---------------------------------------------------------------------
  // Operations on the node array

  /** `H` is `G` with the parent of every node in `S` set to `r`. */
  ghost predicate Reparented(G: Nodes, H: Nodes, S: set<Pos>, r: Pos) {
    |H| == |G| && (forall i :: 0 <= i < |G| ==> |H[i]| == |G[i]|) &&
    forall q {:trigger At(H, q)} :: In(G, q) ==> At(H, q) == if q in S then At(G, q).(parent := r) else At(G, q)
  }

  /** `H` is `G` with the label of every node in `S` set to `v`. */
  ghost predicate Relabelled(G: Nodes, H: Nodes, S: seq<Pos>, v: int) {
    |H| == |G| && (forall i :: 0 <= i < |G| ==> |H[i]| == |G[i]|) &&
    forall q {:trigger At(H, q)} :: In(G, q) ==> At(H, q) == if q in S then At(G, q).(value := v) else At(G, q)
  }

  /** Setting a child pointer and then relabelling leaves every parent
      pointer alone. */
  lemma ChildRelabelSameParents(G: Nodes, H: Nodes, T: Pos, c: Pos, S: seq<Pos>, v: int)
    requires In(G, T) && In(G, c) && Relabelled(WithChild(G, T, c), H, S, v)
    ensures SameParents(G, H)
  {
    var W := WithChild(G, T, c);
    forall q {:trigger At(H, q)} | In(G, q)
      ensures At(H, q).parent == At(G, q).parent
    {
      assert At(W, q).parent == At(G, q).parent;
    }
  }

  /** Relabelling leaves every pointer alone. */
  lemma RelabelledSameLinks(G: Nodes, H: Nodes, S: seq<Pos>, v: int)
    requires Relabelled(G, H, S, v)
    ensures SameLinks(G, H)
  {
  }

  lemma NodeCountOf(cloud: array2<CloudNode>)
    ensures NodeCount(Snapshot(cloud)) == cloud.Length0 * cloud.Length1
  {
  }

  /** Storing a node back unchanged leaves the grid as it was. */
  lemma PutSame(G: Nodes, p: Pos)
    requires In(G, p)
    ensures Put(G, p, At(G, p)) == G
  {
    assert G[p.row][p.col := G[p.row][p.col]] == G[p.row];
  }

  /** `cloud[p.row][p.col] = n`. */
  method Store(cloud: array2<CloudNode>, p: Pos, n: CloudNode)
    requires In(Snapshot(cloud), p)
    modifies cloud
    ensures Snapshot(cloud) == Put(old(Snapshot(cloud)), p, n)
  {
    ghost var G := Snapshot(cloud);
    cloud[p.row, p.col] := n;
    SameGrid(Snapshot(cloud), Put(G, p, n));
  }

  /** The state of the compression loop of `Find` after the nodes of
      `done` have been pointed at `root`, with `node` next. */
  ghost predicate Compressing(G0: Nodes, G: Nodes, R: map<Pos, nat>, bound: nat, x: Pos, root: Pos, done: set<Pos>, node: Pos)
    requires Ranked(G0, R, bound) && In(G0, x)
  {
    In(G0, node) && Ranked(G, R, bound) &&
    RootOf(G0, R, bound, node) == root &&
    PathOf(G0, R, bound, x) == done + PathOf(G0, R, bound, node) &&
    done !! PathOf(G0, R, bound, node) &&
    Reparented(G0, G, done, root) &&
    forall q {:trigger RootOf(G, R, bound, q)} :: In(G0, q) ==> In(G, q) && RootOf(G, R, bound, q) == RootOf(G0, R, bound, q)
  }

  /** One step of the compression loop. */
  lemma CompressStep(G0: Nodes, G: Nodes, R: map<Pos, nat>, bound: nat, x: Pos, root: Pos, done: set<Pos>, node: Pos)
    requires Ranked(G0, R, bound) && In(G0, x)
    requires Compressing(G0, G, R, bound, x, root, done, node) && At(G, node).parent != node
    ensures In(G, node) && In(G, root) && At(G, node) == At(G0, node)
    ensures Compressing(G0, WithParent(G, node, root), R, bound, x, root, done + {node}, At(G0, node).parent)
    ensures R[node] < R[At(G0, node).parent]
  {
    assert At(G, node) == At(G0, node);
    var H := WithParent(G, node, root);
    CompressRanked(G, R, bound, node);
    forall q {:trigger RootOf(H, R, bound, q)} | In(G0, q)
      ensures In(H, q) && RootOf(H, R, bound, q) == RootOf(G0, R, bound, q)
    {
      CompressKeepsRoots(G, R, bound, node, q);
    }
    forall q {:trigger At(H, q)} | In(G0, q)
      ensures At(H, q) == if q in done + {node} then At(G0, q).(parent := root) else At(G0, q)
    {
    }
  }

  /** When the loop stops, `done` is the whole path. */
  lemma CompressDone(G0: Nodes, G: Nodes, R: map<Pos, nat>, bound: nat, x: Pos, root: Pos, done: set<Pos>, node: Pos)
    requires Ranked(G0, R, bound) && In(G0, x)
    requires Compressing(G0, G, R, bound, x, root, done, node) && At(G, node).parent == node
    ensures Reparented(G0, G, PathOf(G0, R, bound, x), root)
  {
    assert PathOf(G0, R, bound, node) == {};
  }

  /** `Find`: the root of `x`; every node on the path from `x` is pointed
      straight at it, and no node's root changes. */
  method Find(cloud: array2<CloudNode>, x: Pos, ghost R: map<Pos, nat>, ghost bound: nat) returns (root: Pos)
    requires Ranked(Snapshot(cloud), R, bound) && In(Snapshot(cloud), x)
    modifies cloud
    ensures root == RootOf(old(Snapshot(cloud)), R, bound, x)
    ensures Reparented(old(Snapshot(cloud)), Snapshot(cloud), PathOf(old(Snapshot(cloud)), R, bound, x), root)
    ensures Ranked(Snapshot(cloud), R, bound)
    ensures forall q {:trigger RootOf(Snapshot(cloud), R, bound, q)} :: In(old(Snapshot(cloud)), q) ==>
      In(Snapshot(cloud), q) && RootOf(Snapshot(cloud), R, bound, q) == RootOf(old(Snapshot(cloud)), R, bound, q)
  {
    ghost var G0 := Snapshot(cloud);
    root := x;
    if cloud[x.row, x.col].parent == x {
      assert PathOf(G0, R, bound, x) == {};
      return;
    }
    while cloud[root.row, root.col].parent != root
      invariant In(G0, root) && RootOf(G0, R, bound, root) == RootOf(G0, R, bound, x)
      decreases bound - R[root]
    {
      root := cloud[root.row, root.col].parent;
    }
    var node := x;
    ghost var done: set<Pos> := {};
    ghost var G := G0;
    while cloud[node.row, node.col].parent != node
      invariant G == Snapshot(cloud)
      invariant Compressing(G0, G, R, bound, x, root, done, node)
      decreases bound - R[node]
    {
      CompressStep(G0, G, R, bound, x, root, done, node);
      var temp := cloud[node.row, node.col].parent;
      Store(cloud, node, cloud[node.row, node.col].(parent := root));
      G, done, node := WithParent(G, node, root), done + {node}, temp;
    }
    CompressDone(G0, G, R, bound, x, root, done, node);
  }

  /** `Find_child`: the tail of the child chain from `x`; `None` when the
      chain runs longer than there are nodes, where the source's walk never
      ends (see `ChainExhaustedRepeats`). */
  method FindChild(cloud: array2<CloudNode>, x: Pos) returns (tail: Option<Pos>)
    requires PointersIn(Snapshot(cloud)) && In(Snapshot(cloud), x)
    ensures tail == ChainTail(Snapshot(cloud), x, NodeCount(Snapshot(cloud)))
  {
    ghost var G := Snapshot(cloud);
    var n := cloud.Length0 * cloud.Length1;
    NodeCountOf(cloud);
    if cloud[x.row, x.col].child == x {
      return Some(x);
    }
    var node := x;
    var steps := 0;
    while cloud[node.row, node.col].child != node && steps < n
      invariant 0 <= steps <= n && In(G, node)
      invariant ChainTail(G, node, n - steps) == ChainTail(G, x, n)
      decreases n - steps
    {
      node := cloud[node.row, node.col].child;
      steps := steps + 1;
    }
    if cloud[node.row, node.col].child == node {
      tail := Some(node);
    } else {
      tail := None;
    }
  }

  /** Relabelling one more node. */
  lemma RelabelOneMore(G1: Nodes, G: Nodes, S: seq<Pos>, v: int, p: Pos)
    requires Relabelled(G1, G, S, v) && In(G1, p)
    ensures In(G, p) && Relabelled(G1, Put(G, p, At(G, p).(value := v)), S + [p], v)
  {
    var H := Put(G, p, At(G, p).(value := v));
    forall q {:trigger At(H, q)} | In(G1, q)
      ensures At(H, q) == if q in S + [p] then At(G1, q).(value := v) else At(G1, q)
    {
      assert q in S + [p] <==> q in S || q == p;
    }
  }

  /** The state of the relabelling walk of `Union_child`: the first
      `steps + 1` nodes of the chain `ns` from `n2` carry the label `v`. */
  ghost predicate Relabelling(G1: Nodes, G: Nodes, n2: Pos, n: nat, v: int, ns: seq<Pos>, node: Pos, steps: nat) {
    PointersIn(G1) && In(G1, n2) && ns == ChainNodes(G1, n2, n) &&
    steps <= n && steps < |ns| && ns[steps] == node && In(G1, node) &&
    ChainNodes(G1, node, n - steps) == ns[steps..] &&
    Relabelled(G1, G, ns[..steps + 1], v)
  }

  /** The walk starts with `n2` relabelled. */
  lemma RelabelStart(G1: Nodes, n2: Pos, n: nat, v: int)
    requires PointersIn(G1) && In(G1, n2)
    ensures Relabelling(G1, Put(G1, n2, At(G1, n2).(value := v)), n2, n, v, ChainNodes(G1, n2, n), n2, 0)
  {
    RelabelOneMore(G1, G1, [], v, n2);
  }

  /** One step of the walk: relabel the child of `node`. */
  lemma RelabelStep(G1: Nodes, G: Nodes, n2: Pos, n: nat, v: int, ns: seq<Pos>, node: Pos, steps: nat)
    requires Relabelling(G1, G, n2, n, v, ns, node, steps)
    requires At(G, node).child != node && steps < n
    ensures In(G, node) && In(G, At(G, node).child)
    ensures var next := At(G, node).child;
      Relabelling(G1, Put(G, next, At(G, next).(value := v)), n2, n, v, ns, next, steps + 1)
  {
    assert At(G, node).child == At(G1, node).child;
    var next := At(G, node).child;
    assert ChainNodes(G1, node, n - steps) == [node] + ChainNodes(G1, next, n - (steps + 1));
    assert ns[steps + 1..] == ChainNodes(G1, next, n - (steps + 1));
    RelabelOneMore(G1, G, ns[..steps + 1], v, next);
    assert ns[..steps + 2] == ns[..steps + 1] + [next];
  }

  /** When the walk stops it has relabelled the whole chain, and it stopped
      at a tail exactly when the chain has one. */
  lemma RelabelDone(G1: Nodes, G: Nodes, n2: Pos, n: nat, v: int, ns: seq<Pos>, node: Pos, steps: nat)
    requires Relabelling(G1, G, n2, n, v, ns, node, steps)
    requires At(G, node).child == node || steps == n
    ensures In(G, node)
    ensures (At(G, node).child == node) <==> ChainTail(G1, n2, n).Some?
    ensures Relabelled(G1, G, ns, v)
  {
    assert At(G, node).child == At(G1, node).child;
    assert ChainNodes(G1, node, n - steps) == [node];
    assert ns[..steps + 1] == ns;
    TailEndsChain(G1, n2, n);
  }

  /** `Union_child(n1, n2)`: makes `n2` the child of `n1` and copies the
      label of `n1` into `n2` and every node of the chain that follows; `ok`
      is false when that chain runs longer than there are nodes, where the
      source's walk never ends. */
  method UnionChild(cloud: array2<CloudNode>, n1: Pos, n2: Pos) returns (ok: bool)
    requires PointersIn(Snapshot(cloud)) && In(Snapshot(cloud), n1) && In(Snapshot(cloud), n2)
    modifies cloud
    ensures ok <==> ChainTail(WithChild(old(Snapshot(cloud)), n1, n2), n2, NodeCount(old(Snapshot(cloud)))).Some?
    ensures Relabelled(WithChild(old(Snapshot(cloud)), n1, n2), Snapshot(cloud),
                       ChainNodes(WithChild(old(Snapshot(cloud)), n1, n2), n2, NodeCount(old(Snapshot(cloud)))),
                       old(At(Snapshot(cloud), n1).value))
  {
    ghost var G1 := WithChild(Snapshot(cloud), n1, n2);
    var n := cloud.Length0 * cloud.Length1;
    NodeCountOf(cloud);
    ghost var ns := ChainNodes(G1, n2, n);
    var first := cloud[n1.row, n1.col];
    Store(cloud, n1, first.(child := n2));
    var v := first.value;
    RelabelStart(G1, n2, n, v);
    Store(cloud, n2, cloud[n2.row, n2.col].(value := v));
    ghost var G := Put(G1, n2, At(G1, n2).(value := v));
    var node := n2;
    var steps := 0;
    var cur := cloud[node.row, node.col];
    // `v` is the label of `n1`, which the walk only ever overwrites with `v`.
    while cur.child != node && steps < n
      invariant Relabelling(G1, G, n2, n, v, ns, node, steps)
      invariant G == Snapshot(cloud) && In(G, node) && cur == At(G, node)
      decreases n - steps
    {
      RelabelStep(G1, G, n2, n, v, ns, node, steps);
      var next := cur.child;
      var nextNode := cloud[next.row, next.col];
      Store(cloud, next, nextNode.(value := v));
      G := Put(G, next, nextNode.(value := v));
      node, steps := next, steps + 1;
      cur := nextNode.(value := v);
    }
    RelabelDone(G1, G, n2, n, v, ns, node, steps);
    ok := cur.child == node;
  }

  /** `b->parent = a` for two roots, as the merge steps of `label` do it:
      afterwards exactly the nodes whose root was `b` have root `a`.  The
      returned ranking is proof bookkeeping. */
  method Link(cloud: array2<CloudNode>, b: Pos, a: Pos, ghost R: map<Pos, nat>, ghost bound: nat)
    returns (ghost R': map<Pos, nat>, ghost bound': nat)
    requires Ranked(Snapshot(cloud), R, bound) && In(Snapshot(cloud), a) && In(Snapshot(cloud), b)
    requires At(Snapshot(cloud), a).parent == a && At(Snapshot(cloud), b).parent == b
    modifies cloud
    ensures Snapshot(cloud) == WithParent(old(Snapshot(cloud)), b, a)
    ensures Ranked(Snapshot(cloud), R', bound')
    ensures forall q {:trigger RootOf(Snapshot(cloud), R', bound', q)} :: In(old(Snapshot(cloud)), q) ==>
      In(Snapshot(cloud), q) &&
      RootOf(Snapshot(cloud), R', bound', q) == if RootOf(old(Snapshot(cloud)), R, bound, q) == b then a else RootOf(old(Snapshot(cloud)), R, bound, q)
  {
    ghost var G := Snapshot(cloud);
    if a == b {
      R', bound' := R, bound;
      PutSame(G, b);
    } else {
      R', bound' := LinkRank(R, b, a), Max(bound, LinkRank(R, b, a)[a]);
      LinkRanked(G, R, bound, b, a);
      forall q {:trigger RootOf(WithParent(G, b, a), R', bound', q)} | In(G, q)
        ensures RootOf(WithParent(G, b, a), R', bound', q) == if RootOf(G, R, bound, q) == b then a else RootOf(G, R, bound, q)
      {
        LinkRoots(G, R, bound, b, a, q);
      }
    }
    Store(cloud, b, cloud[b.row, b.col].(parent := a));
  }
}
