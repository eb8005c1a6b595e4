/** The two-pass connected-component labelling `label` of
    l4-7_cfmask/src/object_cloud_shadow_match.c.  The first pass visits the
    cloud pixels (mask value 1) in row-major order; a pixel with no cloud
    pixel among its already visited neighbours (north-west, north,
    north-east, west) starts a new cloud, otherwise it joins the cloud with
    the smallest neighbouring label and every other neighbouring cloud is
    merged into that one.  A cloud is a union-find set over the node grid:
    parent pointers lead to its root, and child pointers thread all its
    pixels into one chain starting at the root, along which `Union_child`
    copies labels.  The second pass copies every root's label into its
    pixels and counts the pixels of each label.

    The proof keeps two ghost maps beside the node grid: `Rep` gives the
    root of every labelled pixel, and `C` the chain of every root. */
module CloudLabel {
  import opened Grids
  import opened CloudNodes

  /** `MAX_CLOUD_TYPE`: the size of `obj_num` and of the rows of
      `first_cloud_node`. */
  const MaxCloudType: nat := 300000

  // ---------------------------------------------------------------------
  // find_min

  /** `min` is the smallest positive entry of `a` and `index` the first
      place it occurs; both are 0 when no entry is positive. */
  ghost predicate IsLeastLabel(a: seq<int>, min: int, index: nat) {
    if forall i :: 0 <= i < |a| ==> a[i] <= 0 then
      min == 0 && index == 0
    else
      index < |a| && a[index] == min && min > 0 &&
      (forall i :: 0 <= i < |a| && a[i] > 0 ==> min <= a[i]) &&
      (forall i :: 0 <= i < index ==> a[i] != min)
  }

  /** `find_min`: a first loop takes the first positive entry, a second one
      replaces it by any strictly smaller positive entry. */
  method FindMin(a: seq<int>) returns (min: int, index: nat)
    ensures IsLeastLabel(a, min, index)
  {
    min, index := 0, 0;
    var i := 0;
    while i < |a|
      invariant 0 <= i <= |a|
      invariant forall k :: 0 <= k < i ==> a[k] <= 0
      invariant min == 0 && index == 0
    {
      if a[i] > 0 {
        min, index := a[i], i;
        break;
      }
      i := i + 1;
    }
    if min == 0 {
      return;
    }
    ghost var first := index;
    i := 0;
    while i < |a|
      invariant 0 <= i <= |a| && first < |a| && a[first] > 0
      invariant forall k :: 0 <= k < first ==> a[k] <= 0
      invariant index < |a| && a[index] == min && min > 0
      invariant forall k :: 0 <= k < i && a[k] > 0 ==> min <= a[k]
      invariant i <= first ==> min == a[first] && index == first
      invariant forall k :: 0 <= k < index ==> a[k] != min
      invariant first <= i ==> min <= a[first]
    {
      if a[i] > 0 && a[i] < min {
        min, index := a[i], i;
      }
      i := i + 1;
    }
  }

  // ---------------------------------------------------------------------
  // Pixels and their neighbours

  /** `q` is a cloud pixel of the mask `M`. */
  predicate CloudAt(M: Grid, q: Pos) {
    0 <= q.row < |M| && 0 <= q.col < |M[q.row]| && M[q.row][q.col] == 1
  }

  /** `q` comes before `p` in row-major order. */
  predicate Before(q: Pos, p: Pos) {
    q.row < p.row || (q.row == p.row && q.col < p.col)
  }

  /** `p` and `q` are distinct 8-neighbours. */
  predicate Adjacent(p: Pos, q: Pos) {
    p != q && -1 <= p.row - q.row <= 1 && -1 <= p.col - q.col <= 1
  }

  /** Entry `k` of the `array` `label` fills: north-west, north, north-east,
      west. */
  function Neighbour(p: Pos, k: nat): (q: Pos)
    requires k < 4
    ensures Adjacent(p, q) && Before(q, p)
  {
    if k == 0 then Pos(p.row - 1, p.col - 1)
    else if k == 1 then Pos(p.row - 1, p.col)
    else if k == 2 then Pos(p.row - 1, p.col + 1)
    else Pos(p.row, p.col - 1)
  }

  /** The 8-neighbours that come before a pixel are exactly the four that
      `label` looks at. */
  lemma EarlierNeighbour(p: Pos, q: Pos)
    requires Adjacent(p, q) && Before(q, p)
    ensures q == Neighbour(p, 0) || q == Neighbour(p, 1) || q == Neighbour(p, 2) || q == Neighbour(p, 3)
  {
  }

  // ---------------------------------------------------------------------
  // Chains and labels

  function Last(s: seq<Pos>): Pos
    requires |s| >= 1
  {
    s[|s| - 1]
  }

  /** `s` is a child chain of `G` through pixels of `L`: no repeats, each
      node's child is the next one, and the last is its own child. */
  ghost predicate IsChain(G: Nodes, s: seq<Pos>, L: set<Pos>) {
    |s| >= 1 &&
    (forall k {:trigger s[k]} :: 0 <= k < |s| ==> s[k] in L && In(G, s[k])) &&
    (forall i, j {:trigger s[i], s[j]} :: 0 <= i < j < |s| ==> s[i] != s[j]) &&
    (forall i, j {:trigger s[i], s[j]} :: 0 <= i && j == i + 1 && j < |s| ==> At(G, s[i]).child == s[j]) &&
    At(G, Last(s)).child == Last(s)
  }

  /** `C[r]` is a chain starting at `r`. */
  ghost predicate ChainsOf(G: Nodes, L: set<Pos>, C: map<Pos, seq<Pos>>) {
    forall r {:trigger r in C} :: r in C ==> IsChain(G, C[r], L) && C[r][0] == r
  }

  /** `Rep` names the root of every labelled pixel: each root is a
      labelled pixel and its own root, each labelled pixel lies on its
      root's chain, and each chain holds only labelled pixels of its root. */
  ghost predicate RepOf(L: set<Pos>, C: map<Pos, seq<Pos>>, Rep: map<Pos, Pos>) {
    (forall r {:trigger r in C} :: r in C ==> r in L && r in Rep && Rep[r] == r) &&
    (forall q {:trigger q in L} :: q in L ==> q in Rep && Rep[q] in C && q in C[Rep[q]]) &&
    (forall r, k {:trigger C[r][k]} :: r in C && 0 <= k < |C[r]| ==> C[r][k] in L && C[r][k] in Rep && Rep[C[r][k]] == r)
  }

  /** Every labelled pixel carries its root's label, and `Owner` maps the
      label of each root back to that root, so distinct roots carry
      distinct labels. */
  ghost predicate LabelsOf(G: Nodes, L: set<Pos>, C: map<Pos, seq<Pos>>, Rep: map<Pos, Pos>, Owner: map<int, Pos>) {
    (forall q {:trigger q in L} :: q in L ==>
       In(G, q) && q in Rep && In(G, Rep[q]) && At(G, q).value == At(G, Rep[q]).value) &&
    (forall r {:trigger r in C} :: r in C ==> In(G, r) && At(G, r).value in Owner && Owner[At(G, r).value] == r)
  }

  /** How the first pass keeps labels and child pointers.  Parent pointers
      do not appear, so path compression keeps it. */
  ghost predicate Threads(G: Nodes, L: set<Pos>, C: map<Pos, seq<Pos>>, Rep: map<Pos, Pos>, Owner: map<int, Pos>) {
    ChainsOf(G, L, C) && RepOf(L, C, Rep) && LabelsOf(G, L, C, Rep, Owner)
  }

  /** How the first pass keeps parent pointers: they form a ranked forest
      closed over the labelled pixels, and the root of each labelled pixel
      is the one `Rep` names. */
  ghost predicate Forest(G: Nodes, R: map<Pos, nat>, bound: nat, L: set<Pos>, low: int, high: int, Rep: map<Pos, Pos>) {
    Ranked(G, R, bound) && Closed(G, L, low, high) &&
    forall q {:trigger q in L} :: q in L ==> In(G, q) && q in Rep && RootOf(G, R, bound, q) == Rep[q]
  }

  /** The pixels in `L` (the cloud pixels labelled so far) carry labels in
      (`low`, `high`] and their own coordinates; every other node is as
      initialised, so it is a root with no parent walk through it. */
  ghost predicate Closed(G: Nodes, L: set<Pos>, low: int, high: int) {
    (forall p {:trigger p in L} :: p in L ==> In(G, p)) &&
    (forall p {:trigger At(G, p)} :: In(G, p) && p in L ==>
       low < At(G, p).value <= high && At(G, p).row == p.row && At(G, p).col == p.col) &&
    (forall p {:trigger At(G, p)} :: In(G, p) && p !in L ==> At(G, p) == Initial(p))
  }

  /** Every node a parent walk passes before its root is labelled. */
  lemma {:induction false} PathInClosed(G: Nodes, R: map<Pos, nat>, bound: nat, L: set<Pos>, low: int, high: int, p: Pos)
    requires Ranked(G, R, bound) && Closed(G, L, low, high) && In(G, p)
    ensures PathOf(G, R, bound, p) <= L
    decreases bound - R[p]
  {
    if At(G, p).parent != p {
      PathInClosed(G, R, bound, L, low, high, At(G, p).parent);
    }
  }

  /** Labelled 8-neighbours have the same root. */
  ghost predicate Joined(L: set<Pos>, Rep: map<Pos, Pos>) {
    forall q1, q2 :: q1 in L && q2 in L && Adjacent(q1, q2) ==> q1 in Rep && q2 in Rep && Rep[q1] == Rep[q2]
  }

  /** A new pixel that is not labelled yet does not disturb `Joined`. */
  lemma JoinedExtend(L: set<Pos>, Rep: map<Pos, Pos>, p: Pos, r: Pos)
    requires Joined(L, Rep) && p !in L
    ensures Joined(L, Rep[p := r])
  {
    forall q1, q2 | q1 in L && q2 in L && Adjacent(q1, q2)
      ensures q1 in Rep[p := r] && q2 in Rep[p := r] && Rep[p := r][q1] == Rep[p := r][q2]
    {
      assert Rep[q1] == Rep[q2];
    }
  }

  /** `H` has the labels and child pointers of `G` on `L`. */
  ghost predicate SameContent(G: Nodes, H: Nodes, L: set<Pos>) {
    |H| == |G| && (forall i :: 0 <= i < |G| ==> |H[i]| == |G[i]|) &&
    forall q {:trigger At(H, q)} :: q in L && In(G, q) ==>
      At(H, q).value == At(G, q).value && At(H, q).child == At(G, q).child
  }

  /** Walking a chain from its `k`-th node reaches its last node. */
  lemma {:induction false} ChainWalk(G: Nodes, s: seq<Pos>, L: set<Pos>, k: nat, fuel: nat)
    requires PointersIn(G) && IsChain(G, s, L) && k < |s| && |s| - 1 - k <= fuel
    ensures In(G, s[k])
    ensures ChainTail(G, s[k], fuel) == Some(Last(s))
    ensures ChainNodes(G, s[k], fuel) == s[k..]
    decreases |s| - k
  {
    if k < |s| - 1 {
      assert At(G, s[k]).child == s[k + 1] by {
        assert s[k] == s[k] && s[k + 1] == s[k + 1];
      }
      assert s[k] != s[k + 1];
      ChainWalk(G, s, L, k + 1, fuel - 1);
      assert s[k..] == [s[k]] + s[k + 1..];
    }
  }

  /** A chain never has more nodes than the grid. */
  lemma ChainFits(G: Nodes, s: seq<Pos>, L: set<Pos>)
    requires Rectangular(G) && IsChain(G, s, L)
    ensures |s| <= NodeCount(G)
  {
    DistinctCard(s);
    CardSubset(set i | 0 <= i < |s| :: s[i], Cells(G));
    CellsCard(G);
  }

  /** `Find_child` from a labelled pixel reaches the end of its root's
      chain. */
  lemma TailOf(G: Nodes, L: set<Pos>, C: map<Pos, seq<Pos>>, Rep: map<Pos, Pos>, q: Pos)
    requires PointersIn(G) && Rectangular(G) && ChainsOf(G, L, C) && RepOf(L, C, Rep) && q in L
    ensures q in Rep && Rep[q] in C
    ensures ChainTail(G, q, NodeCount(G)) == Some(Last(C[Rep[q]]))
  {
    var s := C[Rep[q]];
    var k :| 0 <= k < |s| && s[k] == q;
    ChainFits(G, s, L);
    ChainWalk(G, s, L, k, NodeCount(G));
  }

  /** A chain through nodes whose labels and children do not change stays
      a chain. */
  lemma ChainKeep(G: Nodes, H: Nodes, s: seq<Pos>, L: set<Pos>, K: set<Pos>, L': set<Pos>)
    requires IsChain(G, s, L) && SameContent(G, H, K) && L <= L'
    requires forall k {:trigger s[k]} :: 0 <= k < |s| ==> s[k] in K
    ensures IsChain(H, s, L')
  {
    forall i, j | 0 <= i && j == i + 1 && j < |s|
      ensures At(H, s[i]).child == s[j]
    {
      assert At(G, s[i]).child == s[j];
    }
    assert Last(s) == s[|s| - 1];
    assert At(H, Last(s)).child == At(G, Last(s)).child;
  }

  /** Changing nothing but parent pointers, coordinates or nodes off `L`
      keeps the chains. */
  lemma ChainsKeep(G: Nodes, H: Nodes, L: set<Pos>, C: map<Pos, seq<Pos>>)
    requires ChainsOf(G, L, C) && SameContent(G, H, L)
    ensures ChainsOf(H, L, C)
  {
    forall r | r in C
      ensures IsChain(H, C[r], L)
    {
      ChainKeep(G, H, C[r], L, L, L);
    }
  }

  /** ... and the labels. */
  lemma LabelsKeep(G: Nodes, H: Nodes, L: set<Pos>, C: map<Pos, seq<Pos>>, Rep: map<Pos, Pos>, Owner: map<int, Pos>)
    requires LabelsOf(G, L, C, Rep, Owner) && SameContent(G, H, L) && RepOf(L, C, Rep) && ChainsOf(G, L, C)
    ensures LabelsOf(H, L, C, Rep, Owner)
  {
    forall q {:trigger q in L} | q in L
      ensures In(H, q) && In(H, Rep[q]) && At(H, q).value == At(H, Rep[q]).value
    {
      assert Rep[q] in C && Rep[q] in L;
    }
    forall r {:trigger r in C} | r in C
      ensures In(H, r) && At(H, r).value in Owner && Owner[At(H, r).value] == r
    {
      assert r in L;
    }
  }

  lemma ThreadsKeep(G: Nodes, H: Nodes, L: set<Pos>, C: map<Pos, seq<Pos>>, Rep: map<Pos, Pos>, Owner: map<int, Pos>)
    requires Threads(G, L, C, Rep, Owner) && SameContent(G, H, L)
    ensures Threads(H, L, C, Rep, Owner)
  {
    ChainsKeep(G, H, L, C);
    LabelsKeep(G, H, L, C, Rep, Owner);
  }

  /** Path compression by `Find` keeps the forest and the content. */
  lemma FindKeeps(G: Nodes, H: Nodes, R: map<Pos, nat>, bound: nat, L: set<Pos>, low: int, high: int,
                  Rep: map<Pos, Pos>, x: Pos)
    requires Forest(G, R, bound, L, low, high, Rep) && In(G, x)
    requires Reparented(G, H, PathOf(G, R, bound, x), RootOf(G, R, bound, x))
    requires Ranked(H, R, bound)
    requires forall q {:trigger RootOf(H, R, bound, q)} :: In(G, q) ==>
      In(H, q) && RootOf(H, R, bound, q) == RootOf(G, R, bound, q)
    ensures Forest(H, R, bound, L, low, high, Rep)
    ensures SameContent(G, H, L)
  {
    var S := PathOf(G, R, bound, x);
    var root := RootOf(G, R, bound, x);
    PathInClosed(G, R, bound, L, low, high, x);
    forall q {:trigger At(H, q)} | In(H, q) && q in L
      ensures low < At(H, q).value <= high && At(H, q).row == q.row && At(H, q).col == q.col
    {
      assert At(H, q) == if q in S then At(G, q).(parent := root) else At(G, q);
    }
    forall q {:trigger At(H, q)} | In(H, q) && q !in L
      ensures At(H, q) == Initial(q)
    {
      assert q !in S;
    }
    forall q {:trigger q in L} | q in L
      ensures In(H, q) && q in Rep && RootOf(H, R, bound, q) == Rep[q]
    {
      assert RootOf(H, R, bound, q) == RootOf(G, R, bound, q);
    }
  }

  // ---------------------------------------------------------------------
  // Writes that leave the labelled pixels alone

  /** A write to a pixel off `L` changes no labelled content. */
  lemma PutOffContent(G: Nodes, p: Pos, n: CloudNode, L: set<Pos>)
    requires In(G, p) && p !in L
    ensures SameContent(G, Put(G, p, n), L)
  {
  }

  /** Changing a parent pointer changes no content. */
  lemma ParentOnlyContent(G: Nodes, p: Pos, a: Pos, L: set<Pos>)
    requires In(G, p) && In(G, a)
    ensures SameContent(G, WithParent(G, p, a), L)
  {
  }

  /** Parent pointers that do not change keep the ranking and every root. */
  lemma RootsKept(G: Nodes, H: Nodes, R: map<Pos, nat>, bound: nat, L: set<Pos>, Rep: map<Pos, Pos>)
    requires Ranked(G, R, bound) && SameParents(G, H) && PointersIn(H)
    requires forall q {:trigger q in L} :: q in L ==> In(G, q) && q in Rep && RootOf(G, R, bound, q) == Rep[q]
    ensures Ranked(H, R, bound)
    ensures forall q {:trigger q in L} :: q in L ==> In(H, q) && q in Rep && RootOf(H, R, bound, q) == Rep[q]
  {
    SameParentsRanked(G, H, R, bound);
    forall q {:trigger q in L} | q in L
      ensures In(H, q) && RootOf(H, R, bound, q) == Rep[q]
    {
      SameParentsSameRoots(G, H, R, bound, q);
    }
  }

  // ---------------------------------------------------------------------
  // A pixel that starts a new cloud

  /** Writing label `v` and the coordinates into an unlabelled pixel `p`
      makes it a labelled root of its own. */
  lemma LabelForest(G: Nodes, H: Nodes, R: map<Pos, nat>, bound: nat, L: set<Pos>, low: int, high: int,
                    Rep: map<Pos, Pos>, p: Pos, v: int, high': int)
    requires Forest(G, R, bound, L, low, high, Rep)
    requires In(G, p) && p !in L && low < v <= high' && high <= high'
    requires H == Put(G, p, At(G, p).(value := v, row := p.row, col := p.col))
    ensures Forest(H, R, bound, L + {p}, low, high', Rep[p := p])
    ensures At(H, p) == CloudNode(v, p.row, p.col, p, p)
  {
    assert At(G, p) == Initial(p);
    PutPointers(G, p, At(G, p).(value := v, row := p.row, col := p.col));
    RootsKept(G, H, R, bound, L, Rep);
    SameParentsSameRoots(G, H, R, bound, p);
  }

  /** ... and is alone on its chain ... */
  lemma FreshChains(G: Nodes, H: Nodes, L: set<Pos>, C: map<Pos, seq<Pos>>, p: Pos, n: CloudNode)
    requires ChainsOf(G, L, C) && In(G, p) && p !in L && n.child == p
    requires H == Put(G, p, n)
    ensures ChainsOf(H, L + {p}, C[p := [p]])
  {
    PutOffContent(G, p, n, L);
    forall r | r in C
      ensures IsChain(H, C[r], L + {p})
    {
      ChainKeep(G, H, C[r], L, L, L + {p});
    }
  }

  /** ... as its own root ... */
  lemma FreshRep(L: set<Pos>, C: map<Pos, seq<Pos>>, Rep: map<Pos, Pos>, p: Pos)
    requires RepOf(L, C, Rep) && p !in L
    ensures RepOf(L + {p}, C[p := [p]], Rep[p := p])
  {
    var C' := C[p := [p]];
    var Rep' := Rep[p := p];
    forall r, k {:trigger C'[r][k]} | r in C' && 0 <= k < |C'[r]|
      ensures C'[r][k] in Rep' && Rep'[C'[r][k]] == r
    {
      if r != p {
        assert Rep[C[r][k]] == r;
      }
    }
    forall q {:trigger q in L + {p}} | q in L + {p}
      ensures q in Rep' && Rep'[q] in C' && q in C'[Rep'[q]]
    {
      if q == p {
        assert C'[p][0] == p;
      }
    }
  }

  /** ... with a label no other root has. */
  lemma FreshLabels(G: Nodes, H: Nodes, L: set<Pos>, C: map<Pos, seq<Pos>>, Rep: map<Pos, Pos>, Owner: map<int, Pos>, p: Pos, high: int)
    requires LabelsOf(G, L, C, Rep, Owner) && RepOf(L, C, Rep) && In(G, p) && p !in L
    requires forall q {:trigger q in L} :: q in L ==> In(G, q) && At(G, q).value <= high
    requires H == Put(G, p, At(G, p).(value := high + 1, row := p.row, col := p.col))
    ensures LabelsOf(H, L + {p}, C[p := [p]], Rep[p := p], Owner[high + 1 := p])
  {
    var C' := C[p := [p]];
    var Rep' := Rep[p := p];
    forall q {:trigger q in L + {p}} | q in L + {p}
      ensures In(H, q) && q in Rep' && In(H, Rep'[q]) && At(H, q).value == At(H, Rep'[q]).value
    {
      if q != p {
        assert Rep[q] in C;
      }
    }
    forall r {:trigger r in C'} | r in C'
      ensures In(H, r) && At(H, r).value in Owner[high + 1 := p] && Owner[high + 1 := p][At(H, r).value] == r
    {
      if r != p {
        assert r in L;
      }
    }
  }

  // ---------------------------------------------------------------------
  // A pixel that joins the cloud of a neighbour

  /** Redirecting the parent of a labelled pixel keeps `Closed`. */
  lemma ParentClosed(G: Nodes, L: set<Pos>, low: int, high: int, y: Pos, a: Pos)
    requires Closed(G, L, low, high) && In(G, y) && In(G, a) && y in L
    ensures Closed(WithParent(G, y, a), L, low, high)
  {
    var H := WithParent(G, y, a);
    forall q {:trigger At(H, q)} | In(H, q)
      ensures At(H, q) == if q == y then At(G, q).(parent := a) else At(G, q)
    {
    }
  }

  /** The roots once the new pixel `p`, so far a root of its own, points at
      the root `ra` of its neighbour's cloud. */
  lemma JoinRoots(G1: Nodes, G2: Nodes, R: map<Pos, nat>, bound: nat, R2: map<Pos, nat>, b2: nat,
                  L: set<Pos>, Rep: map<Pos, Pos>, p: Pos, ra: Pos)
    requires Ranked(G1, R, bound) && In(G1, p) && RootOf(G1, R, bound, p) == p && Ranked(G2, R2, b2)
    requires |G2| == |G1| && forall i :: 0 <= i < |G1| ==> |G2[i]| == |G1[i]|
    requires forall q {:trigger q in L} :: q in L ==>
      In(G1, q) && q in Rep && Rep[q] in L && RootOf(G1, R, bound, q) == Rep[q]
    requires p !in L
    requires forall q {:trigger RootOf(G2, R2, b2, q)} :: In(G1, q) ==>
      In(G2, q) && RootOf(G2, R2, b2, q) == if RootOf(G1, R, bound, q) == p then ra else RootOf(G1, R, bound, q)
    ensures forall q {:trigger q in L + {p}} :: q in L + {p} ==>
      In(G2, q) && q in Rep[p := ra] && RootOf(G2, R2, b2, q) == Rep[p := ra][q]
  {
    forall q {:trigger q in L + {p}} | q in L + {p}
      ensures In(G2, q) && q in Rep[p := ra] && RootOf(G2, R2, b2, q) == Rep[p := ra][q]
    {
      if q == p {
        assert RootOf(G2, R2, b2, p) == ra;
      } else {
        assert q in L && Rep[q] in L;
        assert RootOf(G2, R2, b2, q) == RootOf(G1, R, bound, q);
      }
    }
  }

  /** Pointing the new pixel at `ra` keeps the forest, with `ra` as the
      root of `p`. */
  lemma JoinLinked(G1: Nodes, G2: Nodes, R: map<Pos, nat>, bound: nat, R2: map<Pos, nat>, b2: nat,
                   L: set<Pos>, low: int, high: int, Rep: map<Pos, Pos>, p: Pos, ra: Pos)
    requires Forest(G1, R, bound, L + {p}, low, high, Rep[p := p])
    requires forall q {:trigger q in L} :: q in L ==> q in Rep && Rep[q] in L
    requires p !in L && In(G1, ra)
    requires G2 == WithParent(G1, p, ra) && Ranked(G2, R2, b2)
    requires forall q {:trigger RootOf(G2, R2, b2, q)} :: In(G1, q) ==>
      In(G2, q) && RootOf(G2, R2, b2, q) == if RootOf(G1, R, bound, q) == p then ra else RootOf(G1, R, bound, q)
    ensures Forest(G2, R2, b2, L + {p}, low, high, Rep[p := ra])
  {
    forall q {:trigger q in L} | q in L
      ensures In(G1, q) && RootOf(G1, R, bound, q) == Rep[q]
    {
      assert q in L + {p} && Rep[p := p][q] == Rep[q];
    }
    JoinRoots(G1, G2, R, bound, R2, b2, L, Rep, p, ra);
    ParentClosed(G1, L + {p}, low, high, p, ra);
  }

  /** Hanging the new pixel below the tail `T` of its cloud's chain changes
      no parent. */
  lemma JoinEndForest(G2: Nodes, G3: Nodes, R: map<Pos, nat>, bound: nat, L: set<Pos>, low: int, high: int,
                      Rep: map<Pos, Pos>, p: Pos, T: Pos)
    requires Forest(G2, R, bound, L, low, high, Rep) && T in L && In(G2, p)
    requires G3 == Put(G2, T, At(G2, T).(child := p))
    ensures Forest(G3, R, bound, L, low, high, Rep)
  {
    PutPointers(G2, T, At(G2, T).(child := p));
    RootsKept(G2, G3, R, bound, L, Rep);
  }

  /** The chain of `ra` grows by `p`. */
  lemma JoinEndChain(G2: Nodes, G3: Nodes, L: set<Pos>, s: seq<Pos>, p: Pos)
    requires IsChain(G2, s, L) && p !in L && In(G2, p) && At(G2, p).child == p
    requires G3 == Put(G2, Last(s), At(G2, Last(s)).(child := p))
    ensures IsChain(G3, s + [p], L + {p})
  {
    var T := Last(s);
    var s' := s + [p];
    assert T == s[|s| - 1];
    forall k {:trigger s'[k]} | 0 <= k < |s'|
      ensures s'[k] in L + {p} && In(G3, s'[k])
    {
      if k < |s| { assert s[k] in L; }
    }
    forall i, j {:trigger s'[i], s'[j]} | 0 <= i < j < |s'|
      ensures s'[i] != s'[j]
    {
      if j < |s| { assert s[i] != s[j]; } else { assert s[i] in L; }
    }
    forall i, j {:trigger s'[i], s'[j]} | 0 <= i && j == i + 1 && j < |s'|
      ensures At(G3, s'[i]).child == s'[j]
    {
      if j < |s| {
        assert s[i] != T by {
          assert s[i] != s[|s| - 1];
        }
        assert At(G2, s[i]).child == s[j];
      }
    }
  }

  /** The other chains do not pass through the tail `T` of `ra`'s chain. */
  lemma JoinEndChains(G2: Nodes, G3: Nodes, L: set<Pos>, C: map<Pos, seq<Pos>>, Rep: map<Pos, Pos>, p: Pos, ra: Pos)
    requires ChainsOf(G2, L, C) && RepOf(L, C, Rep) && p !in L && ra in C && In(G2, p)
    requires G3 == Put(G2, Last(C[ra]), At(G2, Last(C[ra])).(child := p))
    requires IsChain(G3, C[ra] + [p], L + {p})
    ensures ChainsOf(G3, L + {p}, C[ra := C[ra] + [p]])
  {
    var T := Last(C[ra]);
    var L' := L + {p};
    assert T == C[ra][|C[ra]| - 1] && Rep[T] == ra;
    forall r | r in C && r != ra
      ensures IsChain(G3, C[r], L')
    {
      forall k {:trigger C[r][k]} | 0 <= k < |C[r]|
        ensures C[r][k] in L - {T}
      {
        assert Rep[C[r][k]] == r;
      }
      ChainKeep(G2, G3, C[r], L, L - {T}, L');
    }
  }

  /** `p` joins the root `ra`. */
  lemma JoinRep(L: set<Pos>, C: map<Pos, seq<Pos>>, Rep: map<Pos, Pos>, p: Pos, ra: Pos)
    requires RepOf(L, C, Rep) && p !in L && ra in C
    ensures RepOf(L + {p}, C[ra := C[ra] + [p]], Rep[p := ra])
  {
    var C' := C[ra := C[ra] + [p]];
    var Rep' := Rep[p := ra];
    forall r, k {:trigger C'[r][k]} | r in C' && 0 <= k < |C'[r]|
      ensures C'[r][k] in Rep' && Rep'[C'[r][k]] == r
    {
      if r != ra || k < |C[ra]| {
        assert C'[r][k] == C[r][k] && Rep[C[r][k]] == r;
      }
    }
    forall q {:trigger q in L + {p}} | q in L + {p}
      ensures q in Rep' && Rep'[q] in C' && q in C'[Rep'[q]]
    {
      if q == p {
        assert C'[ra][|C[ra]|] == p;
      } else {
        assert q in C[Rep[q]];
      }
    }
  }

  /** Hanging `p` changes no label, and `p` carries the label of `ra`. */
  lemma JoinEndLabels(G2: Nodes, G3: Nodes, L: set<Pos>, C: map<Pos, seq<Pos>>, Rep: map<Pos, Pos>, Owner: map<int, Pos>, p: Pos, ra: Pos, T: Pos)
    requires LabelsOf(G2, L, C, Rep, Owner) && p !in L && ra in C && In(G2, ra) && In(G2, T)
    requires In(G2, p) && At(G2, p).value == At(G2, ra).value
    requires G3 == Put(G2, T, At(G2, T).(child := p))
    ensures LabelsOf(G3, L + {p}, C[ra := C[ra] + [p]], Rep[p := ra], Owner)
  {
    var C' := C[ra := C[ra] + [p]];
    var Rep' := Rep[p := ra];
    forall q {:trigger q in L + {p}} | q in L + {p}
      ensures In(G3, q) && q in Rep' && In(G3, Rep'[q]) && At(G3, q).value == At(G3, Rep'[q]).value
    {
      if q != p {
        assert At(G3, q).value == At(G2, q).value;
        assert At(G3, Rep[q]).value == At(G2, Rep[q]).value;
      } else {
        assert At(G3, ra).value == At(G2, ra).value;
      }
    }
    forall r {:trigger r in C'} | r in C'
      ensures In(G3, r) && At(G3, r).value in Owner && Owner[At(G3, r).value] == r
    {
      assert At(G3, r).value == At(G2, r).value;
    }
  }

  // ---------------------------------------------------------------------
  // Merging the cloud of root `rb` into the cloud of root `ra`

  /** The chains once `p` is hung at the end of the chain of `ra`. */
  ghost function Hung(C: map<Pos, seq<Pos>>, ra: Pos, p: Pos): map<Pos, seq<Pos>>
    requires ra in C
  {
    C[ra := C[ra] + [p]]
  }

  /** Every pixel whose root was `rb` gets the root `ra`. */
  ghost function Relink(Rep: map<Pos, Pos>, rb: Pos, ra: Pos): (Rep': map<Pos, Pos>)
    ensures Rep'.Keys == Rep.Keys
    ensures forall q {:trigger Rep'[q]} :: q in Rep ==> Rep'[q] == if Rep[q] == rb then ra else Rep[q]
  {
    map q | q in Rep :: if Rep[q] == rb then ra else Rep[q]
  }

  /** The chains after a merge: `rb`'s chain is appended to `ra`'s. */
  ghost function Spliced(C: map<Pos, seq<Pos>>, ra: Pos, rb: Pos): map<Pos, seq<Pos>>
    requires ra in C && rb in C
  {
    C[ra := C[ra] + C[rb]] - {rb}
  }

  /** `Rep'` sends every pixel of the cloud `rb` to `ra` and leaves the
      others alone. */
  ghost predicate Relinked(Rep: map<Pos, Pos>, Rep': map<Pos, Pos>, rb: Pos, ra: Pos) {
    forall q {:trigger q in Rep} :: q in Rep ==> q in Rep' && Rep'[q] == if Rep[q] == rb then ra else Rep[q]
  }

  lemma RelinkRelinked(Rep: map<Pos, Pos>, rb: Pos, ra: Pos)
    ensures Relinked(Rep, Relink(Rep, rb, ra), rb, ra)
  {
  }

  /** Chains hold only labelled pixels. */
  lemma ChainInL(L: set<Pos>, C: map<Pos, seq<Pos>>, Rep: map<Pos, Pos>, r: Pos)
    requires RepOf(L, C, Rep) && r in C
    ensures forall q {:trigger q in C[r]} :: q in C[r] ==> q in L
  {
    forall q | q in C[r]
      ensures q in L
    {
      var k :| 0 <= k < |C[r]| && C[r][k] == q;
    }
  }

  /** A labelled pixel lies on the chain of root `r` exactly when `r` is
      its root. */
  lemma OnChain(L: set<Pos>, C: map<Pos, seq<Pos>>, Rep: map<Pos, Pos>, r: Pos, q: Pos)
    requires RepOf(L, C, Rep) && r in C && q in L
    ensures q in C[r] <==> Rep[q] == r
  {
    if q in C[r] {
      var k :| 0 <= k < |C[r]| && C[r][k] == q;
    }
  }

  /** `Union_child(tail of ra's chain, rb)` walks exactly the chain of `rb`:
      hooking it below the tail does not disturb it. */
  lemma MergeWalk(G: Nodes, L: set<Pos>, C: map<Pos, seq<Pos>>, Rep: map<Pos, Pos>, ra: Pos, rb: Pos)
    requires PointersIn(G) && Rectangular(G) && ChainsOf(G, L, C) && RepOf(L, C, Rep)
    requires ra in C && rb in C && ra != rb
    ensures In(G, Last(C[ra])) && In(G, rb)
    ensures ChainNodes(WithChild(G, Last(C[ra]), rb), rb, NodeCount(G)) == C[rb]
    ensures ChainTail(WithChild(G, Last(C[ra]), rb), rb, NodeCount(G)) == Some(Last(C[rb]))
  {
    var T := Last(C[ra]);
    assert T == C[ra][|C[ra]| - 1] && Rep[T] == ra;
    assert C[rb][0] == rb;
    var W := WithChild(G, T, rb);
    forall k {:trigger C[rb][k]} | 0 <= k < |C[rb]|
      ensures C[rb][k] in L - {T}
    {
      assert Rep[C[rb][k]] == rb;
    }
    PutOffContent(G, T, At(G, T).(child := rb), L - {T});
    ChainKeep(G, W, C[rb], L, L - {T}, L);
    assert Rectangular(W) by {
      assert forall i :: 0 <= i < |W| ==> |W[i]| == |G[i]|;
    }
    ChainFits(W, C[rb], L);
    ChainWalk(W, C[rb], L, 0, NodeCount(G));
    assert C[rb][0..] == C[rb];
  }

  /** The merge's relabelling keeps `Closed`: `rb`'s pixels get the label
      `v` of a labelled pixel. */
  lemma MergeClosed(G: Nodes, G2: Nodes, L: set<Pos>, low: int, high: int, C: map<Pos, seq<Pos>>, Rep: map<Pos, Pos>,
                    T: Pos, rb: Pos)
    requires Closed(G, L, low, high) && RepOf(L, C, Rep) && rb in C && T in L && In(G, rb)
    requires Relabelled(WithChild(G, T, rb), G2, C[rb], At(G, T).value)
    ensures Closed(G2, L, low, high)
  {
    var W := WithChild(G, T, rb);
    forall q {:trigger At(G2, q)} | In(G2, q)
      ensures At(G2, q) == if q in C[rb] then At(W, q).(value := At(G, T).value) else At(W, q)
    {
    }
    ChainInL(L, C, Rep, rb);
  }

  /** ... and every parent pointer, hence the forest. */
  lemma MergeForest(G: Nodes, G2: Nodes, R: map<Pos, nat>, bound: nat, L: set<Pos>, low: int, high: int,
                    C: map<Pos, seq<Pos>>, Rep: map<Pos, Pos>, ra: Pos, rb: Pos)
    requires Forest(G, R, bound, L, low, high, Rep) && RepOf(L, C, Rep) && ra in C && rb in C
    requires Relabelled(WithChild(G, Last(C[ra]), rb), G2, C[rb], At(G, Last(C[ra])).value)
    ensures Forest(G2, R, bound, L, low, high, Rep)
  {
    var T := Last(C[ra]);
    assert T == C[ra][|C[ra]| - 1] && T in L;
    var W := WithChild(G, T, rb);
    var v := At(G, T).value;
    ChildRelabelSameParents(G, G2, T, rb, C[rb], v);
    RelabelledSameLinks(W, G2, C[rb], v);
    SameLinksPointersIn(W, G2);
    RootsKept(G, G2, R, bound, L, Rep);
    MergeClosed(G, G2, L, low, high, C, Rep, T, rb);
  }

  /** The chain of `ra` followed by the chain of `rb` is a chain once the
      tail of the first points at `rb`. */
  lemma MergedChain(G: Nodes, G2: Nodes, L: set<Pos>, C: map<Pos, seq<Pos>>, Rep: map<Pos, Pos>, ra: Pos, rb: Pos, v: int)
    requires ChainsOf(G, L, C) && RepOf(L, C, Rep) && ra in C && rb in C && ra != rb
    requires Relabelled(WithChild(G, Last(C[ra]), rb), G2, C[rb], v)
    ensures IsChain(G2, C[ra] + C[rb], L)
  {
    var a, b := C[ra], C[rb];
    var s := a + b;
    forall k {:trigger s[k]} | 0 <= k < |s|
      ensures s[k] in L && In(G2, s[k])
    {
      if k < |a| { assert a[k] in L; } else { assert b[k - |a|] in L; }
    }
    MergedDistinct(G, L, C, Rep, ra, rb);
    MergedLinked(G, G2, L, C, Rep, ra, rb, v);
    assert Last(s) == Last(b) == b[|b| - 1];
    assert Rep[Last(b)] == rb;
  }

  /** Two different chains share no pixel, so their concatenation repeats none. */
  lemma MergedDistinct(G: Nodes, L: set<Pos>, C: map<Pos, seq<Pos>>, Rep: map<Pos, Pos>, ra: Pos, rb: Pos)
    requires ChainsOf(G, L, C) && RepOf(L, C, Rep) && ra in C && rb in C && ra != rb
    ensures forall i, j {:trigger (C[ra] + C[rb])[i], (C[ra] + C[rb])[j]} :: 0 <= i < j < |C[ra] + C[rb]| ==>
              (C[ra] + C[rb])[i] != (C[ra] + C[rb])[j]
  {
    var a, b := C[ra], C[rb];
    var s := a + b;
    assert IsChain(G, a, L) && IsChain(G, b, L);
    forall i, j {:trigger s[i], s[j]} | 0 <= i < j < |s|
      ensures s[i] != s[j]
    {
      if j < |a| {
        assert a[i] != a[j];
      } else if |a| <= i {
        assert b[i - |a|] != b[j - |a|];
      } else {
        assert Rep[a[i]] == ra && Rep[b[j - |a|]] == rb;
      }
    }
  }

  /** After the tail of `ra`'s chain points at `rb`, each pixel of the
      concatenated chains points at the next. */
  lemma MergedLinked(G: Nodes, G2: Nodes, L: set<Pos>, C: map<Pos, seq<Pos>>, Rep: map<Pos, Pos>, ra: Pos, rb: Pos, v: int)
    requires ChainsOf(G, L, C) && RepOf(L, C, Rep) && ra in C && rb in C && ra != rb
    requires Relabelled(WithChild(G, Last(C[ra]), rb), G2, C[rb], v)
    ensures forall i, j {:trigger (C[ra] + C[rb])[i], (C[ra] + C[rb])[j]} :: 0 <= i && j == i + 1 && j < |C[ra] + C[rb]| ==>
              At(G2, (C[ra] + C[rb])[i]).child == (C[ra] + C[rb])[j]
  {
    var T := Last(C[ra]);
    var a, b := C[ra], C[rb];
    var s := a + b;
    assert IsChain(G, a, L) && IsChain(G, b, L);
    assert T == a[|a| - 1] && b[0] == rb;
    forall i, j {:trigger s[i], s[j]} | 0 <= i && j == i + 1 && j < |s|
      ensures At(G2, s[i]).child == s[j]
    {
      if j < |a| {
        assert a[i] != T by {
          assert a[i] != a[|a| - 1];
        }
        assert At(G, a[i]).child == a[j];
      } else if j == |a| {
        assert s[i] == T;
      } else {
        assert Rep[b[i - |a|]] == rb;
        assert At(G, b[i - |a|]).child == b[j - |a|];
      }
    }
  }

  /** The chains after the merge. */
  lemma MergeChains(G: Nodes, G2: Nodes, L: set<Pos>, C: map<Pos, seq<Pos>>, Rep: map<Pos, Pos>, ra: Pos, rb: Pos, v: int)
    requires ChainsOf(G, L, C) && RepOf(L, C, Rep) && ra in C && rb in C && ra != rb
    requires Relabelled(WithChild(G, Last(C[ra]), rb), G2, C[rb], v)
    ensures ChainsOf(G2, L, Spliced(C, ra, rb))
  {
    OtherChainsKept(G, G2, L, C, Rep, ra, rb, v);
    MergedChain(G, G2, L, C, Rep, ra, rb, v);
  }

  /** The merge leaves every chain other than those of `ra` and `rb` as it was. */
  lemma OtherChainsKept(G: Nodes, G2: Nodes, L: set<Pos>, C: map<Pos, seq<Pos>>, Rep: map<Pos, Pos>, ra: Pos, rb: Pos, v: int)
    requires ChainsOf(G, L, C) && RepOf(L, C, Rep) && ra in C && rb in C && ra != rb
    requires Relabelled(WithChild(G, Last(C[ra]), rb), G2, C[rb], v)
    ensures forall r {:trigger r in C} :: r in C && r != ra && r != rb ==> IsChain(G2, C[r], L)
  {
    var T := Last(C[ra]);
    assert T == C[ra][|C[ra]| - 1] && Rep[T] == ra;
    var K := set q | q in L && Rep[q] != ra && Rep[q] != rb;
    forall q {:trigger At(G2, q)} | q in K && In(G, q)
      ensures At(G2, q).value == At(G, q).value && At(G2, q).child == At(G, q).child
    {
      OnChain(L, C, Rep, rb, q);
    }
    assert SameContent(G, G2, K);
    forall r | r in C && r != ra && r != rb
      ensures IsChain(G2, C[r], L)
    {
      forall k {:trigger C[r][k]} | 0 <= k < |C[r]|
        ensures C[r][k] in K
      {
        assert Rep[C[r][k]] == r;
      }
      ChainKeep(G, G2, C[r], L, K, L);
    }
  }

  /** The roots after the merge. */
  lemma MergeRep(L: set<Pos>, C: map<Pos, seq<Pos>>, Rep: map<Pos, Pos>, ra: Pos, rb: Pos)
    requires RepOf(L, C, Rep) && ra in C && rb in C && ra != rb
    ensures RepOf(L, Spliced(C, ra, rb), Relink(Rep, rb, ra))
  {
    var C' := Spliced(C, ra, rb);
    var Rep' := Relink(Rep, rb, ra);
    forall r, k {:trigger C'[r][k]} | r in C' && 0 <= k < |C'[r]|
      ensures C'[r][k] in L && C'[r][k] in Rep' && Rep'[C'[r][k]] == r
    {
      if r != ra {
        assert Rep[C[r][k]] == r;
      } else if k < |C[ra]| {
        assert C'[r][k] == C[ra][k] && Rep[C[ra][k]] == ra;
      } else {
        assert C'[r][k] == C[rb][k - |C[ra]|] && Rep[C[rb][k - |C[ra]|]] == rb;
      }
    }
    forall q {:trigger q in L} | q in L
      ensures q in Rep' && Rep'[q] in C' && q in C'[Rep'[q]]
    {
      var k :| 0 <= k < |C[Rep[q]]| && C[Rep[q]][k] == q;
      if Rep[q] == rb {
        assert C'[ra][|C[ra]| + k] == q;
      } else if Rep[q] == ra {
        assert C'[ra][k] == q;
      }
    }
  }

  /** The labels after the merge: `rb`'s pixels now carry `ra`'s label. */
  lemma MergeLabels(G: Nodes, G2: Nodes, L: set<Pos>, C: map<Pos, seq<Pos>>, Rep: map<Pos, Pos>, Owner: map<int, Pos>, ra: Pos, rb: Pos)
    requires LabelsOf(G, L, C, Rep, Owner) && RepOf(L, C, Rep) && ra in C && rb in C && ra != rb
    requires Relabelled(WithChild(G, Last(C[ra]), rb), G2, C[rb], At(G, Last(C[ra])).value)
    ensures LabelsOf(G2, L, Spliced(C, ra, rb), Relink(Rep, rb, ra), Owner)
  {
    var T := Last(C[ra]);
    assert T == C[ra][|C[ra]| - 1] && Rep[T] == ra && T in L;
    var v := At(G, T).value;
    var C' := Spliced(C, ra, rb);
    var Rep' := Relink(Rep, rb, ra);
    OnChain(L, C, Rep, rb, ra);
    forall q {:trigger q in L} | q in L
      ensures In(G2, q) && q in Rep' && In(G2, Rep'[q]) && At(G2, q).value == At(G2, Rep'[q]).value
    {
      OnChain(L, C, Rep, rb, q);
      assert Rep[q] in C && Rep[q] in L;
      OnChain(L, C, Rep, rb, Rep[q]);
    }
    forall r {:trigger r in C'} | r in C'
      ensures In(G2, r) && At(G2, r).value in Owner && Owner[At(G2, r).value] == r
    {
      OnChain(L, C, Rep, rb, r);
    }
  }

  /** `Find(absorbed)->parent = Find(kept)`: the root `rb` hangs below `ra`,
      and the forest now has the merged roots. */
  lemma MergeLinked(G4: Nodes, G5: Nodes, R: map<Pos, nat>, bound: nat, R5: map<Pos, nat>, b5: nat,
                    L: set<Pos>, low: int, high: int, Rep: map<Pos, Pos>, ra: Pos, rb: Pos)
    requires Forest(G4, R, bound, L, low, high, Rep) && rb in L && ra in L
    requires G5 == WithParent(G4, rb, ra) && Ranked(G5, R5, b5)
    requires forall q {:trigger RootOf(G5, R5, b5, q)} :: In(G4, q) ==>
      In(G5, q) && RootOf(G5, R5, b5, q) == if RootOf(G4, R, bound, q) == rb then ra else RootOf(G4, R, bound, q)
    ensures Forest(G5, R5, b5, L, low, high, Relink(Rep, rb, ra))
  {
    var Rep' := Relink(Rep, rb, ra);
    forall q {:trigger q in L} | q in L
      ensures In(G5, q) && q in Rep' && RootOf(G5, R5, b5, q) == Rep'[q]
    {
      assert RootOf(G5, R5, b5, q) == if RootOf(G4, R, bound, q) == rb then ra else RootOf(G4, R, bound, q);
    }
    ParentClosed(G4, L, low, high, rb, ra);
  }

  /** Pixels of `L` that share a root under `Rep` still share one under
      `Rep'`: clouds are only ever merged. */
  ghost predicate Coarser(L: set<Pos>, Rep: map<Pos, Pos>, Rep': map<Pos, Pos>) {
    forall q1, q2 {:trigger Rep'[q1], Rep'[q2]} {:trigger Rep[q1], Rep[q2]} ::
      q1 in L && q2 in L && q1 in Rep && q2 in Rep && Rep[q1] == Rep[q2] ==>
        q1 in Rep' && q2 in Rep' && Rep'[q1] == Rep'[q2]
  }

  /** Relinking one root below another only merges clouds. */
  lemma RelinkedCoarser(L: set<Pos>, Rep: map<Pos, Pos>, Rep': map<Pos, Pos>, rb: Pos, ra: Pos)
    requires Relinked(Rep, Rep', rb, ra)
    ensures Coarser(L, Rep, Rep')
  {
  }

  /** Merging clouds keeps labelled neighbours together. */
  lemma CoarserJoined(L: set<Pos>, L': set<Pos>, Rep: map<Pos, Pos>, Rep': map<Pos, Pos>)
    requires Joined(L, Rep) && Coarser(L', Rep, Rep') && L <= L'
    ensures Joined(L, Rep')
  {
    forall q1, q2 | q1 in L && q2 in L && Adjacent(q1, q2)
      ensures q1 in Rep' && q2 in Rep' && Rep'[q1] == Rep'[q2]
    {
      assert Rep[q1] == Rep[q2];
    }
  }

  /** Coarsening twice is coarsening. */
  lemma CoarserTrans(L: set<Pos>, Rep1: map<Pos, Pos>, Rep2: map<Pos, Pos>, Rep3: map<Pos, Pos>)
    requires Coarser(L, Rep1, Rep2) && Coarser(L, Rep2, Rep3)
    ensures Coarser(L, Rep1, Rep3)
  {
    forall q1, q2 | q1 in L && q2 in L && q1 in Rep1 && q2 in Rep1 && Rep1[q1] == Rep1[q2]
      ensures q1 in Rep3 && q2 in Rep3 && Rep3[q1] == Rep3[q2]
    {
      assert Rep2[q1] == Rep2[q2];
    }
  }

  // ---------------------------------------------------------------------
  // The steps of the first pass on the node array

  /** The proof's record of the first pass: ranks `R` under `bound`, the
      labelled pixels `L`, the chain `C[r]` of every root `r` and the root
      `Rep[q]` of every labelled pixel `q`. */
  datatype Book = Book(R: map<Pos, nat>, bound: nat, L: set<Pos>, C: map<Pos, seq<Pos>>, Rep: map<Pos, Pos>,
                       Owner: map<int, Pos>)

  /** The node grid agrees with the record, labels lying in (`low`, `high`]. */
  ghost predicate Labelling(G: Nodes, bk: Book, low: int, high: int) {
    Rectangular(G) && Forest(G, bk.R, bk.bound, bk.L, low, high, bk.Rep) && Threads(G, bk.L, bk.C, bk.Rep, bk.Owner)
  }

  /** The parts of a labelling, put together. */
  lemma Assemble(G: Nodes, R: map<Pos, nat>, bound: nat, L: set<Pos>, low: int, high: int, C: map<Pos, seq<Pos>>,
                 Rep: map<Pos, Pos>, Owner: map<int, Pos>)
    requires Rectangular(G) && Forest(G, R, bound, L, low, high, Rep) && Threads(G, L, C, Rep, Owner)
    ensures Labelling(G, Book(R, bound, L, C, Rep, Owner), low, high)
  {
  }

  /** A node that is its own root is its own parent. */
  lemma OwnRoot(G: Nodes, R: map<Pos, nat>, bound: nat, p: Pos)
    requires Ranked(G, R, bound) && In(G, p) && RootOf(G, R, bound, p) == p
    ensures At(G, p).parent == p
  {
    PathShareRoot(G, R, bound, p);
  }

  /** `cloud[row][col].value = v; .row = row; .col = col` for an unlabelled
      cloud pixel `p`. */
  method WriteLabel(cloud: array2<CloudNode>, p: Pos, v: int, ghost bk: Book, ghost low: int, ghost high: int, ghost high': int)
    requires Labelling(Snapshot(cloud), bk, low, high)
    requires In(Snapshot(cloud), p) && p !in bk.L && low < v <= high' && high <= high'
    modifies cloud
    ensures Rectangular(Snapshot(cloud)) && In(Snapshot(cloud), p)
    ensures Forest(Snapshot(cloud), bk.R, bk.bound, bk.L + {p}, low, high', bk.Rep[p := p])
    ensures Threads(Snapshot(cloud), bk.L, bk.C, bk.Rep, bk.Owner)
    ensures At(Snapshot(cloud), p) == CloudNode(v, p.row, p.col, p, p)
    ensures SameContent(old(Snapshot(cloud)), Snapshot(cloud), bk.L)
  {
    ghost var G0 := Snapshot(cloud);
    var n := cloud[p.row, p.col].(value := v, row := p.row, col := p.col);
    Store(cloud, p, n);
    LabelForest(G0, Snapshot(cloud), bk.R, bk.bound, bk.L, low, high, bk.Rep, p, v, high');
    PutOffContent(G0, p, n, bk.L);
    ThreadsKeep(G0, Snapshot(cloud), bk.L, bk.C, bk.Rep, bk.Owner);
  }

  /** `Find(x)` inside the first pass: it returns the root `Rep[x]` and
      keeps the forest (over `LF`) and the chains (over `LT`). */
  method FindRoot(cloud: array2<CloudNode>, x: Pos, ghost R: map<Pos, nat>, ghost bound: nat,
                  ghost LF: set<Pos>, ghost low: int, ghost high: int, ghost RepF: map<Pos, Pos>,
                  ghost LT: set<Pos>, ghost C: map<Pos, seq<Pos>>, ghost Rep: map<Pos, Pos>, ghost Owner: map<int, Pos>)
    returns (root: Pos)
    requires Rectangular(Snapshot(cloud)) && Forest(Snapshot(cloud), R, bound, LF, low, high, RepF)
    requires Threads(Snapshot(cloud), LT, C, Rep, Owner) && LT <= LF && x in LF
    modifies cloud
    ensures root == RepF[x] && In(Snapshot(cloud), root) && At(Snapshot(cloud), root).parent == root
    ensures Rectangular(Snapshot(cloud)) && Forest(Snapshot(cloud), R, bound, LF, low, high, RepF)
    ensures Threads(Snapshot(cloud), LT, C, Rep, Owner)
    ensures SameContent(old(Snapshot(cloud)), Snapshot(cloud), LF)
  {
    ghost var G0 := Snapshot(cloud);
    root := Find(cloud, x, R, bound);
    FindKeeps(G0, Snapshot(cloud), R, bound, LF, low, high, RepF, x);
    ThreadsKeep(G0, Snapshot(cloud), LT, C, Rep, Owner);
  }

  /** `cloud[row][col].parent = Find(nb)`, the found root being `ra`. */
  method LinkJoin(cloud: array2<CloudNode>, p: Pos, ra: Pos, ghost bk: Book, ghost low: int, ghost high: int)
    returns (ghost R2: map<Pos, nat>, ghost b2: nat)
    requires Rectangular(Snapshot(cloud)) && Forest(Snapshot(cloud), bk.R, bk.bound, bk.L + {p}, low, high, bk.Rep[p := p])
    requires Threads(Snapshot(cloud), bk.L, bk.C, bk.Rep, bk.Owner) && p !in bk.L && ra in bk.C
    requires At(Snapshot(cloud), ra).parent == ra
    modifies cloud
    ensures Rectangular(Snapshot(cloud)) && Forest(Snapshot(cloud), R2, b2, bk.L + {p}, low, high, bk.Rep[p := ra])
    ensures Threads(Snapshot(cloud), bk.L, bk.C, bk.Rep, bk.Owner)
    ensures SameContent(old(Snapshot(cloud)), Snapshot(cloud), bk.L + {p})
  {
    ghost var G0 := Snapshot(cloud);
    assert In(G0, p) && RootOf(G0, bk.R, bk.bound, p) == p;
    OwnRoot(G0, bk.R, bk.bound, p);
    assert forall q {:trigger q in bk.L} :: q in bk.L ==> q in bk.Rep && bk.Rep[q] in bk.L by {
      forall q {:trigger q in bk.L} | q in bk.L
        ensures q in bk.Rep && bk.Rep[q] in bk.L
      {
        assert bk.Rep[q] in bk.C;
      }
    }
    R2, b2 := Link(cloud, p, ra, bk.R, bk.bound);
    JoinLinked(G0, Snapshot(cloud), bk.R, bk.bound, R2, b2, bk.L, low, high, bk.Rep, p, ra);
    ParentOnlyContent(G0, p, ra, bk.L + {p});
    ThreadsKeep(G0, Snapshot(cloud), bk.L, bk.C, bk.Rep, bk.Owner);
  }

  /** `Find_child(nb)->child = p`: the new pixel goes to the end of the
      chain of `ra`, the root of `nb`. */
  method HangBelow(cloud: array2<CloudNode>, nb: Pos, p: Pos, ra: Pos, ghost R: map<Pos, nat>, ghost bound: nat,
                   ghost bk: Book, ghost low: int, ghost high: int)
    requires Rectangular(Snapshot(cloud)) && Forest(Snapshot(cloud), R, bound, bk.L + {p}, low, high, bk.Rep[p := ra])
    requires Threads(Snapshot(cloud), bk.L, bk.C, bk.Rep, bk.Owner) && p !in bk.L && nb in bk.L && ra in bk.C && bk.Rep[nb] == ra
    requires In(Snapshot(cloud), p) && In(Snapshot(cloud), ra) && At(Snapshot(cloud), p).child == p
    requires At(Snapshot(cloud), p).value == At(Snapshot(cloud), ra).value
    modifies cloud
    ensures Labelling(Snapshot(cloud), Book(R, bound, bk.L + {p}, Hung(bk.C, ra, p), bk.Rep[p := ra], bk.Owner), low, high)
    ensures In(Snapshot(cloud), p) && At(Snapshot(cloud), p).value == old(At(Snapshot(cloud), p).value)
  {
    ghost var G3 := Snapshot(cloud);
    ghost var L, C, Rep := bk.L, bk.C, bk.Rep;
    var tail := FindChild(cloud, nb);
    TailOf(G3, L, C, Rep, nb);
    var T := tail.value;
    Store(cloud, T, cloud[T.row, T.col].(child := p));
    ghost var G4 := Snapshot(cloud);
    assert ra in C && ra in L;
    JoinEndForest(G3, G4, R, bound, L + {p}, low, high, Rep[p := ra], p, T);
    assert C[ra][0] == ra && IsChain(G3, C[ra], L);
    JoinEndChain(G3, G4, L, C[ra], p);
    JoinEndChains(G3, G4, L, C, Rep, p, ra);
    JoinRep(L, C, Rep, p, ra);
    JoinEndLabels(G3, G4, L, C, Rep, bk.Owner, p, ra, T);
    Assemble(G4, R, bound, L + {p}, low, high, Hung(C, ra, p), Rep[p := ra], bk.Owner);
  }

  /** The `else` branch of the first pass for the pixel `p` whose least
      labelled neighbour `nb` has label `min`: `p` takes the label `min`
      and its coordinates, its parent becomes `Find(nb)`, and
      `Find_child(nb)->child = p` hangs it at the end of that cloud's
      chain. */
  method Join(cloud: array2<CloudNode>, p: Pos, nb: Pos, min: int, ghost bk: Book, ghost low: int, ghost high: int)
    returns (ghost bk': Book)
    requires Labelling(Snapshot(cloud), bk, low, high)
    requires In(Snapshot(cloud), p) && p !in bk.L && nb in bk.L && At(Snapshot(cloud), nb).value == min
    modifies cloud
    ensures Labelling(Snapshot(cloud), bk', low, high) && bk'.L == bk.L + {p}
    ensures nb in bk.Rep && bk'.Rep == bk.Rep[p := bk.Rep[nb]]
    ensures At(Snapshot(cloud), p).value == min
  {
    ghost var ra0 := bk.Rep[nb];
    assert ra0 in bk.C && ra0 in bk.L && ra0 != p;
    assert At(Snapshot(cloud), ra0).value == min;
    WriteLabel(cloud, p, min, bk, low, high, high);
    ghost var G1 := Snapshot(cloud);
    assert At(G1, ra0).value == min;
    var ra := FindRoot(cloud, nb, bk.R, bk.bound, bk.L + {p}, low, high, bk.Rep[p := p], bk.L, bk.C, bk.Rep, bk.Owner);
    ghost var G2 := Snapshot(cloud);
    assert ra == ra0 && At(G2, ra).value == min && At(G2, p).value == min;
    ghost var R', bound' := LinkJoin(cloud, p, ra, bk, low, high);
    ghost var G3 := Snapshot(cloud);
    assert At(G3, ra).value == min && At(G3, p).value == min && At(G3, p).child == p;
    HangBelow(cloud, nb, p, ra, R', bound', bk, low, high);
    bk' := Book(R', bound', bk.L + {p}, Hung(bk.C, ra, p), bk.Rep[p := ra], bk.Owner);
  }

  /** `Union_child(Find_child(keep), Find(absorb))` once both calls have
      returned: the chain of `rb` is hung below the tail `T` of the chain of
      `ra` and relabelled with the label of `T`. */
  method UnionChains(cloud: array2<CloudNode>, T: Pos, rb: Pos, ghost ra: Pos, ghost bk: Book, ghost low: int, ghost high: int)
    requires Labelling(Snapshot(cloud), bk, low, high)
    requires ra in bk.C && rb in bk.C && ra != rb && T == Last(bk.C[ra])
    modifies cloud
    ensures Rectangular(Snapshot(cloud)) && Forest(Snapshot(cloud), bk.R, bk.bound, bk.L, low, high, bk.Rep)
    ensures Threads(Snapshot(cloud), bk.L, Spliced(bk.C, ra, rb), Relink(bk.Rep, rb, ra), bk.Owner)
    ensures In(Snapshot(cloud), ra) && At(Snapshot(cloud), ra).value == old(At(Snapshot(cloud), ra).value)
  {
    ghost var G := Snapshot(cloud);
    MergeWalk(G, bk.L, bk.C, bk.Rep, ra, rb);
    var ok := UnionChild(cloud, T, rb);
    UnionKept(G, Snapshot(cloud), bk, low, high, T, rb, ra);
  }

  /** What `UnionChains` keeps, stated on the node grids before (`G`) and
      after (`G2`) the splice. */
  lemma UnionKept(G: Nodes, G2: Nodes, bk: Book, low: int, high: int, T: Pos, rb: Pos, ra: Pos)
    requires Labelling(G, bk, low, high)
    requires ra in bk.C && rb in bk.C && ra != rb && T == Last(bk.C[ra]) && In(G, T) && In(G, rb)
    requires Rectangular(G2) && Relabelled(WithChild(G, T, rb), G2, bk.C[rb], At(G, T).value)
    ensures Forest(G2, bk.R, bk.bound, bk.L, low, high, bk.Rep)
    ensures Threads(G2, bk.L, Spliced(bk.C, ra, rb), Relink(bk.Rep, rb, ra), bk.Owner)
    ensures In(G2, ra) && At(G2, ra).value == At(G, ra).value
  {
    var L, C, Rep := bk.L, bk.C, bk.Rep;
    MergeForest(G, G2, bk.R, bk.bound, L, low, high, C, Rep, ra, rb);
    MergeChains(G, G2, L, C, Rep, ra, rb, At(G, T).value);
    MergeRep(L, C, Rep, ra, rb);
    MergeLabels(G, G2, L, C, Rep, bk.Owner, ra, rb);
    OnChain(L, C, Rep, rb, ra);
    assert At(G2, ra).value == At(G, ra).value by {
      assert At(G2, ra) == At(WithChild(G, T, rb), ra);
    }
  }

  /** `Find(absorb)->parent = Find(keep)` once both calls have returned
      the roots `rb` and `ra`; the chains (`C`, `RepT`) are already
      spliced. */
  method LinkMerge(cloud: array2<CloudNode>, rb: Pos, ra: Pos, ghost R: map<Pos, nat>, ghost bound: nat,
                   ghost L: set<Pos>, ghost low: int, ghost high: int, ghost Rep: map<Pos, Pos>,
                   ghost C: map<Pos, seq<Pos>>, ghost RepT: map<Pos, Pos>, ghost Owner: map<int, Pos>)
    returns (ghost R5: map<Pos, nat>, ghost b5: nat)
    requires Rectangular(Snapshot(cloud)) && Forest(Snapshot(cloud), R, bound, L, low, high, Rep)
    requires Threads(Snapshot(cloud), L, C, RepT, Owner) && rb in L && ra in L
    requires At(Snapshot(cloud), ra).parent == ra && At(Snapshot(cloud), rb).parent == rb
    modifies cloud
    ensures Rectangular(Snapshot(cloud)) && Forest(Snapshot(cloud), R5, b5, L, low, high, Relink(Rep, rb, ra))
    ensures Threads(Snapshot(cloud), L, C, RepT, Owner)
    ensures SameContent(old(Snapshot(cloud)), Snapshot(cloud), L)
  {
    ghost var G4 := Snapshot(cloud);
    R5, b5 := Link(cloud, rb, ra, R, bound);
    MergeLinked(G4, Snapshot(cloud), R, bound, R5, b5, L, low, high, Rep, ra, rb);
    ParentOnlyContent(G4, rb, ra, L);
    ThreadsKeep(G4, Snapshot(cloud), L, C, RepT, Owner);
  }

  /** `Union_child(Find_child(keep), Find(absorb))`: the first statement
      of a merge block.  The chains `C'` and their owners `Rep'` are the
      ones after the splice; the parent forest is not touched yet. */
  method SpliceChains(cloud: array2<CloudNode>, keep: Pos, absorb: Pos, ghost bk: Book, ghost low: int, ghost high: int)
    returns (ghost C': map<Pos, seq<Pos>>, ghost Rep': map<Pos, Pos>)
    requires Labelling(Snapshot(cloud), bk, low, high)
    requires keep in bk.L && absorb in bk.L && keep in bk.Rep && absorb in bk.Rep
    requires In(Snapshot(cloud), bk.Rep[keep]) && bk.Rep[keep] != bk.Rep[absorb]
    modifies cloud
    ensures Rectangular(Snapshot(cloud)) && Forest(Snapshot(cloud), bk.R, bk.bound, bk.L, low, high, bk.Rep)
    ensures Threads(Snapshot(cloud), bk.L, C', Rep', bk.Owner) && Relinked(bk.Rep, Rep', bk.Rep[absorb], bk.Rep[keep])
    ensures At(Snapshot(cloud), bk.Rep[keep]).value == old(At(Snapshot(cloud), bk.Rep[keep]).value)
  {
    ghost var L, C, Rep := bk.L, bk.C, bk.Rep;
    ghost var ra, rb := Rep[keep], Rep[absorb];
    ghost var v := At(Snapshot(cloud), ra).value;
    var tail := FindChild(cloud, keep);
    TailOf(Snapshot(cloud), L, C, Rep, keep);
    var rb1 := FindRoot(cloud, absorb, bk.R, bk.bound, L, low, high, Rep, L, C, Rep, bk.Owner);
    assert rb1 == rb && rb in C && ra in C;
    assert At(Snapshot(cloud), ra).value == v;
    UnionChains(cloud, tail.value, rb1, ra, bk, low, high);
    C', Rep' := Spliced(C, ra, rb), Relink(Rep, rb, ra);
    RelinkRelinked(Rep, rb, ra);
  }

  /** A forest over `L` depends on `Rep` only on `L`. */
  lemma ForestRep(G: Nodes, R: map<Pos, nat>, bound: nat, L: set<Pos>, low: int, high: int, Rep: map<Pos, Pos>, Rep': map<Pos, Pos>)
    requires Forest(G, R, bound, L, low, high, Rep)
    requires forall q {:trigger q in L} :: q in L ==> q in Rep' && Rep'[q] == Rep[q]
    ensures Forest(G, R, bound, L, low, high, Rep')
  {
  }

  /** `Find(absorb)->parent = Find(keep)`: the second statement of a merge
      block, once the chains are spliced. */
  method RelinkRoots(cloud: array2<CloudNode>, keep: Pos, absorb: Pos, ghost ra: Pos, ghost rb: Pos,
                     ghost R: map<Pos, nat>, ghost bound: nat, ghost L: set<Pos>, ghost low: int, ghost high: int,
                     ghost Rep: map<Pos, Pos>, ghost C: map<Pos, seq<Pos>>, ghost RepT: map<Pos, Pos>, ghost Owner: map<int, Pos>)
    returns (ghost R5: map<Pos, nat>, ghost b5: nat)
    requires Rectangular(Snapshot(cloud)) && Forest(Snapshot(cloud), R, bound, L, low, high, Rep)
    requires Threads(Snapshot(cloud), L, C, RepT, Owner) && keep in L && absorb in L && Relinked(Rep, RepT, rb, ra)
    requires ra in L && rb in L && ra == Rep[keep] && rb == Rep[absorb] && Rep[ra] == ra && Rep[rb] == rb
    modifies cloud
    ensures Labelling(Snapshot(cloud), Book(R5, b5, L, C, RepT, Owner), low, high)
    ensures At(Snapshot(cloud), ra).value == old(At(Snapshot(cloud), ra).value)
  {
    ghost var v := At(Snapshot(cloud), ra).value;
    var rb' := FindRoot(cloud, absorb, R, bound, L, low, high, Rep, L, C, RepT, Owner);
    assert At(Snapshot(cloud), ra).value == v;
    var ra' := FindRoot(cloud, keep, R, bound, L, low, high, Rep, L, C, RepT, Owner);
    assert At(Snapshot(cloud), ra).value == v;
    R5, b5 := LinkMerge(cloud, rb', ra', R, bound, L, low, high, Rep, C, RepT, Owner);
    ForestRep(Snapshot(cloud), R5, b5, L, low, high, Relink(Rep, rb, ra), RepT);
    Assemble(Snapshot(cloud), R5, b5, L, low, high, C, RepT, Owner);
  }

  /** One merge block of the first pass:
      `Union_child(Find_child(keep), Find(absorb)); Find(absorb)->parent = Find(keep);`
      for labelled pixels `keep` and `absorb` of different clouds.  The
      cloud of `absorb` joins the cloud of `keep` and takes its label. */
  method Merge(cloud: array2<CloudNode>, keep: Pos, absorb: Pos, ghost bk: Book, ghost low: int, ghost high: int)
    returns (ghost bk': Book)
    requires Labelling(Snapshot(cloud), bk, low, high)
    requires keep in bk.L && absorb in bk.L && keep in bk.Rep && absorb in bk.Rep
    requires In(Snapshot(cloud), bk.Rep[keep]) && bk.Rep[keep] != bk.Rep[absorb]
    modifies cloud
    ensures Labelling(Snapshot(cloud), bk', low, high) && bk'.L == bk.L
    ensures Relinked(bk.Rep, bk'.Rep, bk.Rep[absorb], bk.Rep[keep])
    ensures At(Snapshot(cloud), bk.Rep[keep]).value == old(At(Snapshot(cloud), bk.Rep[keep]).value)
  {
    ghost var ra, rb := bk.Rep[keep], bk.Rep[absorb];
    assert ra in bk.C && rb in bk.C;
    assert ra in bk.L && rb in bk.L && bk.Rep[ra] == ra && bk.Rep[rb] == rb;
    ghost var C', Rep' := SpliceChains(cloud, keep, absorb, bk, low, high);
    ghost var R', bound' := RelinkRoots(cloud, keep, absorb, ra, rb, bk.R, bk.bound, bk.L, low, high, bk.Rep, C', Rep', bk.Owner);
    bk' := Book(R', bound', bk.L, C', Rep', bk.Owner);
  }

  // ---------------------------------------------------------------------
  // One pixel of the first pass

  /** The mask `M` and the node grid `G` have the same shape. */
  ghost predicate SameShape(M: Grid, G: Nodes) {
    Rectangular(M) && |M| == |G| && forall i :: 0 <= i < |M| ==> |M[i]| == |G[i]|
  }

  /** The mask `M` has the shape of the node array. */
  predicate Shaped(M: Grid, cloud: array2<CloudNode>) {
    Rectangular(M) && |M| == cloud.Length0 && (|M| > 0 ==> Cols(M) == cloud.Length1)
  }

  /** The test `label` makes before reading entry `k` of `array`: the
      neighbour lies inside the image and is a cloud pixel. */
  predicate Guard(M: Grid, p: Pos, k: nat): (b: bool)
    requires Rectangular(M) && 0 <= p.row < |M| && 0 <= p.col < |M[p.row]| && k < 4
    ensures b <==> CloudAt(M, Neighbour(p, k))
  {
    if k == 0 then p.row > 0 && p.col > 0 && M[p.row - 1][p.col - 1] == 1
    else if k == 1 then p.row > 0 && M[p.row - 1][p.col] == 1
    else if k == 2 then p.row > 0 && p.col < Cols(M) - 1 && M[p.row - 1][p.col + 1] == 1
    else p.col > 0 && M[p.row][p.col - 1] == 1
  }

  /** `L` holds exactly the cloud pixels that come before `p`. */
  ghost predicate Seen(M: Grid, L: set<Pos>, p: Pos) {
    forall q {:trigger q in L} :: q in L <==> CloudAt(M, q) && Before(q, p)
  }

  /** If neighbour `j` of `p` is a cloud pixel, it shares the root of `p`. */
  ghost predicate Linked(M: Grid, p: Pos, Rep: map<Pos, Pos>, j: int)
    requires Rectangular(M) && CloudAt(M, p) && 0 <= j < 4
  {
    Guard(M, p, j) ==> Neighbour(p, j) in Rep && p in Rep && Rep[Neighbour(p, j)] == Rep[p]
  }

  /** Each cloud neighbour `j < k` of `p` shares the root of `p`. */
  ghost predicate Settled(M: Grid, p: Pos, Rep: map<Pos, Pos>, k: int)
    requires Rectangular(M) && CloudAt(M, p)
  {
    (k > 0 ==> Linked(M, p, Rep, 0)) && (k > 1 ==> Linked(M, p, Rep, 1)) &&
    (k > 2 ==> Linked(M, p, Rep, 2)) && (k > 3 ==> Linked(M, p, Rep, 3))
  }

  /** `p` has no cloud pixel among its earlier neighbours. */
  predicate Alone(M: Grid, p: Pos)
    requires Rectangular(M) && CloudAt(M, p)
  {
    forall k :: 0 <= k < 4 ==> !Guard(M, p, k)
  }

  /** A new pixel whose cloud neighbours all share its root keeps
      labelled neighbours together. */
  lemma JoinedWith(M: Grid, L: set<Pos>, Rep: map<Pos, Pos>, p: Pos)
    requires Rectangular(M) && CloudAt(M, p) && Seen(M, L, p) && Joined(L, Rep) && p in Rep && Settled(M, p, Rep, 4)
    ensures Joined(L + {p}, Rep)
  {
    forall q1, q2 | q1 in L + {p} && q2 in L + {p} && Adjacent(q1, q2)
      ensures q1 in Rep && q2 in Rep && Rep[q1] == Rep[q2]
    {
      if q1 == p || q2 == p {
        var q := if q1 == p then q2 else q1;
        assert q in L && Adjacent(p, q) && Before(q, p);
        EarlierNeighbour(p, q);
        var k :| 0 <= k < 4 && q == Neighbour(p, k);
        assert Guard(M, p, k) && Linked(M, p, Rep, k);
      }
    }
  }

  /** The `min == 0` branch: the pixel `p` starts the cloud `v`, one more
      than the largest label so far. */
  method StartCloud(cloud: array2<CloudNode>, p: Pos, v: int, ghost bk: Book, ghost low: int, ghost high: int)
    returns (ghost bk': Book)
    requires Labelling(Snapshot(cloud), bk, low, high) && In(Snapshot(cloud), p) && p !in bk.L && low <= high && v == high + 1
    modifies cloud
    ensures Labelling(Snapshot(cloud), bk', low, high + 1) && bk'.L == bk.L + {p}
    ensures bk'.Rep == bk.Rep[p := p]
    ensures At(Snapshot(cloud), p).value == high + 1
  {
    ghost var G := Snapshot(cloud);
    var n := cloud[p.row, p.col].(value := v, row := p.row, col := p.col);
    Store(cloud, p, n);
    ghost var H := Snapshot(cloud);
    LabelForest(G, H, bk.R, bk.bound, bk.L, low, high, bk.Rep, p, high + 1, high + 1);
    assert At(G, p) == Initial(p);
    FreshChains(G, H, bk.L, bk.C, p, n);
    FreshRep(bk.L, bk.C, bk.Rep, p);
    FreshLabels(G, H, bk.L, bk.C, bk.Rep, bk.Owner, p, high);
    bk' := Book(bk.R, bk.bound, bk.L + {p}, bk.C[p := [p]], bk.Rep[p := p], bk.Owner[high + 1 := p]);
    Assemble(H, bk.R, bk.bound, bk.L + {p}, low, high + 1, bk.C[p := [p]], bk.Rep[p := p], bk.Owner[high + 1 := p]);
  }

  /** The merge block for neighbour `k` of `p`: when neighbour `k` is a
      cloud pixel with a label other than `min`, its cloud is merged into
      the one of neighbour `index`.  Afterwards neighbour `k`, if it is a
      cloud pixel, shares the root of `p`, and clouds were only merged. */
  method MergeBlock(cloud: array2<CloudNode>, M: Grid, p: Pos, k: nat, index: nat, min: int,
                    ghost bk: Book, ghost low: int, ghost high: int)
    returns (ghost bk': Book)
    requires Labelling(Snapshot(cloud), bk, low, high) && Shaped(M, cloud)
    requires CloudAt(M, p) && k < 4 && index < 4 && Guard(M, p, index)
    requires p in bk.L && Neighbour(p, index) in bk.L && (Guard(M, p, k) ==> Neighbour(p, k) in bk.L)
    requires p in bk.Rep && Neighbour(p, index) in bk.Rep && bk.Rep[p] == bk.Rep[Neighbour(p, index)]
    requires At(Snapshot(cloud), p).value == min
    modifies cloud
    ensures Labelling(Snapshot(cloud), bk', low, high) && bk'.L == bk.L && Coarser(bk.L, bk.Rep, bk'.Rep)
    ensures At(Snapshot(cloud), p).value == min && Linked(M, p, bk'.Rep, k)
  {
    var q := Neighbour(p, k);
    var keep := Neighbour(p, index);
    ghost var G := Snapshot(cloud);
    if Guard(M, p, k) && cloud[q.row, q.col].value != min {
      assert bk.Rep[q] != bk.Rep[keep] by {
        assert At(G, q).value == At(G, bk.Rep[q]).value;
        assert At(G, p).value == At(G, bk.Rep[p]).value;
      }
      bk' := Merge(cloud, keep, q, bk, low, high);
      RelinkedCoarser(bk.L, bk.Rep, bk'.Rep, bk.Rep[q], bk.Rep[keep]);
      assert At(Snapshot(cloud), p).value == At(Snapshot(cloud), bk'.Rep[p]).value;
    } else {
      bk' := bk;
      if Guard(M, p, k) {
        assert bk.Rep[q] in bk.C && bk.Rep[p] in bk.C;
        assert At(G, bk.Rep[q]).value == At(G, q).value == At(G, p).value == At(G, bk.Rep[p]).value;
      }
    }
  }

  /** One merge block more: neighbours `0..k` of `p` now share its root. */
  lemma SettledStep(M: Grid, p: Pos, k: nat, L0: set<Pos>, Rep: map<Pos, Pos>, Rep': map<Pos, Pos>)
    requires Rectangular(M) && CloudAt(M, p) && Seen(M, L0, p) && k < 4
    requires Coarser(L0 + {p}, Rep, Rep') && Settled(M, p, Rep, k) && Linked(M, p, Rep', k)
    ensures Settled(M, p, Rep', k + 1)
  {
    forall j | 0 <= j < k
      ensures Linked(M, p, Rep', j)
    {
      if Guard(M, p, j) {
        assert Linked(M, p, Rep, j) && Neighbour(p, j) in L0;
      }
    }
  }

  /** The four merge blocks of `label`, north-west, north, north-east,
      west, which differ only in the neighbour they look at, once `p` has
      joined the cloud of its neighbour `index`: afterwards every cloud
      neighbour of `p` shares its root. */
  method MergeAll(cloud: array2<CloudNode>, M: Grid, p: Pos, min: int, index: nat, ghost L0: set<Pos>,
                  ghost bk: Book, ghost low: int, ghost high: int)
    returns (ghost bk': Book)
    requires Labelling(Snapshot(cloud), bk, low, high) && Shaped(M, cloud)
    requires CloudAt(M, p) && Seen(M, L0, p) && bk.L == L0 + {p} && Joined(L0, bk.Rep)
    requires index < 4 && Guard(M, p, index) && At(Snapshot(cloud), p).value == min
    requires p in bk.Rep && Neighbour(p, index) in bk.Rep
    requires bk.Rep[p] == bk.Rep[Neighbour(p, index)]
    modifies cloud
    ensures Labelling(Snapshot(cloud), bk', low, high) && bk'.L == bk.L && Joined(L0, bk'.Rep)
    ensures At(Snapshot(cloud), p).value == min && Settled(M, p, bk'.Rep, 4)
  {
    bk' := bk;
    for k := 0 to 4
      invariant Labelling(Snapshot(cloud), bk', low, high) && bk'.L == bk.L && Coarser(bk.L, bk.Rep, bk'.Rep)
      invariant At(Snapshot(cloud), p).value == min && Settled(M, p, bk'.Rep, k)
    {
      ghost var before := bk';
      assert Neighbour(p, index) in L0;
      assert Guard(M, p, k) ==> Neighbour(p, k) in L0;
      bk' := MergeBlock(cloud, M, p, k, index, min, bk', low, high);
      CoarserTrans(bk.L, bk.Rep, before.Rep, bk'.Rep);
      SettledStep(M, p, k, L0, before.Rep, bk'.Rep);
    }
    CoarserJoined(L0, bk.L, bk.Rep, bk'.Rep);
  }

  /** The `else` branch for the pixel `p`: it joins the cloud of its
      neighbour `index`, which has the least label `min`, and the four
      merge blocks follow. */
  method JoinNeighbours(cloud: array2<CloudNode>, M: Grid, p: Pos, min: int, index: nat,
                        ghost bk: Book, ghost low: int, ghost high: int)
    returns (ghost bk': Book)
    requires Labelling(Snapshot(cloud), bk, low, high) && Shaped(M, cloud)
    requires CloudAt(M, p) && Seen(M, bk.L, p) && Joined(bk.L, bk.Rep)
    requires index < 4 && Guard(M, p, index) && At(Snapshot(cloud), Neighbour(p, index)).value == min
    modifies cloud
    ensures Labelling(Snapshot(cloud), bk', low, high) && bk'.L == bk.L + {p} && Joined(bk'.L, bk'.Rep)
  {
    var nb := Neighbour(p, index);
    assert nb in bk.L && p !in bk.L;
    ghost var b := Join(cloud, p, nb, min, bk, low, high);
    JoinedExtend(bk.L, bk.Rep, p, bk.Rep[nb]);
    bk' := MergeAll(cloud, M, p, min, index, bk.L, b, low, high);
    JoinedWith(M, bk.L, bk'.Rep, p);
  }

  /** `first_cloud_node[0][v] = row; first_cloud_node[1][v] = col;` for
      the pixel `p` that starts label `v`. */
  method RecordStart(firstNode: array2<int>, M: Grid, p: Pos, v: int)
    requires Rectangular(M) && CloudAt(M, p) && Alone(M, p)
    requires firstNode.Length0 == 2 && 1 <= v < firstNode.Length1
    requires forall u :: 1 <= u < v ==> Starts(M, firstNode, u)
    modifies firstNode
    ensures firstNode[0, v] == p.row && firstNode[1, v] == p.col
    ensures forall u :: 1 <= u <= v ==> Starts(M, firstNode, u)
  {
    firstNode[0, v] := p.row;
    firstNode[1, v] := p.col;
    forall u | 1 <= u < v
      ensures Starts(M, firstNode, u)
    {
      assert old(Starts(M, firstNode, u));
      assert firstNode[0, u] == old(firstNode[0, u]) && firstNode[1, u] == old(firstNode[1, u]);
    }
  }

  /** The `min == 0` branch: `num_clouds` goes up by one, `p` carries the
      new label, and `first_cloud_node` records where the cloud starts. */
  method NewCloud(cloud: array2<CloudNode>, M: Grid, p: Pos, n: int, firstNode: array2<int>,
                  ghost bk: Book, ghost low: int)
    returns (n': int, ok: bool, ghost bk': Book)
    requires Labelling(Snapshot(cloud), bk, low, n) && 0 <= low <= n < MaxCloudType
    requires Shaped(M, cloud) && CloudAt(M, p) && Seen(M, bk.L, p) && Joined(bk.L, bk.Rep)
    requires Alone(M, p)
    requires firstNode.Length0 == 2 && firstNode.Length1 == MaxCloudType
    requires forall v :: 1 <= v <= n ==> Starts(M, firstNode, v)
    modifies cloud, firstNode
    ensures !ok ==> n' == n && n + 1 == MaxCloudType && unchanged(firstNode)
    ensures ok ==> n' == n + 1 < MaxCloudType && Labelling(Snapshot(cloud), bk', low, n')
    ensures ok ==> bk'.L == bk.L + {p} && Joined(bk'.L, bk'.Rep)
    ensures ok ==> firstNode[0, n'] == p.row && firstNode[1, n'] == p.col
    ensures ok ==> forall v :: 1 <= v <= n' ==> Starts(M, firstNode, v)
  {
    if n + 1 == MaxCloudType {
      return n, false, bk;
    }
    n' := n + 1;
    assert p !in bk.L;
    bk' := StartCloud(cloud, p, n', bk, low, n);
    RecordStart(firstNode, M, p, n');
    JoinedExtend(bk.L, bk.Rep, p, p);
    JoinedWith(M, bk.L, bk'.Rep, p);
    ok := true;
  }

  /** One cloud pixel `p` of the first pass: read the labels of the four
      earlier neighbours (0 for one that is not a cloud pixel), take the
      least positive one with `find_min`, then start a new cloud or join
      and merge.  `n` is `num_clouds`. */
  method LabelPixel(cloud: array2<CloudNode>, M: Grid, p: Pos, n: int, firstNode: array2<int>,
                    ghost bk: Book, ghost low: int)
    returns (n': int, ok: bool, ghost bk': Book)
    requires Labelling(Snapshot(cloud), bk, low, n) && 0 <= low <= n < MaxCloudType
    requires Shaped(M, cloud) && CloudAt(M, p) && Seen(M, bk.L, p) && Joined(bk.L, bk.Rep)
    requires firstNode.Length0 == 2 && firstNode.Length1 == MaxCloudType
    requires forall v :: 1 <= v <= n ==> Starts(M, firstNode, v)
    modifies cloud, firstNode
    ensures !ok ==> n' == n && n + 1 == MaxCloudType && unchanged(firstNode)
    ensures ok ==> n <= n' < MaxCloudType && Labelling(Snapshot(cloud), bk', low, n')
    ensures ok ==> bk'.L == bk.L + {p} && Joined(bk'.L, bk'.Rep)
    ensures n' == n + 1 <==> ok && Alone(M, p)
    ensures ok && n' == n ==> unchanged(firstNode)
    ensures ok && n' == n + 1 ==> firstNode[0, n'] == p.row && firstNode[1, n'] == p.col
    ensures ok ==> forall v :: 1 <= v <= n' ==> Starts(M, firstNode, v)
  {
    var min, index := LeastNeighbour(cloud, M, p, bk, low, n);
    if min == 0 {
      n', ok, bk' := NewCloud(cloud, M, p, n, firstNode, bk, low);
    } else {
      bk' := JoinNeighbours(cloud, M, p, min, index, bk, low, n);
      n', ok := n, true;
    }
  }

  /** The start of the loop body of `label` for a cloud pixel `p`: the
      labels of the four earlier neighbours (0 for one that is not a cloud
      pixel) and `find_min` over them.  `min` is 0 exactly when no earlier
      neighbour is a cloud pixel; otherwise it is the least label among
      them, carried by neighbour `index`. */
  method LeastNeighbour(cloud: array2<CloudNode>, M: Grid, p: Pos, ghost bk: Book, ghost low: int, ghost high: int)
    returns (min: int, index: nat)
    requires Labelling(Snapshot(cloud), bk, low, high) && 0 <= low
    requires Shaped(M, cloud) && CloudAt(M, p) && Seen(M, bk.L, p)
    ensures index < 4 && (min == 0 <==> Alone(M, p))
    ensures min != 0 ==> Guard(M, p, index) && At(Snapshot(cloud), Neighbour(p, index)).value == min
    ensures forall k :: 0 <= k < 4 && Guard(M, p, k) ==> min <= At(Snapshot(cloud), Neighbour(p, k)).value
  {
    var a := seq(4, k requires 0 <= k < 4 reads cloud => Entry(cloud, M, p, k));
    NeighbourLabels(Snapshot(cloud), M, p, bk, low, high, a);
    min, index := FindMin(a);
    if min != 0 {
      assert a[index] > 0 && Guard(M, p, index);
    }
  }

  /** Entry `k` of the `array` `label` fills: the label of neighbour `k`
      when it is a cloud pixel, 0 otherwise. */
  function Entry(cloud: array2<CloudNode>, M: Grid, p: Pos, k: nat): (v: int)
    requires Shaped(M, cloud) && CloudAt(M, p) && k < 4
    reads cloud
    ensures v == if Guard(M, p, k) then At(Snapshot(cloud), Neighbour(p, k)).value else 0
  {
    if Guard(M, p, k) then cloud[Neighbour(p, k).row, Neighbour(p, k).col].value else 0
  }

  /** The entries `label` reads are positive exactly for the cloud
      neighbours, and then they are the neighbours' labels. */
  lemma NeighbourLabels(G: Nodes, M: Grid, p: Pos, bk: Book, low: int, high: int, a: seq<int>)
    requires Labelling(G, bk, low, high) && 0 <= low && SameShape(M, G) && CloudAt(M, p) && Seen(M, bk.L, p)
    requires |a| == 4 && forall k :: 0 <= k < 4 ==> a[k] == if Guard(M, p, k) then At(G, Neighbour(p, k)).value else 0
    ensures forall k :: 0 <= k < 4 ==> (a[k] > 0 <==> Guard(M, p, k))
    ensures forall k :: 0 <= k < 4 && Guard(M, p, k) ==> Neighbour(p, k) in bk.L
  {
    forall k | 0 <= k < 4 && Guard(M, p, k)
      ensures Neighbour(p, k) in bk.L && a[k] > 0
    {
      var q := Neighbour(p, k);
      assert q in bk.L;
      assert In(G, q) && low < At(G, q).value;
    }
  }

  // ---------------------------------------------------------------------
  // The first pass of `label`

  /** Moving on from `p` to the next pixel of its row. */
  lemma SeenNext(M: Grid, L: set<Pos>, p: Pos)
    requires Seen(M, L, p)
    ensures Seen(M, if CloudAt(M, p) then L + {p} else L, Pos(p.row, p.col + 1))
  {
    forall q
      ensures q in (if CloudAt(M, p) then L + {p} else L) <==> CloudAt(M, q) && Before(q, Pos(p.row, p.col + 1))
    {
      assert Before(q, Pos(p.row, p.col + 1)) <==> Before(q, p) || q == p;
    }
  }

  /** Moving on from the end of row `r` to the start of row `r + 1`. */
  lemma SeenNextRow(M: Grid, L: set<Pos>, r: int)
    requires Rectangular(M) && Seen(M, L, Pos(r, Cols(M)))
    ensures Seen(M, L, Pos(r + 1, 0))
  {
    forall q
      ensures q in L <==> CloudAt(M, q) && Before(q, Pos(r + 1, 0))
    {
      if CloudAt(M, q) {
        assert |M[q.row]| == Cols(M);
      }
    }
  }

  /** Entry `v` of `first_cloud_node` names a cloud pixel with no cloud
      pixel among its earlier neighbours: the pixel that started label `v`. */
  ghost predicate Starts(M: Grid, firstNode: array2<int>, v: int)
    requires Rectangular(M) && firstNode.Length0 == 2 && 0 <= v < firstNode.Length1
    reads firstNode
  {
    var s := Pos(firstNode[0, v], firstNode[1, v]);
    CloudAt(M, s) && Alone(M, s)
  }

  /** The record before the first pass: nothing labelled, every node a root
      of rank 0. */
  ghost function InitialBook(G: Nodes): Book {
    Book(map p | p in Cells(G) :: 0, 0, {}, map[], map[], map[])
  }

  /** The node array as the initialisation loop leaves it fits the initial
      record, labels lying in (0, 0]. */
  lemma InitialLabelling(G: Nodes)
    requires Rectangular(G) && forall p {:trigger At(G, p)} :: In(G, p) ==> At(G, p) == Initial(p)
    ensures Labelling(G, InitialBook(G), 0, 0)
  {
    var R: map<Pos, nat> := map p | p in Cells(G) :: 0;
    assert Ranked(G, R, 0);
  }

  /** The loop body of the first pass for the pixel `p`: nothing happens
      unless `p` is a cloud pixel.  `ok` is false when `num_clouds` would
      reach `MAX_CLOUD_TYPE`. */
  method Visit(cloud: array2<CloudNode>, M: Grid, p: Pos, n: int, firstNode: array2<int>, ghost bk: Book)
    returns (n': int, ok: bool, ghost bk': Book)
    requires Labelling(Snapshot(cloud), bk, 0, n) && 0 <= n < MaxCloudType
    requires Shaped(M, cloud) && 0 <= p.row < |M| && 0 <= p.col < Cols(M) && Seen(M, bk.L, p) && Joined(bk.L, bk.Rep)
    requires firstNode.Length0 == 2 && firstNode.Length1 == MaxCloudType
    requires forall v :: 1 <= v <= n ==> Starts(M, firstNode, v)
    modifies cloud, firstNode
    ensures !ok ==> n' == n && n + 1 == MaxCloudType
    ensures ok ==> n <= n' < MaxCloudType && Labelling(Snapshot(cloud), bk', 0, n')
    ensures ok ==> Seen(M, bk'.L, Pos(p.row, p.col + 1)) && Joined(bk'.L, bk'.Rep)
    ensures ok ==> forall v :: 1 <= v <= n' ==> Starts(M, firstNode, v)
  {
    SeenNext(M, bk.L, p);
    if M[p.row][p.col] == 1 {
      n', ok, bk' := LabelPixel(cloud, M, p, n, firstNode, bk, 0);
    } else {
      n', ok, bk' := n, true, bk;
    }
  }

  /** The inner loop of the first pass, over row `r`. */
  method LabelRow(cloud: array2<CloudNode>, M: Grid, r: int, n: int, firstNode: array2<int>, ghost bk: Book)
    returns (n': int, ok: bool, ghost bk': Book)
    requires Labelling(Snapshot(cloud), bk, 0, n) && 0 <= n < MaxCloudType
    requires Shaped(M, cloud) && 0 <= r < |M| && Seen(M, bk.L, Pos(r, 0)) && Joined(bk.L, bk.Rep)
    requires firstNode.Length0 == 2 && firstNode.Length1 == MaxCloudType
    requires forall v :: 1 <= v <= n ==> Starts(M, firstNode, v)
    modifies cloud, firstNode
    ensures !ok ==> n' + 1 == MaxCloudType
    ensures ok ==> n <= n' < MaxCloudType && Labelling(Snapshot(cloud), bk', 0, n')
    ensures ok ==> Seen(M, bk'.L, Pos(r + 1, 0)) && Joined(bk'.L, bk'.Rep)
    ensures ok ==> forall v :: 1 <= v <= n' ==> Starts(M, firstNode, v)
  {
    n', ok, bk' := n, true, bk;
    var c := 0;
    while c < cloud.Length1
      invariant 0 <= c <= cloud.Length1 == Cols(M)
      invariant n <= n' < MaxCloudType && Labelling(Snapshot(cloud), bk', 0, n')
      invariant Seen(M, bk'.L, Pos(r, c)) && Joined(bk'.L, bk'.Rep)
      invariant forall v :: 1 <= v <= n' ==> Starts(M, firstNode, v)
    {
      n', ok, bk' := Visit(cloud, M, Pos(r, c), n', firstNode, bk');
      if !ok {
        return;
      }
      c := c + 1;
    }
    SeenNextRow(M, bk'.L, r);
  }

  /** The first pass of `label` over the initialised node array: `n` is
      `num_clouds` afterwards, every cloud pixel is labelled, labelled
      8-neighbours share a root, and `ok` is false when `num_clouds` would
      reach `MAX_CLOUD_TYPE`. */
  method FirstPass(cloud: array2<CloudNode>, M: Grid, firstNode: array2<int>)
    returns (n: int, ok: bool, ghost bk: Book)
    requires Shaped(M, cloud)
    requires forall p {:trigger At(Snapshot(cloud), p)} :: In(Snapshot(cloud), p) ==> At(Snapshot(cloud), p) == Initial(p)
    requires firstNode.Length0 == 2 && firstNode.Length1 == MaxCloudType
    modifies cloud, firstNode
    ensures !ok ==> n + 1 == MaxCloudType
    ensures ok ==> 0 <= n < MaxCloudType && Labelling(Snapshot(cloud), bk, 0, n)
    ensures ok ==> Seen(M, bk.L, Pos(|M|, 0)) && Joined(bk.L, bk.Rep)
    ensures ok ==> forall v :: 1 <= v <= n ==> Starts(M, firstNode, v)
  {
    InitialLabelling(Snapshot(cloud));
    n, ok, bk := 0, true, InitialBook(Snapshot(cloud));
    var r := 0;
    while r < cloud.Length0
      invariant 0 <= r <= cloud.Length0 == |M|
      invariant 0 <= n < MaxCloudType && Labelling(Snapshot(cloud), bk, 0, n)
      invariant Seen(M, bk.L, Pos(r, 0)) && Joined(bk.L, bk.Rep)
      invariant forall v :: 1 <= v <= n ==> Starts(M, firstNode, v)
    {
      n, ok, bk := LabelRow(cloud, M, r, n, firstNode, bk);
      if !ok {
        return;
      }
      r := r + 1;
    }
  }

  // ---------------------------------------------------------------------
  // What `label` promises

  /** What `label` leaves in the node array `G` for the mask `M` and `n`
      clouds, parent walks being ranked by `R` under `bound`: every cloud
      pixel carries a label in 1..`n` and its own coordinates, every other
      node is as initialised; 8-neighbouring cloud pixels have the same
      root; and the parent walk from a cloud pixel ends at a cloud pixel
      carrying the same label, the root `Owner` names for that label. */
  ghost predicate Labelled(M: Grid, G: Nodes, n: int, R: map<Pos, nat>, bound: nat, Owner: map<int, Pos>) {
    SameShape(M, G) && Ranked(G, R, bound) &&
    (forall q {:trigger At(G, q)} :: In(G, q) ==>
       if CloudAt(M, q) then 0 < At(G, q).value <= n && At(G, q).row == q.row && At(G, q).col == q.col
       else At(G, q) == Initial(q)) &&
    (forall q1, q2 {:trigger Adjacent(q1, q2)} :: CloudAt(M, q1) && CloudAt(M, q2) && Adjacent(q1, q2) ==>
       RootOf(G, R, bound, q1) == RootOf(G, R, bound, q2)) &&
    (forall q {:trigger RootOf(G, R, bound, q)} :: CloudAt(M, q) ==>
       var r := RootOf(G, R, bound, q);
       CloudAt(M, r) && At(G, r).value == At(G, q).value && At(G, q).value in Owner && Owner[At(G, q).value] == r)
  }

  /** After the first pass has seen every pixel, the node array is
      labelled. */
  lemma FirstPassLabelled(M: Grid, G: Nodes, bk: Book, n: int)
    requires Labelling(G, bk, 0, n) && SameShape(M, G) && Seen(M, bk.L, Pos(|M|, 0)) && Joined(bk.L, bk.Rep)
    ensures Labelled(M, G, n, bk.R, bk.bound, bk.Owner)
  {
    assert forall q :: CloudAt(M, q) ==> q in bk.L;
    forall q | In(G, q)
      ensures if CloudAt(M, q) then 0 < At(G, q).value <= n && At(G, q).row == q.row && At(G, q).col == q.col
              else At(G, q) == Initial(q)
    {
      assert CloudAt(M, q) <==> q in bk.L;
    }
    forall q | CloudAt(M, q)
      ensures var r := RootOf(G, bk.R, bk.bound, q);
        CloudAt(M, r) && At(G, r).value == At(G, q).value && At(G, q).value in bk.Owner && bk.Owner[At(G, q).value] == r
    {
      assert q in bk.L;
      var r := bk.Rep[q];
      assert r in bk.C && r in bk.L;
    }
  }

  /** Two cloud pixels carry the same label exactly when their parent
      walks end at the same root. */
  lemma SameLabelSameRoot(M: Grid, G: Nodes, n: int, R: map<Pos, nat>, bound: nat, Owner: map<int, Pos>, q1: Pos, q2: Pos)
    requires Labelled(M, G, n, R, bound, Owner) && CloudAt(M, q1) && CloudAt(M, q2)
    ensures At(G, q1).value == At(G, q2).value <==> RootOf(G, R, bound, q1) == RootOf(G, R, bound, q2)
  {
    var r1, r2 := RootOf(G, R, bound, q1), RootOf(G, R, bound, q2);
    assert Owner[At(G, q1).value] == r1 && Owner[At(G, q2).value] == r2;
  }

  /** 8-neighbouring cloud pixels carry the same label. */
  lemma LabelledNeighbours(M: Grid, G: Nodes, n: int, R: map<Pos, nat>, bound: nat, Owner: map<int, Pos>, q1: Pos, q2: Pos)
    requires Labelled(M, G, n, R, bound, Owner) && CloudAt(M, q1) && CloudAt(M, q2) && Adjacent(q1, q2)
    ensures At(G, q1).value == At(G, q2).value
  {
    SameLabelSameRoot(M, G, n, R, bound, Owner, q1, q2);
  }

  /** A node array with the labels, coordinates, roots and non-cloud nodes
      of a labelled one is labelled too. */
  lemma LabelledTransfer(M: Grid, G: Nodes, H: Nodes, n: int, R: map<Pos, nat>, bound: nat, Owner: map<int, Pos>)
    requires Labelled(M, G, n, R, bound, Owner) && Ranked(H, R, bound)
    requires |H| == |G| && forall i :: 0 <= i < |G| ==> |H[i]| == |G[i]|
    requires forall q {:trigger At(H, q)} :: In(G, q) ==>
      At(H, q).value == At(G, q).value && At(H, q).row == At(G, q).row && At(H, q).col == At(G, q).col &&
      (!CloudAt(M, q) ==> At(H, q) == At(G, q))
    requires forall q {:trigger RootOf(H, R, bound, q)} :: In(G, q) ==>
      In(H, q) && RootOf(H, R, bound, q) == RootOf(G, R, bound, q)
    ensures Labelled(M, H, n, R, bound, Owner)
  {
    assert forall q :: In(H, q) <==> In(G, q);
    forall q | CloudAt(M, q)
      ensures var r := RootOf(H, R, bound, q);
        CloudAt(M, r) && At(H, r).value == At(H, q).value && At(H, q).value in Owner && Owner[At(H, q).value] == r
    {
      assert In(G, q) && RootOf(H, R, bound, q) == RootOf(G, R, bound, q);
    }
  }

  /** Path compression keeps the node array labelled, with every label
      where it was. */
  lemma FindKeepsLabelled(M: Grid, G: Nodes, H: Nodes, n: int, R: map<Pos, nat>, bound: nat, Owner: map<int, Pos>, x: Pos)
    requires Labelled(M, G, n, R, bound, Owner) && CloudAt(M, x)
    requires Reparented(G, H, PathOf(G, R, bound, x), RootOf(G, R, bound, x))
    requires Ranked(H, R, bound)
    requires forall q {:trigger RootOf(H, R, bound, q)} :: In(G, q) ==>
      In(H, q) && RootOf(H, R, bound, q) == RootOf(G, R, bound, q)
    ensures Labelled(M, H, n, R, bound, Owner)
    ensures forall q {:trigger At(H, q)} :: In(G, q) ==> In(H, q) && At(H, q).value == At(G, q).value
  {
    var S, root := PathOf(G, R, bound, x), RootOf(G, R, bound, x);
    forall q {:trigger At(H, q)} | In(G, q)
      ensures At(H, q).value == At(G, q).value && At(H, q).row == At(G, q).row && At(H, q).col == At(G, q).col
      ensures !CloudAt(M, q) ==> At(H, q) == At(G, q)
    {
      if q in S {
        assert At(G, q).parent != q && At(H, q) == At(G, q).(parent := root);
      } else {
        assert At(H, q) == At(G, q);
      }
    }
    LabelledTransfer(M, G, H, n, R, bound, Owner);
  }

  // ---------------------------------------------------------------------
  // The second pass of `label`

  /** The label of every cloud pixel of `M` in the node grid `G`, and 0
      off the clouds: the grid whose cells `obj_num` counts. */
  ghost function LabelGrid(M: Grid, G: Nodes): (V: Grid)
    requires SameShape(M, G)
    ensures |V| == |M| && forall i :: 0 <= i < |M| ==> |V[i]| == |M[i]|
  {
    seq(|M|, i requires 0 <= i < |M| =>
      seq(|M[i]|, j requires 0 <= j < |M[i]| => if M[i][j] == 1 then G[i][j].value else 0))
  }

  /** The cell of the label grid at the pixel `q`. */
  lemma LabelGridCell(M: Grid, G: Nodes, q: Pos)
    requires SameShape(M, G) && In(G, q)
    ensures LabelGrid(M, G)[q.row][q.col] == if CloudAt(M, q) then At(G, q).value else 0
  {
  }

  /** Node grids with the same labels have the same label grid. */
  lemma LabelGridKeep(M: Grid, G: Nodes, H: Nodes)
    requires SameShape(M, G) && SameShape(M, H) && forall q {:trigger At(H, q)} :: In(G, q) ==> At(H, q).value == At(G, q).value
    ensures LabelGrid(M, H) == LabelGrid(M, G)
  {
    var V, W := LabelGrid(M, G), LabelGrid(M, H);
    forall i, j | 0 <= i < |V| && 0 <= j < |V[i]|
      ensures W[i][j] == V[i][j]
    {
      var q := Pos(i, j);
      if CloudAt(M, q) {
        assert In(G, q) && At(H, q).value == At(G, q).value;
      }
    }
    SameGrid(W, V);
  }

  /** `Find(&cloud[row][col])` inside the second pass: it returns a node
      carrying the label of the cloud pixel `p` and changes no label. */
  method FindLabelled(cloud: array2<CloudNode>, M: Grid, p: Pos, ghost n: int, ghost R: map<Pos, nat>, ghost bound: nat, ghost Owner: map<int, Pos>)
    returns (root: Pos)
    requires Labelled(M, Snapshot(cloud), n, R, bound, Owner) && CloudAt(M, p)
    modifies cloud
    ensures Labelled(M, Snapshot(cloud), n, R, bound, Owner)
    ensures LabelGrid(M, Snapshot(cloud)) == LabelGrid(M, old(Snapshot(cloud)))
    ensures In(Snapshot(cloud), root) && In(Snapshot(cloud), p)
    ensures At(Snapshot(cloud), root).value == At(Snapshot(cloud), p).value
  {
    ghost var G0 := Snapshot(cloud);
    root := Find(cloud, p, R, bound);
    FoundLabel(M, G0, Snapshot(cloud), n, R, bound, Owner, p);
    LabelGridKeep(M, G0, Snapshot(cloud));
  }

  /** The facts `FindLabelled` promises, about the node arrays before and
      after `Find`. */
  lemma FoundLabel(M: Grid, G: Nodes, H: Nodes, n: int, R: map<Pos, nat>, bound: nat, Owner: map<int, Pos>, p: Pos)
    requires Labelled(M, G, n, R, bound, Owner) && CloudAt(M, p)
    requires Reparented(G, H, PathOf(G, R, bound, p), RootOf(G, R, bound, p))
    requires Ranked(H, R, bound)
    requires forall q {:trigger RootOf(H, R, bound, q)} :: In(G, q) ==>
      In(H, q) && RootOf(H, R, bound, q) == RootOf(G, R, bound, q)
    ensures Labelled(M, H, n, R, bound, Owner) && forall q {:trigger At(H, q)} :: In(G, q) ==> At(H, q).value == At(G, q).value
    ensures In(H, RootOf(G, R, bound, p)) && In(H, p)
    ensures At(H, RootOf(G, R, bound, p)).value == At(H, p).value
  {
    assert In(G, p) && RootOf(H, R, bound, p) == RootOf(G, R, bound, p);
    FindKeepsLabelled(M, G, H, n, R, bound, Owner, p);
  }

  /** `cloud[row][col].value = Find(&cloud[row][col])->value;` for a cloud
      pixel `p`: the root's label is the one `p` already carries, so only
      path compression changes the node array. */
  method CopyRootLabel(cloud: array2<CloudNode>, M: Grid, p: Pos, ghost n: int, ghost R: map<Pos, nat>, ghost bound: nat, ghost Owner: map<int, Pos>)
    returns (v: int)
    requires Labelled(M, Snapshot(cloud), n, R, bound, Owner) && CloudAt(M, p)
    modifies cloud
    ensures Labelled(M, Snapshot(cloud), n, R, bound, Owner)
    ensures LabelGrid(M, Snapshot(cloud)) == LabelGrid(M, old(Snapshot(cloud)))
    ensures v == At(Snapshot(cloud), p).value && 0 < v <= n
  {
    var root := FindLabelled(cloud, M, p, n, R, bound, Owner);
    ghost var G1 := Snapshot(cloud);
    v := cloud[root.row, root.col].value;
    Store(cloud, p, cloud[p.row, p.col].(value := v));
    PutSame(G1, p);
  }

  /** `obj_num` holds, for each label `v >= 1`, the number of cells of `V`
      equal to `v` before (`r`, `c`) in row-major order, and nothing
      under 0. */
  ghost predicate Counted(objNum: array<int>, V: Grid, r: int, c: int)
    requires 0 <= r < |V| && 0 <= c <= |V[r]|
    reads objNum
  {
    objNum.Length > 0 && objNum[0] == 0 &&
    forall v :: 1 <= v < objNum.Length ==> objNum[v] == CountCells(V[..r], v) + CountIn(V[r][..c], v)
  }

  /** `obj_num[cloud[row][col].value]++` for the label `w` of the cell
      (`r`, `c`). */
  method Tally(objNum: array<int>, ghost V: Grid, r: int, c: int, w: int)
    requires 0 <= r < |V| && 0 <= c < |V[r]| && Counted(objNum, V, r, c)
    requires w == V[r][c] && 0 < w < objNum.Length
    modifies objNum
    ensures Counted(objNum, V, r, c + 1)
  {
    objNum[w] := objNum[w] + 1;
    forall v | 1 <= v < objNum.Length
      ensures objNum[v] == CountCells(V[..r], v) + CountIn(V[r][..c + 1], v)
    {
      CountInStep(V[r], c, v);
    }
  }

  /** A cell off the clouds leaves `obj_num` as it is. */
  lemma Untallied(objNum: array<int>, V: Grid, r: int, c: int)
    requires 0 <= r < |V| && 0 <= c < |V[r]| && Counted(objNum, V, r, c) && V[r][c] == 0
    ensures Counted(objNum, V, r, c + 1)
  {
    forall v | 1 <= v < objNum.Length
      ensures objNum[v] == CountCells(V[..r], v) + CountIn(V[r][..c + 1], v)
    {
      CountInStep(V[r], c, v);
    }
  }

  /** The end of row `r` is the start of row `r + 1`. */
  lemma CountedRow(objNum: array<int>, V: Grid, r: int)
    requires 0 <= r < |V| && Counted(objNum, V, r, |V[r]|)
    ensures objNum.Length > 0 && objNum[0] == 0
    ensures forall v :: 1 <= v < objNum.Length ==> objNum[v] == CountCells(V[..r + 1], v)
  {
    forall v | 1 <= v < objNum.Length
      ensures objNum[v] == CountCells(V[..r + 1], v)
    {
      assert V[r][..|V[r]|] == V[r];
      CountCellsStep(V, r, v);
    }
  }

  /** The inner loop of the second pass, over row `r`: each cloud pixel
      keeps its label and is counted in `obj_num` under it. */
  method RecountRow(cloud: array2<CloudNode>, M: Grid, r: int, objNum: array<int>, ghost n: int,
                    ghost R: map<Pos, nat>, ghost bound: nat, ghost Owner: map<int, Pos>, ghost V: Grid)
    requires Labelled(M, Snapshot(cloud), n, R, bound, Owner) && 0 <= n < objNum.Length && 0 <= r < |M|
    requires V == LabelGrid(M, Snapshot(cloud))
    requires objNum[0] == 0 && forall v :: 1 <= v < objNum.Length ==> objNum[v] == CountCells(V[..r], v)
    modifies cloud, objNum
    ensures Labelled(M, Snapshot(cloud), n, R, bound, Owner) && LabelGrid(M, Snapshot(cloud)) == V
    ensures objNum[0] == 0 && forall v :: 1 <= v < objNum.Length ==> objNum[v] == CountCells(V[..r + 1], v)
  {
    assert V[r][..0] == [];
    var c := 0;
    while c < cloud.Length1
      invariant 0 <= c <= cloud.Length1 == |M[r]| == |V[r]|
      invariant Labelled(M, Snapshot(cloud), n, R, bound, Owner) && LabelGrid(M, Snapshot(cloud)) == V
      invariant Counted(objNum, V, r, c)
    {
      RecountCell(cloud, M, r, c, objNum, n, R, bound, Owner, V);
      c := c + 1;
    }
    CountedRow(objNum, V, r);
  }

  /** One step of the inner loop of the second pass, at (`r`, `c`). */
  method RecountCell(cloud: array2<CloudNode>, M: Grid, r: int, c: int, objNum: array<int>, ghost n: int,
                     ghost R: map<Pos, nat>, ghost bound: nat, ghost Owner: map<int, Pos>, ghost V: Grid)
    requires Labelled(M, Snapshot(cloud), n, R, bound, Owner) && 0 <= n < objNum.Length
    requires V == LabelGrid(M, Snapshot(cloud)) && 0 <= r < |M| && 0 <= c < cloud.Length1 == |M[r]| == |V[r]|
    requires Counted(objNum, V, r, c)
    modifies cloud, objNum
    ensures Labelled(M, Snapshot(cloud), n, R, bound, Owner) && LabelGrid(M, Snapshot(cloud)) == V
    ensures Counted(objNum, V, r, c + 1)
  {
    LabelGridCell(M, Snapshot(cloud), Pos(r, c));
    if M[r][c] == 1 {
      var v := CopyRootLabel(cloud, M, Pos(r, c), n, R, bound, Owner);
      Tally(objNum, V, r, c, v);
    } else {
      Untallied(objNum, V, r, c);
    }
  }

  /** The second pass of `label`: the labels stay as the first pass left
      them, and `obj_num[v]` ends as the number of cloud pixels labelled
      `v`. */
  method SecondPass(cloud: array2<CloudNode>, M: Grid, objNum: array<int>, ghost n: int, ghost R: map<Pos, nat>, ghost bound: nat, ghost Owner: map<int, Pos>)
    requires Labelled(M, Snapshot(cloud), n, R, bound, Owner) && 0 <= n < objNum.Length
    requires forall v :: 0 <= v < objNum.Length ==> objNum[v] == 0
    modifies cloud, objNum
    ensures Labelled(M, Snapshot(cloud), n, R, bound, Owner)
    ensures LabelGrid(M, Snapshot(cloud)) == LabelGrid(M, old(Snapshot(cloud)))
    ensures objNum[0] == 0 && forall v :: 1 <= v < objNum.Length ==> objNum[v] == CountCells(LabelGrid(M, Snapshot(cloud)), v)
  {
    ghost var V := LabelGrid(M, Snapshot(cloud));
    assert V[..0] == [];
    var r := 0;
    while r < cloud.Length0
      invariant 0 <= r <= cloud.Length0 == |M| == |V|
      invariant Labelled(M, Snapshot(cloud), n, R, bound, Owner) && LabelGrid(M, Snapshot(cloud)) == V
      invariant objNum[0] == 0 && forall v :: 1 <= v < objNum.Length ==> objNum[v] == CountCells(V[..r], v)
    {
      RecountRow(cloud, M, r, objNum, n, R, bound, Owner, V);
      r := r + 1;
    }
    assert V[..r] == V;
  }

  // ---------------------------------------------------------------------
  // `label`

  /** `label`: the first pass over the node array as the initialisation
      loop leaves it, then the second pass counting into the zeroed
      `obj_num`.  `n` is `num_clouds` afterwards; `ok` is false when
      `num_clouds` would reach `MAX_CLOUD_TYPE`.  The ghost results name
      the ranking of the parent walks and the root of each label. */
  method Label(cloud: array2<CloudNode>, M: Grid, objNum: array<int>, firstNode: array2<int>)
    returns (n: int, ok: bool, ghost R: map<Pos, nat>, ghost bound: nat, ghost Owner: map<int, Pos>)
    requires Shaped(M, cloud)
    requires forall p {:trigger At(Snapshot(cloud), p)} :: In(Snapshot(cloud), p) ==> At(Snapshot(cloud), p) == Initial(p)
    requires objNum.Length == MaxCloudType && forall v :: 0 <= v < MaxCloudType ==> objNum[v] == 0
    requires firstNode.Length0 == 2 && firstNode.Length1 == MaxCloudType
    modifies cloud, objNum, firstNode
    ensures !ok ==> n + 1 == MaxCloudType
    ensures ok ==> 0 <= n < MaxCloudType && Labelled(M, Snapshot(cloud), n, R, bound, Owner)
    ensures ok ==> objNum[0] == 0
    ensures ok ==> forall v :: 1 <= v < MaxCloudType ==> objNum[v] == CountCells(LabelGrid(M, Snapshot(cloud)), v)
    ensures ok ==> forall v :: 1 <= v <= n ==> Starts(M, firstNode, v)
  {
    ghost var bk;
    n, ok, bk := FirstPass(cloud, M, firstNode);
    R, bound, Owner := bk.R, bk.bound, bk.Owner;
    if !ok {
      return;
    }
    FirstPassLabelled(M, Snapshot(cloud), bk, n);
    SecondPass(cloud, M, objNum, n, R, bound, Owner);
  }
}
