/** The cloud-object step of `object_cloud_shadow_match` in
    l4-7_cfmask/src/object_cloud_shadow_match.c: reset the node array,
    label the 8-connected cloud objects, drop the objects of at most
    `MIN_CLOUD_OBJ` pixels, and build `cloud_cal`, the cloud layer that the
    shadow matching works from. */
module CloudObjects {
  import opened Grids
  import opened CloudNodes
  import opened CloudLabel

  /** `MIN_CLOUD_OBJ`: objects of this many pixels or fewer are dropped. */
  const MinCloudObj := 9

  // ---------------------------------------------------------------------
  // Initialisation of the node array

  /** The loop before `label`: every node gets label 0, coordinates (0, 0)
      and itself as parent and child. */
  method InitNodes(cloud: array2<CloudNode>)
    modifies cloud
    ensures forall p {:trigger At(Snapshot(cloud), p)} :: In(Snapshot(cloud), p) ==> At(Snapshot(cloud), p) == Initial(p)
  {
    for row := 0 to cloud.Length0
      invariant forall i, j :: 0 <= i < row && 0 <= j < cloud.Length1 ==> cloud[i, j] == Initial(Pos(i, j))
    {
      for col := 0 to cloud.Length1
        invariant forall i, j :: 0 <= i < row && 0 <= j < cloud.Length1 ==> cloud[i, j] == Initial(Pos(i, j))
        invariant forall j :: 0 <= j < col ==> cloud[row, j] == Initial(Pos(row, j))
      {
        cloud[row, col] := Initial(Pos(row, col));
      }
    }
  }

  // ---------------------------------------------------------------------
  // The size filter on obj_num

  /** An object survives the filter when it has more than `MIN_CLOUD_OBJ`
      pixels. */
  predicate Kept(count: int) {
    count > MinCloudObj
  }

  /** `obj_num` after the filter: the counts of objects 1..`numClouds` that
      are not kept become 0, every other entry stays. */
  function Dropped(s: seq<int>, numClouds: int): (t: seq<int>)
    requires numClouds < |s|
    ensures |t| == |s|
  {
    seq(|s|, v requires 0 <= v < |s| => if 1 <= v <= numClouds && !Kept(s[v]) then 0 else s[v])
  }

  /** Number of objects among 1..`numClouds` whose count is kept. */
  function Survivors(s: seq<int>, numClouds: int): (k: nat)
    requires numClouds < |s|
    ensures k <= if numClouds < 0 then 0 else numClouds
    decreases numClouds
  {
    if numClouds <= 0 then 0 else Survivors(s, numClouds - 1) + (if Kept(s[numClouds]) then 1 else 0)
  }

  /** Number of entries among 1..`numClouds` that are not 0. */
  function NonZero(t: seq<int>, numClouds: int): (k: nat)
    requires numClouds < |t|
    decreases numClouds
  {
    if numClouds <= 0 then 0 else NonZero(t, numClouds - 1) + (if t[numClouds] != 0 then 1 else 0)
  }

  /** After the filter, the count of an object 1..`numClouds` is non-zero
      exactly when the object is kept, and the other entries are untouched. */
  lemma DroppedEntries(s: seq<int>, numClouds: int, v: int)
    requires numClouds < |s| && 0 <= v < |s|
    ensures 1 <= v <= numClouds && s[v] >= 0 ==> (Dropped(s, numClouds)[v] != 0 <==> Kept(s[v]))
    ensures 1 <= v <= numClouds && Kept(s[v]) ==> Dropped(s, numClouds)[v] == s[v]
    ensures !(1 <= v <= numClouds) ==> Dropped(s, numClouds)[v] == s[v]
  {
  }

  /** Running the filter a second time changes nothing. */
  lemma DroppedIdempotent(s: seq<int>, numClouds: int)
    requires numClouds < |s|
    ensures Dropped(Dropped(s, numClouds), numClouds) == Dropped(s, numClouds)
  {
  }

  /** `counter` is the number of objects whose count is still non-zero
      after the filter, when no count is negative. */
  lemma {:induction false} SurvivorsAreNonZero(s: seq<int>, numClouds: int)
    requires numClouds < |s|
    requires forall v :: 1 <= v <= numClouds ==> s[v] >= 0
    ensures Survivors(s, numClouds) == NonZero(Dropped(s, numClouds), numClouds)
    decreases numClouds
  {
    if numClouds > 0 {
      SurvivorsAreNonZero(s, numClouds - 1);
      var t, u := Dropped(s, numClouds), Dropped(s, numClouds - 1);
      NonZeroSame(t, u, numClouds - 1);
    }
  }

  /** `NonZero` only looks at entries 1..`numClouds`. */
  lemma {:induction false} NonZeroSame(t: seq<int>, u: seq<int>, numClouds: int)
    requires numClouds < |t| && numClouds < |u|
    requires forall v :: 1 <= v <= numClouds ==> t[v] == u[v]
    ensures NonZero(t, numClouds) == NonZero(u, numClouds)
    decreases numClouds
  {
    if numClouds > 0 {
      NonZeroSame(t, u, numClouds - 1);
    }
  }

  /** The filtered counts have the same survivors. */
  lemma SurvivorsAfterDrop(s: seq<int>, numClouds: int)
    requires numClouds < |s|
    ensures Survivors(Dropped(s, numClouds), numClouds) == Survivors(s, numClouds)
  {
    var t := Dropped(s, numClouds);
    SurvivorsKeptOnly(s, t, numClouds);
  }

  /** Two count tables that agree on which objects are kept have the same
      number of survivors. */
  lemma {:induction false} SurvivorsKeptOnly(s: seq<int>, r: seq<int>, numClouds: int)
    requires numClouds < |s| && numClouds < |r|
    requires forall v :: 1 <= v <= numClouds ==> (Kept(s[v]) <==> Kept(r[v]))
    ensures Survivors(s, numClouds) == Survivors(r, numClouds)
    decreases numClouds
  {
    if numClouds > 0 {
      SurvivorsKeptOnly(s, r, numClouds - 1);
    }
  }

  /** The filter loop over `obj_num[1..num_clouds]`, counting the objects it
      keeps. */
  method DropSmallClouds(objNum: array<int>, numClouds: int) returns (counter: nat)
    requires 0 <= numClouds < objNum.Length
    modifies objNum
    ensures objNum[..] == Dropped(old(objNum[..]), numClouds)
    ensures counter == Survivors(old(objNum[..]), numClouds)
  {
    ghost var s := objNum[..];
    counter := 0;
    var num := 1;
    while num <= numClouds
      invariant 1 <= num <= numClouds + 1
      invariant objNum[..] == Dropped(s, num - 1)
      invariant counter == Survivors(s, num - 1)
    {
      if objNum[num] <= MinCloudObj {
        objNum[num] := 0;
      } else {
        counter := counter + 1;
      }
      num := num + 1;
    }
  }

  // ---------------------------------------------------------------------
  // cloud_cal

  /** The loop that builds `cloud_cal`: a pixel is 1 when it is a cloud
      pixel inside the scene whose object still has a non-zero count, and 0
      otherwise.  The label is only read for cloud pixels, as the `&&` of
      the source only reaches `obj_num` for those. */
  method CloudCal(M: Grid, boundaryTest: array2<int>, cloud: array2<CloudNode>, objNum: array<int>, cloudCal: array2<int>)
    requires Shaped(M, cloud) && cloudCal != boundaryTest
    requires boundaryTest.Length0 == cloudCal.Length0 == cloud.Length0
    requires boundaryTest.Length1 == cloudCal.Length1 == cloud.Length1
    requires forall r, c :: 0 <= r < cloud.Length0 && 0 <= c < cloud.Length1 && M[r][c] == 1 ==>
      0 <= cloud[r, c].value < objNum.Length
    modifies cloudCal
    ensures forall r, c :: 0 <= r < cloudCal.Length0 && 0 <= c < cloudCal.Length1 ==>
      cloudCal[r, c] == if M[r][c] == 1 && boundaryTest[r, c] != 0 && objNum[cloud[r, c].value] != 0 then 1 else 0
  {
    for row := 0 to cloudCal.Length0
      invariant forall r, c :: 0 <= r < row && 0 <= c < cloudCal.Length1 ==>
        cloudCal[r, c] == if M[r][c] == 1 && boundaryTest[r, c] != 0 && objNum[cloud[r, c].value] != 0 then 1 else 0
    {
      for col := 0 to cloudCal.Length1
        invariant forall r, c :: 0 <= r < row && 0 <= c < cloudCal.Length1 ==>
          cloudCal[r, c] == if M[r][c] == 1 && boundaryTest[r, c] != 0 && objNum[cloud[r, c].value] != 0 then 1 else 0
        invariant forall c :: 0 <= c < col ==>
          cloudCal[row, c] == if M[row][c] == 1 && boundaryTest[row, c] != 0 && objNum[cloud[row, c].value] != 0 then 1 else 0
      {
        if M[row][col] == 1 && boundaryTest[row, col] != 0 && objNum[cloud[row, col].value] != 0 {
          cloudCal[row, col] := M[row][col];
        } else {
          cloudCal[row, col] := 0;
        }
      }
    }
  }

  // ---------------------------------------------------------------------
  // The whole step

  /** `V` labels the cloud pixels of `M`: every cloud pixel carries a label
      in 1..`n`, every other pixel 0, and 8-neighbouring cloud pixels carry
      the same label. */
  ghost predicate CloudLabels(M: Grid, V: Grid, n: int) {
    |V| == |M| && (forall i :: 0 <= i < |M| ==> |V[i]| == |M[i]|) &&
    (forall i, j :: 0 <= i < |M| && 0 <= j < |M[i]| ==>
       if M[i][j] == 1 then 1 <= V[i][j] <= n else V[i][j] == 0) &&
    (forall q1, q2 {:trigger Adjacent(q1, q2)} :: CloudAt(M, q1) && CloudAt(M, q2) && Adjacent(q1, q2) ==>
       V[q1.row][q1.col] == V[q2.row][q2.col])
  }

  /** The label grid of a labelled node array labels the cloud pixels. */
  lemma LabelGridLabels(M: Grid, G: Nodes, n: int, R: map<Pos, nat>, bound: nat, Owner: map<int, Pos>)
    requires Labelled(M, G, n, R, bound, Owner)
    ensures CloudLabels(M, LabelGrid(M, G), n)
  {
    var V := LabelGrid(M, G);
    forall i, j | 0 <= i < |M| && 0 <= j < |M[i]|
      ensures if M[i][j] == 1 then 1 <= V[i][j] <= n else V[i][j] == 0
    {
      LabelGridCell(M, G, Pos(i, j));
      assert In(G, Pos(i, j));
    }
    forall q1, q2 | CloudAt(M, q1) && CloudAt(M, q2) && Adjacent(q1, q2)
      ensures V[q1.row][q1.col] == V[q2.row][q2.col]
    {
      LabelledNeighbours(M, G, n, R, bound, Owner, q1, q2);
      LabelGridCell(M, G, q1);
      LabelGridCell(M, G, q2);
    }
  }

  /** Number of labels 1..`n` whose object in `V` has more than
      `MIN_CLOUD_OBJ` pixels. */
  ghost function KeptObjects(V: Grid, n: int): (k: nat)
    ensures k <= if n < 0 then 0 else n
    decreases n
  {
    if n <= 0 then 0 else KeptObjects(V, n - 1) + (if Kept(CountCells(V, n)) then 1 else 0)
  }

  /** A count table that holds the pixel count of every label 1..`n` has
      `KeptObjects` survivors. */
  lemma {:induction false} SurvivorsOfCounts(s: seq<int>, V: Grid, n: int)
    requires n < |s| && forall v :: 1 <= v <= n ==> s[v] == CountCells(V, v)
    ensures Survivors(s, n) == KeptObjects(V, n)
    decreases n
  {
    if n > 0 {
      SurvivorsOfCounts(s, V, n - 1);
    }
  }

  /** The filter and the `cloud_cal` loop, on a node array whose cloud
      pixels carry the labels of `V` and a table `obj_num` that holds the
      pixel count of every label: `cloud_cal` keeps the cloud pixels inside
      the scene whose object has more than `MIN_CLOUD_OBJ` pixels, and
      `counter` is the number of such objects. */
  method KeepLargeClouds(M: Grid, boundaryTest: array2<int>, cloud: array2<CloudNode>, objNum: array<int>,
                         cloudCal: array2<int>, n: int, ghost V: Grid) returns (counter: nat)
    requires Shaped(M, cloud) && cloudCal != boundaryTest
    requires boundaryTest.Length0 == cloudCal.Length0 == cloud.Length0
    requires boundaryTest.Length1 == cloudCal.Length1 == cloud.Length1
    requires CloudLabels(M, V, n) && 0 <= n < objNum.Length
    requires forall r, c :: 0 <= r < cloud.Length0 && 0 <= c < cloud.Length1 && M[r][c] == 1 ==> cloud[r, c].value == V[r][c]
    requires forall v :: 1 <= v < objNum.Length ==> objNum[v] == CountCells(V, v)
    modifies objNum, cloudCal
    ensures counter == KeptObjects(V, n)
    ensures forall r, c :: 0 <= r < cloudCal.Length0 && 0 <= c < cloudCal.Length1 ==>
      cloudCal[r, c] == if M[r][c] == 1 && boundaryTest[r, c] != 0 && Kept(CountCells(V, V[r][c])) then 1 else 0
  {
    ghost var counts := objNum[..];
    SurvivorsOfCounts(counts, V, n);
    counter := DropSmallClouds(objNum, n);
    CloudCal(M, boundaryTest, cloud, objNum, cloudCal);
    forall r, c | 0 <= r < cloudCal.Length0 && 0 <= c < cloudCal.Length1
      ensures cloudCal[r, c] == if M[r][c] == 1 && boundaryTest[r, c] != 0 && Kept(CountCells(V, V[r][c])) then 1 else 0
    {
      if M[r][c] == 1 {
        DroppedEntries(counts, n, V[r][c]);
      }
    }
  }

  /** The cloud-object step of `object_cloud_shadow_match`: allocate
      `obj_num`, the node array and `cloud_first_node`, reset the nodes,
      label the cloud pixels of `M`, drop the objects of at most
      `MIN_CLOUD_OBJ` pixels and build `cloud_cal`.  `counter` is the number
      of objects kept; `V` is the label grid and `n` the number of labels
      that `label` hands out.  `ok` is false when `label` runs out of the
      `MAX_CLOUD_TYPE` labels. */
  method SegmentClouds(M: Grid, boundaryTest: array2<int>, cloudCal: array2<int>)
    returns (counter: nat, ok: bool, n: int, ghost V: Grid)
    requires Rectangular(M) && cloudCal != boundaryTest
    requires boundaryTest.Length0 == cloudCal.Length0 == |M|
    requires boundaryTest.Length1 == cloudCal.Length1 == Cols(M)
    modifies cloudCal
    ensures !ok ==> n + 1 == MaxCloudType
    ensures ok ==> 0 <= n < MaxCloudType && CloudLabels(M, V, n) && counter == KeptObjects(V, n)
    ensures ok ==> forall r, c :: 0 <= r < cloudCal.Length0 && 0 <= c < cloudCal.Length1 ==>
      cloudCal[r, c] == if M[r][c] == 1 && boundaryTest[r, c] != 0 && Kept(CountCells(V, V[r][c])) then 1 else 0
  {
    var objNum := new int[MaxCloudType](_ => 0);
    var cloud := new CloudNode[|M|, Cols(M)];
    var firstNode := new int[2, MaxCloudType];
    InitNodes(cloud);
    ghost var R, bound, Owner;
    n, ok, R, bound, Owner := Label(cloud, M, objNum, firstNode);
    counter := 0;
    ghost var G := Snapshot(cloud);
    V := LabelGrid(M, G);
    if !ok {
      return;
    }
    LabelGridLabels(M, G, n, R, bound, Owner);
    forall r, c | 0 <= r < |M| && 0 <= c < Cols(M) && M[r][c] == 1
      ensures cloud[r, c].value == V[r][c]
    {
      LabelGridCell(M, G, Pos(r, c));
    }
    counter := KeepLargeClouds(M, boundaryTest, cloud, objNum, cloudCal, n, V);
  }
}
