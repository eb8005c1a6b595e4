/** The per-pixel layers built around cloud/shadow matching in
    l4-7_cfmask/src/object_cloud_shadow_match.c: the boundary layer that
    separates scene pixels from the 255 fill, and the final output mask that
    encodes, pixel by pixel, the highest-priority class that fired. */
module CloudMask {
  import opened Grids

  /** Value of a cloud-mask pixel outside the scene. */
  const FillValue := 255

  /** Final-mask codes. */
  const ClearCode := 0
  const WaterCode := 1
  const ShadowCode := 2
  const SnowCode := 3
  const CloudCode := 4

  /** `boundary_test` for one `cloud_mask` pixel: 1 for any pixel below the
      fill value (clear or cloud), 0 for fill. */
  function BoundaryCell(m: int): (b: int)
    ensures b == 0 || b == 1
    ensures b == 1 <==> m != FillValue && m <= FillValue
  {
    if m < FillValue then 1 else 0
  }

  /** The boundary layer of a whole cloud mask. */
  function BoundaryOf(cloudMask: array2<int>): (g: Grid)
    reads cloudMask
    ensures Rows(g) == cloudMask.Length0 && Rectangular(g) && (cloudMask.Length0 > 0 ==> Cols(g) == cloudMask.Length1)
    ensures forall i, j :: 0 <= i < cloudMask.Length0 && 0 <= j < cloudMask.Length1 ==> g[i][j] == BoundaryCell(cloudMask[i, j])
  {
    seq(cloudMask.Length0, i requires 0 <= i < cloudMask.Length0 reads cloudMask =>
      seq(cloudMask.Length1, j requires 0 <= j < cloudMask.Length1 reads cloudMask => BoundaryCell(cloudMask[i, j])))
  }

  /** One row of the scan that fills `boundary_test`: returns how many of
      the row's pixels are cloud and how many are inside the scene. */
  method BoundaryRow(cloudMask: array2<int>, boundaryTest: array2<int>, row: nat)
      returns (cloudInRow: nat, boundaryInRow: nat)
    requires boundaryTest != cloudMask && row < cloudMask.Length0
    requires boundaryTest.Length0 == cloudMask.Length0 && boundaryTest.Length1 == cloudMask.Length1
    modifies boundaryTest
    ensures forall i, j :: 0 <= i < boundaryTest.Length0 && 0 <= j < boundaryTest.Length1 ==>
      boundaryTest[i, j] == if i == row then BoundaryCell(cloudMask[i, j]) else old(boundaryTest[i, j])
    ensures cloudInRow == CountIn(Snapshot(cloudMask)[row], 1)
    ensures boundaryInRow == CountIn(BoundaryOf(cloudMask)[row], 1)
  {
    ghost var m := Snapshot(cloudMask)[row];
    ghost var b := BoundaryOf(cloudMask)[row];
    cloudInRow, boundaryInRow := 0, 0;
    for col := 0 to cloudMask.Length1
      invariant forall i, j :: 0 <= i < boundaryTest.Length0 && 0 <= j < boundaryTest.Length1 ==>
        boundaryTest[i, j] == if i == row && j < col then b[j] else old(boundaryTest[i, j])
      invariant cloudInRow == CountIn(m[..col], 1)
      invariant boundaryInRow == CountIn(b[..col], 1)
    {
      CountInStep(m, col, 1);
      CountInStep(b, col, 1);
      if cloudMask[row, col] == 1 {
        cloudInRow := cloudInRow + 1;
      }
      if cloudMask[row, col] < FillValue {
        boundaryTest[row, col] := 1;
        boundaryInRow := boundaryInRow + 1;
      } else {
        boundaryTest[row, col] := 0;
      }
    }
    assert m[..cloudMask.Length1] == m && b[..cloudMask.Length1] == b;
  }

  /** The scan that fills `boundary_test` and counts cloud pixels
      (`cloud_counter`) and scene pixels (`boundary_counter`). */
  method BoundaryTest(cloudMask: array2<int>, boundaryTest: array2<int>)
      returns (cloudCounter: nat, boundaryCounter: nat)
    requires boundaryTest != cloudMask
    requires boundaryTest.Length0 == cloudMask.Length0 && boundaryTest.Length1 == cloudMask.Length1
    modifies boundaryTest
    ensures Snapshot(boundaryTest) == BoundaryOf(cloudMask)
    ensures cloudCounter == CountCells(Snapshot(cloudMask), 1)
    ensures boundaryCounter == CountCells(Snapshot(boundaryTest), 1)
    ensures cloudCounter <= boundaryCounter
  {
    ghost var m := Snapshot(cloudMask);
    ghost var b := BoundaryOf(cloudMask);
    cloudCounter, boundaryCounter := 0, 0;
    for row := 0 to cloudMask.Length0
      invariant forall i, j :: 0 <= i < row && 0 <= j < cloudMask.Length1 ==> boundaryTest[i, j] == b[i][j]
      invariant cloudCounter == CountCells(m[..row], 1)
      invariant boundaryCounter == CountCells(b[..row], 1)
    {
      var c, n := BoundaryRow(cloudMask, boundaryTest, row);
      CountCellsStep(m, row, 1);
      CountCellsStep(b, row, 1);
      cloudCounter, boundaryCounter := cloudCounter + c, boundaryCounter + n;
    }
    assert m[..cloudMask.Length0] == m && b[..cloudMask.Length0] == b;
    SameGrid(Snapshot(boundaryTest), b);
    CountCellsMonotone(m, b, 1, 1);
  }

  /** The code written to `final_mask` for one pixel: fill outside the
      scene, otherwise the first of cloud, shadow, snow, water that is set,
      otherwise clear. */
  function FinalCode(boundary: int, cloudCal: int, shadowCal: int, snow: int, water: int): (code: int)
    ensures code == FillValue <==> boundary == 0
    ensures code == CloudCode <==> boundary != 0 && cloudCal == 1
    ensures code == ShadowCode <==> boundary != 0 && cloudCal != 1 && shadowCal == 1
    ensures code == SnowCode <==> boundary != 0 && cloudCal != 1 && shadowCal != 1 && snow == 1
    ensures code == WaterCode <==> boundary != 0 && cloudCal != 1 && shadowCal != 1 && snow != 1 && water == 1
    ensures code == ClearCode <==> boundary != 0 && cloudCal != 1 && shadowCal != 1 && snow != 1 && water != 1
  {
    if boundary == 0 then FillValue
    else if cloudCal == 1 then CloudCode
    else if shadowCal == 1 then ShadowCode
    else if snow == 1 then SnowCode
    else if water == 1 then WaterCode
    else ClearCode
  }

  predicate SameShape(a: array2<int>, b: array2<int>) {
    a.Length0 == b.Length0 && a.Length1 == b.Length1
  }

  /** The final mask the five input layers determine. */
  function FinalOf(boundaryTest: array2<int>, cloudCal: array2<int>, shadowCal: array2<int>,
                   snowMask: array2<int>, waterMask: array2<int>): (g: Grid)
    requires SameShape(cloudCal, boundaryTest) && SameShape(shadowCal, boundaryTest)
    requires SameShape(snowMask, boundaryTest) && SameShape(waterMask, boundaryTest)
    reads boundaryTest, cloudCal, shadowCal, snowMask, waterMask
    ensures Rows(g) == boundaryTest.Length0 && Rectangular(g)
    ensures boundaryTest.Length0 > 0 ==> Cols(g) == boundaryTest.Length1
    ensures forall i, j :: 0 <= i < boundaryTest.Length0 && 0 <= j < boundaryTest.Length1 ==>
      g[i][j] == FinalCode(boundaryTest[i, j], cloudCal[i, j], shadowCal[i, j], snowMask[i, j], waterMask[i, j])
  {
    seq(boundaryTest.Length0, i requires 0 <= i < boundaryTest.Length0
          reads boundaryTest, cloudCal, shadowCal, snowMask, waterMask =>
      seq(boundaryTest.Length1, j requires 0 <= j < boundaryTest.Length1
            reads boundaryTest, cloudCal, shadowCal, snowMask, waterMask =>
        FinalCode(boundaryTest[i, j], cloudCal[i, j], shadowCal[i, j], snowMask[i, j], waterMask[i, j])))
  }

  /** One row of the scan that writes `final_mask`: returns the number of
      cloud and shadow codes written in the row. */
  method FinalRow(boundaryTest: array2<int>, cloudCal: array2<int>, shadowCal: array2<int>,
                  snowMask: array2<int>, waterMask: array2<int>, finalMask: array2<int>, row: nat, ghost F: Grid)
      returns (cloudInRow: nat, shadowInRow: nat)
    requires SameShape(cloudCal, boundaryTest) && SameShape(shadowCal, boundaryTest)
    requires SameShape(snowMask, boundaryTest) && SameShape(waterMask, boundaryTest)
    requires SameShape(finalMask, boundaryTest) && row < boundaryTest.Length0
    requires finalMask != boundaryTest && finalMask != cloudCal && finalMask != shadowCal
    requires finalMask != snowMask && finalMask != waterMask
    requires F == FinalOf(boundaryTest, cloudCal, shadowCal, snowMask, waterMask)
    modifies finalMask
    ensures forall i, j :: 0 <= i < finalMask.Length0 && 0 <= j < finalMask.Length1 ==>
      finalMask[i, j] == if i == row then F[i][j] else old(finalMask[i, j])
    ensures cloudInRow == CountIn(F[row], CloudCode)
    ensures shadowInRow == CountIn(F[row], ShadowCode)
  {
    ghost var f := F[row];
    cloudInRow, shadowInRow := 0, 0;
    for col := 0 to boundaryTest.Length1
      invariant forall i, j :: 0 <= i < finalMask.Length0 && 0 <= j < finalMask.Length1 ==>
        finalMask[i, j] == if i == row && j < col then f[j] else old(finalMask[i, j])
      invariant cloudInRow == CountIn(f[..col], CloudCode)
      invariant shadowInRow == CountIn(f[..col], ShadowCode)
    {
      CountInStep(f, col, CloudCode);
      CountInStep(f, col, ShadowCode);
      if boundaryTest[row, col] == 0 {
        finalMask[row, col] := FillValue;
      } else if cloudCal[row, col] == 1 {
        finalMask[row, col] := CloudCode;
        cloudInRow := cloudInRow + 1;
      } else if shadowCal[row, col] == 1 {
        finalMask[row, col] := ShadowCode;
        shadowInRow := shadowInRow + 1;
      } else if snowMask[row, col] == 1 {
        finalMask[row, col] := SnowCode;
      } else if waterMask[row, col] == 1 {
        finalMask[row, col] := WaterCode;
      } else {
        finalMask[row, col] := ClearCode;
      }
    }
    assert f[..boundaryTest.Length1] == f;
  }

  /** The scan that writes `final_mask` and counts the cloud (`cloud_count`)
      and shadow (`shadow_count`) pixels of the output. */
  method ComposeFinalMask(boundaryTest: array2<int>, cloudCal: array2<int>, shadowCal: array2<int>,
                          snowMask: array2<int>, waterMask: array2<int>, finalMask: array2<int>)
      returns (cloudCount: nat, shadowCount: nat)
    requires SameShape(cloudCal, boundaryTest) && SameShape(shadowCal, boundaryTest)
    requires SameShape(snowMask, boundaryTest) && SameShape(waterMask, boundaryTest)
    requires SameShape(finalMask, boundaryTest)
    requires finalMask != boundaryTest && finalMask != cloudCal && finalMask != shadowCal
    requires finalMask != snowMask && finalMask != waterMask
    modifies finalMask
    ensures Snapshot(finalMask) == FinalOf(boundaryTest, cloudCal, shadowCal, snowMask, waterMask)
    ensures cloudCount == CountCells(Snapshot(finalMask), CloudCode)
    ensures shadowCount == CountCells(Snapshot(finalMask), ShadowCode)
  {
    ghost var f := FinalOf(boundaryTest, cloudCal, shadowCal, snowMask, waterMask);
    cloudCount, shadowCount := 0, 0;
    for row := 0 to boundaryTest.Length0
      invariant forall i, j :: 0 <= i < row && 0 <= j < boundaryTest.Length1 ==> finalMask[i, j] == f[i][j]
      invariant cloudCount == CountCells(f[..row], CloudCode)
      invariant shadowCount == CountCells(f[..row], ShadowCode)
    {
      var c, s := FinalRow(boundaryTest, cloudCal, shadowCal, snowMask, waterMask, finalMask, row, f);
      CountCellsStep(f, row, CloudCode);
      CountCellsStep(f, row, ShadowCode);
      cloudCount, shadowCount := cloudCount + c, shadowCount + s;
    }
    assert f[..boundaryTest.Length0] == f;
    SameGrid(Snapshot(finalMask), f);
  }

  /** Fill in the cloud mask is fill in the output, and a scene pixel is
      never reported as fill: the final mask keeps the scene boundary. */
  lemma FinalKeepsBoundary(m: int, cloudCal: int, shadowCal: int, snow: int, water: int)
    ensures FinalCode(BoundaryCell(m), cloudCal, shadowCal, snow, water) == FillValue <==> m >= FillValue
  {
  }
}
