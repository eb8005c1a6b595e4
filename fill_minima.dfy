/** Filling of local minima in a raster (`fillMinima` and its C kernel): a
    reconstruction by erosion driven by a hierarchical queue of pixels, one
    FIFO list per integer level, seeded at the edge of the data and flooded
    upward from the lowest level. */
module FillMinima {
  import opened Grids

  /** Row indices above this make `newPix` end the process. */
  const MaxRow := 10000

  datatype Option<T> = None | Some(value: T)

  /** A pixel record `PQel`: row `i`, column `j`. */
  datatype Pixel = Pixel(i: int, j: int)

  /** `newPix`: the record for (i, j), or `None` for the exit taken when the
      row index is above `MaxRow`. */
  function NewPix(i: int, j: int): (p: Option<Pixel>)
    ensures p.Some? <==> i <= MaxRow
    ensures p.Some? ==> p.value.i == i && p.value.j == j
  {
    if i > MaxRow then None else Some(Pixel(i, j))
  }

  // ---------------------------------------------------------------------
  // The hierarchical pixel queue
  // ---------------------------------------------------------------------

  /** The header `PQhdr` of one level: the listed pixels from `first` to
      `last`, the `last` pointer and the count `n`. */
  datatype Header = Header(items: seq<Pixel>, last: Option<Pixel>, n: int)

  /** `first` is NULL exactly when the list is empty, `last` points at its
      final pixel and `n` is its length. */
  predicate WellFormed(hd: Header) {
    hd.n == |hd.items| && hd.last == (if hd.items == [] then None else Some(hd.items[|hd.items| - 1]))
  }

  /** `PixelQueue`: level `h` is held by `q[h - hMin]`. */
  class PixelQueue {
    const hMin: int
    const numLevels: int
    const q: array<Header>

    ghost predicate Valid()
      reads q
    {
      q.Length == numLevels && forall k :: 0 <= k < numLevels ==> WellFormed(q[k])
    }

    /** Whether level `h` has a list in `q`. */
    predicate Holds(h: int) {
      hMin <= h < hMin + numLevels
    }

    /** `PQ_init`: one empty list per level from `hMin` to `hMax`. */
    constructor (hMin: int, hMax: int)
      requires hMin <= hMax
      ensures Valid() && this.hMin == hMin && numLevels == hMax - hMin + 1 && fresh(q)
      ensures forall k :: 0 <= k < numLevels ==> q[k].items == []
    {
      this.hMin := hMin;
      numLevels := hMax - hMin + 1;
      q := new Header[hMax - hMin + 1];
      new;
      for i := 0 to numLevels
        invariant forall k :: 0 <= k < i ==> q[k] == Header([], None, 0)
      {
        q[i] := Header([], None, 0);
      }
    }

    /** `PQ_add`, with the level check it evidently intends: a copy of `p`
        goes to the tail of level `h`, whose count grows by one; `ok` is false
        for the exits, taken when the copy's row is above `MaxRow` or when `h`
        has no list. */
    method Add(p: Pixel, h: int) returns (ok: bool)
      requires Valid()
      modifies q
      ensures Valid()
      ensures ok <==> p.i <= MaxRow && Holds(h)
      ensures ok ==> q[h - hMin].items == old(q[h - hMin].items) + [p]
      ensures ok ==> q[h - hMin].n == old(q[h - hMin].n) + 1 && q[h - hMin].last == Some(p)
      ensures forall k :: 0 <= k < numLevels && k != h - hMin ==> q[k] == old(q[k])
      ensures !ok ==> unchanged(q)
    {
      var newP := NewPix(p.i, p.j);
      if newP.None? {
        return false;
      }
      var ndx := h - hMin;
      if ndx < 0 || ndx >= numLevels {
        return false;
      }
      var thisQ := q[ndx];
      q[ndx] := Header(thisQ.items + [newP.value], Some(newP.value), thisQ.n + 1);
      ok := true;
    }

    /** `PQ_empty`: whether level `h` is empty. Its two consistency checks
        between `first` and `n` never fire on a valid queue. */
    method Empty(h: int) returns (empty: bool)
      requires Valid() && Holds(h)
      ensures empty <==> q[h - hMin].items == []
    {
      var hd := q[h - hMin];
      empty := hd.items == [];
      if empty && hd.n != 0 {
        assert false;
      }
      if hd.n == 0 && !empty {
        assert false;
      }
    }

    /** `PQ_first`: removes and returns the head of level `h` (`None` when it
        is empty); the count drops by one and `last` is cleared when the list
        empties. */
    method First(h: int) returns (p: Option<Pixel>)
      requires Valid() && Holds(h)
      modifies q
      ensures Valid()
      ensures old(q[h - hMin].items) == [] ==> p == None && unchanged(q)
      ensures old(q[h - hMin].items) != [] ==>
        p == Some(old(q[h - hMin].items[0])) && q[h - hMin].items == old(q[h - hMin].items[1..]) &&
        q[h - hMin].n == old(q[h - hMin].n) - 1
      ensures q[h - hMin].items == [] ==> q[h - hMin].last == None
      ensures forall k :: 0 <= k < numLevels && k != h - hMin ==> q[k] == old(q[k])
    {
      var ndx := h - hMin;
      var thisQ := q[ndx];
      if thisQ.items == [] {
        return None;
      }
      var rest := thisQ.items[1..];
      q[ndx] := Header(rest, if rest == [] then None else thisQ.last, thisQ.n - 1);
      if q[ndx].n < 0 {
        assert false;
      }
      p := Some(thisQ.items[0]);
    }
  }

  /** The check `PQ_add` makes as written: it exits only when the index is
      above the number of levels. */
  predicate AddExitsAsWritten(ndx: int, numLevels: int) {
    ndx > numLevels
  }

  /** The written check lets through an index one past the last list, and any
      negative index: an image [[0, 1]] without no-data cells has levels 0 and
      1 and seeds the cell holding 0; with `boundaryval` 2 that seed is added at
      index 2 of a two-entry array. */
  lemma AddCheckAsWrittenAdmitsPastEnd(hMin: int, hMax: int)
    requires hMin <= hMax
    ensures !AddExitsAsWritten(hMax + 1 - hMin, hMax - hMin + 1) && !(0 <= hMax + 1 - hMin < hMax - hMin + 1)
    ensures !AddExitsAsWritten(hMin - 1 - hMin, hMax - hMin + 1) && !(0 <= hMin - 1 - hMin < hMax - hMin + 1)
  {
  }

  // ---------------------------------------------------------------------
  // Neighbours
  // ---------------------------------------------------------------------

  /** The k-th offset `neighbours` tries, k in [0, 9): (ii, jj) row by row. */
  function Offset(p: Pixel, k: int): Pixel {
    Pixel(p.i + (if k < 3 then -1 else if k < 6 then 0 else 1),
          p.j + (if k == 0 || k == 3 || k == 6 then -1 else if k == 1 || k == 4 || k == 7 then 0 else 1))
  }

  /** `neighbours` keeps an offset when neither coordinate is unchanged and
      the pixel lies in the image. */
  predicate Kept(p: Pixel, x: Pixel, nRows: int, nCols: int) {
    x.i != p.i && x.j != p.j && 0 <= x.i < nRows && 0 <= x.j < nCols
  }

  /** The list `neighbours` holds after trying the first k offsets: each kept
      pixel is put in front. */
  function Scanned(p: Pixel, nRows: int, nCols: int, k: nat): seq<Pixel> {
    if k == 0 then []
    else (if Kept(p, Offset(p, k - 1), nRows, nCols) then [Offset(p, k - 1)] else []) + Scanned(p, nRows, nCols, k - 1)
  }

  /** The list `neighbours` returns. */
  function Diagonals(p: Pixel, nRows: int, nCols: int): seq<Pixel> {
    Scanned(p, nRows, nCols, 9)
  }

  predicate Diagonal(p: Pixel, x: Pixel) {
    (x.i == p.i - 1 || x.i == p.i + 1) && (x.j == p.j - 1 || x.j == p.j + 1)
  }

  predicate InImage(x: Pixel, nRows: int, nCols: int) {
    0 <= x.i < nRows && 0 <= x.j < nCols
  }

  lemma {:induction false} ScannedHas(p: Pixel, nRows: int, nCols: int, k: nat, x: Pixel)
    ensures x in Scanned(p, nRows, nCols, k) <==>
      exists m :: 0 <= m < k && x == Offset(p, m) && Kept(p, x, nRows, nCols)
  {
    if k > 0 {
      ScannedHas(p, nRows, nCols, k - 1, x);
      if x == Offset(p, k - 1) && Kept(p, x, nRows, nCols) {
        assert x in Scanned(p, nRows, nCols, k);
      }
    }
  }

  /** `neighbours` yields exactly the in-image diagonal neighbours: the four
      pixels sharing a side with `p` are never among them. */
  lemma DiagonalsExactly(p: Pixel, nRows: int, nCols: int, x: Pixel)
    ensures x in Diagonals(p, nRows, nCols) <==> Diagonal(p, x) && InImage(x, nRows, nCols)
  {
    ScannedHas(p, nRows, nCols, 9, x);
    if Diagonal(p, x) && InImage(x, nRows, nCols) {
      var m := (x.i - p.i + 1) * 3 + (x.j - p.j + 1);
      assert x == Offset(p, m);
    }
  }

  /** Number of diagonal offsets among the first k. */
  function DiagonalOffsets(k: int): nat {
    (if k > 0 then 1 else 0) + (if k > 2 then 1 else 0) + (if k > 6 then 1 else 0) + (if k > 8 then 1 else 0)
  }

  lemma {:induction false} ScannedLength(p: Pixel, nRows: int, nCols: int, k: nat)
    requires k <= 9
    ensures |Scanned(p, nRows, nCols, k)| <= DiagonalOffsets(k)
  {
    if k > 0 {
      ScannedLength(p, nRows, nCols, k - 1);
    }
  }

  /** `neighbours` returns at most four pixels. */
  lemma AtMostFour(p: Pixel, nRows: int, nCols: int)
    ensures |Diagonals(p, nRows, nCols)| <= 4
  {
    ScannedLength(p, nRows, nCols, 9);
  }

  /** Trying offset (ii, jj) extends the scan by that one pixel when it is kept. */
  lemma ScannedStep(p: Pixel, nRows: int, nCols: int, ii: int, jj: int)
    requires -1 <= ii <= 1 && -1 <= jj <= 1
    ensures Scanned(p, nRows, nCols, 3 * (ii + 1) + (jj + 1) + 1) ==
      (if Kept(p, Pixel(p.i + ii, p.j + jj), nRows, nCols) then [Pixel(p.i + ii, p.j + jj)] else []) +
      Scanned(p, nRows, nCols, 3 * (ii + 1) + (jj + 1))
  {
  }

  /** One trial of `neighbours`: offset (ii, jj) is kept when it is diagonal
      and in the image; `ok` false for the exit `newPix` takes on it. */
  method TryOffset(p: Pixel, nRows: int, nCols: int, ii: int, jj: int, pl: seq<Pixel>)
    returns (ok: bool, pl': seq<Pixel>)
    requires -1 <= ii <= 1 && -1 <= jj <= 1
    requires pl == Scanned(p, nRows, nCols, 3 * (ii + 1) + (jj + 1))
    ensures ok ==> pl' == Scanned(p, nRows, nCols, 3 * (ii + 1) + (jj + 1) + 1)
    ensures ok ==> forall x :: x in pl' ==> x in pl || x.i <= MaxRow
    ensures !ok ==> Pixel(p.i + ii, p.j + jj) in Diagonals(p, nRows, nCols) && p.i + ii > MaxRow
  {
    ghost var x := Pixel(p.i + ii, p.j + jj);
    ScannedStep(p, nRows, nCols, ii, jj);
    ok, pl' := true, pl;
    if ii != 0 && jj != 0 {
      var i, j := p.i + ii, p.j + jj;
      if 0 <= i < nRows && 0 <= j < nCols {
        var pNew := NewPix(i, j);
        if pNew.None? {
          assert x == Offset(p, 3 * (ii + 1) + (jj + 1)) && Kept(p, x, nRows, nCols);
          ScannedHas(p, nRows, nCols, 9, x);
          return false, pl;
        }
        pl' := [pNew.value] + pl;
      }
    }
  }

  /** `neighbours`: the in-image diagonal neighbours of `p`, or `ok` false
      for the exit `newPix` takes on a row above `MaxRow`. */
  method Neighbours(p: Pixel, nRows: int, nCols: int) returns (ok: bool, pl: seq<Pixel>)
    ensures ok <==> forall x :: x in Diagonals(p, nRows, nCols) ==> x.i <= MaxRow
    ensures ok ==> pl == Diagonals(p, nRows, nCols)
  {
    pl := [];
    for ii := -1 to 2
      invariant pl == Scanned(p, nRows, nCols, 3 * (ii + 1))
      invariant forall x :: x in pl ==> x.i <= MaxRow
    {
      for jj := -1 to 2
        invariant pl == Scanned(p, nRows, nCols, 3 * (ii + 1) + (jj + 1))
        invariant forall x :: x in pl ==> x.i <= MaxRow
      {
        ok, pl := TryOffset(p, nRows, nCols, ii, jj, pl);
        if !ok {
          return;
        }
      }
    }
    ok := true;
  }

  // ---------------------------------------------------------------------
  // The flood (`mainCcode`)
  // ---------------------------------------------------------------------

  /** How the kernel ends: normally, through one of the exits of `newPix`
      or `PQ_add`, or (in the model only) with its pop budget spent. */
  datatype Status = Done | Exited | OutOfFuel

  function Max(a: int, b: int): int {
    if a > b then a else b
  }

  predicate Inside(x: Pixel, a: array2<int>) {
    0 <= x.i < a.Length0 && 0 <= x.j < a.Length1
  }

  /** The input `img`, the output `img2` and the no-data mask share one shape. */
  predicate SameShape(img: array2<int>, img2: array2<int>, nullmask: array2<bool>) {
    img.Length0 == img2.Length0 == nullmask.Length0 && img.Length1 == img2.Length1 == nullmask.Length1
  }

  /** Every cell that holds data is at most `hMax`. */
  ghost predicate Capped(img: array2<int>, nullmask: array2<bool>, hMax: int)
    reads img, nullmask
  {
    img.Length0 == nullmask.Length0 && img.Length1 == nullmask.Length1 &&
    forall r, c :: 0 <= r < img.Length0 && 0 <= c < img.Length1 && !nullmask[r, c] ==> img[r, c] <= hMax
  }

  /** `sent` contains every cell of `img2` still holding the sentinel `hMax`. */
  ghost predicate Covers(img2: array2<int>, hMax: int, sent: set<Pixel>)
    reads img2
  {
    forall r, c :: 0 <= r < img2.Length0 && 0 <= c < img2.Length1 && img2[r, c] == hMax ==> Pixel(r, c) in sent
  }

  /** `S` has the shape of `img2`. */
  predicate Fits(S: Grid, img2: array2<int>) {
    |S| == img2.Length0 && forall r :: 0 <= r < |S| ==> |S[r]| == img2.Length1
  }

  /** Every pixel queued at a level below `hMax` lies in the image and its
      output holds that level. */
  ghost predicate Waiting(pq: PixelQueue, img2: array2<int>, hMax: int)
    reads pq.q, img2
  {
    forall k, x {:trigger x in pq.q[k].items} :: 0 <= k < pq.q.Length && pq.hMin + k < hMax && x in pq.q[k].items ==>
      Inside(x, img2) && img2[x.i, x.j] == pq.hMin + k
  }

  /** Every cell whose output is below `hMax` has been processed (`P`) or
      is queued at the level its output holds. */
  ghost predicate Tracked(pq: PixelQueue, img2: array2<int>, hMax: int, P: set<Pixel>)
    reads pq.q, img2
  {
    forall r, c {:trigger img2[r, c]} :: 0 <= r < img2.Length0 && 0 <= c < img2.Length1 && img2[r, c] < hMax ==>
      pq.hMin <= img2[r, c] < pq.hMin + pq.q.Length &&
      (Pixel(r, c) in P || Pixel(r, c) in pq.q[img2[r, c] - pq.hMin].items)
  }

  /** The levels below `lo` are empty. */
  ghost predicate Below(pq: PixelQueue, lo: int)
    reads pq.q
  {
    forall k :: 0 <= k < pq.q.Length && pq.hMin + k < lo ==> pq.q[k].items == []
  }

  /** Once the seeds' level `B` is reached, no output below `hMax` exceeds
      `max(hCrt, img)`. */
  ghost predicate Bounded(img: array2<int>, img2: array2<int>, hMax: int, hCrt: int, B: int)
    reads img, img2
    requires img.Length0 == img2.Length0 && img.Length1 == img2.Length1
  {
    B <= hCrt ==> forall r, c {:trigger img2[r, c]} :: 0 <= r < img2.Length0 && 0 <= c < img2.Length1 && img2[r, c] < hMax ==>
      img2[r, c] <= Max(hCrt, img[r, c])
  }

  /** Before the seeds' level is reached, and throughout when the seeds sit
      at `hMax` or above, the output is the seeded raster `S`. */
  ghost predicate Untouched(img2: array2<int>, S: Grid, hMax: int, hCrt: int, B: int)
    reads img2
    requires Fits(S, img2)
  {
    (hCrt < B || hMax <= B) ==> forall r, c {:trigger img2[r, c]} :: 0 <= r < img2.Length0 && 0 <= c < img2.Length1 ==>
      img2[r, c] == S[r][c]
  }

  /** No output is above `hMax`, and relative to the seeded raster `S` only
      cells holding data and the sentinel have changed, each to a value not
      below its input. */
  ghost predicate Evolved(img: array2<int>, img2: array2<int>, nullmask: array2<bool>, S: Grid, hMax: int)
    reads img, img2, nullmask
    requires SameShape(img, img2, nullmask) && Fits(S, img2)
  {
    forall r, c {:trigger img2[r, c]} :: 0 <= r < img2.Length0 && 0 <= c < img2.Length1 ==>
      img2[r, c] <= hMax && (img2[r, c] == S[r][c] || (S[r][c] == hMax && !nullmask[r, c] && img[r, c] <= img2[r, c]))
  }

  /** Every processed pixel `x` holds a level below `hMax`, and no diagonal
      neighbour holding data is above `max(img2[x], img)` there. */
  ghost predicate Settled(img: array2<int>, img2: array2<int>, nullmask: array2<bool>, hMax: int, P: set<Pixel>)
    reads img, img2, nullmask
    requires SameShape(img, img2, nullmask)
  {
    (forall x :: x in P ==> Inside(x, img2) && img2[x.i, x.j] < hMax) &&
    forall x, d {:trigger x in P, Diagonal(x, d)} ::
      x in P && Inside(x, img2) && Diagonal(x, d) && Inside(d, img2) && !nullmask[d.i, d.j] ==>
        img2[d.i, d.j] <= Max(img2[x.i, x.j], img[d.i, d.j])
  }

  /** The output at `d` is `max(img2[p], img)` for an in-image diagonal
      neighbour `p` whose output is below `hMax`, and `p` came first: it
      still holds its seeded value, or it was lowered before `d` in the
      ranking `T`. */
  ghost predicate Sourced(img: array2<int>, img2: array2<int>, S: Grid, hMax: int, T: map<Pixel, nat>, d: Pixel)
    reads img, img2
    requires img.Length0 == img2.Length0 && img.Length1 == img2.Length1 && Fits(S, img2) && Inside(d, img2)
  {
    exists p :: Diagonal(p, d) && Inside(p, img2) && img2[p.i, p.j] < hMax && img2[d.i, d.j] == Max(img2[p.i, p.j], img[d.i, d.j]) &&
      (img2[p.i, p.j] == S[p.i][p.j] || (p in T && d in T && T[p] < T[d]))
  }

  /** Every output below `hMax` that differs from the seeded raster `S` is
      ranked in `T` and sourced: the pixel whose pop lowered it is its
      neighbour `p`. */
  ghost predicate Reached(img: array2<int>, img2: array2<int>, S: Grid, hMax: int, T: map<Pixel, nat>)
    reads img, img2
    requires img.Length0 == img2.Length0 && img.Length1 == img2.Length1 && Fits(S, img2)
  {
    forall r, c {:trigger img2[r, c]} :: 0 <= r < img2.Length0 && 0 <= c < img2.Length1 && img2[r, c] < hMax && img2[r, c] != S[r][c] ==>
      Pixel(r, c) in T && Sourced(img, img2, S, hMax, T, Pixel(r, c))
  }

  /** The state of the flood while level `hCrt` is drained, over the seeded
      raster `S`, the seeds' level `B` and the processed pixels `P`. */
  ghost predicate Flooding(pq: PixelQueue, img: array2<int>, img2: array2<int>, nullmask: array2<bool>,
                           hMax: int, hCrt: int, B: int, S: Grid, P: set<Pixel>)
    reads pq.q, img, img2, nullmask
  {
    pq.Valid() && pq.q.Length == hMax - pq.hMin + 1 && pq.hMin <= hCrt <= hMax &&
    SameShape(img, img2, nullmask) && Fits(S, img2) &&
    Waiting(pq, img2, hMax) && Tracked(pq, img2, hMax, P) && Below(pq, B) && Below(pq, hCrt) &&
    Bounded(img, img2, hMax, hCrt, B) && Untouched(img2, S, hMax, hCrt, B) && Evolved(img, img2, nullmask, S, hMax)
  }

  /** One step of the flood: output cell `y`, which held the sentinel,
      is set to `v` and `y` is queued at level `v`. The twostate lemmas
      below take the step as their single argument. */
  datatype Write = Write(pq: PixelQueue, img: array2<int>, img2: array2<int>, nullmask: array2<bool>,
                         y: Pixel, v: int, hMax: int, hCrt: int, B: int, S: Grid, P: set<Pixel>)

  /** Between two states, `img2` changed at most at `y`, which held the
      sentinel `hMax` and now holds `v`. */
  twostate predicate WroteAt(img2: array2<int>, y: Pixel, hMax: int, v: int)
    reads img2
  {
    Inside(y, img2) && old(img2[y.i, y.j]) == hMax && img2[y.i, y.j] == v &&
    forall r, c {:trigger img2[r, c]} :: 0 <= r < img2.Length0 && 0 <= c < img2.Length1 && (r != y.i || c != y.j) ==>
      img2[r, c] == old(img2[r, c])
  }

  /** Between two states, `y` was appended to the list of level `h` and no
      other list changed. */
  twostate predicate QueuedAt(pq: PixelQueue, y: Pixel, h: int)
    reads pq.q
  {
    pq.hMin <= h < pq.hMin + pq.q.Length &&
    pq.q[h - pq.hMin].items == old(pq.q[h - pq.hMin].items) + [y] &&
    forall k :: 0 <= k < pq.q.Length && k != h - pq.hMin ==> pq.q[k].items == old(pq.q[k].items)
  }

  /** The step `w` happened between the two states. */
  twostate predicate Stepped(w: Write)
    reads w.img2, w.pq.q
  {
    WroteAt(w.img2, w.y, w.hMax, w.v) && QueuedAt(w.pq, w.y, w.v)
  }

  twostate lemma WaitingKept(w: Write)
    requires old(Waiting(w.pq, w.img2, w.hMax)) && Stepped(w)
    ensures Waiting(w.pq, w.img2, w.hMax)
  {
    var pq, img2 := w.pq, w.img2;
    forall k, x | 0 <= k < pq.q.Length && pq.hMin + k < w.hMax && x in pq.q[k].items
      ensures Inside(x, img2) && img2[x.i, x.j] == pq.hMin + k
    {
      if x !in old(pq.q[k].items) {
        assert k == w.v - pq.hMin && x == w.y;
      }
    }
  }

  twostate lemma TrackedKept(w: Write)
    requires old(Tracked(w.pq, w.img2, w.hMax, w.P)) && Stepped(w)
    ensures Tracked(w.pq, w.img2, w.hMax, w.P)
  {
    var pq, img2 := w.pq, w.img2;
    forall r, c | 0 <= r < img2.Length0 && 0 <= c < img2.Length1 && img2[r, c] < w.hMax
      ensures pq.hMin <= img2[r, c] < pq.hMin + pq.q.Length
      ensures Pixel(r, c) in w.P || Pixel(r, c) in pq.q[img2[r, c] - pq.hMin].items
    {
      if r != w.y.i || c != w.y.j {
        assert old(img2[r, c]) == img2[r, c];
        var k := img2[r, c] - pq.hMin;
        assert old(pq.q[k].items) <= pq.q[k].items;
      }
    }
  }

  twostate lemma BelowKept(w: Write)
    requires old(Below(w.pq, w.B)) && old(Below(w.pq, w.hCrt)) && Stepped(w) && w.B <= w.v && w.hCrt <= w.v
    ensures Below(w.pq, w.B) && Below(w.pq, w.hCrt)
  {
  }

  twostate lemma BoundedKept(w: Write)
    requires w.img.Length0 == w.img2.Length0 && w.img.Length1 == w.img2.Length1 && unchanged(w.img)
    requires old(Bounded(w.img, w.img2, w.hMax, w.hCrt, w.B)) && Stepped(w)
    requires w.v == Max(w.hCrt, w.img[w.y.i, w.y.j])
    ensures Bounded(w.img, w.img2, w.hMax, w.hCrt, w.B)
  {
  }

  twostate lemma UntouchedKept(w: Write)
    requires Fits(w.S, w.img2) && old(Untouched(w.img2, w.S, w.hMax, w.hCrt, w.B)) && Stepped(w)
    requires w.B <= w.hCrt && (w.hMax <= w.B ==> w.v == w.hMax)
    ensures Untouched(w.img2, w.S, w.hMax, w.hCrt, w.B)
  {
  }

  twostate lemma EvolvedKept(w: Write)
    requires SameShape(w.img, w.img2, w.nullmask) && Fits(w.S, w.img2)
    requires unchanged(w.img) && unchanged(w.nullmask)
    requires old(Evolved(w.img, w.img2, w.nullmask, w.S, w.hMax)) && Stepped(w)
    requires !w.nullmask[w.y.i, w.y.j] && w.img[w.y.i, w.y.j] <= w.v <= w.hMax
    ensures Evolved(w.img, w.img2, w.nullmask, w.S, w.hMax)
  {
  }

  /** Setting one sentinel cell that holds data to `max(hCrt, img)` and
      queueing it at that level keeps the flood's invariant. */
  twostate lemma FloodingKept(w: Write)
    requires old(Flooding(w.pq, w.img, w.img2, w.nullmask, w.hMax, w.hCrt, w.B, w.S, w.P)) && w.B <= w.hCrt
    requires w.pq.Valid() && unchanged(w.img) && unchanged(w.nullmask) && Capped(w.img, w.nullmask, w.hMax)
    requires Stepped(w) && !w.nullmask[w.y.i, w.y.j] && w.v == Max(w.hCrt, w.img[w.y.i, w.y.j])
    ensures Flooding(w.pq, w.img, w.img2, w.nullmask, w.hMax, w.hCrt, w.B, w.S, w.P)
  {
    WaitingKept(w);
    TrackedKept(w);
    BelowKept(w);
    BoundedKept(w);
    UntouchedKept(w);
    EvolvedKept(w);
  }

  /** One neighbour `y` of the popped pixel: when it holds data and still
      holds the sentinel `hMax`, it is set to `max(hCrt, img)` and added to
      the queue at that level; nothing else changes. */
  method Offer(pq: PixelQueue, img: array2<int>, img2: array2<int>, nullmask: array2<bool>,
               y: Pixel, hCrt: int, hMax: int, ghost B: int, ghost S: Grid, ghost P: set<Pixel>,
               ghost sent: set<Pixel>) returns (ghost sent': set<Pixel>)
    requires Flooding(pq, img, img2, nullmask, hMax, hCrt, B, S, P) && B <= hCrt
    requires img != img2 && Capped(img, nullmask, hMax)
    requires Inside(y, img2) && y.i <= MaxRow && Covers(img2, hMax, sent)
    modifies img2, pq.q
    ensures Flooding(pq, img, img2, nullmask, hMax, hCrt, B, S, P)
    ensures Covers(img2, hMax, sent') && sent' <= sent
    ensures forall r, c :: 0 <= r < img2.Length0 && 0 <= c < img2.Length1 && (r != y.i || c != y.j) ==>
      img2[r, c] == old(img2[r, c])
    ensures old(img2[y.i, y.j]) == hMax && !nullmask[y.i, y.j] ==>
      var h := Max(hCrt, img[y.i, y.j]);
      img2[y.i, y.j] == h &&
      pq.q[h - pq.hMin].items == old(pq.q[h - pq.hMin].items) + [y] &&
      forall k :: 0 <= k < pq.q.Length && k != h - pq.hMin ==> pq.q[k] == old(pq.q[k])
    ensures !(old(img2[y.i, y.j]) == hMax && !nullmask[y.i, y.j]) ==> img2[y.i, y.j] == old(img2[y.i, y.j]) && unchanged(pq.q)
    ensures !nullmask[y.i, y.j] ==> img2[y.i, y.j] <= Max(hCrt, img[y.i, y.j])
    ensures hCrt < hMax ==> |sent'| + |pq.q[hCrt - pq.hMin].items| <= |sent| + old(|pq.q[hCrt - pq.hMin].items|)
  {
    sent' := sent;
    var r, c := y.i, y.j;
    if !nullmask[r, c] {
      var imgval := img[r, c];
      var img2val := img2[r, c];
      if img2val == hMax {
        var v := Max(hCrt, imgval);
        img2[r, c] := v;
        if v < hMax {
          sent' := sent - {y};
        }
        var ok := pq.Add(y, v);
        assert ok;
        ghost var w := Write(pq, img, img2, nullmask, y, v, hMax, hCrt, B, S, P);
        assert Stepped(w);
        FloodingKept(w);
      }
    }
  }

  /** The inner loop of the flood for one popped pixel: every listed
      neighbour that holds data and still holds the sentinel `hMax` is set to
      `max(hCrt, img)` and added to the queue at that level. */
  method Spread(pq: PixelQueue, img: array2<int>, img2: array2<int>, nullmask: array2<bool>,
                nbrs: seq<Pixel>, hCrt: int, hMax: int, ghost B: int, ghost S: Grid, ghost P: set<Pixel>,
                ghost sent: set<Pixel>) returns (ghost sent': set<Pixel>)
    requires Flooding(pq, img, img2, nullmask, hMax, hCrt, B, S, P) && B <= hCrt
    requires img != img2 && Capped(img, nullmask, hMax) && Covers(img2, hMax, sent)
    requires forall x :: x in nbrs ==> Inside(x, img2) && x.i <= MaxRow
    modifies img2, pq.q
    ensures Flooding(pq, img, img2, nullmask, hMax, hCrt, B, S, P)
    ensures Covers(img2, hMax, sent') && sent' <= sent
    ensures forall r, c {:trigger img2[r, c]} :: 0 <= r < img2.Length0 && 0 <= c < img2.Length1 ==>
      img2[r, c] == if Pixel(r, c) in nbrs && old(img2[r, c]) == hMax && !nullmask[r, c] then Max(hCrt, img[r, c]) else old(img2[r, c])
    ensures forall d :: d in nbrs && Inside(d, img2) && !nullmask[d.i, d.j] ==> img2[d.i, d.j] <= Max(hCrt, img[d.i, d.j])
    ensures hCrt < hMax ==> |sent'| + |pq.q[hCrt - pq.hMin].items| <= |sent| + old(|pq.q[hCrt - pq.hMin].items|)
  {
    sent' := sent;
    for t := 0 to |nbrs|
      invariant Flooding(pq, img, img2, nullmask, hMax, hCrt, B, S, P)
      invariant Covers(img2, hMax, sent') && sent' <= sent
      invariant forall r, c {:trigger img2[r, c]} :: 0 <= r < img2.Length0 && 0 <= c < img2.Length1 ==>
        img2[r, c] == if Pixel(r, c) in nbrs[..t] && old(img2[r, c]) == hMax && !nullmask[r, c] then Max(hCrt, img[r, c]) else old(img2[r, c])
      invariant forall d :: d in nbrs[..t] && Inside(d, img2) && !nullmask[d.i, d.j] ==> img2[d.i, d.j] <= Max(hCrt, img[d.i, d.j])
      invariant hCrt < hMax ==> |sent'| + |pq.q[hCrt - pq.hMin].items| <= |sent| + old(|pq.q[hCrt - pq.hMin].items|)
    {
      assert nbrs[..t + 1] == nbrs[..t] + [nbrs[t]];
      sent' := Offer(pq, img, img2, nullmask, nbrs[t], hCrt, hMax, B, S, P, sent');
    }
  }

  /** Between two states, the head `y` of level `hCrt` was removed and
      nothing else changed in the queue or the output. */
  twostate predicate Popped(w: Write)
    reads w.pq.q, w.img2
  {
    w.pq.hMin <= w.hCrt < w.pq.hMin + w.pq.q.Length && unchanged(w.img2) &&
    old(w.pq.q[w.hCrt - w.pq.hMin].items) != [] && old(w.pq.q[w.hCrt - w.pq.hMin].items[0]) == w.y &&
    w.pq.q[w.hCrt - w.pq.hMin].items == old(w.pq.q[w.hCrt - w.pq.hMin].items[1..]) &&
    forall k :: 0 <= k < w.pq.q.Length && k != w.hCrt - w.pq.hMin ==> w.pq.q[k].items == old(w.pq.q[k].items)
  }

  /** The pixels processed once `y` has been popped at level `hCrt`: the
      pixels popped at `hMax` are not counted, as they keep the sentinel. */
  function WithPopped(P: set<Pixel>, y: Pixel, hCrt: int, hMax: int): set<Pixel> {
    if hCrt < hMax then P + {y} else P
  }

  twostate lemma PopWaitingKept(w: Write)
    requires old(Waiting(w.pq, w.img2, w.hMax)) && Popped(w)
    ensures Waiting(w.pq, w.img2, w.hMax)
  {
    var pq, img2 := w.pq, w.img2;
    forall k, x | 0 <= k < pq.q.Length && pq.hMin + k < w.hMax && x in pq.q[k].items
      ensures Inside(x, img2) && img2[x.i, x.j] == pq.hMin + k
    {
      assert x in old(pq.q[k].items);
    }
  }

  twostate lemma PopTrackedKept(w: Write)
    requires old(Tracked(w.pq, w.img2, w.hMax, w.P)) && Popped(w)
    ensures Tracked(w.pq, w.img2, w.hMax, WithPopped(w.P, w.y, w.hCrt, w.hMax))
  {
    var pq, img2, P' := w.pq, w.img2, WithPopped(w.P, w.y, w.hCrt, w.hMax);
    var k0 := w.hCrt - pq.hMin;
    assert old(pq.q[k0].items) == [w.y] + pq.q[k0].items;
    forall r, c | 0 <= r < img2.Length0 && 0 <= c < img2.Length1 && img2[r, c] < w.hMax
      ensures pq.hMin <= img2[r, c] < pq.hMin + pq.q.Length
      ensures Pixel(r, c) in P' || Pixel(r, c) in pq.q[img2[r, c] - pq.hMin].items
    {
      assert old(img2[r, c]) == img2[r, c];
    }
  }

  twostate lemma PopBelowKept(w: Write)
    requires old(Below(w.pq, w.B)) && old(Below(w.pq, w.hCrt)) && Popped(w)
    ensures Below(w.pq, w.B) && Below(w.pq, w.hCrt)
  {
  }

  /** Popping the head of the current level keeps the flood's invariant once
      the popped pixel counts as processed. */
  twostate lemma PopKept(w: Write)
    requires old(Flooding(w.pq, w.img, w.img2, w.nullmask, w.hMax, w.hCrt, w.B, w.S, w.P))
    requires w.pq.Valid() && unchanged(w.img) && unchanged(w.nullmask) && Popped(w)
    ensures Flooding(w.pq, w.img, w.img2, w.nullmask, w.hMax, w.hCrt, w.B, w.S, WithPopped(w.P, w.y, w.hCrt, w.hMax))
    ensures w.hCrt < w.hMax ==> Inside(w.y, w.img2) && w.img2[w.y.i, w.y.j] == w.hCrt
  {
    PopWaitingKept(w);
    PopTrackedKept(w);
    PopBelowKept(w);
    if w.hCrt < w.hMax {
      assert w.y in old(w.pq.q[w.hCrt - w.pq.hMin].items);
    }
  }

  /** Every output changed between two states held the sentinel `hMax` and
      did not rise. */
  twostate predicate Lowered(img2: array2<int>, hMax: int)
    reads img2
  {
    forall r, c {:trigger img2[r, c]} :: 0 <= r < img2.Length0 && 0 <= c < img2.Length1 ==>
      img2[r, c] == old(img2[r, c]) || (old(img2[r, c]) == hMax && img2[r, c] <= hMax)
  }

  /** When the outputs only fall from the sentinel, the processed pixels stay
      settled; the popped pixel `y` joins them once its in-image diagonal
      neighbours holding data are at most `max(hCrt, img)`. */
  twostate lemma SettledKept(w: Write)
    requires SameShape(w.img, w.img2, w.nullmask) && unchanged(w.img) && unchanged(w.nullmask)
    requires old(Settled(w.img, w.img2, w.nullmask, w.hMax, w.P)) && Lowered(w.img2, w.hMax)
    requires w.hCrt < w.hMax ==> Inside(w.y, w.img2) && old(w.img2[w.y.i, w.y.j]) == w.hCrt
    requires w.hCrt < w.hMax ==> forall d :: Diagonal(w.y, d) && Inside(d, w.img2) && !w.nullmask[d.i, d.j] ==>
      w.img2[d.i, d.j] <= Max(w.hCrt, w.img[d.i, d.j])
    ensures Settled(w.img, w.img2, w.nullmask, w.hMax, WithPopped(w.P, w.y, w.hCrt, w.hMax))
  {
    var img, img2, nullmask := w.img, w.img2, w.nullmask;
    forall x | x in w.P
      ensures img2[x.i, x.j] == old(img2[x.i, x.j])
    {
      assert Inside(x, img2) && old(img2[x.i, x.j]) < w.hMax;
    }
    forall x, d | x in w.P && Inside(x, img2) && Diagonal(x, d) && Inside(d, img2) && !nullmask[d.i, d.j]
      ensures img2[d.i, d.j] <= Max(img2[x.i, x.j], img[d.i, d.j])
    {
      assert old(img2[d.i, d.j]) <= Max(old(img2[x.i, x.j]), img[d.i, d.j]);
    }
    if w.hCrt < w.hMax {
      assert img2[w.y.i, w.y.j] == old(img2[w.y.i, w.y.j]);
    }
  }

  /** Between two states, every output that changed is a diagonal
      neighbour of the popped pixel `w.y` that went from the sentinel
      `hMax` to `max(hCrt, img)`. */
  twostate predicate SpreadFrom(w: Write)
    reads w.img, w.img2
  {
    forall r, c {:trigger w.img2[r, c]} :: 0 <= r < w.img2.Length0 && 0 <= c < w.img2.Length1 ==>
      w.img2[r, c] == old(w.img2[r, c]) ||
      (Diagonal(w.y, Pixel(r, c)) && old(w.img2[r, c]) == w.hMax && Inside(Pixel(r, c), w.img) &&
       w.img2[r, c] == Max(w.hCrt, w.img[r, c]))
  }

  /** The single argument of `ReachedKept`: the pass `w`, the ranking `T`
      before it and the neighbour list of the popped pixel. */
  datatype Ranking = Ranking(w: Write, T: map<Pixel, nat>, nbrs: seq<Pixel>)

  /** A pass that spreads from the pixel `w.y` popped at level `w.hCrt`
      keeps every lowered output sourced; the new ones by `w.y`, which is
      seeded or ranked before them, and they are ranked right after it.
      Only entries of cells that held `hMax` change, and no such cell
      supports another. */
  twostate lemma ReachedKept(k: Ranking) returns (T': map<Pixel, nat>)
    requires k.w.img.Length0 == k.w.img2.Length0 && k.w.img.Length1 == k.w.img2.Length1 && Fits(k.w.S, k.w.img2)
    requires unchanged(k.w.img) && old(Reached(k.w.img, k.w.img2, k.w.S, k.w.hMax, k.T)) && SpreadFrom(k.w)
    requires k.w.hCrt < k.w.hMax ==> Inside(k.w.y, k.w.img2) && old(k.w.img2[k.w.y.i, k.w.y.j]) == k.w.hCrt
    requires forall d :: Diagonal(k.w.y, d) && Inside(d, k.w.img2) ==> d in k.nbrs
    ensures Reached(k.w.img, k.w.img2, k.w.S, k.w.hMax, T')
  {
    var w := k.w;
    var img, img2, hMax, x, S, T := w.img, w.img2, w.hMax, w.y, w.S, k.T;
    var rank: nat := if x in T then T[x] + 1 else 0;
    var lowered := map q | q in k.nbrs && Inside(q, img2) && old(img2[q.i, q.j]) == hMax && img2[q.i, q.j] < hMax :: rank;
    T' := T + lowered;
    forall r, c | 0 <= r < img2.Length0 && 0 <= c < img2.Length1 && img2[r, c] < hMax && img2[r, c] != S[r][c]
      ensures Pixel(r, c) in T' && Sourced(img, img2, S, hMax, T', Pixel(r, c))
    {
      if img2[r, c] == old(img2[r, c]) {
        assert old(Sourced(img, img2, S, hMax, T, Pixel(r, c)));
        var p :| Diagonal(p, Pixel(r, c)) && Inside(p, img2) && old(img2[p.i, p.j]) < hMax &&
          old(img2[r, c]) == Max(old(img2[p.i, p.j]), img[r, c]) &&
          (old(img2[p.i, p.j]) == S[p.i][p.j] || (p in T && Pixel(r, c) in T && T[p] < T[Pixel(r, c)]));
        assert img2[p.i, p.j] == old(img2[p.i, p.j]) && p !in lowered && Pixel(r, c) !in lowered;
      } else {
        assert img2[x.i, x.j] == w.hCrt && x !in lowered;
        assert Pixel(r, c) in lowered;
        if x !in T {
          assert img2[x.i, x.j] == S[x.i][x.j];
        }
      }
    }
  }

  /** Between two states, each neighbour in `k.nbrs` that held the
      sentinel and has data got `max(hCrt, img)`; no other output changed. */
  twostate predicate SpreadOver(k: Ranking)
    reads k.w.img, k.w.img2, k.w.nullmask
    requires SameShape(k.w.img, k.w.img2, k.w.nullmask)
  {
    var img, img2, nullmask := k.w.img, k.w.img2, k.w.nullmask;
    forall r, c {:trigger img2[r, c]} :: 0 <= r < img2.Length0 && 0 <= c < img2.Length1 ==>
      img2[r, c] == if Pixel(r, c) in k.nbrs && old(img2[r, c]) == k.w.hMax && !nullmask[r, c]
                    then Max(k.w.hCrt, img[r, c]) else old(img2[r, c])
  }

  /** One pass of the inner `while`, from the pop of `k.w.y` to the end of
      its spread over its neighbour list `k.nbrs`, keeps the processed
      pixels settled and every lowered output sourced, under a ranking
      `T'` that extends `k.T`. */
  twostate lemma PassKept(k: Ranking) returns (T': map<Pixel, nat>)
    requires SameShape(k.w.img, k.w.img2, k.w.nullmask) && Fits(k.w.S, k.w.img2)
    requires unchanged(k.w.img) && unchanged(k.w.nullmask) && Capped(k.w.img, k.w.nullmask, k.w.hMax) && k.w.hCrt <= k.w.hMax
    requires old(Settled(k.w.img, k.w.img2, k.w.nullmask, k.w.hMax, k.w.P)) && old(Reached(k.w.img, k.w.img2, k.w.S, k.w.hMax, k.T))
    requires SpreadOver(k) && forall d :: d in k.nbrs <==> Diagonal(k.w.y, d) && Inside(d, k.w.img2)
    requires forall d :: d in k.nbrs && Inside(d, k.w.img2) && !k.w.nullmask[d.i, d.j] ==> k.w.img2[d.i, d.j] <= Max(k.w.hCrt, k.w.img[d.i, d.j])
    requires k.w.hCrt < k.w.hMax ==> Inside(k.w.y, k.w.img2) && old(k.w.img2[k.w.y.i, k.w.y.j]) == k.w.hCrt
    ensures Settled(k.w.img, k.w.img2, k.w.nullmask, k.w.hMax, WithPopped(k.w.P, k.w.y, k.w.hCrt, k.w.hMax))
    ensures Reached(k.w.img, k.w.img2, k.w.S, k.w.hMax, T')
  {
    var w := k.w;
    assert Lowered(w.img2, w.hMax);
    SettledKept(w);
    assert SpreadFrom(w);
    T' := ReachedKept(k);
  }

  /** The start of one pass of the inner `while`: the head `x` of level
      `hCrt` is popped and its neighbour list built; `ok` is false for the
      exit `newPix` takes in `neighbours`. */
  method Pop(pq: PixelQueue, img: array2<int>, img2: array2<int>, nullmask: array2<bool>,
             hCrt: int, hMax: int, ghost B: int, ghost S: Grid, ghost P: set<Pixel>)
    returns (x: Pixel, ok: bool, nbrs: seq<Pixel>)
    requires Flooding(pq, img, img2, nullmask, hMax, hCrt, B, S, P)
    requires pq.q[hCrt - pq.hMin].items != []
    modifies pq.q
    ensures Flooding(pq, img, img2, nullmask, hMax, hCrt, B, S, WithPopped(P, x, hCrt, hMax)) && B <= hCrt
    ensures x == old(pq.q[hCrt - pq.hMin].items[0])
    ensures |pq.q[hCrt - pq.hMin].items| == old(|pq.q[hCrt - pq.hMin].items|) - 1
    ensures hCrt < hMax ==> Inside(x, img2) && img2[x.i, x.j] == hCrt
    ensures ok ==> forall d :: d in nbrs <==> Diagonal(x, d) && Inside(d, img2)
    ensures ok ==> forall d :: d in nbrs ==> d.i <= MaxRow
    ensures !ok ==> img2.Length0 > MaxRow + 1
  {
    assert B <= hCrt;
    var p := pq.First(hCrt);
    x := p.value;
    ghost var w := Write(pq, img, img2, nullmask, x, hCrt, hMax, hCrt, B, S, P);
    assert Popped(w);
    PopKept(w);
    ok, nbrs := Neighbours(x, img2.Length0, img2.Length1);
    if !ok {
      ghost var d :| d in Diagonals(x, img2.Length0, img2.Length1) && d.i > MaxRow;
      DiagonalsExactly(x, img2.Length0, img2.Length1, d);
      return;
    }
    forall d
      ensures d in nbrs <==> Diagonal(x, d) && Inside(d, img2)
    {
      DiagonalsExactly(x, img2.Length0, img2.Length1, d);
    }
  }

  /** The state the inner `while` keeps: the flood invariant, the
      processed pixels `P` settled, the work left `sent` covered, and every
      lowered output sourced under the ranking `T`. */
  ghost predicate Draining(pq: PixelQueue, img: array2<int>, img2: array2<int>, nullmask: array2<bool>,
                           hMax: int, hCrt: int, B: int, S: Grid, P: set<Pixel>, sent: set<Pixel>, T: map<Pixel, nat>)
    reads pq.q, img, img2, nullmask
  {
    Flooding(pq, img, img2, nullmask, hMax, hCrt, B, S, P) && Settled(img, img2, nullmask, hMax, P) &&
    Covers(img2, hMax, sent) && Reached(img, img2, S, hMax, T)
  }

  /** One pass of the inner `while` of the flood: the head `x` of level
      `hCrt` is popped and its in-image diagonal neighbours are offered to
      `Spread`; `ok` is false for the exit `newPix` takes in `neighbours`. */
  method Process(pq: PixelQueue, img: array2<int>, img2: array2<int>, nullmask: array2<bool>,
                 hCrt: int, hMax: int, ghost B: int, ghost S: Grid, ghost P: set<Pixel>,
                 ghost sent: set<Pixel>, ghost T: map<Pixel, nat>)
    returns (ok: bool, ghost P': set<Pixel>, ghost sent': set<Pixel>, ghost T': map<Pixel, nat>)
    requires Draining(pq, img, img2, nullmask, hMax, hCrt, B, S, P, sent, T)
    requires img != img2 && Capped(img, nullmask, hMax) && pq.q[hCrt - pq.hMin].items != []
    modifies img2, pq.q
    ensures ok ==> Draining(pq, img, img2, nullmask, hMax, hCrt, B, S, P', sent', T')
    ensures ok && hCrt < hMax ==> |sent'| + |pq.q[hCrt - pq.hMin].items| < |sent| + old(|pq.q[hCrt - pq.hMin].items|)
    ensures !ok ==> img2.Length0 > MaxRow + 1
  {
    P', sent', T' := P, sent, T;
    var x, nbrs;
    x, ok, nbrs := Pop(pq, img, img2, nullmask, hCrt, hMax, B, S, P);
    if !ok {
      return;
    }
    label Mid:
    ghost var k := Ranking(Write(pq, img, img2, nullmask, x, hCrt, hMax, hCrt, B, S, P), T, nbrs);
    P' := WithPopped(P, x, hCrt, hMax);
    sent' := Spread(pq, img, img2, nullmask, nbrs, hCrt, hMax, B, S, P', sent);
    T' := PassKept@Mid(k);
  }

  /** The inner `while` of the flood at level `hCrt`: pops pixels until the
      level is empty, spreading from each. At level `hMax` the model spends
      one unit of `fuel` per pop, as the source may loop there forever. */
  method Drain(pq: PixelQueue, img: array2<int>, img2: array2<int>, nullmask: array2<bool>,
               hCrt: int, hMax: int, fuel: nat, ghost B: int, ghost S: Grid, ghost P: set<Pixel>,
               ghost sent: set<Pixel>, ghost T: map<Pixel, nat>)
    returns (status: Status, ghost P': set<Pixel>, ghost sent': set<Pixel>, ghost T': map<Pixel, nat>)
    requires Draining(pq, img, img2, nullmask, hMax, hCrt, B, S, P, sent, T) && img != img2 && Capped(img, nullmask, hMax)
    modifies img2, pq.q
    ensures status != Exited ==> Draining(pq, img, img2, nullmask, hMax, hCrt, B, S, P', sent', T')
    ensures status == Done ==> pq.q[hCrt - pq.hMin].items == []
    ensures status == OutOfFuel ==> hCrt == hMax
    ensures status == Exited ==> img2.Length0 > MaxRow + 1
  {
    status, P', sent', T' := Done, P, sent, T;
    var fuel' := fuel;
    var empty := pq.Empty(hCrt);
    while !empty
      invariant Draining(pq, img, img2, nullmask, hMax, hCrt, B, S, P', sent', T')
      invariant empty <==> pq.q[hCrt - pq.hMin].items == []
      decreases if hCrt < hMax then |sent'| + |pq.q[hCrt - pq.hMin].items| else fuel'
    {
      if hCrt == hMax {
        if fuel' == 0 {
          return OutOfFuel, P', sent', T';
        }
        fuel' := fuel' - 1;
      }
      var ok;
      ok, P', sent', T' := Process(pq, img, img2, nullmask, hCrt, hMax, B, S, P', sent', T');
      if !ok {
        return Exited, P', sent', T';
      }
      empty := pq.Empty(hCrt);
    }
  }

  /** The raster after seeding: `boundaryval` at the seeds, the sentinel
      `hMax` elsewhere. */
  function SeededGrid(rows: nat, cols: nat, seeds: seq<Pixel>, boundaryval: int, hMax: int): (S: Grid)
    ensures |S| == rows && forall r :: 0 <= r < rows ==> |S[r]| == cols
    ensures forall r, c :: 0 <= r < rows && 0 <= c < cols ==>
      S[r][c] == if Pixel(r, c) in seeds then boundaryval else hMax
  {
    seq(rows, r requires 0 <= r < rows =>
      seq(cols, c requires 0 <= c < cols => if Pixel(r, c) in seeds then boundaryval else hMax))
  }

  /** No processed-or-queued structure is needed to see that, once the
      queue below `hMax` is empty, every output `x` bounds its in-image
      diagonal neighbours holding data: `img2[d] <= max(img2[x], img[d])`. */
  ghost predicate Stable(img: array2<int>, img2: array2<int>, nullmask: array2<bool>)
    reads img, img2, nullmask
    requires SameShape(img, img2, nullmask)
  {
    forall x, d {:trigger Diagonal(x, d)} :: Inside(x, img2) && Diagonal(x, d) && Inside(d, img2) && !nullmask[d.i, d.j] ==>
      img2[d.i, d.j] <= Max(img2[x.i, x.j], img[d.i, d.j])
  }

  /** The queue right after the seeds were added: level `boundaryval` holds
      the seeds in order and every other level is empty. */
  ghost predicate SeededQueue(pq: PixelQueue, seeds: seq<Pixel>, boundaryval: int)
    reads pq.q
  {
    pq.Valid() &&
    (forall k :: 0 <= k < pq.q.Length && k != boundaryval - pq.hMin ==> pq.q[k].items == []) &&
    (pq.Holds(boundaryval) ==> pq.q[boundaryval - pq.hMin].items == seeds)
  }

  /** Right after seeding, the flood's invariant holds at level `hMin` with
      nothing processed. */
  lemma SeededFlooding(pq: PixelQueue, img: array2<int>, img2: array2<int>, nullmask: array2<bool>,
                       hMax: int, B: int, seeds: seq<Pixel>)
    requires SeededQueue(pq, seeds, B) && pq.q.Length == hMax - pq.hMin + 1 && pq.hMin <= hMax
    requires SameShape(img, img2, nullmask) && Capped(img, nullmask, hMax)
    requires seeds != [] ==> pq.Holds(B)
    requires forall x :: x in seeds ==> Inside(x, img2)
    requires forall r, c {:trigger img2[r, c]} :: 0 <= r < img2.Length0 && 0 <= c < img2.Length1 ==>
      img2[r, c] == if Pixel(r, c) in seeds then B else hMax
    ensures Flooding(pq, img, img2, nullmask, hMax, pq.hMin, B, SeededGrid(img2.Length0, img2.Length1, seeds, B, hMax), {})
    ensures Settled(img, img2, nullmask, hMax, {})
    ensures Reached(img, img2, SeededGrid(img2.Length0, img2.Length1, seeds, B, hMax), hMax, map[])
  {
    var S := SeededGrid(img2.Length0, img2.Length1, seeds, B, hMax);
    forall k, x | 0 <= k < pq.q.Length && pq.hMin + k < hMax && x in pq.q[k].items
      ensures Inside(x, img2) && img2[x.i, x.j] == pq.hMin + k
    {
      assert k == B - pq.hMin && x in seeds;
    }
    forall r, c | 0 <= r < img2.Length0 && 0 <= c < img2.Length1 && img2[r, c] < hMax
      ensures pq.hMin <= img2[r, c] < pq.hMin + pq.q.Length
      ensures Pixel(r, c) in pq.q[img2[r, c] - pq.hMin].items
    {
      assert Pixel(r, c) in seeds;
    }
  }

  /** Once level `hCrt` is empty, the flood's invariant holds at the next
      level: the seeds' level is reached at the latest there, and every
      output below `hMax` is then bounded by `max(hCrt + 1, img)`. */
  lemma NextLevel(pq: PixelQueue, img: array2<int>, img2: array2<int>, nullmask: array2<bool>,
                  hMax: int, hCrt: int, seeds: seq<Pixel>, B: int, P: set<Pixel>)
    requires Flooding(pq, img, img2, nullmask, hMax, hCrt, B, SeededGrid(img2.Length0, img2.Length1, seeds, B, hMax), P)
    requires pq.q[hCrt - pq.hMin].items == [] && hCrt + 1 < hMax
    ensures Flooding(pq, img, img2, nullmask, hMax, hCrt + 1, B, SeededGrid(img2.Length0, img2.Length1, seeds, B, hMax), P)
  {
    var S := SeededGrid(img2.Length0, img2.Length1, seeds, B, hMax);
    if B <= hCrt + 1 {
      forall r, c | 0 <= r < img2.Length0 && 0 <= c < img2.Length1 && img2[r, c] < hMax
        ensures img2[r, c] <= Max(hCrt + 1, img[r, c])
      {
        if hCrt < B {
          assert img2[r, c] == S[r][c];
        }
      }
    }
  }

  /** When every level below `hMax` is empty, each output below `hMax` has
      been processed, so the raster is stable. */
  lemma StableAtEnd(pq: PixelQueue, img: array2<int>, img2: array2<int>, nullmask: array2<bool>,
                    hMax: int, hCrt: int, B: int, S: Grid, P: set<Pixel>)
    requires Flooding(pq, img, img2, nullmask, hMax, hCrt, B, S, P) && Settled(img, img2, nullmask, hMax, P)
    requires pq.q[hCrt - pq.hMin].items == [] && hMax - 1 <= hCrt
    ensures Stable(img, img2, nullmask)
  {
    forall x, d | Inside(x, img2) && Diagonal(x, d) && Inside(d, img2) && !nullmask[d.i, d.j]
      ensures img2[d.i, d.j] <= Max(img2[x.i, x.j], img[d.i, d.j])
    {
      if img2[x.i, x.j] < hMax {
        assert x in P;
      } else {
        assert img2[d.i, d.j] <= hMax;
      }
    }
  }

  /** The seeding loop of `mainCcode`: each listed pixel gets output
      `boundaryval` and is added to the queue at that level; `ok` is false
      for the exits of `newPix` and `PQ_add`, which end the loop. */
  method SeedAll(pq: PixelQueue, img2: array2<int>, seeds: seq<Pixel>, boundaryval: int) returns (ok: bool)
    requires pq.Valid() && forall k :: 0 <= k < pq.q.Length ==> pq.q[k].items == []
    requires forall x :: x in seeds ==> Inside(x, img2)
    modifies img2, pq.q
    ensures ok <==> (forall x :: x in seeds ==> x.i <= MaxRow) && (seeds != [] ==> pq.Holds(boundaryval))
    ensures ok ==> SeededQueue(pq, seeds, boundaryval)
    ensures ok ==> forall r, c {:trigger img2[r, c]} :: 0 <= r < img2.Length0 && 0 <= c < img2.Length1 ==>
      img2[r, c] == if Pixel(r, c) in seeds then boundaryval else old(img2[r, c])
  {
    for t := 0 to |seeds|
      invariant SeededQueue(pq, seeds[..t], boundaryval)
      invariant t > 0 ==> pq.Holds(boundaryval)
      invariant forall x :: x in seeds[..t] ==> x.i <= MaxRow
      invariant forall r, c {:trigger img2[r, c]} :: 0 <= r < img2.Length0 && 0 <= c < img2.Length1 ==>
        img2[r, c] == if Pixel(r, c) in seeds[..t] then boundaryval else old(img2[r, c])
    {
      assert seeds[t] in seeds;
      var r, c := seeds[t].i, seeds[t].j;
      img2[r, c] := boundaryval;
      var p := NewPix(r, c);
      if p.None? {
        return false;
      }
      assert seeds[..t + 1] == seeds[..t] + [seeds[t]];
      ok := pq.Add(p.value, boundaryval);
      if !ok {
        return;
      }
    }
    assert seeds[..|seeds|] == seeds;
    ok := true;
  }

  /** The `do ... while (hCrt < hMax)` loop of `mainCcode`: drains level
      `hCrt` from `hMin` on, moving up while the next level is below `hMax`. */
  method Flood(pq: PixelQueue, img: array2<int>, img2: array2<int>, nullmask: array2<bool>,
               hMax: int, fuel: nat, ghost seeds: seq<Pixel>, ghost B: int) returns (status: Status, ghost T: map<Pixel, nat>)
    requires Flooding(pq, img, img2, nullmask, hMax, pq.hMin, B, SeededGrid(img2.Length0, img2.Length1, seeds, B, hMax), {})
    requires Settled(img, img2, nullmask, hMax, {}) && img != img2 && Capped(img, nullmask, hMax)
    requires Reached(img, img2, SeededGrid(img2.Length0, img2.Length1, seeds, B, hMax), hMax, map[])
    modifies img2, pq.q
    ensures status == OutOfFuel ==> pq.hMin == hMax
    ensures status == Exited ==> img2.Length0 > MaxRow + 1
    ensures status != Exited ==> Evolved(img, img2, nullmask, SeededGrid(img2.Length0, img2.Length1, seeds, B, hMax), hMax)
    ensures status != Exited && hMax <= B ==> forall r, c :: 0 <= r < img2.Length0 && 0 <= c < img2.Length1 ==>
      img2[r, c] == SeededGrid(img2.Length0, img2.Length1, seeds, B, hMax)[r][c]
    ensures status != Exited ==> Reached(img, img2, SeededGrid(img2.Length0, img2.Length1, seeds, B, hMax), hMax, T)
    ensures status == Done ==> Stable(img, img2, nullmask)
  {
    ghost var S := SeededGrid(img2.Length0, img2.Length1, seeds, B, hMax);
    ghost var P: set<Pixel> := {};
    ghost var sent: set<Pixel> := set r, c | 0 <= r < img2.Length0 && 0 <= c < img2.Length1 :: Pixel(r, c);
    T := map[];
    var hCrt := pq.hMin;
    while true
      invariant Draining(pq, img, img2, nullmask, hMax, hCrt, B, S, P, sent, T) && pq.hMin <= hCrt && (hCrt == hMax ==> pq.hMin == hMax)
      decreases hMax - hCrt
    {
      status, P, sent, T := Drain(pq, img, img2, nullmask, hCrt, hMax, fuel, B, S, P, sent, T);
      if status != Done {
        return;
      }
      if hCrt + 1 < hMax {
        NextLevel(pq, img, img2, nullmask, hMax, hCrt, seeds, B, P);
        hCrt := hCrt + 1;
      } else {
        StableAtEnd(pq, img, img2, nullmask, hMax, hCrt, B, S, P);
        return;
      }
    }
  }

  /** `mainCcode`: seeds every listed pixel at `boundaryval`, then floods
      level by level from `hMin` while the level stays below `hMax`
      (a do-while, so level `hMin` is drained even when it is `hMax`). */
  method Kernel(img: array2<int>, img2: array2<int>, nullmask: array2<bool>, hMin: int, hMax: int,
                boundaryval: int, seeds: seq<Pixel>, fuel: nat) returns (status: Status, ghost T: map<Pixel, nat>)
    requires SameShape(img, img2, nullmask) && img != img2 && hMin <= hMax && Capped(img, nullmask, hMax)
    requires forall x :: x in seeds ==> Inside(x, img2)
    requires forall r, c {:trigger img2[r, c]} :: 0 <= r < img2.Length0 && 0 <= c < img2.Length1 && Pixel(r, c) !in seeds ==>
      img2[r, c] == hMax
    modifies img2
    ensures (exists x :: x in seeds && x.i > MaxRow) || (seeds != [] && !(hMin <= boundaryval <= hMax)) ==> status == Exited
    ensures status == Exited ==>
      (exists x :: x in seeds && x.i > MaxRow) || (seeds != [] && !(hMin <= boundaryval <= hMax)) || img2.Length0 > MaxRow + 1
    ensures status == OutOfFuel ==> hMin == hMax
    ensures status != Exited ==> Evolved(img, img2, nullmask, SeededGrid(img2.Length0, img2.Length1, seeds, boundaryval, hMax), hMax)
    ensures status != Exited && hMax <= boundaryval ==> forall r, c :: 0 <= r < img2.Length0 && 0 <= c < img2.Length1 ==>
      img2[r, c] == SeededGrid(img2.Length0, img2.Length1, seeds, boundaryval, hMax)[r][c]
    ensures status != Exited ==> Reached(img, img2, SeededGrid(img2.Length0, img2.Length1, seeds, boundaryval, hMax), hMax, T)
    ensures status == Done ==> Stable(img, img2, nullmask)
  {
    var pq := new PixelQueue(hMin, hMax);
    var ok := SeedAll(pq, img2, seeds, boundaryval);
    if !ok {
      return Exited, map[];
    }
    SeededFlooding(pq, img, img2, nullmask, hMax, boundaryval, seeds);
    status, T := Flood(pq, img, img2, nullmask, hMax, fuel, seeds, boundaryval);
  }

  // ---------------------------------------------------------------------
  // The Python driver `fillMinima`
  // ---------------------------------------------------------------------

  /** The values of one row that are not `nullval`, in order. */
  function RowData(row: seq<int>, nullval: int): (vals: seq<int>)
    ensures forall v :: v in vals ==> v in row && v != nullval
    ensures forall c :: 0 <= c < |row| && row[c] != nullval ==> row[c] in vals
    ensures vals == [] <==> forall c :: 0 <= c < |row| ==> row[c] == nullval
  {
    if row == [] then []
    else RowData(row[..|row| - 1], nullval) + (if row[|row| - 1] != nullval then [row[|row| - 1]] else [])
  }

  /** `img[nonNullmask]`: the values that are not `nullval`, row by row. */
  function Selected(g: Grid, nullval: int): (vals: seq<int>)
    ensures forall v :: v in vals ==> v != nullval
    ensures forall r, c :: 0 <= r < |g| && 0 <= c < |g[r]| && g[r][c] != nullval ==> g[r][c] in vals
    ensures vals == [] <==> forall r, c :: 0 <= r < |g| && 0 <= c < |g[r]| ==> g[r][c] == nullval
  {
    if g == [] then []
    else
      var vals := Selected(g[..|g| - 1], nullval) + RowData(g[|g| - 1], nullval);
      assert forall r :: 0 <= r < |g| - 1 ==> g[..|g| - 1][r] == g[r];
      vals
  }

  /** `.max()` of a non-empty selection. */
  function MaxOf(s: seq<int>): (m: int)
    requires s != []
    ensures m in s && forall v :: v in s ==> v <= m
  {
    if |s| == 1 then s[0]
    else
      assert s == s[..|s| - 1] + [s[|s| - 1]];
      Max(MaxOf(s[..|s| - 1]), s[|s| - 1])
  }

  /** `.min()` of a non-empty selection. */
  function MinOf(s: seq<int>): (m: int)
    requires s != []
    ensures m in s && forall v :: v in s ==> m <= v
  {
    if |s| == 1 then s[0]
    else
      assert s == s[..|s| - 1] + [s[|s| - 1]];
      var m := MinOf(s[..|s| - 1]);
      if s[|s| - 1] < m then s[|s| - 1] else m
  }

  /** The in-image cells of `g` that hold `true`, from `(r, 0)` to `(r, n - 1)`. */
  function WhereRow(row: seq<bool>, r: int, n: nat): seq<Pixel>
    requires n <= |row|
  {
    if n == 0 then [] else WhereRow(row, r, n - 1) + (if row[n - 1] then [Pixel(r, n - 1)] else [])
  }

  function WhereRows(g: seq<seq<bool>>, n: nat): seq<Pixel>
    requires n <= |g|
  {
    if n == 0 then [] else WhereRows(g, n - 1) + WhereRow(g[n - 1], n - 1, |g[n - 1]|)
  }

  /** `numpy.where` on a two-dimensional mask: the cells holding `true`, in
      row-major order. */
  function Where(g: seq<seq<bool>>): seq<Pixel> {
    WhereRows(g, |g|)
  }

  lemma {:induction false} WhereRowHas(row: seq<bool>, r: int, n: nat, x: Pixel)
    requires n <= |row|
    ensures x in WhereRow(row, r, n) <==> x.i == r && 0 <= x.j < n && row[x.j]
  {
    if n > 0 {
      WhereRowHas(row, r, n - 1, x);
    }
  }

  lemma {:induction false} WhereRowsHas(g: seq<seq<bool>>, n: nat, x: Pixel)
    requires n <= |g|
    ensures x in WhereRows(g, n) <==> 0 <= x.i < n && 0 <= x.j < |g[x.i]| && g[x.i][x.j]
  {
    if n > 0 {
      WhereRowsHas(g, n - 1, x);
      WhereRowHas(g[n - 1], n - 1, |g[n - 1]|, x);
    }
  }

  /** `numpy.where` lists exactly the cells holding `true`. */
  lemma WhereHas(g: seq<seq<bool>>, x: Pixel)
    ensures x in Where(g) <==> 0 <= x.i < |g| && 0 <= x.j < |g[x.i]| && g[x.i][x.j]
  {
    WhereRowsHas(g, |g|, x);
  }

  /** The mask `a - b` of two boolean masks, which numpy computes as the
      exclusive or. */
  function Minus(a: seq<seq<bool>>, b: seq<seq<bool>>): (m: seq<seq<bool>>)
    requires |a| == |b| && forall r :: 0 <= r < |a| ==> |a[r]| == |b[r]|
    ensures |m| == |a| && forall r :: 0 <= r < |a| ==> |m[r]| == |a[r]|
    ensures forall r, c :: 0 <= r < |a| && 0 <= c < |a[r]| ==> (m[r][c] <==> a[r][c] != b[r][c])
  {
    seq(|a|, r requires 0 <= r < |a| => seq(|a[r]|, c requires 0 <= c < |a[r]| => a[r][c] != b[r][c]))
  }

  /** The mask `g != v`. */
  function Differs(g: Grid, v: int): (m: seq<seq<bool>>)
    ensures |m| == |g| && forall r :: 0 <= r < |g| ==> |m[r]| == |g[r]|
    ensures forall r, c :: 0 <= r < |g| && 0 <= c < |g[r]| ==> (m[r][c] <==> g[r][c] != v)
  {
    seq(|g|, r requires 0 <= r < |g| => seq(|g[r]|, c requires 0 <= c < |g[r]| => g[r][c] != v))
  }

  /** `n` lies in the 3 x 3 window centred on `p`. */
  predicate Near(p: Pixel, n: Pixel) {
    p.i - 1 <= n.i <= p.i + 1 && p.j - 1 <= n.j <= p.j + 1
  }

  /** `dilated` is `grey_dilation(nullmask, size=(3, 3))`: a cell is set
      when its window holds a no-data cell of the image (the reflected
      border adds no cell that is not already in the window). */
  ghost predicate Dilation(img: array2<int>, nullval: int, dilated: array2<bool>)
    reads img, dilated
  {
    dilated.Length0 == img.Length0 && dilated.Length1 == img.Length1 &&
    forall r, c {:trigger dilated[r, c]} :: 0 <= r < img.Length0 && 0 <= c < img.Length1 ==>
      (dilated[r, c] <==> exists n :: Near(Pixel(r, c), n) && Inside(n, img) && img[n.i, n.j] == nullval)
  }

  ghost predicate HasNull(img: array2<int>, nullval: int)
    reads img
  {
    exists r, c :: 0 <= r < img.Length0 && 0 <= c < img.Length1 && img[r, c] == nullval
  }

  predicate OnBorder(x: Pixel, img: array2<int>) {
    x.i == 0 || x.i == img.Length0 - 1 || x.j == 0 || x.j == img.Length1 - 1
  }

  /** The cells `fillMinima` seeds: with no-data cells present, the cells
      holding data next to one (diagonals included); otherwise the border
      cells whose value is not `hMax`. */
  ghost predicate IsSeed(img: array2<int>, nullval: int, hMax: int, x: Pixel)
    reads img
  {
    Inside(x, img) &&
    if HasNull(img, nullval) then
      img[x.i, x.j] != nullval && exists n :: Near(x, n) && Inside(n, img) && img[n.i, n.j] == nullval
    else
      OnBorder(x, img) && img[x.i, x.j] != hMax
  }

  /** How `fillMinima` ends: the exception `.max()` raises on an image
      without data, or the kernel's outcome. */
  datatype Outcome = NoData | Ran(status: Status)

  /** With no-data cells present, the seeds `numpy.where(nullmaskDilated -
      nullmask)` are the cells holding data with a no-data cell in their
      window. */
  lemma NullBoundarySeeds(img: array2<int>, nullval: int, nullmask: array2<bool>, dilated: array2<bool>, hMax: int, x: Pixel)
    requires Dilation(img, nullval, dilated) && HasNull(img, nullval)
    requires nullmask.Length0 == img.Length0 && nullmask.Length1 == img.Length1
    requires forall r, c :: 0 <= r < img.Length0 && 0 <= c < img.Length1 ==> (nullmask[r, c] <==> img[r, c] == nullval)
    ensures x in Where(Minus(Snapshot(dilated), Snapshot(nullmask))) <==> IsSeed(img, nullval, hMax, x)
  {
    WhereHas(Minus(Snapshot(dilated), Snapshot(nullmask)), x);
    if Inside(x, img) && img[x.i, x.j] == nullval {
      assert Near(x, x);
    }
  }

  /** `img2[0, :] = img[0, :]` and the three other border copies. */
  method CopyBorder(img: array2<int>, img2: array2<int>)
    requires img2.Length0 == img.Length0 && img2.Length1 == img.Length1 && img != img2
    modifies img2
    ensures forall r, c {:trigger img2[r, c]} :: 0 <= r < img2.Length0 && 0 <= c < img2.Length1 ==>
      img2[r, c] == if OnBorder(Pixel(r, c), img) then img[r, c] else old(img2[r, c])
  {
    var rows, cols := img.Length0, img.Length1;
    if rows > 0 && cols > 0 {
      forall c | 0 <= c < cols {
        img2[0, c] := img[0, c];
      }
      var last := rows - 1;
      forall c | 0 <= c < cols {
        img2[last, c] := img[last, c];
      }
      forall r | 0 <= r < rows {
        img2[r, 0] := img[r, 0];
      }
      var right := cols - 1;
      forall r | 0 <= r < rows {
        img2[r, right] := img[r, right];
      }
    }
  }

  /** Without no-data cells, the seeds `numpy.where(img2 != hMax)` after the
      border copies are the border cells whose value is not `hMax`. */
  lemma BorderSeeds(img: array2<int>, img2: array2<int>, nullval: int, hMax: int, x: Pixel)
    requires !HasNull(img, nullval) && img2.Length0 == img.Length0 && img2.Length1 == img.Length1
    requires forall r, c {:trigger img2[r, c]} :: 0 <= r < img2.Length0 && 0 <= c < img2.Length1 ==>
      img2[r, c] == if OnBorder(Pixel(r, c), img) then img[r, c] else hMax
    ensures x in Where(Differs(Snapshot(img2), hMax)) <==> IsSeed(img, nullval, hMax, x)
  {
    WhereHas(Differs(Snapshot(img2), hMax), x);
  }

  /** The seeds of `fillMinima`: `numpy.where` of the inner boundary of the
      no-data mask when it has a set cell, else of `img2 != hMax` after the
      border of `img2` was copied from `img`. */
  method Boundary(img: array2<int>, nullval: int, nullmask: array2<bool>, dilated: array2<bool>,
                  img2: array2<int>, hMax: int) returns (seeds: seq<Pixel>)
    requires Dilation(img, nullval, dilated) && img != img2
    requires SameShape(img, img2, nullmask)
    requires forall r, c :: 0 <= r < img.Length0 && 0 <= c < img.Length1 ==> (nullmask[r, c] <==> img[r, c] == nullval)
    requires forall r, c :: 0 <= r < img2.Length0 && 0 <= c < img2.Length1 ==> img2[r, c] == hMax
    modifies img2
    ensures forall x :: x in seeds <==> IsSeed(img, nullval, hMax, x)
    ensures forall r, c {:trigger img2[r, c]} :: 0 <= r < img2.Length0 && 0 <= c < img2.Length1 && Pixel(r, c) !in seeds ==>
      img2[r, c] == hMax
  {
    var rows, cols := img.Length0, img.Length1;
    if |Where(Snapshot(nullmask))| > 0 {
      assert Where(Snapshot(nullmask))[0] in Where(Snapshot(nullmask));
      WhereHas(Snapshot(nullmask), Where(Snapshot(nullmask))[0]);
      seeds := Where(Minus(Snapshot(dilated), Snapshot(nullmask)));
      forall x
        ensures x in seeds <==> IsSeed(img, nullval, hMax, x)
      {
        NullBoundarySeeds(img, nullval, nullmask, dilated, hMax, x);
      }
    } else {
      forall r, c | 0 <= r < rows && 0 <= c < cols
        ensures img[r, c] != nullval
      {
        WhereHas(Snapshot(nullmask), Pixel(r, c));
      }
      CopyBorder(img, img2);
      seeds := Where(Differs(Snapshot(img2), hMax));
      forall x
        ensures x in seeds <==> IsSeed(img, nullval, hMax, x)
      {
        BorderSeeds(img, img2, nullval, hMax, x);
      }
    }
  }

  /** `x` is a seed whose output is still `boundaryval`. */
  ghost predicate SeedHeld(img: array2<int>, img2: array2<int>, nullval: int, boundaryval: int, hMax: int, x: Pixel)
    reads img, img2
    requires img2.Length0 == img.Length0 && img2.Length1 == img.Length1
  {
    IsSeed(img, nullval, hMax, x) && img2[x.i, x.j] == boundaryval
  }

  /** `d` is ranked in `T`, and its output is `max(img2[p], img)` for an
      in-image diagonal neighbour `p` holding data whose output is below
      `hMax` and which is a held seed or ranked before `d`. */
  ghost predicate FilledFrom(img: array2<int>, img2: array2<int>, nullval: int, boundaryval: int, hMax: int,
                             T: map<Pixel, nat>, d: Pixel)
    reads img, img2
    requires img2.Length0 == img.Length0 && img2.Length1 == img.Length1 && Inside(d, img2)
  {
    d in T &&
    exists p :: Diagonal(p, d) && Inside(p, img2) && img[p.i, p.j] != nullval &&
      img2[p.i, p.j] < hMax && img2[d.i, d.j] == Max(img2[p.i, p.j], img[d.i, d.j]) &&
      (SeedHeld(img, img2, nullval, boundaryval, hMax, p) || (p in T && T[p] < T[d]))
  }

  /** Every cell holding data whose output is below `hMax`, other than a
      seed still holding `boundaryval`, was filled from a diagonal neighbour
      holding data that came before it in the ranking `T`; so following
      the supports always ends at a held seed. */
  ghost predicate Supported(img: array2<int>, img2: array2<int>, nullval: int, boundaryval: int, hMax: int, T: map<Pixel, nat>)
    reads img, img2
    requires img2.Length0 == img.Length0 && img2.Length1 == img.Length1
  {
    forall r, c {:trigger img2[r, c]} ::
      (0 <= r < img2.Length0 && 0 <= c < img2.Length1 && img[r, c] != nullval &&
       img2[r, c] < hMax && !SeedHeld(img, img2, nullval, boundaryval, hMax, Pixel(r, c))) ==>
        FilledFrom(img, img2, nullval, boundaryval, hMax, T, Pixel(r, c))
  }

  /** How the kernel ends for the data range [hMin, hMax] of `img`. */
  ghost predicate Ends(img: array2<int>, nullval: int, boundaryval: int, hMin: int, hMax: int, status: Status)
    reads img
  {
    (status == OutOfFuel ==> hMin == hMax) &&
    (img.Length0 <= MaxRow + 1 ==>
      (status == Exited <==> (exists x :: IsSeed(img, nullval, hMax, x)) && !(hMin <= boundaryval <= hMax)))
  }

  /** No-data cells hold `nullval`; every other cell holds a value between
      its input and `hMax`, except that a seed holds `boundaryval` (or, when
      that is `hMax`, possibly a value lowered from it). */
  ghost predicate Ranged(img: array2<int>, img2: array2<int>, nullval: int, boundaryval: int, hMax: int)
    reads img, img2
    requires img2.Length0 == img.Length0 && img2.Length1 == img.Length1
  {
    forall r, c {:trigger img2[r, c]} :: 0 <= r < img2.Length0 && 0 <= c < img2.Length1 ==>
      (img[r, c] == nullval ==> img2[r, c] == nullval) &&
      (img[r, c] != nullval && !IsSeed(img, nullval, hMax, Pixel(r, c)) ==> img[r, c] <= img2[r, c] <= hMax) &&
      (IsSeed(img, nullval, hMax, Pixel(r, c)) ==>
        img2[r, c] == boundaryval || (boundaryval == hMax && img[r, c] <= img2[r, c] <= hMax))
  }

  /** For diagonal neighbours `x` and `d` both holding data, the output at
      `d` is at most `max(img2[x], img[d])`. */
  ghost predicate StableData(img: array2<int>, img2: array2<int>, nullval: int)
    reads img, img2
    requires img2.Length0 == img.Length0 && img2.Length1 == img.Length1
  {
    forall x, d {:trigger Diagonal(x, d)} ::
      Inside(x, img2) && Diagonal(x, d) && Inside(d, img2) && img[x.i, x.j] != nullval && img[d.i, d.j] != nullval ==>
        img2[d.i, d.j] <= Max(img2[x.i, x.j], img[d.i, d.j])
  }

  /** What the result `img2` holds when the kernel ended with `status`. */
  ghost predicate Fills(img: array2<int>, img2: array2<int>, nullval: int, boundaryval: int, hMax: int, status: Status)
    reads img, img2
  {
    img2.Length0 == img.Length0 && img2.Length1 == img.Length1 &&
    (status != Exited ==> Ranged(img, img2, nullval, boundaryval, hMax) && exists T :: Supported(img, img2, nullval, boundaryval, hMax, T)) &&
    (status == Done ==> StableData(img, img2, nullval))
  }

  /** What `fillMinima` promises about its result `img2` for the data range
      [hMin, hMax] of `img`, when the kernel ended with `status`. */
  ghost predicate Filled(img: array2<int>, img2: array2<int>, nullval: int, boundaryval: int,
                         hMin: int, hMax: int, status: Status)
    reads img, img2
  {
    Ends(img, nullval, boundaryval, hMin, hMax, status) && Fills(img, img2, nullval, boundaryval, hMax, status)
  }

  /** Every cell of `path` holds data with an output below `hMax`, and each
      step goes to a diagonal neighbour whose output is `max(previous
      output, its input)`. */
  ghost predicate Climbs(img: array2<int>, img2: array2<int>, nullval: int, hMax: int, path: seq<Pixel>)
    reads img, img2
    requires img2.Length0 == img.Length0 && img2.Length1 == img.Length1
    decreases |path|
  {
    |path| > 0 &&
    var d := path[|path| - 1];
    Inside(d, img2) && img[d.i, d.j] != nullval && img2[d.i, d.j] < hMax &&
    (|path| > 1 ==>
      var p := path[|path| - 2];
      Diagonal(p, d) && Climbs(img, img2, nullval, hMax, path[..|path| - 1]) &&
      img2[d.i, d.j] == Max(img2[p.i, p.j], img[d.i, d.j]))
  }

  /** `path` climbs from a seed still holding `boundaryval` to `d`. */
  ghost predicate SeedPath(img: array2<int>, img2: array2<int>, nullval: int, boundaryval: int, hMax: int,
                           path: seq<Pixel>, d: Pixel)
    reads img, img2
    requires img2.Length0 == img.Length0 && img2.Length1 == img.Length1
  {
    Climbs(img, img2, nullval, hMax, path) && path[|path| - 1] == d && SeedHeld(img, img2, nullval, boundaryval, hMax, path[0])
  }

  /** A seed path to `p` extends to a diagonal neighbour `d` holding data
      whose output is below `hMax` and equals `max(img2[p], img[d])`. */
  lemma ExtendSeedPath(img: array2<int>, img2: array2<int>, nullval: int, boundaryval: int, hMax: int,
                       path: seq<Pixel>, p: Pixel, d: Pixel)
    requires img2.Length0 == img.Length0 && img2.Length1 == img.Length1
    requires SeedPath(img, img2, nullval, boundaryval, hMax, path, p)
    requires Diagonal(p, d) && Inside(d, img2) && img[d.i, d.j] != nullval && img2[d.i, d.j] < hMax
    requires Inside(p, img2) && img2[d.i, d.j] == Max(img2[p.i, p.j], img[d.i, d.j])
    ensures SeedPath(img, img2, nullval, boundaryval, hMax, path + [d], d)
  {
    var path' := path + [d];
    assert path'[..|path'| - 1] == path && path'[0] == path[0];
  }

  /** Following the supports back from a cell holding data below `hMax`
      ends at a held seed, as each step goes to an earlier rank. */
  lemma {:induction false} ReachesSeed(img: array2<int>, img2: array2<int>, nullval: int, boundaryval: int, hMax: int,
                                       T: map<Pixel, nat>, d: Pixel)
    requires img2.Length0 == img.Length0 && img2.Length1 == img.Length1
    requires Supported(img, img2, nullval, boundaryval, hMax, T)
    requires Inside(d, img2) && img[d.i, d.j] != nullval && img2[d.i, d.j] < hMax
    ensures exists path :: SeedPath(img, img2, nullval, boundaryval, hMax, path, d)
    decreases if d in T then T[d] + 1 else 0
  {
    if SeedHeld(img, img2, nullval, boundaryval, hMax, d) {
      assert SeedPath(img, img2, nullval, boundaryval, hMax, [d], d);
      return;
    }
    assert FilledFrom(img, img2, nullval, boundaryval, hMax, T, d);
    var p :| Diagonal(p, d) && Inside(p, img2) && img[p.i, p.j] != nullval &&
      img2[p.i, p.j] < hMax && img2[d.i, d.j] == Max(img2[p.i, p.j], img[d.i, d.j]) &&
      (SeedHeld(img, img2, nullval, boundaryval, hMax, p) || (p in T && T[p] < T[d]));
    if SeedHeld(img, img2, nullval, boundaryval, hMax, p) {
      assert SeedPath(img, img2, nullval, boundaryval, hMax, [p], p);
    } else {
      ReachesSeed(img, img2, nullval, boundaryval, hMax, T, p);
    }
    var path :| SeedPath(img, img2, nullval, boundaryval, hMax, path, p);
    ExtendSeedPath(img, img2, nullval, boundaryval, hMax, path, p, d);
  }

  /** Outputs never fall along a seed path, so its end is at least
      `boundaryval`. */
  lemma {:induction false} SeedPathRises(img: array2<int>, img2: array2<int>, nullval: int, boundaryval: int, hMax: int,
                                         path: seq<Pixel>, d: Pixel)
    requires img2.Length0 == img.Length0 && img2.Length1 == img.Length1
    requires SeedPath(img, img2, nullval, boundaryval, hMax, path, d)
    ensures boundaryval <= img2[d.i, d.j]
    decreases |path|
  {
    if |path| > 1 {
      var prefix := path[..|path| - 1];
      assert prefix[0] == path[0];
      SeedPathRises(img, img2, nullval, boundaryval, hMax, prefix, path[|path| - 2]);
    }
  }

  /** In a filled image every cell holding data whose output is below
      `hMax` is reached from a seed along a seed path, and so is at least
      `boundaryval`: no pit is left below the boundary value. */
  lemma FilledReachesSeed(img: array2<int>, img2: array2<int>, nullval: int, boundaryval: int,
                          hMin: int, hMax: int, status: Status, d: Pixel)
    requires Filled(img, img2, nullval, boundaryval, hMin, hMax, status) && status != Exited
    requires Inside(d, img2) && img[d.i, d.j] != nullval && img2[d.i, d.j] < hMax
    ensures exists path :: SeedPath(img, img2, nullval, boundaryval, hMax, path, d)
    ensures boundaryval <= img2[d.i, d.j]
  {
    var T :| Supported(img, img2, nullval, boundaryval, hMax, T);
    ReachesSeed(img, img2, nullval, boundaryval, hMax, T, d);
    var path :| SeedPath(img, img2, nullval, boundaryval, hMax, path, d);
    SeedPathRises(img, img2, nullval, boundaryval, hMax, path, d);
  }

  /** A stable result `img3` that keeps the seeds at `boundaryval` is at
      most `img2` at the end of any seed path of `img2`: stability carries
      the bound from each cell of the path to the next. */
  lemma {:induction false} StableBelowSeedPath(img: array2<int>, img2: array2<int>, img3: array2<int>, nullval: int,
                                               boundaryval: int, hMax: int, path: seq<Pixel>, d: Pixel)
    requires img2.Length0 == img.Length0 && img2.Length1 == img.Length1
    requires img3.Length0 == img.Length0 && img3.Length1 == img.Length1
    requires SeedPath(img, img2, nullval, boundaryval, hMax, path, d)
    requires Ranged(img, img3, nullval, boundaryval, hMax) && StableData(img, img3, nullval)
    ensures img3[d.i, d.j] <= img2[d.i, d.j]
    decreases |path|
  {
    if |path| > 1 {
      var prefix := path[..|path| - 1];
      var p := path[|path| - 2];
      assert prefix[0] == path[0];
      StableBelowSeedPath(img, img2, img3, nullval, boundaryval, hMax, prefix, p);
      assert img3[d.i, d.j] <= Max(img3[p.i, p.j], img[d.i, d.j]);
    } else {
      assert img3[d.i, d.j] == boundaryval;
    }
  }

  /** On completion the filled result is determined by the input: two
      results that both satisfy `Filled` agree on every cell. */
  lemma FilledIsUnique(img: array2<int>, img2: array2<int>, img3: array2<int>, nullval: int, boundaryval: int,
                       hMin: int, hMax: int)
    requires Filled(img, img2, nullval, boundaryval, hMin, hMax, Done)
    requires Filled(img, img3, nullval, boundaryval, hMin, hMax, Done)
    ensures forall r, c :: 0 <= r < img.Length0 && 0 <= c < img.Length1 ==> img2[r, c] == img3[r, c]
  {
    forall r, c | 0 <= r < img.Length0 && 0 <= c < img.Length1
      ensures img2[r, c] == img3[r, c]
    {
      var d := Pixel(r, c);
      if img[r, c] != nullval {
        if img2[r, c] < hMax {
          FilledReachesSeed(img, img2, nullval, boundaryval, hMin, hMax, Done, d);
          var path :| SeedPath(img, img2, nullval, boundaryval, hMax, path, d);
          StableBelowSeedPath(img, img2, img3, nullval, boundaryval, hMax, path, d);
        }
        if img3[r, c] < hMax {
          FilledReachesSeed(img, img3, nullval, boundaryval, hMin, hMax, Done, d);
          var path :| SeedPath(img, img3, nullval, boundaryval, hMax, path, d);
          StableBelowSeedPath(img, img3, img2, nullval, boundaryval, hMax, path, d);
        }
      }
    }
  }

  /** A 4 x 4 image of 5s with two diagonal pits of 0 at (1, 1) and (2, 2)
      and a 9 at (3, 3). */
  function Pits(r: int, c: int): int {
    if (r == 1 && c == 1) || (r == 2 && c == 2) then 0 else if r == 3 && c == 3 then 9 else 5
  }

  /** Returning that image unchanged is not a filling of it with
      `boundaryval` 5: the pits at 0 are not reached from any seed, though
      each is `max(output, input)` of the other. */
  lemma PitsNotFilled(img: array2<int>, img2: array2<int>, status: Status)
    requires img.Length0 == 4 && img.Length1 == 4 && img2.Length0 == 4 && img2.Length1 == 4
    requires forall r, c :: 0 <= r < 4 && 0 <= c < 4 ==> img[r, c] == Pits(r, c) && img2[r, c] == Pits(r, c)
    requires status != Exited
    ensures !Filled(img, img2, -9999, 5, 0, 9, status)
  {
    if Filled(img, img2, -9999, 5, 0, 9, status) {
      FilledReachesSeed(img, img2, -9999, 5, 0, 9, status, Pixel(1, 1));
      assert false;
    }
  }

  /** After the flood, each cell holding data whose output is below `hMax`
      and differs from the seeded raster is supported by a neighbour holding
      data: a no-data neighbour still holds its seeded value, which is
      `hMax` as no seed lacks data. */
  lemma FloodSupported(img: array2<int>, img2: array2<int>, nullmask: array2<bool>, nullval: int,
                       boundaryval: int, hMax: int, seeds: seq<Pixel>, T: map<Pixel, nat>)
    requires SameShape(img, img2, nullmask)
    requires forall r, c :: 0 <= r < img.Length0 && 0 <= c < img.Length1 ==> (nullmask[r, c] <==> img[r, c] == nullval)
    requires forall x :: x in seeds <==> IsSeed(img, nullval, hMax, x)
    requires Evolved(img, img2, nullmask, SeededGrid(img2.Length0, img2.Length1, seeds, boundaryval, hMax), hMax)
    requires Reached(img, img2, SeededGrid(img2.Length0, img2.Length1, seeds, boundaryval, hMax), hMax, T)
    ensures Supported(img, img2, nullval, boundaryval, hMax, T)
  {
    var S := SeededGrid(img2.Length0, img2.Length1, seeds, boundaryval, hMax);
    forall r, c | 0 <= r < img2.Length0 && 0 <= c < img2.Length1 && img[r, c] != nullval &&
        img2[r, c] < hMax && !SeedHeld(img, img2, nullval, boundaryval, hMax, Pixel(r, c))
      ensures FilledFrom(img, img2, nullval, boundaryval, hMax, T, Pixel(r, c))
    {
      assert img2[r, c] != S[r][c];
      assert Sourced(img, img2, S, hMax, T, Pixel(r, c));
      var d := Pixel(r, c);
      var p :| Diagonal(p, d) && Inside(p, img2) && img2[p.i, p.j] < hMax &&
        img2[r, c] == Max(img2[p.i, p.j], img[r, c]) && (img2[p.i, p.j] == S[p.i][p.j] || (p in T && d in T && T[p] < T[d]));
      assert img2[p.i, p.j] != S[p.i][p.j] || p in seeds;
      if img2[p.i, p.j] == S[p.i][p.j] {
        assert SeedHeld(img, img2, nullval, boundaryval, hMax, p);
      }
    }
  }

  /** Between two states, only the no-data cells of `img2` changed, each to
      `nullval`. */
  twostate predicate Nulled(img2: array2<int>, nullmask: array2<bool>, nullval: int)
    reads img2, nullmask
    requires nullmask.Length0 == img2.Length0 && nullmask.Length1 == img2.Length1
  {
    forall r, c {:trigger img2[r, c]} :: 0 <= r < img2.Length0 && 0 <= c < img2.Length1 ==>
      img2[r, c] == if nullmask[r, c] then nullval else old(img2[r, c])
  }

  /** The overwrite of the no-data cells at the end of `fillMinima`, taken
      as the single argument of the twostate lemmas below. */
  datatype Restoring = Restoring(img: array2<int>, img2: array2<int>, nullmask: array2<bool>, nullval: int,
                                 seeds: seq<Pixel>, boundaryval: int, hMax: int, T: map<Pixel, nat>)

  /** Between two states, `img` and the mask are unchanged, the mask marks
      the no-data cells, and only those cells of `img2` changed. */
  twostate predicate Overwrote(z: Restoring)
    reads z.img, z.img2, z.nullmask
  {
    SameShape(z.img, z.img2, z.nullmask) && unchanged(z.img) && unchanged(z.nullmask) &&
    (forall r, c :: 0 <= r < z.img.Length0 && 0 <= c < z.img.Length1 ==> (z.nullmask[r, c] <==> z.img[r, c] == z.nullval)) &&
    Nulled(z.img2, z.nullmask, z.nullval)
  }

  /** Overwriting the no-data cells keeps the bounds the flood set on the
      cells holding data. */
  twostate lemma RangedKept(z: Restoring)
    requires Overwrote(z) && Capped(z.img, z.nullmask, z.hMax)
    requires forall x :: x in z.seeds <==> IsSeed(z.img, z.nullval, z.hMax, x)
    requires old(Evolved(z.img, z.img2, z.nullmask, SeededGrid(z.img2.Length0, z.img2.Length1, z.seeds, z.boundaryval, z.hMax), z.hMax))
    ensures Ranged(z.img, z.img2, z.nullval, z.boundaryval, z.hMax)
  {
    var img, img2, nullmask, nullval, boundaryval, hMax := z.img, z.img2, z.nullmask, z.nullval, z.boundaryval, z.hMax;
    var S := SeededGrid(img.Length0, img.Length1, z.seeds, boundaryval, hMax);
    forall r, c | 0 <= r < img2.Length0 && 0 <= c < img2.Length1
      ensures img[r, c] == nullval ==> img2[r, c] == nullval
      ensures img[r, c] != nullval && !IsSeed(img, nullval, hMax, Pixel(r, c)) ==> img[r, c] <= img2[r, c] <= hMax
      ensures IsSeed(img, nullval, hMax, Pixel(r, c)) ==>
        img2[r, c] == boundaryval || (boundaryval == hMax && img[r, c] <= img2[r, c] <= hMax)
    {
      if !nullmask[r, c] {
        assert img2[r, c] == old(img2[r, c]) <= hMax;
        assert old(img2[r, c]) == S[r][c] || (S[r][c] == hMax && img[r, c] <= img2[r, c]);
      }
    }
  }

  /** Overwriting the no-data cells keeps every cell holding data supported. */
  twostate lemma SupportedKept(z: Restoring)
    requires Overwrote(z) && old(Supported(z.img, z.img2, z.nullval, z.boundaryval, z.hMax, z.T))
    ensures Supported(z.img, z.img2, z.nullval, z.boundaryval, z.hMax, z.T)
  {
    var img, img2, nullval, boundaryval, hMax, T := z.img, z.img2, z.nullval, z.boundaryval, z.hMax, z.T;
    forall r, c | 0 <= r < img2.Length0 && 0 <= c < img2.Length1 && img[r, c] != nullval &&
        img2[r, c] < hMax && !SeedHeld(img, img2, nullval, boundaryval, hMax, Pixel(r, c))
      ensures FilledFrom(img, img2, nullval, boundaryval, hMax, T, Pixel(r, c))
    {
      var d := Pixel(r, c);
      assert img2[r, c] == old(img2[r, c]);
      assert old(FilledFrom(img, img2, nullval, boundaryval, hMax, T, d));
      var p :| Diagonal(p, d) && Inside(p, img2) && img[p.i, p.j] != nullval &&
        old(img2[p.i, p.j]) < hMax && old(img2[r, c]) == Max(old(img2[p.i, p.j]), img[r, c]) &&
        (old(SeedHeld(img, img2, nullval, boundaryval, hMax, p)) || (p in T && T[p] < T[d]));
      assert img2[p.i, p.j] == old(img2[p.i, p.j]);
    }
  }

  /** Overwriting the no-data cells keeps the cells holding data stable. */
  twostate lemma StableKept(z: Restoring)
    requires Overwrote(z) && old(Stable(z.img, z.img2, z.nullmask))
    ensures StableData(z.img, z.img2, z.nullval)
  {
    var img, img2, nullval := z.img, z.img2, z.nullval;
    forall x, d | Inside(x, img2) && Diagonal(x, d) && Inside(d, img2) && img[x.i, x.j] != nullval && img[d.i, d.j] != nullval
      ensures img2[d.i, d.j] <= Max(img2[x.i, x.j], img[d.i, d.j])
    {
      assert old(img2[d.i, d.j]) <= Max(old(img2[x.i, x.j]), img[d.i, d.j]);
    }
  }

  /** `img2[nullmask] = nullval`. */
  method Restore(img2: array2<int>, nullmask: array2<bool>, nullval: int)
    requires nullmask.Length0 == img2.Length0 && nullmask.Length1 == img2.Length1
    modifies img2
    ensures Nulled(img2, nullmask, nullval)
  {
    forall r, c | 0 <= r < img2.Length0 && 0 <= c < img2.Length1 && nullmask[r, c] {
      img2[r, c] := nullval;
    }
  }

  /** The kernel run on the seeded `img2`, then `img2[nullmask] = nullval`. */
  method Finish(img: array2<int>, img2: array2<int>, nullmask: array2<bool>, nullval: int,
                hMin: int, hMax: int, boundaryval: int, seeds: seq<Pixel>, fuel: nat) returns (status: Status)
    requires SameShape(img, img2, nullmask) && img != img2 && hMin <= hMax && Capped(img, nullmask, hMax)
    requires forall r, c :: 0 <= r < img.Length0 && 0 <= c < img.Length1 ==> (nullmask[r, c] <==> img[r, c] == nullval)
    requires forall x :: x in seeds <==> IsSeed(img, nullval, hMax, x)
    requires forall r, c {:trigger img2[r, c]} :: 0 <= r < img2.Length0 && 0 <= c < img2.Length1 && Pixel(r, c) !in seeds ==>
      img2[r, c] == hMax
    modifies img2
    ensures Filled(img, img2, nullval, boundaryval, hMin, hMax, status)
  {
    ghost var T;
    status, T := Kernel(img, img2, nullmask, hMin, hMax, boundaryval, seeds, fuel);
    if status != Exited {
      FloodSupported(img, img2, nullmask, nullval, boundaryval, hMax, seeds, T);
    }
    label Flooded:
    Restore(img2, nullmask, nullval);
    ghost var z := Restoring(img, img2, nullmask, nullval, seeds, boundaryval, hMax, T);
    assert Overwrote@Flooded(z);
    if status != Exited {
      RangedKept@Flooded(z);
      SupportedKept@Flooded(z);
    }
    if status == Done {
      StableKept@Flooded(z);
    }
    if img.Length0 <= MaxRow + 1 {
      if seeds != [] {
        assert IsSeed(img, nullval, hMax, seeds[0]);
      }
      assert forall x :: x in seeds ==> x.i <= MaxRow;
    }
  }

  /** The mask `img == nullval`. */
  method Equals(img: array2<int>, nullval: int) returns (mask: array2<bool>)
    ensures fresh(mask) && mask.Length0 == img.Length0 && mask.Length1 == img.Length1
    ensures forall r, c :: 0 <= r < img.Length0 && 0 <= c < img.Length1 ==> (mask[r, c] <==> img[r, c] == nullval)
  {
    mask := new bool[img.Length0, img.Length1];
    forall r, c | 0 <= r < img.Length0 && 0 <= c < img.Length1 {
      mask[r, c] := img[r, c] == nullval;
    }
  }

  /** `numpy.zeros((rows, cols))` followed by `fill(v)`. */
  method Filling(rows: nat, cols: nat, v: int) returns (a: array2<int>)
    ensures fresh(a) && a.Length0 == rows && a.Length1 == cols
    ensures forall r, c :: 0 <= r < rows && 0 <= c < cols ==> a[r, c] == v
  {
    a := new int[rows, cols];
    forall r, c | 0 <= r < rows && 0 <= c < cols {
      a[r, c] := v;
    }
  }

  /** `fillMinima`: fills the local minima of `img` by reconstruction by
      erosion from the edge of the data. `dilated` is the result of
      `grey_dilation` on the no-data mask; `fuel` bounds the pops at level
      `hMax` (see `Drain`). */
  method FillMinima(img: array2<int>, nullval: int, boundaryval: int, dilated: array2<bool>, fuel: nat)
    returns (outcome: Outcome, img2: array2<int>)
    requires Dilation(img, nullval, dilated)
    ensures fresh(img2)
    ensures outcome == NoData <==> forall r, c :: 0 <= r < img.Length0 && 0 <= c < img.Length1 ==> img[r, c] == nullval
    ensures outcome.Ran? ==> var vals := Selected(Snapshot(img), nullval);
      vals != [] && Filled(img, img2, nullval, boundaryval, MinOf(vals), MaxOf(vals), outcome.status)
  {
    var nullmask := Equals(img, nullval);
    var vals := Selected(Snapshot(img), nullval);
    if vals == [] {
      img2 := new int[0, 0];
      return NoData, img2;
    }
    var hMax, hMin := MaxOf(vals), MinOf(vals);
    forall r, c | 0 <= r < img.Length0 && 0 <= c < img.Length1 && !nullmask[r, c]
      ensures img[r, c] <= hMax
    {
      assert Snapshot(img)[r][c] == img[r, c];
    }
    img2 := Filling(img.Length0, img.Length1, hMax);
    var seeds := Boundary(img, nullval, nullmask, dilated, img2, hMax);
    var status := Finish(img, img2, nullmask, nullval, hMin, hMax, boundaryval, seeds, fuel);
    outcome := Ran(status);
  }
}
