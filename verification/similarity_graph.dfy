/**
  The similarity graph (`build_minhash_graph`): one tile matrix per image, then
  one weighted edge per unordered pair of images, the weight being the number
  of matching tiles.
 */
module SimilarityGraph {
  import opened SketchTypes
  import opened TileMatrix

  /** An edge `(i, j, matchingTiles)` between images `i` and `j`. */
  datatype Edge = Edge(first: nat, second: nat, matchingTiles: nat)

  predicate AllWellformed(images: seq<Image>)
  {
    forall t :: 0 <= t < |images| ==> Wellformed(images[t])
  }

  /** The number of tiles of image `i` that match the same tile of image `j`. */
  ghost function MatchCount(images: seq<Image>, numTiles: nat, k: nat, h: HashFunction, threshold: Ratio, i: nat, j: nat): nat
    requires AllWellformed(images) && numTiles >= 1
    requires i < |images| && j < |images|
  {
    TileGridIsGrid(images[i], numTiles, k, h);
    TileGridIsGrid(images[j], numTiles, k, h);
    |MatchingTiles(TileGrid(images[i], numTiles, k, h), TileGrid(images[j], numTiles, k, h), numTiles, threshold)|
  }

  /** `e1` comes before `e2` in the lexicographic order of their endpoint pairs. */
  predicate EdgeBefore(e1: Edge, e2: Edge)
  {
    e1.first < e2.first || (e1.first == e2.first && e1.second < e2.second)
  }

  ghost predicate Ascending(graph: seq<Edge>)
  {
    forall p, q :: 0 <= p < q < |graph| ==> EdgeBefore(graph[p], graph[q])
  }

  /** The number of pairs `r < c < m` with `r < i`: the position of the first edge leaving image `i`. */
  function PairsBefore(i: nat, m: nat): nat
    requires i <= m
  {
    if i == 0 then 0 else PairsBefore(i - 1, m) + (m - i)
  }

  /** The position of edge `(i, j)` in the graph of `m` images. */
  function PairIndex(i: nat, j: nat, m: nat): nat
    requires i < j <= m
  {
    PairsBefore(i, m) + (j - i - 1)
  }

  /** `PairsBefore(i, m)` in closed form. */
  lemma {:induction false} PairsBeforeClosedForm(i: nat, m: nat)
    requires i <= m
    ensures 2 * PairsBefore(i, m) == i * (2 * m - i - 1)
  {
    if i > 0 {
      PairsBeforeClosedForm(i - 1, m);
      assert (i - 1) * (2 * m - i) == i * (2 * m - i) - (2 * m - i);
      assert i * (2 * m - i) == i * (2 * m - i - 1) + i;
    }
  }

  /** A graph of `m` images has `m (m - 1) / 2` edges. */
  lemma PairCount(m: nat)
    ensures 2 * PairsBefore(m, m) == m * (m - 1)
  {
    PairsBeforeClosedForm(m, m);
  }

  /** The number of tile matches of every ordered pair of images. */
  ghost function MatchCounts(images: seq<Image>, numTiles: nat, k: nat, h: HashFunction, threshold: Ratio): seq<seq<nat>>
    requires AllWellformed(images) && numTiles >= 1
  {
    seq(|images|, i requires 0 <= i < |images| =>
      seq(|images|, j requires 0 <= j < |images| => MatchCount(images, numTiles, k, h, threshold, i, j)))
  }

  /** A square table of edge weights, one row and one column per image. */
  ghost predicate Square(w: seq<seq<nat>>)
  {
    forall i :: 0 <= i < |w| ==> |w[i]| == |w|
  }

  /** The edge of image `i` to image `j` is the one `graph` holds at `PairIndex(i, j, |w|)`, with weight `w[i][j]`. */
  ghost predicate HoldsPair(graph: seq<Edge>, w: seq<seq<nat>>, i: nat, j: nat)
    requires Square(w) && i < j < |w|
  {
    PairIndex(i, j, |w|) < |graph| && graph[PairIndex(i, j, |w|)] == Edge(i, j, w[i][j])
  }

  /** Edge `e` joins two images, lower index first, and carries the weight the table gives the pair. */
  ghost predicate EdgeOk(w: seq<seq<nat>>, e: Edge)
    requires Square(w)
  {
    e.first < e.second < |w| && e.matchingTiles == w[e.first][e.second]
  }

  /** The edges the inner loop emits for image `i`: `(i, c)` for `i < c < j`, in order. */
  ghost function RowEdges(w: seq<seq<nat>>, i: nat, j: nat): seq<Edge>
    requires Square(w) && i < |w| && j <= |w|
    decreases j
  {
    if j <= i + 1 then [] else RowEdges(w, i, j - 1) + [Edge(i, j - 1, w[i][j - 1])]
  }

  /** The edges of the first `i` iterations of the outer loop. */
  ghost function GraphRows(w: seq<seq<nat>>, i: nat): seq<Edge>
    requires Square(w) && i <= |w|
  {
    if i == 0 then [] else GraphRows(w, i - 1) + RowEdges(w, i - 1, |w|)
  }

  /** The graph `build_minhash_graph` returns for already-decoded images. */
  ghost function MinHashGraph(images: seq<Image>, numTiles: nat, k: nat, h: HashFunction, threshold: Ratio): seq<Edge>
    requires AllWellformed(images) && numTiles >= 1
  {
    var w := MatchCounts(images, numTiles, k, h, threshold);
    GraphRows(w, |w|)
  }

  /** Entry `p` of the edges of image `i` is the edge to image `i + 1 + p`. */
  lemma {:induction false} RowEdgesContents(w: seq<seq<nat>>, i: nat, j: nat)
    requires Square(w) && i < j <= |w|
    ensures |RowEdges(w, i, j)| == j - i - 1
    ensures forall p :: 0 <= p < j - i - 1 ==> RowEdges(w, i, j)[p] == Edge(i, i + 1 + p, w[i][i + 1 + p])
    decreases j
  {
    if j > i + 1 {
      RowEdgesContents(w, i, j - 1);
    }
  }

  /** After `i` outer iterations the graph has `PairsBefore(i, m)` edges. */
  lemma {:induction false} GraphRowsLength(w: seq<seq<nat>>, i: nat)
    requires Square(w) && i <= |w|
    ensures |GraphRows(w, i)| == PairsBefore(i, |w|)
  {
    if i > 0 {
      GraphRowsLength(w, i - 1);
      RowEdgesContents(w, i - 1, |w|);
    }
  }

  /** After `i` outer iterations every edge leaves an image below `i` and is a correct edge. */
  lemma {:induction false} GraphRowsEdges(w: seq<seq<nat>>, i: nat)
    requires Square(w) && i <= |w|
    ensures forall p :: 0 <= p < |GraphRows(w, i)| ==> GraphRows(w, i)[p].first < i && EdgeOk(w, GraphRows(w, i)[p])
  {
    if i > 0 {
      var g := GraphRows(w, i - 1);
      var row := RowEdges(w, i - 1, |w|);
      var all := GraphRows(w, i);
      assert all == g + row;
      GraphRowsEdges(w, i - 1);
      RowEdgesContents(w, i - 1, |w|);
      forall p | 0 <= p < |all|
        ensures all[p].first < i && EdgeOk(w, all[p])
      {
        if p < |g| {
          assert all[p] == g[p];
        } else {
          assert all[p] == row[p - |g|];
        }
      }
    }
  }

  /** After `i` outer iterations the edges are in strictly increasing lexicographic order. */
  lemma {:induction false} GraphRowsAscending(w: seq<seq<nat>>, i: nat)
    requires Square(w) && i <= |w|
    ensures Ascending(GraphRows(w, i))
  {
    if i > 0 {
      var g := GraphRows(w, i - 1);
      var row := RowEdges(w, i - 1, |w|);
      var all := GraphRows(w, i);
      assert all == g + row;
      GraphRowsAscending(w, i - 1);
      GraphRowsEdges(w, i - 1);
      RowEdgesContents(w, i - 1, |w|);
      forall p, q | 0 <= p < q < |all|
        ensures EdgeBefore(all[p], all[q])
      {
        if q < |g| {
          assert all[p] == g[p] && all[q] == g[q];
        } else if p < |g| {
          assert all[p] == g[p] && all[q] == row[q - |g|];
        } else {
          assert all[p] == row[p - |g|] && all[q] == row[q - |g|];
        }
      }
    }
  }

  /** After `i` outer iterations the edge of every pair `r < c` with `r < i` sits at its position. */
  lemma {:induction false} GraphRowsHoldPairs(w: seq<seq<nat>>, i: nat)
    requires Square(w) && i <= |w|
    ensures forall r, c :: 0 <= r < i && r < c < |w| ==> HoldsPair(GraphRows(w, i), w, r, c)
  {
    if i > 0 {
      var m := |w|;
      var g := GraphRows(w, i - 1);
      var row := RowEdges(w, i - 1, m);
      var all := GraphRows(w, i);
      assert all == g + row;
      GraphRowsHoldPairs(w, i - 1);
      GraphRowsLength(w, i - 1);
      RowEdgesContents(w, i - 1, m);
      forall r, c | 0 <= r < i && r < c < m
        ensures HoldsPair(all, w, r, c)
      {
        if r < i - 1 {
          assert HoldsPair(g, w, r, c);
          assert all[PairIndex(r, c, m)] == g[PairIndex(r, c, m)];
        } else {
          assert PairIndex(r, c, m) == |g| + (c - r - 1);
          assert all[PairIndex(r, c, m)] == row[c - r - 1];
        }
      }
    }
  }

  /**
    The graph of `m` images has `m (m - 1) / 2` edges, each joining two images
    lower index first and weighted by their tile-match count, in strictly
    increasing lexicographic order, with the edge of every pair `i < j` present.
   */
  lemma MinHashGraphShape(images: seq<Image>, numTiles: nat, k: nat, h: HashFunction, threshold: Ratio)
    requires AllWellformed(images) && numTiles >= 1
    ensures Square(MatchCounts(images, numTiles, k, h, threshold))
    ensures 2 * |MinHashGraph(images, numTiles, k, h, threshold)| == |images| * (|images| - 1)
    ensures forall p :: 0 <= p < |MinHashGraph(images, numTiles, k, h, threshold)| ==>
              EdgeOk(MatchCounts(images, numTiles, k, h, threshold), MinHashGraph(images, numTiles, k, h, threshold)[p])
    ensures Ascending(MinHashGraph(images, numTiles, k, h, threshold))
    ensures forall i, j :: 0 <= i < j < |images| ==>
              HoldsPair(MinHashGraph(images, numTiles, k, h, threshold), MatchCounts(images, numTiles, k, h, threshold), i, j)
  {
    var w := MatchCounts(images, numTiles, k, h, threshold);
    GraphRowsLength(w, |w|);
    GraphRowsEdges(w, |w|);
    GraphRowsAscending(w, |w|);
    GraphRowsHoldPairs(w, |w|);
    PairCount(|w|);
  }

  /** The table entry for images `i` and `j` is their tile-match count. */
  lemma MatchCountsEntry(images: seq<Image>, numTiles: nat, k: nat, h: HashFunction, threshold: Ratio, i: nat, j: nat)
    requires AllWellformed(images) && numTiles >= 1 && i < |images| && j < |images|
    ensures Square(MatchCounts(images, numTiles, k, h, threshold))
    ensures |MatchCounts(images, numTiles, k, h, threshold)| == |images|
    ensures MatchCounts(images, numTiles, k, h, threshold)[i][j] == MatchCount(images, numTiles, k, h, threshold, i, j)
  {
  }

  /** `matrices` holds, in input order, a valid tile matrix of every image with the given parameters. */
  ghost predicate MatricesOf(matrices: seq<MM>, images: seq<Image>, numTiles: nat, k: nat, h: HashFunction)
    reads set s | 0 <= s < |matrices| :: matrices[s]
  {
    |matrices| == |images| &&
    forall s :: 0 <= s < |matrices| ==>
      matrices[s].Valid() && matrices[s].input == images[s] && matrices[s].numTiles == numTiles &&
      matrices[s].k == k && matrices[s].h == h
  }

  /** The count `CountMatchTiles` returns for the matrices of images `i` and `j` is their tile-match count. */
  lemma MatricesMatchCount(matrices: seq<MM>, images: seq<Image>, numTiles: nat, k: nat, h: HashFunction,
                           threshold: Ratio, i: nat, j: nat, count: nat)
    requires AllWellformed(images) && numTiles >= 1 && i < |images| && j < |images|
    requires MatricesOf(matrices, images, numTiles, k, h)
    requires IsGrid(matrices[i].sketches, numTiles) && IsGrid(matrices[j].sketches, numTiles)
    requires count == |MatchingTiles(matrices[i].sketches, matrices[j].sketches, numTiles, threshold)|
    ensures count == MatchCount(images, numTiles, k, h, threshold, i, j)
  {
  }

  /** The first loop of `build_minhash_graph`: one tile matrix per image, in input order. */
  method BuildMatrices(images: seq<Image>, numTiles: nat, k: nat, h: HashFunction) returns (matrices: seq<MM>)
    requires AllWellformed(images) && numTiles >= 1
    ensures MatricesOf(matrices, images, numTiles, k, h)
    ensures forall s :: 0 <= s < |matrices| ==> fresh(matrices[s])
  {
    matrices := [];
    var t := 0;
    while t < |images|
      invariant 0 <= t <= |images| && |matrices| == t
      invariant forall s :: 0 <= s < t ==> fresh(matrices[s])
      invariant forall s :: 0 <= s < t ==>
                  matrices[s].Valid() && matrices[s].input == images[s] && matrices[s].numTiles == numTiles &&
                  matrices[s].k == k && matrices[s].h == h
    {
      var mm := new MM(images[t], numTiles, k, h);
      matrices := matrices + [mm];
      t := t + 1;
    }
  }

  /**
    `w` is the table of tile-match counts of `matrices`: every matrix is valid
    with `numTiles` tiles a side, and `w[i][j]` counts the matching tiles of
    matrices `i` and `j`.
   */
  ghost predicate PairWeights(matrices: seq<MM>, numTiles: nat, threshold: Ratio, w: seq<seq<nat>>)
    reads set s | 0 <= s < |matrices| :: matrices[s]
  {
    Square(w) && |w| == |matrices| &&
    (forall s :: 0 <= s < |matrices| ==>
       matrices[s].Valid() && matrices[s].numTiles == numTiles && IsGrid(matrices[s].sketches, numTiles)) &&
    forall i, j {:trigger MatchingTiles(matrices[i].sketches, matrices[j].sketches, numTiles, threshold)} ::
      0 <= i < |w| && 0 <= j < |w| ==>
      w[i][j] == |MatchingTiles(matrices[i].sketches, matrices[j].sketches, numTiles, threshold)|
  }

  /** The matrices of the images carry, pair by pair, the tile-match counts of the images. */
  lemma MatricesPairWeights(matrices: seq<MM>, images: seq<Image>, numTiles: nat, k: nat, h: HashFunction, threshold: Ratio)
    requires AllWellformed(images) && numTiles >= 1
    requires MatricesOf(matrices, images, numTiles, k, h)
    ensures PairWeights(matrices, numTiles, threshold, MatchCounts(images, numTiles, k, h, threshold))
  {
    var w := MatchCounts(images, numTiles, k, h, threshold);
    forall s | 0 <= s < |matrices|
      ensures IsGrid(matrices[s].sketches, numTiles)
    {
      TileGridIsGrid(images[s], numTiles, k, h);
    }
    forall i, j | 0 <= i < |w| && 0 <= j < |w|
      ensures w[i][j] == |MatchingTiles(matrices[i].sketches, matrices[j].sketches, numTiles, threshold)|
    {
      MatchCountsEntry(images, numTiles, k, h, threshold, i, j);
      MatricesMatchCount(matrices, images, numTiles, k, h, threshold, i, j,
                         |MatchingTiles(matrices[i].sketches, matrices[j].sketches, numTiles, threshold)|);
    }
  }

  /**
    The second loop of `build_minhash_graph`: for every pair `i < j` of
    matrices, in order, the edge `(i, j, w)` with `w` their tile-match count.
   */
  method ConnectPairs(matrices: seq<MM>, numTiles: nat, threshold: Ratio, ghost w: seq<seq<nat>>)
    returns (graph: seq<Edge>)
    requires threshold.den > 0
    requires PairWeights(matrices, numTiles, threshold, w)
    ensures graph == GraphRows(w, |w|)
  {
    var m := |matrices|;
    graph := [];
    var i := 0;
    while i < m
      invariant 0 <= i <= m
      invariant graph == GraphRows(w, i)
    {
      var j := i + 1;
      while j < m
        invariant i + 1 <= j <= m
        invariant graph == GraphRows(w, i) + RowEdges(w, i, j)
      {
        var matchingTiles := matrices[i].CountMatchTiles(matrices[j], threshold);
        graph := graph + [Edge(i, j, matchingTiles)];
        j := j + 1;
      }
      i := i + 1;
    }
  }

  /**
    `build_minhash_graph`, with the images already decoded: a tile matrix per
    image in input order, then for every pair `i < j` the edge `(i, j, w)` with
    `w` the tile-match count of the two matrices.
   */
  method BuildMinHashGraph(images: seq<Image>, numTiles: nat, k: nat, h: HashFunction, threshold: Ratio)
    returns (graph: seq<Edge>)
    requires AllWellformed(images) && numTiles >= 1
    requires threshold.den > 0
    ensures graph == MinHashGraph(images, numTiles, k, h, threshold)
    ensures 2 * |graph| == |images| * (|images| - 1)
  {
    var matrices := BuildMatrices(images, numTiles, k, h);
    MatricesPairWeights(matrices, images, numTiles, k, h, threshold);
    graph := ConnectPairs(matrices, numTiles, threshold, MatchCounts(images, numTiles, k, h, threshold));
    MinHashGraphShape(images, numTiles, k, h, threshold);
  }
}
