# MinHash sketching and tile matching, modelled in Dafny

This project models the core of a small C++ sketching library (`sketching.cpp`, `sketching.h`).
The library has three parts:

- **Sketch builders.** `kminhash` keeps the `k` smallest distinct digests of an input list, padded with the sentinel `GLOBAL_MAX_INT`. `khash_minhash` keeps one running minimum per hash function. `kpartition_minhash` routes each digest by its top `part_bits` bits to a bucket and keeps each bucket's minimum.
- **Estimators.** `minhash_jaccard` estimates similarity from two sketches. `minhash_cardinality` estimates a distinct count from the k-th smallest digest. `exact_jaccard` and `exact_cardinality` are the exact baselines.
- **Tile matrix and similarity graph.** An `MM` cuts an image into a `numTiles x numTiles` grid and keeps a `kminhash` sketch of every tile's quantised lightness values. `countMatchTiles` counts the tiles whose estimated similarity reaches a threshold. `build_minhash_graph` builds one `MM` per image and emits one weighted edge per unordered pair of images.

The Dafny modules follow that structure:

- `SketchTypes` (`sketch_types.dfy`) holds 64-bit digests, 32-bit inputs, the hash-function type, the sentinel, exact ratios and sorting of digest sets.
- `SketchBuilders` (`sketch_builders.dfy`) holds the three builders.
- `Estimators` (`estimators.dfy`) holds the four estimators.
- `TileMatrix` (`tile_matrix.dfy`) holds the tiling and the `MM` class.
- `SimilarityGraph` (`similarity_graph.dfy`) holds the graph builder.

Modelling choices:

- **Loops stay loops.** Each builder and estimator that loops is a `method` with loop invariants. It is proved against a ghost specification:
  - `IsBottomK` / `BottomK` for `kminhash`;
  - `IsMinOrSentinel` for the running minima;
  - `JaccardEstimate` for `minhash_jaccard`;
  - `TileGrid` for the matrix;
  - `MatchingTiles` for the tile count.
- **`MM` is a class.** Its `sketches` field is filled by the constructor through `ProcessRowTiles`. Its invariant `Valid()` says the field is the grid of bottom-k sketches of the image's tiles.
- **Constness is structural.** `GetMinHash` is a `reads`-only function. `CountMatchTiles` has no `modifies` clause. So neither can change a matrix, as the `const` qualifiers in `sketching.h` promise.
- **Floats become exact ratios.** Similarities and thresholds are `Ratio(num, den)` values, and `jaccard >= threshold` is compared by cross-multiplication.
- **Integer widths are explicit.**
  - `GLOBAL_MAX_INT` is `~(0)` converted to `uint64_t`, written as the reduction `-1 mod 2^64`.
  - The bucket index `hash >> (64 - part_bits)` is a recursive halving.
  - Tile sizes use integer ceiling division in place of `std::ceil` of a float quotient.
  - The narrowings the model does not write out (`int` counters and results, `int` edge fields) are listed under "## Left out".
- **The hash function is a parameter** of type `i32 -> u64`.
- **Some loops get a method of their own.** Each such loop is specified on its own.
  - The output loops of `kminhash` are `TakeAndPad`.
  - The gathering loops of `computeTileMinHash` are `MM.GatherTileValues`.
  - The per-tile test of `countMatchTiles` is `TileReachesThreshold`.
  - The two loops of `build_minhash_graph` are `BuildMatrices` and `ConnectPairs`.
- **Images are values.** An image is already decoded: `lum[x][y]` is the quantised lightness of pixel `(x, y)`.

Behaviour of the code worth knowing, which the model keeps:

- **Self-comparison of a matrix.** Comparing a matrix with itself at a positive threshold of at most 1 counts exactly the tiles whose sketch holds a real digest. A tile can lie entirely outside the image: `TrailingTileCanBeEmpty` shows a width of 5 cut into 4 tiles leaves the fourth tile empty. An empty tile, or `k = 0`, gives a sketch of sentinels only. Its Jaccard estimate is 0, so it never matches a positive threshold (`EmptyTileNeverMatches`). `RealTileMatchesItself` proves that a tile with a real digest matches itself, and `SelfMatchingTiles` that the matching tiles are exactly those tiles. At threshold 0 every tile matches, empty ones included, since `0 >= 0`.
- **`k = 0` is accepted.** `kminhash` then returns an empty sketch, and the model allows it.
- **`part_bits` must lie in 1..63.** At 0 and 64 the code shifts a 64-bit value by 64, which is undefined behaviour, so the model requires the range 1..63.

## Model

| member | source | states |
|---|---|---|
| SketchTypes.ToUint64 | sketching.h:18 | conversion to `uint64_t` is the identity on 0..2^64-1 and adds 2^64 to negative values |
| SketchTypes.GlobalMaxIntIsLargest | sketching.h:18 | the sentinel `~(0)` is 2^64-1, the largest 64-bit digest |
| SketchTypes.SortedDigests | sketching.cpp:9-14 | the digest set in ascending order: same size, same elements, strictly increasing |
| SketchTypes.StrictlyIncreasingUnique | sketching.cpp:13-14 | two strictly increasing sequences with the same elements are equal, so the sorted order is unique |
| SketchTypes.ElemsCardinality | sketching.cpp:101-102 | a list has at least as many entries as distinct values, and exactly as many when no value repeats |
| SketchBuilders.KMinHash | sketching.cpp:7-26 | the result has exactly `k` entries; the first `min(k, #distinct digests)` are the smallest distinct digests of the input in strictly increasing order; the rest are the sentinel; and it equals the canonical sort-take-pad sketch |
| SketchBuilders.TakeAndPad | sketching.cpp:16-25 | the output is the first `min(k, n)` sorted digests followed by sentinels, `k` entries in all |
| SketchBuilders.BottomKUnique | sketching.cpp:13-24 | at most one sequence satisfies the bottom-k description of a digest set |
| SketchBuilders.BottomKCanonical | sketching.cpp:13-24 | any bottom-k sketch of a set is the sorted, truncated and padded sequence of its digests |
| SketchBuilders.KMinHashIgnoresOrderAndRepeats | sketching.cpp:9-12 | two inputs with the same values in any order and multiplicity give the same sketch |
| SketchBuilders.BottomKNoRepeats | sketching.cpp:9-21 | no real digest appears twice in a `kminhash` sketch |
| SketchBuilders.KeptEntryIsLeastRemaining | sketching.cpp:13-21 | entry `i` of a sketch is the least digest of the set not among the first `i` entries |
| SketchBuilders.KMinHashExample | sketching.cpp:7-26 | with the identity hash, input `[5,3,3,8,1]` and `k = 3` give `[1,3,5]` |
| SketchBuilders.KHashMinHash | sketching.cpp:28-38 | one slot per hash function; slot `i` is the least digest of `hv[i]` over the input, or the sentinel when the input is empty |
| SketchBuilders.MinOrSentinelUnique | sketching.cpp:30-37 | a slot's value is determined by the digests seen: the minimum, or the sentinel for none |
| SketchBuilders.OneSlotBottomKIsRunningMinimum | sketching.cpp:30-37 | the running minimum of one hash function equals the `k = 1` bottom-k sketch of the same input |
| SketchBuilders.KHashMinHashExample | sketching.cpp:28-38 | input `[4,2,7]` with the identity and squaring hashes gives `[2,4]` |
| SketchBuilders.ShiftRightBounds | sketching.cpp:46 | `d >> s` is the unique `q` with `q * 2^s <= d < (q + 1) * 2^s` |
| SketchBuilders.BucketInRange | sketching.cpp:46 | the partition index `hash >> (64 - part_bits)` is below `2^part_bits`, and the bucket's range of digests contains `hash` |
| SketchBuilders.KPartitionMinHash | sketching.cpp:40-50 | `2^part_bits` slots; slot `b` is the least digest routed to bucket `b`, or the sentinel when none is |
| SketchBuilders.PartitionEntryInItsBucket | sketching.cpp:42-49 | a real entry at slot `b` has top `part_bits` bits equal to `b`; a bucket no input routes to stays the sentinel |
| SketchBuilders.PartitionBoundsEveryDigest | sketching.cpp:44-48 | each input's digest is at least the entry of its own bucket |
| Estimators.MinHashJaccard | sketching.cpp:52-75 | the result equals the estimate: entries of `mh1` found in `mh2` over the union of real digests, 0 for an empty union; the denominator is positive; the numerator is 0 exactly when no real digest is shared |
| Estimators.JaccardZeroIffDisjoint | sketching.cpp:55-74 | the estimate's denominator is positive, and its numerator is 0 exactly when the sketches share no real digest |
| Estimators.SharedCountZero | sketching.cpp:55-63 | the intersection count is zero exactly when the two sketches share no real digest |
| Estimators.SharedCountIsIntersection | sketching.cpp:57-64 | without repeated digests in `mh1`, the intersection count is the size of the set intersection of real digests |
| Estimators.JaccardAtMostOne | sketching.cpp:70-74 | without repeats in `mh1`, the intersection count is at most the union size, so the estimate is at most 1 |
| Estimators.JaccardSymmetric | sketching.cpp:52-74 | without repeats in either sketch, swapping the arguments does not change the estimate |
| Estimators.JaccardWithItself | sketching.cpp:52-74 | a sketch without repeats and with a real digest has estimate 1 with itself |
| Estimators.JaccardOfEmptySketches | sketching.cpp:70-73 | two sketches of sentinels only give 0 |
| Estimators.JaccardCountsRepeatedEntries | sketching.cpp:57-64 | a repeated digest in `mh1` is counted per occurrence: `[5,5]` against `[5]` gives 2/1 |
| Estimators.JaccardOfFullSketches | sketching.cpp:52-74 | for sketches that keep every digest, the estimate is the exact Jaccard ratio of the digest sets |
| Estimators.SetJaccard | sketching.cpp:90-96 | the set ratio has a positive denominator and is at most 1; it is 0 exactly for disjoint sets and 1 exactly for equal non-empty sets |
| Estimators.MinHashCardinality | sketching.cpp:77-81 | takes the guarded `return 0` exactly when `k` exceeds the sketch length or the sketch is empty; otherwise the estimate is computed from entry `k - 1` (that float path, not modelled, can itself yield 0, e.g. for `k = 1` and a sentinel entry) |
| Estimators.CardinalityReadsKthSmallest | sketching.cpp:79-82 | on a bottom-k sketch of at least `k` digests, the entry read is the k-th smallest digest: exactly `k` digests are at most it |
| Estimators.ExactJaccard | sketching.cpp:88-97 | the ratio is at most 1; it is 0 exactly for disjoint lists; it is 1 for lists with the same non-empty set of values; it is 0 when both lists are empty |
| Estimators.ExactJaccardSymmetricAndSetBased | sketching.cpp:90-96 | the exact similarity is symmetric and depends only on the sets of values |
| Estimators.ExactCardinality | sketching.cpp:99-103 | the distinct count is at most the length, 0 exactly for the empty list, and the length when nothing repeats |
| Estimators.ExactCardinalityCountsFirstOccurrences | sketching.cpp:101-102 | the distinct count equals the number of first occurrences in the list |
| Estimators.ExactCardinalityExample | sketching.cpp:99-103 | `[1,1,2,3,3,3]` has 3 distinct values |
| TileMatrix.CeilDiv | sketching.cpp:108-109 | the tile size is the least `r` with `extent <= r * numTiles` |
| TileMatrix.TileEnd | sketching.cpp:126-127 | a tile's end is the lesser of `(index + 1) * size` and the image extent |
| TileMatrix.CoordinateInExactlyOneTile | sketching.cpp:108-127 | along one axis, coordinate `x` lies in tile `j < numTiles` exactly when `j = x / size`, so the tiles partition the axis |
| TileMatrix.PixelInExactlyOneTile | sketching.cpp:108-130 | each pixel lies in exactly one tile of the grid, and its digest belongs to that tile's digests |
| TileMatrix.TileValuesMembers | sketching.cpp:125-130 | a value is gathered for a tile exactly when a pixel inside the tile's bounds carries it |
| TileMatrix.TileDigestsMembers | sketching.cpp:124-131 | a digest belongs to a tile exactly when a pixel inside the tile hashes to it |
| TileMatrix.FourByFourQuadrants | sketching.cpp:108-127 | a 4x4 image with a 2x2 grid gets 2x2 quadrants, each pixel in exactly one |
| TileMatrix.TrailingTileCanBeEmpty | sketching.cpp:108-126 | width 5 in 4 tiles gives tile size 2, and the fourth tile starts past the image |
| TileMatrix.TileGridIsGrid | sketching.cpp:111-120 | the sketch grid is `numTiles x numTiles`, and entry `(i, j)` is tile `(i, j)`'s sketch |
| TileMatrix.TileSketchHasRealDigest | sketching.cpp:124-131 | with `k >= 1`, a tile holding a non-sentinel digest has a real digest in its sketch |
| TileMatrix.RealTileMatchesItself | sketching.cpp:139-151 | comparing a grid with itself, a tile whose sketch has a real digest reaches any threshold of at most 1, whatever the other tiles hold |
| TileMatrix.EveryTileMatchesItself | sketching.cpp:139-151 | when every tile's sketch has a real digest, comparing the grid with itself matches all `n * n` tiles at any threshold of at most 1 |
| TileMatrix.SelfMatchingTiles | sketching.cpp:139-151 | comparing a grid with itself at a positive threshold of at most 1 matches exactly the tiles whose sketch has a real digest |
| TileMatrix.EmptyTileNeverMatches | sketching.cpp:139-151 | a tile sketch of sentinels only never reaches a positive threshold |
| TileMatrix.TilesBeforeCard | sketching.cpp:141-142 | row-major order visits `i * n + j` tiles before `(i, j)`, and `n * n` in all |
| TileMatrix.MatchingTilesBounds | sketching.cpp:139-151 | at most `n * n` tiles match, and exactly `n * n` when each reaches the threshold |
| TileMatrix.TileReachesThreshold | sketching.cpp:143-146 | a tile counts exactly when the Jaccard estimate of its two sketches reaches the threshold |
| TileMatrix.CountBeforeIsSize | sketching.cpp:141-149 | counting the cells of a set one grid cell at a time, in row-major order, gives the number of its cells visited so far |
| TileMatrix.MatchesBeforeCountsHits | sketching.cpp:141-149 | counting matching tiles in row-major order is counting the members of the set of matching tiles in that order |
| TileMatrix.MatchingTilesSize | sketching.cpp:140-151 | after the whole grid, the running count equals the number of matching tiles |
| TileMatrix.CountMatchingTiles | sketching.cpp:139-152 | the double loop counts exactly the tiles whose estimate reaches the threshold, which is at most `n * n`, and exactly `n * n` when every tile does |
| TileMatrix.MM.constructor | sketching.cpp:106-116 | afterwards the matrix is valid: an `n x n` grid holding the bottom-k sketch of every tile, with the given image, `numTiles`, `k` and hash |
| TileMatrix.MM.ProcessRowTiles | sketching.cpp:118-122 | row `tileRow` becomes the sketches of that row's tiles; every other row is unchanged |
| TileMatrix.MM.ComputeTileMinHash | sketching.cpp:124-132 | the result is the `kminhash` sketch of the values of the pixels inside the tile's bounds |
| TileMatrix.MM.GatherTileValues | sketching.cpp:125-130 | the gathered list is the values of the tile's pixels, column by column and top to bottom within a column |
| TileMatrix.MM.GetMinHash | sketching.cpp:135-137 | in range, it returns the tile's `k`-entry bottom-k sketch; out of range, it returns the error (`None`) |
| TileMatrix.MM.CountMatchTiles | sketching.cpp:139-152 | the count of tiles whose estimate against the same tile of `other` reaches the threshold; it lies in `0..numTiles^2` and is `numTiles^2` when every tile matches |
| SimilarityGraph.PairsBeforeClosedForm | sketching.cpp:163-167 | `i` outer iterations emit `i (2m - i - 1) / 2` edges |
| SimilarityGraph.PairCount | sketching.cpp:163-167 | `m` images give `m (m - 1) / 2` edges |
| SimilarityGraph.RowEdgesContents | sketching.cpp:164-167 | the inner loop for image `i` emits `m - i - 1` edges, the `p`-th joining `i` to `i + 1 + p` with that pair's weight |
| SimilarityGraph.GraphRowsLength | sketching.cpp:163-168 | after `i` outer iterations the graph holds `PairsBefore(i, m)` edges |
| SimilarityGraph.GraphRowsEdges | sketching.cpp:163-168 | after `i` outer iterations every edge joins two images lower index first, leaves an image below `i`, and carries that pair's weight |
| SimilarityGraph.GraphRowsAscending | sketching.cpp:163-168 | after `i` outer iterations the edges are in strictly increasing lexicographic order |
| SimilarityGraph.GraphRowsHoldPairs | sketching.cpp:163-168 | after `i` outer iterations the edge of every pair `r < c` with `r < i` sits at position `PairIndex(r, c, m)` |
| SimilarityGraph.MinHashGraphShape | sketching.cpp:154-170 | the graph of `m` images has `m (m - 1) / 2` edges `(i, j, w)` with `i < j < m`, in strictly increasing lexicographic order, the edge of every pair at its known position, each weighted by the tile-match count of images `i` and `j` |
| SimilarityGraph.BuildMatrices | sketching.cpp:155-160 | one freshly built, valid matrix per image, in input order, each with the given `numTiles`, `k` and hash |
| SimilarityGraph.MatricesMatchCount | sketching.cpp:165 | the count two matrices report is the tile-match count of their images |
| SimilarityGraph.MatricesPairWeights | sketching.cpp:159-165 | every pair of built matrices reports the tile-match count of its two images |
| SimilarityGraph.ConnectPairs | sketching.cpp:162-169 | the pair loops emit, in order, the edge `(i, j, w)` of every pair `i < j` with `w` the pair's tile-match count |
| SimilarityGraph.BuildMinHashGraph | sketching.cpp:154-170 | the result is the similarity graph of the images, so it has `m (m - 1) / 2` edges and every property `MinHashGraphShape` proves |

## Left out

- PNG decoding (`readFromFile`, sketching.cpp:157-158) and the `cs225::PNG` class are not part of this model. Images are given as decoded values, so image-load errors do not arise.
- The lightness quantisation `static_cast<int>(l * 255)` (sketching.cpp:128) is float arithmetic. Pixel values are taken as already-quantised integers.
- MinHashCardinality: models only the `return 0` guard and the read of entry `k - 1`. The float formula `ceil(k / (mh[k-1] / GLOBAL_MAX_INT) - 1)` and its cast to `int` are not modelled.
- MinHashCardinality: requires `k >= 1` for a non-empty sketch, because with `k = 0` the source reads `mh[k-1]` out of bounds.
- MinHashJaccard and ExactJaccard return exact ratios instead of `float`s, so float rounding of the quotient is not modelled. Thresholds are non-negative ratios, so a negative float threshold is not representable.
- CeilDiv: integer ceiling division in place of `std::ceil` of a float quotient. The two can differ only for extents above 2^24, where the float quotient can round down before `std::ceil` applies (width 2^25 + 4 in 5 tiles gives 6710887 in the code and 6710888 here).
- The unsigned 32-bit wrap-around of `(tileRow + 1) * tileWidth` in `computeTileMinHash` is not modelled. Coordinates are unbounded naturals.
- KPartitionMinHash: requires `1 <= part_bits <= 63`, because the source's `1ULL << part_bits` and `hash >> (64 - part_bits)` are undefined outside that range.
- MM.constructor: requires `numTiles >= 1`, because the source divides by `numTiles`.
- MM.CountMatchTiles: the source counts matching tiles in an `int`, which can overflow (undefined behaviour) when more than 2^31 - 1 tiles match, possible only from `numTiles = 46341`; the model's count is an unbounded natural.
- ExactCardinality: the source returns the `size_t` set size as an `int`; the narrowing of counts above 2^31 - 1 is not modelled.
- BuildMinHashGraph: the source stores edges as `tuple<int, int, int>` built from `size_t` indices and an `int` count; the narrowing of indices above 2^31 - 1 is not modelled, and edges hold unbounded naturals.
- KPartitionMinHash: for `part_bits >= 60` the source's `std::vector<uint64_t>(1ULL << part_bits)` exceeds the vector's maximum size and throws `std::length_error` (and smaller widths can exhaust memory); the model treats every `part_bits` in 1..63 as ordinary input.
- MM.CountMatchTiles and BuildMinHashGraph: require a threshold with a positive denominator. A `float` threshold is a finite non-negative ratio here; NaN and infinite thresholds are not representable. Because similarities and thresholds are exact ratios, not rounded `float`s, a tile at a threshold boundary can count differently from the source: intersection 1 and union 3 against the threshold `1.0f/3` (stored as 11184811/2^25) counts in the source, where both sides round to the same `float`, but not in the model.
- MM.CountMatchTiles: requires both matrices to have the same `numTiles`, because the source indexes the other grid without bounds checks. Its double loop is written in `TileMatrix.CountMatchingTiles` over the two sketch grids, which the method hands over.
- The `MM` object keeps a reference to the image in the source. The model stores the image value instead, so the reference's lifetime is not modelled.
- The internals of `std::set`, `std::sort`, `std::unordered_set`, `std::find`, `set_intersection` and `set_union` are not modelled. Their results are specified as sets and sorted sequences.
