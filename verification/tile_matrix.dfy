/**
  The tile matrix (`MM`): an image is cut into a `numTiles x numTiles` grid
  of tiles, every tile gets a bottom-k sketch of its pixel values, and two
  matrices are compared tile by tile.
 */
module TileMatrix {
  import opened SketchTypes
  import opened SketchBuilders
  import opened Estimators

  /**
    A decoded image. `lum[x][y]` is the quantised lightness of pixel `(x, y)`,
    the integer the library derives from the pixel's `l` channel.
   */
  datatype Image = Image(width: nat, height: nat, lum: seq<seq<i32>>)

  predicate Wellformed(img: Image)
  {
    |img.lum| == img.width && forall x :: 0 <= x < img.width ==> |img.lum[x]| == img.height
  }

  /** Ceiling division: the least `r` with `a <= r * n`. */
  function CeilDiv(a: nat, n: nat): (r: nat)
    requires n >= 1
    ensures a <= r * n
    ensures r == 0 || (r - 1) * n < a
  {
    CeilDivBounds(a, n);
    (a + n - 1) / n
  }

  lemma CeilDivBounds(a: nat, n: nat)
    requires n >= 1
    ensures a <= ((a + n - 1) / n) * n
    ensures (a + n - 1) / n == 0 || ((a + n - 1) / n - 1) * n < a
  {
    var q := (a + n - 1) / n;
    var rem := (a + n - 1) % n;
    assert a + n - 1 == q * n + rem;
    assert (q - 1) * n == q * n - n;
  }

  /** First coordinate covered by tile `index` when tiles are `size` wide. */
  function TileStart(index: nat, size: nat): nat
  {
    index * size
  }

  /** One past the last coordinate of tile `index`, clipped to the image's `extent`. */
  function TileEnd(index: nat, size: nat, extent: nat): (r: nat)
    ensures r <= extent && r <= (index + 1) * size
    ensures r == extent || r == (index + 1) * size
  {
    if (index + 1) * size < extent then (index + 1) * size else extent
  }

  /** Coordinate `x` lies in the half-open range of tile `index`. */
  predicate InTile(x: nat, index: nat, size: nat, extent: nat)
  {
    TileStart(index, size) <= x < TileEnd(index, size, extent)
  }

  lemma MulStep(a: nat, b: nat)
    ensures (a + 1) * b == a * b + b
  {
  }

  /**
    Along one axis of length `extent` cut into `n` tiles of the ceiling size,
    coordinate `x` lies in tile `j` exactly when `j` is `x / size`, and that tile
    is one of the `n`: the tiles partition the axis.
   */
  lemma CoordinateInExactlyOneTile(extent: nat, n: nat, x: nat, j: nat)
    requires n >= 1 && x < extent
    ensures CeilDiv(extent, n) >= 1
    ensures x / CeilDiv(extent, n) < n
    ensures (j < n && InTile(x, j, CeilDiv(extent, n), extent)) <==> j == x / CeilDiv(extent, n)
  {
    var size := CeilDiv(extent, n);
    var q := x / size;
    assert q * size <= x < (q + 1) * size by {
      assert x == q * size + x % size;
      MulStep(q, size);
    }
    MulMonotone(q, n, size);
    assert q < n;
    MulStep(j, size);
    MulMonotone(j, q + 1, size);
    MulMonotone(q, j + 1, size);
    MulStep(q, size);
  }

  /** The values of the column `x` of a tile, rows `ylo` up to `yhi`. */
  function Column(img: Image, x: nat, ylo: nat, yhi: nat): seq<i32>
    requires Wellformed(img) && x < img.width
    requires ylo < yhi ==> yhi <= img.height
  {
    if ylo < yhi then img.lum[x][ylo..yhi] else []
  }

  /** The values of a tile in the order the library gathers them: column by column, top to bottom. */
  function TileValues(img: Image, xlo: nat, xhi: nat, ylo: nat, yhi: nat): seq<i32>
    requires Wellformed(img)
    requires xlo < xhi ==> xhi <= img.width
    requires ylo < yhi ==> yhi <= img.height
    decreases xhi
  {
    if xhi <= xlo then [] else TileValues(img, xlo, xhi - 1, ylo, yhi) + Column(img, xhi - 1, ylo, yhi)
  }

  /** A value is gathered for a tile exactly when some pixel inside the tile's bounds carries it. */
  lemma {:induction false} TileValuesMembers(img: Image, xlo: nat, xhi: nat, ylo: nat, yhi: nat, v: i32)
    requires Wellformed(img)
    requires xlo < xhi ==> xhi <= img.width
    requires ylo < yhi ==> yhi <= img.height
    ensures v in TileValues(img, xlo, xhi, ylo, yhi) <==>
            exists x: nat, y: nat :: xlo <= x < xhi && ylo <= y < yhi && img.lum[x][y] == v
    decreases xhi
  {
    if xlo < xhi {
      var last := xhi - 1;
      TileValuesMembers(img, xlo, last, ylo, yhi, v);
      var col := Column(img, last, ylo, yhi);
      if v in col {
        var t :| 0 <= t < |col| && col[t] == v;
        assert img.lum[last][ylo + t] == v;
      }
      if exists x: nat, y: nat :: xlo <= x < xhi && ylo <= y < yhi && img.lum[x][y] == v {
        var x: nat, y: nat :| xlo <= x < xhi && ylo <= y < yhi && img.lum[x][y] == v;
        if x == last {
          assert col[y - ylo] == v;
        } else {
          assert v in TileValues(img, xlo, last, ylo, yhi);
        }
      }
    }
  }

  /** The digests of the pixel values of tile `(row, col)` of an image cut into `n x n` tiles. */
  ghost function TileDigests(img: Image, n: nat, h: HashFunction, row: nat, col: nat): set<u64>
    requires Wellformed(img) && n >= 1
  {
    var tileWidth := CeilDiv(img.width, n);
    var tileHeight := CeilDiv(img.height, n);
    HashedSet(TileValues(img, TileStart(row, tileWidth), TileEnd(row, tileWidth, img.width),
                         TileStart(col, tileHeight), TileEnd(col, tileHeight, img.height)), h)
  }

  /** The sketch the library keeps for tile `(row, col)`. */
  ghost function TileSketch(img: Image, n: nat, k: nat, h: HashFunction, row: nat, col: nat): seq<u64>
    requires Wellformed(img) && n >= 1
  {
    BottomK(TileDigests(img, n, h, row, col), k)
  }

  /** The whole `n x n` grid of tile sketches. */
  ghost function TileGrid(img: Image, n: nat, k: nat, h: HashFunction): seq<seq<seq<u64>>>
    requires Wellformed(img) && n >= 1
  {
    seq(n, row requires 0 <= row => seq(n, col requires 0 <= col => TileSketch(img, n, k, h, row, col)))
  }

  ghost predicate IsGrid(g: seq<seq<seq<u64>>>, n: nat)
  {
    |g| == n && forall i :: 0 <= i < n ==> |g[i]| == n
  }

  /**
    A pixel's digest belongs to the digests of tile `(x / tileWidth, y / tileHeight)`,
    and that is the only tile of the grid whose bounds contain the pixel.
   */
  lemma PixelInExactlyOneTile(img: Image, n: nat, h: HashFunction, x: nat, y: nat, row: nat, col: nat)
    requires Wellformed(img) && n >= 1
    requires x < img.width && y < img.height
    ensures x / CeilDiv(img.width, n) < n && y / CeilDiv(img.height, n) < n
    ensures h(img.lum[x][y]) in TileDigests(img, n, h, x / CeilDiv(img.width, n), y / CeilDiv(img.height, n))
    ensures (row < n && col < n &&
             InTile(x, row, CeilDiv(img.width, n), img.width) &&
             InTile(y, col, CeilDiv(img.height, n), img.height))
            <==> (row == x / CeilDiv(img.width, n) && col == y / CeilDiv(img.height, n))
  {
    var tileWidth := CeilDiv(img.width, n);
    var tileHeight := CeilDiv(img.height, n);
    CoordinateInExactlyOneTile(img.width, n, x, row);
    CoordinateInExactlyOneTile(img.height, n, y, col);
    var r := x / tileWidth;
    var c := y / tileHeight;
    CoordinateInExactlyOneTile(img.width, n, x, r);
    CoordinateInExactlyOneTile(img.height, n, y, c);
    var xs := TileValues(img, TileStart(r, tileWidth), TileEnd(r, tileWidth, img.width),
                         TileStart(c, tileHeight), TileEnd(c, tileHeight, img.height));
    TileValuesMembers(img, TileStart(r, tileWidth), TileEnd(r, tileWidth, img.width),
                      TileStart(c, tileHeight), TileEnd(c, tileHeight, img.height), img.lum[x][y]);
    assert img.lum[x][y] in xs;
  }

  /** A digest belongs to a tile exactly when some pixel inside the tile's bounds hashes to it. */
  lemma TileDigestsMembers(img: Image, n: nat, h: HashFunction, row: nat, col: nat, d: u64)
    requires Wellformed(img) && n >= 1
    ensures d in TileDigests(img, n, h, row, col) <==>
            exists x: nat, y: nat :: InTile(x, row, CeilDiv(img.width, n), img.width) &&
                                     InTile(y, col, CeilDiv(img.height, n), img.height) &&
                                     h(img.lum[x][y]) == d
  {
    var tileWidth := CeilDiv(img.width, n);
    var tileHeight := CeilDiv(img.height, n);
    var xlo, xhi := TileStart(row, tileWidth), TileEnd(row, tileWidth, img.width);
    var ylo, yhi := TileStart(col, tileHeight), TileEnd(col, tileHeight, img.height);
    var xs := TileValues(img, xlo, xhi, ylo, yhi);
    if d in TileDigests(img, n, h, row, col) {
      var v :| v in xs && h(v) == d;
      TileValuesMembers(img, xlo, xhi, ylo, yhi, v);
      var x: nat, y: nat :| xlo <= x < xhi && ylo <= y < yhi && img.lum[x][y] == v;
      assert InTile(x, row, tileWidth, img.width) && InTile(y, col, tileHeight, img.height);
    }
    if exists x: nat, y: nat :: InTile(x, row, tileWidth, img.width) &&
                                InTile(y, col, tileHeight, img.height) && h(img.lum[x][y]) == d {
      var x: nat, y: nat :| InTile(x, row, tileWidth, img.width) &&
                            InTile(y, col, tileHeight, img.height) && h(img.lum[x][y]) == d;
      TileValuesMembers(img, xlo, xhi, ylo, yhi, img.lum[x][y]);
      assert img.lum[x][y] in xs;
    }
  }

  /** On a 4 x 4 image with a 2 x 2 grid, every tile is a 2 x 2 quadrant. */
  lemma FourByFourQuadrants(x: nat, row: nat)
    requires x < 4 && row < 2
    ensures CeilDiv(4, 2) == 2
    ensures TileStart(row, 2) == 2 * row && TileEnd(row, 2, 4) == 2 * row + 2
    ensures InTile(x, row, 2, 4) <==> row == x / 2
  {
    CoordinateInExactlyOneTile(4, 2, x, row);
  }

  /** Tiles at the end of an axis can be empty: a width of 5 cut into 4 tiles leaves the fourth without pixels. */
  lemma TrailingTileCanBeEmpty()
    ensures CeilDiv(5, 4) == 2
    ensures TileStart(3, 2) > TileEnd(3, 2, 5)
  {
  }

  /** Tile `(i, j)` of `a` reaches the threshold against tile `(i, j)` of `b`. */
  ghost predicate TileMatches(a: seq<seq<seq<u64>>>, b: seq<seq<seq<u64>>>, n: nat, t: Ratio, i: nat, j: nat)
    requires IsGrid(a, n) && IsGrid(b, n) && i < n && j < n
  {
    AtLeast(JaccardEstimate(a[i][j], b[i][j]), t)
  }

  /** Every tile reaches the threshold. */
  ghost predicate AllTilesMatch(a: seq<seq<seq<u64>>>, b: seq<seq<seq<u64>>>, n: nat, t: Ratio)
    requires IsGrid(a, n) && IsGrid(b, n)
  {
    forall i, j :: 0 <= i < n && 0 <= j < n ==> TileMatches(a, b, n, t, i, j)
  }

  /** All tiles whose estimated similarity reaches the threshold. */
  ghost function MatchingTiles(a: seq<seq<seq<u64>>>, b: seq<seq<seq<u64>>>, n: nat, t: Ratio): set<(nat, nat)>
    requires IsGrid(a, n) && IsGrid(b, n)
  {
    set r: nat, c: nat | r < n && c < n && TileMatches(a, b, n, t, r, c) :: (r, c)
  }

  /** Every matching tile is a tile of the `n x n` grid. */
  lemma MatchingTilesInGrid(a: seq<seq<seq<u64>>>, b: seq<seq<seq<u64>>>, n: nat, t: Ratio)
    requires IsGrid(a, n) && IsGrid(b, n)
    ensures InGrid(MatchingTiles(a, b, n, t), n)
  {
  }

  /** Tile `(i, j)` is in `MatchingTiles` exactly when it matches. */
  lemma MatchingTilesMember(a: seq<seq<seq<u64>>>, b: seq<seq<seq<u64>>>, n: nat, t: Ratio, i: nat, j: nat)
    requires IsGrid(a, n) && IsGrid(b, n) && i < n && j < n
    ensures (i, j) in MatchingTiles(a, b, n, t) <==> TileMatches(a, b, n, t, i, j)
  {
  }

  /** All cells of `hits` lie in the `n x n` grid. */
  ghost predicate InGrid(hits: set<(nat, nat)>, n: nat)
  {
    forall p :: p in hits ==> p.0 < n && p.1 < n
  }

  /** The cells of `hits` that come before `(i, j)` in row-major order. */
  ghost function HitsBefore(hits: set<(nat, nat)>, i: nat, j: nat): set<(nat, nat)>
  {
    set p | p in hits && (p.0 < i || (p.0 == i && p.1 < j))
  }

  /** The running count of the double loop: the cells of `hits` visited before `(i, j)`, one at a time. */
  ghost function CountBefore(hits: set<(nat, nat)>, n: nat, i: nat, j: nat): nat
    requires (i < n && j <= n) || (i == n && j == 0)
    decreases i, j
  {
    if j > 0 then CountBefore(hits, n, i, j - 1) + (if (i, j - 1) in hits then 1 else 0)
    else if i > 0 then CountBefore(hits, n, i - 1, n)
    else 0
  }

  /** The running count is the number of cells of `hits` before `(i, j)`. */
  lemma {:induction false} CountBeforeIsSize(hits: set<(nat, nat)>, n: nat, i: nat, j: nat)
    requires InGrid(hits, n)
    requires (i < n && j <= n) || (i == n && j == 0)
    ensures CountBefore(hits, n, i, j) == |HitsBefore(hits, i, j)|
    decreases i, j
  {
    if j > 0 {
      CountBeforeIsSize(hits, n, i, j - 1);
      var cell := (i, j - 1);
      assert cell !in HitsBefore(hits, i, j - 1);
      assert HitsBefore(hits, i, j) == HitsBefore(hits, i, j - 1) + (if cell in hits then {cell} else {});
    } else if i > 0 {
      CountBeforeIsSize(hits, n, i - 1, n);
      assert HitsBefore(hits, i, 0) == HitsBefore(hits, i - 1, n);
    } else {
      assert HitsBefore(hits, 0, 0) == {};
    }
  }

  /** The running count of the double loop of `MM::countMatchTiles`: the matching tiles before `(i, j)`. */
  ghost function MatchesBefore(a: seq<seq<seq<u64>>>, b: seq<seq<seq<u64>>>, n: nat, t: Ratio, i: nat, j: nat): nat
    requires IsGrid(a, n) && IsGrid(b, n)
    requires (i < n && j <= n) || (i == n && j == 0)
    decreases i, j
  {
    if j > 0 then MatchesBefore(a, b, n, t, i, j - 1) + (if TileMatches(a, b, n, t, i, j - 1) then 1 else 0)
    else if i > 0 then MatchesBefore(a, b, n, t, i - 1, n)
    else 0
  }

  /** Counting matches tile by tile is counting the members of `MatchingTiles` tile by tile. */
  lemma {:induction false} MatchesBeforeCountsHits(a: seq<seq<seq<u64>>>, b: seq<seq<seq<u64>>>, n: nat, t: Ratio, i: nat, j: nat)
    requires IsGrid(a, n) && IsGrid(b, n)
    requires (i < n && j <= n) || (i == n && j == 0)
    ensures MatchesBefore(a, b, n, t, i, j) == CountBefore(MatchingTiles(a, b, n, t), n, i, j)
    decreases i, j
  {
    if j > 0 {
      MatchesBeforeCountsHits(a, b, n, t, i, j - 1);
      MatchingTilesMember(a, b, n, t, i, j - 1);
    } else if i > 0 {
      MatchesBeforeCountsHits(a, b, n, t, i - 1, n);
    }
  }

  /** Once the whole grid is visited, every cell of `hits` has been seen. */
  lemma HitsBeforeEnd(hits: set<(nat, nat)>, n: nat)
    requires InGrid(hits, n)
    ensures HitsBefore(hits, n, 0) == hits
  {
  }

  lemma TileGridIsGrid(img: Image, n: nat, k: nat, h: HashFunction)
    requires Wellformed(img) && n >= 1
    ensures IsGrid(TileGrid(img, n, k, h), n)
    ensures forall i, j :: 0 <= i < n && 0 <= j < n ==>
              TileGrid(img, n, k, h)[i][j] == TileSketch(img, n, k, h, i, j)
  {
  }

  /** A sketch with at least one entry that is not the sentinel. */
  ghost predicate HasRealDigest(s: seq<u64>)
  {
    exists i :: 0 <= i < |s| && s[i] != GlobalMaxInt
  }

  /** A tile holding a pixel whose digest is not the sentinel has a real digest in its sketch when `k >= 1`. */
  lemma TileSketchHasRealDigest(img: Image, n: nat, k: nat, h: HashFunction, row: nat, col: nat, d: u64)
    requires Wellformed(img) && n >= 1 && k >= 1
    requires d in TileDigests(img, n, h, row, col) && d != GlobalMaxInt
    ensures HasRealDigest(TileSketch(img, n, k, h, row, col))
  {
    var S := TileDigests(img, n, h, row, col);
    var r := TileSketch(img, n, k, h, row, col);
    BottomKIsBottomK(S, k);
    KeptEntryIsLeastRemaining(S, k, r, 0);
    assert r[0] <= d;
  }

  /**
    Comparing a grid of sketches with itself, a tile whose sketch has a real
    digest matches, for any threshold of at most one.
   */
  lemma RealTileMatchesItself(img: Image, n: nat, k: nat, h: HashFunction, t: Ratio, i: nat, j: nat)
    requires Wellformed(img) && n >= 1 && i < n && j < n
    requires t.num <= t.den
    requires HasRealDigest(TileSketch(img, n, k, h, i, j))
    ensures IsGrid(TileGrid(img, n, k, h), n)
    ensures TileMatches(TileGrid(img, n, k, h), TileGrid(img, n, k, h), n, t, i, j)
  {
    var g := TileGrid(img, n, k, h);
    TileGridIsGrid(img, n, k, h);
    var s := g[i][j];
    BottomKIsBottomK(TileDigests(img, n, h, i, j), k);
    BottomKNoRepeats(TileDigests(img, n, h, i, j), k, s);
    JaccardWithItself(s);
    var e := JaccardEstimate(s, s);
    MulMonotone(t.den, t.num, e.den);
    assert e.num * t.den == t.den * e.den;
  }

  /** When every tile's sketch has a real digest, comparing the grid with itself matches every tile. */
  lemma EveryTileMatchesItself(img: Image, n: nat, k: nat, h: HashFunction, t: Ratio)
    requires Wellformed(img) && n >= 1
    requires t.num <= t.den
    requires forall i, j :: 0 <= i < n && 0 <= j < n ==> HasRealDigest(TileSketch(img, n, k, h, i, j))
    ensures IsGrid(TileGrid(img, n, k, h), n)
    ensures AllTilesMatch(TileGrid(img, n, k, h), TileGrid(img, n, k, h), n, t)
  {
    var g := TileGrid(img, n, k, h);
    TileGridIsGrid(img, n, k, h);
    forall i, j | 0 <= i < n && 0 <= j < n
      ensures TileMatches(g, g, n, t, i, j)
    {
      RealTileMatchesItself(img, n, k, h, t, i, j);
    }
  }

  /** The tiles of an `n x n` grid whose sketch has a real digest. */
  ghost function RealTiles(g: seq<seq<seq<u64>>>, n: nat): set<(nat, nat)>
    requires IsGrid(g, n)
  {
    set r: nat, c: nat | r < n && c < n && HasRealDigest(g[r][c]) :: (r, c)
  }

  /**
    Comparing a grid of sketches with itself at a positive threshold of at most
    one matches exactly the tiles whose sketch has a real digest, so the count
    is the number of such tiles.
   */
  lemma SelfMatchingTiles(img: Image, n: nat, k: nat, h: HashFunction, t: Ratio)
    requires Wellformed(img) && n >= 1
    requires 0 < t.num <= t.den
    ensures IsGrid(TileGrid(img, n, k, h), n)
    ensures MatchingTiles(TileGrid(img, n, k, h), TileGrid(img, n, k, h), n, t) == RealTiles(TileGrid(img, n, k, h), n)
  {
    var g := TileGrid(img, n, k, h);
    TileGridIsGrid(img, n, k, h);
    forall i: nat, j: nat | i < n && j < n
      ensures TileMatches(g, g, n, t, i, j) <==> HasRealDigest(g[i][j])
    {
      if HasRealDigest(g[i][j]) {
        RealTileMatchesItself(img, n, k, h, t, i, j);
      } else {
        EmptyTileNeverMatches(g, g, n, t, i, j);
      }
    }
  }

  /**
    A tile without a real digest never matches a positive threshold, not even
    against itself: its estimate is zero.
   */
  lemma EmptyTileNeverMatches(a: seq<seq<seq<u64>>>, b: seq<seq<seq<u64>>>, n: nat, t: Ratio, i: nat, j: nat)
    requires IsGrid(a, n) && IsGrid(b, n) && i < n && j < n
    requires forall p :: 0 <= p < |a[i][j]| ==> a[i][j][p] == GlobalMaxInt
    requires t.num > 0 && t.den > 0
    ensures !TileMatches(a, b, n, t, i, j)
  {
    assert ValidDigests(a[i][j]) == {};
    SharedCountZero(a[i][j], b[i][j]);
    var e := JaccardEstimate(a[i][j], b[i][j]);
    assert e.num == 0 && e.den > 0;
  }

  /** Every tile of an `n x n` grid. */
  ghost function AllTiles(n: nat): set<(nat, nat)>
  {
    set r: nat, c: nat | r < n && c < n :: (r, c)
  }

  /** Row-major order puts `i * n + j` tiles before `(i, j)`; the whole grid has `n * n`. */
  lemma {:induction false} TilesBeforeCard(n: nat, i: nat, j: nat)
    requires (i < n && j <= n) || (i == n && j == 0)
    ensures |HitsBefore(AllTiles(n), i, j)| == i * n + j
    decreases i, j
  {
    if j > 0 {
      TilesBeforeCard(n, i, j - 1);
      assert HitsBefore(AllTiles(n), i, j) == HitsBefore(AllTiles(n), i, j - 1) + {(i, j - 1)};
    } else if i > 0 {
      TilesBeforeCard(n, i - 1, n);
      assert HitsBefore(AllTiles(n), i, 0) == HitsBefore(AllTiles(n), i - 1, n);
      MulStep(i - 1, n);
    } else {
      assert HitsBefore(AllTiles(n), 0, 0) == {};
    }
  }

  /** At most all `n * n` tiles match, and all of them do when every tile reaches the threshold. */
  lemma MatchingTilesBounds(a: seq<seq<seq<u64>>>, b: seq<seq<seq<u64>>>, n: nat, t: Ratio)
    requires IsGrid(a, n) && IsGrid(b, n)
    ensures |MatchingTiles(a, b, n, t)| <= n * n
    ensures AllTilesMatch(a, b, n, t) ==> |MatchingTiles(a, b, n, t)| == n * n
  {
    var all := HitsBefore(AllTiles(n), n, 0);
    var matching := MatchingTiles(a, b, n, t);
    TilesBeforeCard(n, n, 0);
    assert matching <= all;
    assert all == matching + (all - matching);
    if AllTilesMatch(a, b, n, t) {
      assert matching == all;
    }
  }

  /** The test of `MM::countMatchTiles` for one tile: the sketches' estimated similarity reaches `threshold`. */
  method TileReachesThreshold(a: seq<seq<seq<u64>>>, b: seq<seq<seq<u64>>>, n: nat, threshold: Ratio, i: nat, j: nat)
    returns (matches: bool)
    requires IsGrid(a, n) && IsGrid(b, n) && i < n && j < n
    ensures matches == TileMatches(a, b, n, threshold, i, j)
  {
    var similarity := MinHashJaccard(a[i][j], b[i][j]);
    matches := AtLeast(similarity, threshold);
  }

  /**
    The double loop of `MM::countMatchTiles` over two `n x n` grids of sketches:
    tiles are visited in row-major order and a tile counts when the estimated
    similarity of its two sketches reaches `threshold`.
   */
  method CountMatchingTiles(a: seq<seq<seq<u64>>>, b: seq<seq<seq<u64>>>, n: nat, threshold: Ratio) returns (count: nat)
    requires IsGrid(a, n) && IsGrid(b, n)
    requires threshold.den > 0
    ensures count == |MatchingTiles(a, b, n, threshold)|
    ensures count <= n * n
    ensures AllTilesMatch(a, b, n, threshold) ==> count == n * n
  {
    count := 0;
    var i := 0;
    while i < n
      invariant 0 <= i <= n
      invariant count == MatchesBefore(a, b, n, threshold, i, 0)
    {
      var j := 0;
      while j < n
        invariant 0 <= j <= n
        invariant count == MatchesBefore(a, b, n, threshold, i, j)
      {
        var matches := TileReachesThreshold(a, b, n, threshold, i, j);
        if matches {
          count := count + 1;
        }
        j := j + 1;
      }
      i := i + 1;
    }
    MatchingTilesSize(a, b, n, threshold);
    MatchingTilesBounds(a, b, n, threshold);
  }

  /** The count the double loop ends with is the number of matching tiles. */
  lemma MatchingTilesSize(a: seq<seq<seq<u64>>>, b: seq<seq<seq<u64>>>, n: nat, t: Ratio)
    requires IsGrid(a, n) && IsGrid(b, n)
    ensures MatchesBefore(a, b, n, t, n, 0) == |MatchingTiles(a, b, n, t)|
  {
    var hits := MatchingTiles(a, b, n, t);
    MatchesBeforeCountsHits(a, b, n, t, n, 0);
    MatchingTilesInGrid(a, b, n, t);
    CountBeforeIsSize(hits, n, n, 0);
    HitsBeforeEnd(hits, n);
  }

  /** The sketch matrix of one image. */
  class MM {
    const input: Image
    const numTiles: nat
    const k: nat
    const h: HashFunction
    var sketches: seq<seq<seq<u64>>>

    /** The grid is `numTiles x numTiles` and holds the sketch of every tile of `input`. */
    ghost predicate Valid()
      reads this
    {
      numTiles >= 1 && Wellformed(input) && sketches == TileGrid(input, numTiles, k, h)
    }

    /** `MM::MM`: sizes the grid, then fills it row by row. */
    constructor (input: Image, numTiles: nat, k: nat, h: HashFunction)
      requires Wellformed(input) && numTiles >= 1
      ensures Valid()
      ensures this.input == input && this.numTiles == numTiles && this.k == k && this.h == h
    {
      this.input := input;
      this.numTiles := numTiles;
      this.k := k;
      this.h := h;
      var tileWidth := CeilDiv(input.width, numTiles);
      var tileHeight := CeilDiv(input.height, numTiles);
      sketches := seq(numTiles, _ => seq(numTiles, _ => []));
      new;
      var tileRow := 0;
      while tileRow < numTiles
        invariant 0 <= tileRow <= numTiles
        invariant IsGrid(sketches, numTiles)
        invariant forall r :: 0 <= r < tileRow ==> sketches[r] == TileGrid(input, numTiles, k, h)[r]
      {
        ProcessRowTiles(tileRow, tileWidth, tileHeight);
        tileRow := tileRow + 1;
      }
      TileGridIsGrid(input, numTiles, k, h);
    }

    /** `MM::processRowTiles`: fills row `tileRow` of the grid and leaves the other rows alone. */
    method ProcessRowTiles(tileRow: nat, tileWidth: nat, tileHeight: nat)
      requires numTiles >= 1 && Wellformed(input)
      requires tileWidth == CeilDiv(input.width, numTiles) && tileHeight == CeilDiv(input.height, numTiles)
      requires tileRow < numTiles && IsGrid(sketches, numTiles)
      modifies this
      ensures sketches == old(sketches)[tileRow := TileGrid(input, numTiles, k, h)[tileRow]]
    {
      var tileCol := 0;
      while tileCol < numTiles
        invariant 0 <= tileCol <= numTiles
        invariant |sketches| == numTiles && |sketches[tileRow]| == numTiles
        invariant forall r :: 0 <= r < numTiles && r != tileRow ==> sketches[r] == old(sketches)[r]
        invariant forall c :: 0 <= c < tileCol ==> sketches[tileRow][c] == TileSketch(input, numTiles, k, h, tileRow, c)
      {
        var sketch := ComputeTileMinHash(tileRow, tileCol, tileWidth, tileHeight);
        sketches := sketches[tileRow := sketches[tileRow][tileCol := sketch]];
        tileCol := tileCol + 1;
      }
      TileGridIsGrid(input, numTiles, k, h);
      assert sketches[tileRow] == TileGrid(input, numTiles, k, h)[tileRow];
    }

    /** `MM::computeTileMinHash`: gathers the tile's values column by column and sketches them. */
    method ComputeTileMinHash(tileRow: nat, tileCol: nat, tileWidth: nat, tileHeight: nat) returns (sketch: seq<u64>)
      requires numTiles >= 1 && Wellformed(input)
      requires tileWidth == CeilDiv(input.width, numTiles) && tileHeight == CeilDiv(input.height, numTiles)
      ensures IsBottomK(TileDigests(input, numTiles, h, tileRow, tileCol), k, sketch)
      ensures sketch == TileSketch(input, numTiles, k, h, tileRow, tileCol)
    {
      var xlo, xhi := TileStart(tileRow, tileWidth), TileEnd(tileRow, tileWidth, input.width);
      var ylo, yhi := TileStart(tileCol, tileHeight), TileEnd(tileCol, tileHeight, input.height);
      var lvals := GatherTileValues(xlo, xhi, ylo, yhi);
      sketch := KMinHash(lvals, k, h);
    }

    /** The gathering loops of `MM::computeTileMinHash`: the values of columns `xlo..xhi`, rows `ylo..yhi`. */
    method GatherTileValues(xlo: nat, xhi: nat, ylo: nat, yhi: nat) returns (lvals: seq<i32>)
      requires Wellformed(input)
      requires xlo < xhi ==> xhi <= input.width
      requires ylo < yhi ==> yhi <= input.height
      ensures lvals == TileValues(input, xlo, xhi, ylo, yhi)
    {
      lvals := [];
      var x := xlo;
      while x < xhi
        invariant xlo <= x && (x == xlo || x <= xhi)
        invariant lvals == TileValues(input, xlo, x, ylo, yhi)
      {
        var y := ylo;
        while y < yhi
          invariant ylo <= y && (y == ylo || y <= yhi)
          invariant lvals == TileValues(input, xlo, x, ylo, yhi) + Column(input, x, ylo, y)
        {
          assert input.lum[x][ylo..y + 1] == input.lum[x][ylo..y] + [input.lum[x][y]];
          lvals := lvals + [input.lum[x][y]];
          y := y + 1;
        }
        assert Column(input, x, ylo, y) == Column(input, x, ylo, yhi);
        x := x + 1;
      }
    }

    /**
      `MM::getMinHash`: the sketch of tile `(row, col)`; `None` stands for the
      out-of-range error the bounds-checked lookup raises.
     */
    function GetMinHash(row: nat, col: nat): (r: Option<seq<u64>>)
      reads this
      requires Valid()
      ensures r.Some? <==> row < numTiles && col < numTiles
      ensures r.Some? ==> |r.value| == k && IsBottomK(TileDigests(input, numTiles, h, row, col), k, r.value)
    {
      if row < numTiles && col < numTiles then
        BottomKIsBottomK(TileDigests(input, numTiles, h, row, col), k);
        Some(sketches[row][col])
      else
        None
    }

    /**
      `MM::countMatchTiles`: the number of tiles whose estimated similarity with
      the same tile of `other` reaches `threshold`.
     */
    method CountMatchTiles(other: MM, threshold: Ratio) returns (count: nat)
      requires Valid() && other.Valid()
      requires other.numTiles == numTiles
      requires threshold.den > 0
      ensures IsGrid(sketches, numTiles) && IsGrid(other.sketches, numTiles)
      ensures count == |MatchingTiles(sketches, other.sketches, numTiles, threshold)|
      ensures count <= numTiles * numTiles
      ensures AllTilesMatch(sketches, other.sketches, numTiles, threshold) ==> count == numTiles * numTiles
    {
      assert IsGrid(sketches, numTiles) && IsGrid(other.sketches, numTiles) by {
        TileGridIsGrid(input, numTiles, k, h);
        TileGridIsGrid(other.input, numTiles, other.k, other.h);
      }
      count := CountMatchingTiles(sketches, other.sketches, numTiles, threshold);
    }
  }
}
