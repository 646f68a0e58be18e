/**
 * Grid tiling of the recording canvas (public/script.js,
 * `drawAllVideosToCanvas`). The `n` video elements on the page are laid out
 * on a grid of `Columns(n)` columns and `Rows(n)` rows; video `idx` owns the
 * cell in column `idx % cols` and row `idx / cols`, whose top-left corner is
 * `(col * w, row * h)` for the cell size `w = width / cols`, `h = height / rows`.
 */
module Grid {
  import opened Numeric
  import opened Canvas

  /** `readyState` a video must reach (HAVE_CURRENT_DATA) before it is drawn. */
  const HaveCurrentData: int := 2

  /** Is `c` the integer ceiling of the square root of `m`? */
  ghost predicate IsCeilSqrt(m: nat, c: nat)
  {
    1 <= c && m <= c * c && (c - 1) * (c - 1) < m
  }

  /**
   * Searches upward from `c` for the least integer whose square reaches `m`;
   * every candidate below `c` is already known to fall short.
   */
  function CeilSqrtFrom(m: nat, c: nat): (r: nat)
    requires 1 <= c && (c - 1) * (c - 1) < m
    ensures c <= r && IsCeilSqrt(m, r)
    decreases m - c
  {
    if m <= c * c then c
    else
      assert c <= c * c by { MulMonotone(1, c, c); }
      CeilSqrtFrom(m, c + 1)
  }

  /** The number of grid columns for `n` videos: `ceil(sqrt(max(1, n)))`. */
  function Columns(n: nat): (cols: nat)
    ensures IsCeilSqrt(Max(1, n), cols)
  {
    CeilSqrtFrom(Max(1, n), 1)
  }

  /** The number of grid rows for `n` videos: `ceil(n / cols)`. */
  function Rows(n: nat): (rows: nat)
    ensures n <= rows * Columns(n) < n + Columns(n)
  {
    var cols := Columns(n);
    var q := (n + cols - 1) / cols;
    assert q * cols + (n + cols - 1) % cols == n + cols - 1;
    q
  }

  /** Width in pixels of one grid cell on a canvas `width` pixels wide. */
  function CellWidth(width: nat, n: nat): (w: nat)
    ensures w * Columns(n) <= width < (w + 1) * Columns(n)
  {
    var cols := Columns(n);
    var w := width / cols;
    assert w * cols + width % cols == width;
    w
  }

  /**
   * Height in pixels of one grid cell on a canvas `height` pixels high. With
   * no videos there are no rows and no cell is ever drawn.
   */
  function CellHeight(height: nat, n: nat): (h: nat)
    requires 1 <= n
    ensures h * Rows(n) <= height < (h + 1) * Rows(n)
  {
    var rows := Rows(n);
    assert rows != 0;
    var h := height / rows;
    assert h * rows + height % rows == height;
    h
  }

  /** A grid position. */
  datatype Cell = Cell(col: nat, row: nat)

  /** The cell owned by video `idx`: column `idx % cols`, row `idx / cols`. */
  function CellOf(idx: nat, n: nat): (c: Cell)
    ensures c.col < Columns(n)
    ensures idx == c.row * Columns(n) + c.col
  {
    var cols := Columns(n);
    Cell(idx % cols, idx / cols)
  }

  /** One `drawImage` destination: the video it shows and the canvas rectangle it fills. */
  datatype Tile = Tile(index: nat, col: int, row: int, dx: int, dy: int, w: int, h: int)

  /** The tile video `idx` is drawn into, out of `n` videos on a `width` by `height` canvas. */
  function Place(idx: nat, n: nat, width: nat, height: nat): (t: Tile)
    requires idx < n
    ensures t.index == idx && 0 <= t.col < Columns(n) && idx == t.row * Columns(n) + t.col
    ensures t.w * Columns(n) <= width < (t.w + 1) * Columns(n)
    ensures t.h * Rows(n) <= height < (t.h + 1) * Rows(n)
    ensures t.dx == t.col * t.w && t.dy == t.row * t.h
  {
    var c := CellOf(idx, n);
    var w := CellWidth(width, n);
    var h := CellHeight(height, n);
    Tile(idx, c.col, c.row, c.col * w, c.row * h, w, h)
  }

  /** `t` is the tile the drawing loop computes for video `idx` out of `n`. */
  lemma PlaceIs(idx: nat, n: nat, width: nat, height: nat, t: Tile)
    requires idx < n
    requires var cols, rows := Columns(n), Rows(n);
      t == Tile(idx, idx % cols, idx / cols, (idx % cols) * (width / cols),
                (idx / cols) * (height / rows), width / cols, height / rows)
    ensures t == Place(idx, n, width, height)
  {
  }

  /** Two tiles do not overlap. */
  predicate Disjoint(a: Tile, b: Tile)
  {
    a.dx + a.w <= b.dx || b.dx + b.w <= a.dx || a.dy + a.h <= b.dy || b.dy + b.h <= a.dy
  }

  /** `Columns(n)` is the LEAST positive integer whose square is at least `max(1, n)`. */
  lemma ColumnsLeast(n: nat, c: nat)
    requires 1 <= c && Max(1, n) <= c * c
    ensures 1 <= Columns(n) <= c
  {
    var cols := Columns(n);
    // (cols - 1)^2 < max(1, n) <= c^2
    SquareCancelLess(cols - 1, c);
  }

  /** With no video there is one column and no row: nothing is drawn. */
  lemma NoVideos()
    ensures Columns(0) == 1 && Rows(0) == 0
  {
    ColumnsLeast(0, 1);
  }

  /** For at least one video, `rows = ceil(n / cols)` lies between 1 and `cols`. */
  lemma RowsBounds(n: nat)
    requires 1 <= n
    ensures 1 <= Rows(n) <= Columns(n)
    ensures (Rows(n) - 1) * Columns(n) < n <= Rows(n) * Columns(n)
  {
    CeilQuotientBounds(n, Columns(n), Rows(n));
  }

  /** Every video's cell lies inside the `cols` by `rows` grid. */
  lemma CellInGrid(idx: nat, n: nat)
    requires idx < n
    ensures CellOf(idx, n).col < Columns(n) && CellOf(idx, n).row < Rows(n)
  {
    var c, cols, rows := CellOf(idx, n), Columns(n), Rows(n);
    // row * cols <= idx < n <= rows * cols
    MulCancelLess(c.row, rows, cols);
  }

  /** Distinct videos own distinct cells. */
  lemma CellInjective(i: nat, j: nat, n: nat)
    requires CellOf(i, n) == CellOf(j, n)
    ensures i == j
  {
  }

  /** Every grid position that a video index reaches is the cell of exactly that index. */
  lemma CellOfPosition(col: nat, row: nat, n: nat)
    requires col < Columns(n)
    ensures CellOf(row * Columns(n) + col, n) == Cell(col, row)
  {
    var cols := Columns(n);
    var c := CellOf(row * cols + col, n);
    DivisionUnique(c.row, c.col, row, col, cols);
  }

  /** Each tile lies entirely inside the canvas. */
  lemma TileInCanvas(idx: nat, n: nat, width: nat, height: nat)
    requires idx < n
    ensures Place(idx, n, width, height).dx + Place(idx, n, width, height).w <= width
    ensures Place(idx, n, width, height).dy + Place(idx, n, width, height).h <= height
  {
    var c, w, h := CellOf(idx, n), CellWidth(width, n), CellHeight(height, n);
    CellInGrid(idx, n);
    EndsWithin(c.col, Columns(n), w, width);
    EndsWithin(c.row, Rows(n), h, height);
  }

  /** A cell at position `i < count` of extent `w` ends within `count` such cells. */
  lemma EndsWithin(i: nat, count: nat, w: nat, extent: nat)
    requires i < count && w * count <= extent
    ensures i * w + w <= extent
  {
    MulMonotone(i + 1, count, w);
    assert (i + 1) * w == i * w + w;
    assert count * w == w * count;
  }

  /** Cells in columns (or rows) `a < b` of extent `w` end no later than the later one starts. */
  lemma Separated(a: nat, b: nat, w: nat)
    requires a < b
    ensures a * w + w <= b * w
  {
    MulMonotone(a + 1, b, w);
  }

  /** Tiles of distinct videos never overlap. */
  lemma TilesDisjoint(i: nat, j: nat, n: nat, width: nat, height: nat)
    requires i < n && j < n && i != j
    ensures Disjoint(Place(i, n, width, height), Place(j, n, width, height))
  {
    var a, b := Place(i, n, width, height), Place(j, n, width, height);
    assert a.w == b.w && a.h == b.h;
    assert a.dx == a.col * a.w && b.dx == b.col * a.w;
    assert a.dy == a.row * a.h && b.dy == b.row * a.h;
    if a.col < b.col {
      Separated(a.col, b.col, a.w);
    } else if b.col < a.col {
      Separated(b.col, a.col, a.w);
    } else {
      // distinct indices in one column lie in distinct rows
      assert a.row != b.row;
      if a.row < b.row {
        Separated(a.row, b.row, a.h);
      } else {
        Separated(b.row, a.row, a.h);
      }
    }
  }

  /**
   * On a canvas sized by `updateCanvasSize`, every tile is at least one pixel
   * wide and high as long as there are at most 600 * 600 videos.
   */
  lemma ClampedTilesVisible(n: nat, clientWidth: int, innerHeight: int)
    requires 1 <= n <= MinHeight * MinHeight
    ensures 1 <= CellWidth(CanvasWidth(clientWidth), n)
    ensures 1 <= CellHeight(CanvasHeight(innerHeight), n)
  {
    ColumnsLeast(n, MinHeight);
    RowsBounds(n);
  }

  /**
   * `t` is the tile a ready video is drawn into: one of the `|readyStates|`
   * videos, ready to be drawn, placed in its own cell.
   */
  ghost predicate ReadyTile(t: Tile, readyStates: seq<int>, width: nat, height: nat)
  {
    t.index < |readyStates| && HaveCurrentData <= readyStates[t.index] &&
    t == Place(t.index, |readyStates|, width, height)
  }

  /**
   * `draws` is what the drawing loop has produced after the first `done`
   * videos: the tiles of exactly the ready ones among them, in page order.
   */
  ghost predicate DrawnSoFar(draws: seq<Tile>, readyStates: seq<int>, width: nat, height: nat, done: nat)
  {
    && (forall k :: 0 <= k < |draws| ==>
          draws[k].index < done && ReadyTile(draws[k], readyStates, width, height))
    && (forall j, k :: 0 <= j < k < |draws| ==> draws[j].index < draws[k].index)
    && (forall i :: 0 <= i < done && i < |readyStates| && HaveCurrentData <= readyStates[i] ==>
          exists k :: 0 <= k < |draws| && draws[k].index == i)
  }

  /** One turn of the drawing loop keeps `DrawnSoFar`. */
  lemma DrawStep(draws: seq<Tile>, readyStates: seq<int>, width: nat, height: nat, idx: nat)
    requires idx < |readyStates| && DrawnSoFar(draws, readyStates, width, height, idx)
    ensures HaveCurrentData <= readyStates[idx] ==>
      DrawnSoFar(draws + [Place(idx, |readyStates|, width, height)], readyStates, width, height, idx + 1)
    ensures readyStates[idx] < HaveCurrentData ==>
      DrawnSoFar(draws, readyStates, width, height, idx + 1)
  {
    var next := draws + [Place(idx, |readyStates|, width, height)];
    assert forall k :: 0 <= k < |draws| ==> next[k] == draws[k];
    assert next[|draws|].index == idx;
  }

  /**
   * One frame of the recording: the tiles drawn for videos whose `readyState`s
   * are `readyStates`, in page order, on a `width` by `height` canvas. A
   * video that is not ready yet is skipped but keeps its cell.
   */
  method DrawAllVideosToCanvas(readyStates: seq<int>, width: nat, height: nat) returns (draws: seq<Tile>)
    ensures forall k :: 0 <= k < |draws| ==> ReadyTile(draws[k], readyStates, width, height)
    ensures forall j, k :: 0 <= j < k < |draws| ==> draws[j].index < draws[k].index
    ensures forall i :: 0 <= i < |readyStates| && HaveCurrentData <= readyStates[i] ==>
      exists k :: 0 <= k < |draws| && draws[k].index == i
  {
    var n := |readyStates|;
    var cols := Columns(n);
    var rows := Rows(n);
    var w := width / cols;
    draws := [];
    var idx := 0;
    while idx < n
      invariant idx <= n
      invariant DrawnSoFar(draws, readyStates, width, height, idx)
    {
      DrawStep(draws, readyStates, width, height, idx);
      if HaveCurrentData <= readyStates[idx] {
        // some video exists, so there is at least one row
        var h := height / rows;
        var col := idx % cols;
        var row := idx / cols;
        var t := Tile(idx, col, row, col * w, row * h, w, h);
        PlaceIs(idx, n, width, height, t);
        draws := draws + [t];
      }
      idx := idx + 1;
    }
  }
}
