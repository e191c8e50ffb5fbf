/** The pixel-free part of stitching a square of 256-pixel tiles: the tiles
    per side, the LINQ ordering of the tiles, and the drawing cursor. */
module Layout {

  /** `TILE_SIZE`: the side of one tile, in pixels. */
  const TileSize: nat := 256

  // ---------------------------------------------------------------------------
  // Tiles per side
  // ---------------------------------------------------------------------------

  /** `(int)Math.Sqrt(n)`. For every 32-bit count the double square root
      truncates to the integer square root, which is what this computes. */
  function FloorSqrt(n: nat): (r: nat)
    ensures r * r <= n < (r + 1) * (r + 1)
  {
    if n == 0 then 0
    else
      var r := FloorSqrt(n - 1);
      if (r + 1) * (r + 1) <= n then r + 1 else r
  }

  /** `Math.Sqrt(n) == (int)Math.Sqrt(n)`: the count is a perfect square. */
  predicate IsSquare(n: nat) {
    FloorSqrt(n) * FloorSqrt(n) == n
  }

  /** The integer square root is the only `r` with `r² <= n < (r+1)²`, so a
      count is square exactly when it is `k * k` for some `k`. */
  lemma FloorSqrtUnique(n: nat, r: nat)
    requires r * r <= n < (r + 1) * (r + 1)
    ensures FloorSqrt(n) == r
  {
    var s := FloorSqrt(n);
    if s < r {
      assert s + 1 <= r;
      MulMonotone(s + 1, r);
    } else if s > r {
      assert r + 1 <= s;
      MulMonotone(r + 1, s);
    }
  }

  lemma MulMonotone(a: nat, b: nat)
    requires a <= b
    ensures a * a <= b * b
  {
    assert a * a <= a * b <= b * b;
  }

  lemma SquareOf(k: nat)
    ensures FloorSqrt(k * k) == k && IsSquare(k * k)
  {
    assert k * k < (k + 1) * (k + 1);
    FloorSqrtUnique(k * k, k);
  }

  // ---------------------------------------------------------------------------
  // Grid cells
  // ---------------------------------------------------------------------------

  /** The column and row of the `i`-th drawn tile on a grid `k` tiles wide. */
  function Cell(i: nat, k: nat): (c: (nat, nat))
    requires k > 0
    ensures c.0 < k && i == c.1 * k + c.0
  {
    (i % k, i / k)
  }

  /** The drawing index of the tile at column `cx` and row `cy`. */
  function CellIndex(cx: nat, cy: nat, k: nat): nat {
    cy * k + cx
  }

  /** `Cell` and `CellIndex` are inverse: the first `k * k` indices and the
      `k × k` cells correspond one to one. */
  lemma CellRoundTrip(i: nat, cx: nat, cy: nat, k: nat)
    requires k > 0
    ensures CellIndex(Cell(i, k).0, Cell(i, k).1, k) == i
    ensures cx < k ==> Cell(CellIndex(cx, cy, k), k) == (cx, cy)
    ensures i < k * k <==> Cell(i, k).1 < k
  {
    if cx < k {
      var j := CellIndex(cx, cy, k);
      DivModUnique(j, k, cy, cx);
    }
    var c := Cell(i, k);
    if c.1 >= k {
      assert i >= k * k by { MulLe(k, c.1, k); }
    } else {
      assert i < k * k by { MulLe(c.1 + 1, k, k); }
    }
  }

  lemma MulLe(a: nat, b: nat, k: nat)
    requires a <= b
    ensures a * k <= b * k
  {
  }

  lemma MulSucc(a: nat, b: nat)
    ensures (a + 1) * b == a * b + b
  {
  }

  lemma MulCancel(x: nat, y: nat, c: nat)
    requires c > 0 && x * c < y * c
    ensures x < y
  {
    if x >= y {
      MulLe(y, x, c);
    }
  }

  lemma DivModUnique(j: nat, k: nat, q: nat, r: nat)
    requires k > 0 && r < k && j == q * k + r
    ensures j / k == q && j % k == r
  {
    var q' := j / k;
    var r' := j % k;
    assert j == q' * k + r';
    if q' < q {
      MulLe(q' + 1, q, k);
    } else if q' > q {
      MulLe(q + 1, q', k);
    }
  }

  // ---------------------------------------------------------------------------
  // Ordering: OrderByDescending(major).ThenBy(minor), a stable sort
  // ---------------------------------------------------------------------------

  datatype Key = Key(major: int, minor: int)

  /** `a` is drawn strictly before `b`: a larger major value, or the same
      major value and a smaller minor value. */
  predicate Precedes(a: Key, b: Key) {
    a.major > b.major || (a.major == b.major && a.minor < b.minor)
  }

  predicate Sorted<T>(s: seq<T>, key: T -> Key) {
    forall i, j | 0 <= i < j < |s| :: !Precedes(key(s[j]), key(s[i]))
  }

  /** Put `x` after every element it does not strictly precede. */
  function Insert<T>(x: T, s: seq<T>, key: T -> Key): (r: seq<T>)
    ensures |r| == |s| + 1
  {
    if |s| == 0 then [x]
    else if Precedes(key(x), key(s[0])) then [x] + s
    else [s[0]] + Insert(x, s[1..], key)
  }

  /** The LINQ ordering: insert the tiles one after the other. */
  function SortBy<T>(ts: seq<T>, key: T -> Key): (r: seq<T>)
    ensures |r| == |ts|
  {
    if |ts| == 0 then [] else Insert(ts[|ts| - 1], SortBy(ts[..|ts| - 1], key), key)
  }

  /** The elements with key `k`, in order. */
  function WithKey<T>(s: seq<T>, k: Key, key: T -> Key): seq<T> {
    if |s| == 0 then [] else (if key(s[0]) == k then [s[0]] else []) + WithKey(s[1..], k, key)
  }

  lemma {:induction false} WithKeyAppend<T>(a: seq<T>, b: seq<T>, k: Key, key: T -> Key)
    ensures WithKey(a + b, k, key) == WithKey(a, k, key) + WithKey(b, k, key)
    decreases |a|
  {
    if |a| > 0 {
      assert (a + b)[1..] == a[1..] + b;
      WithKeyAppend(a[1..], b, k, key);
    } else {
      assert a + b == b;
    }
  }

  lemma {:induction false} InsertSorted<T>(x: T, s: seq<T>, key: T -> Key)
    requires Sorted(s, key)
    ensures Sorted(Insert(x, s, key), key)
    decreases |s|
  {
    if |s| > 0 && !Precedes(key(x), key(s[0])) {
      assert Sorted(s[1..], key);
      InsertSorted(x, s[1..], key);
      var r := Insert(x, s, key);
      var tail := Insert(x, s[1..], key);
      InsertMembers(x, s[1..], key);
      forall i, j | 0 <= i < j < |r| ensures !Precedes(key(r[j]), key(r[i])) {
        if i == 0 {
          assert r[j] == tail[j - 1];
        }
      }
    }
  }

  /** Every element of an insertion is `x` or an element of `s`. */
  lemma {:induction false} InsertMembers<T>(x: T, s: seq<T>, key: T -> Key)
    ensures forall i | 0 <= i < |Insert(x, s, key)| ::
      key(Insert(x, s, key)[i]) == key(x) || exists j :: 0 <= j < |s| && key(Insert(x, s, key)[i]) == key(s[j])
    decreases |s|
  {
    if |s| > 0 && !Precedes(key(x), key(s[0])) {
      InsertMembers(x, s[1..], key);
      var r := Insert(x, s, key);
      forall i | 0 < i < |r|
        ensures key(r[i]) == key(x) || exists j :: 0 <= j < |s| && key(r[i]) == key(s[j])
      {
        var tail := Insert(x, s[1..], key);
        assert r[i] == tail[i - 1];
        if key(r[i]) != key(x) {
          var j :| 0 <= j < |s[1..]| && key(tail[i - 1]) == key(s[1..][j]);
          assert key(r[i]) == key(s[j + 1]);
        }
      }
    } else if |s| > 0 {
      var r := Insert(x, s, key);
      forall i | 0 < i < |r|
        ensures exists j :: 0 <= j < |s| && key(r[i]) == key(s[j])
      {
        assert r[i] == s[i - 1];
      }
    }
  }

  /** No element of `s` has key `k`. */
  lemma {:induction false} WithKeyNone<T>(s: seq<T>, k: Key, key: T -> Key)
    requires forall i :: 0 <= i < |s| ==> key(s[i]) != k
    ensures WithKey(s, k, key) == []
    decreases |s|
  {
    if |s| > 0 {
      WithKeyNone(s[1..], k, key);
    }
  }

  /** An insertion lands after every element with the same key. */
  lemma {:induction false} InsertStable<T>(x: T, s: seq<T>, k: Key, key: T -> Key)
    requires Sorted(s, key)
    ensures WithKey(Insert(x, s, key), k, key) == WithKey(s, k, key) + (if key(x) == k then [x] else [])
    decreases |s|
  {
    if |s| == 0 {
    } else if Precedes(key(x), key(s[0])) {
      var r := [x] + s;
      assert r[1..] == s;
      if key(x) == k {
        forall i | 0 <= i < |s| ensures key(s[i]) != k {
          if i > 0 {
            assert !Precedes(key(s[i]), key(s[0]));
          }
        }
        WithKeyNone(s, k, key);
      }
    } else {
      assert Sorted(s[1..], key);
      InsertStable(x, s[1..], k, key);
      var r := [s[0]] + Insert(x, s[1..], key);
      assert r[1..] == Insert(x, s[1..], key);
    }
  }

  lemma {:induction false} InsertMultiset<T>(x: T, s: seq<T>, key: T -> Key)
    ensures multiset(Insert(x, s, key)) == multiset(s) + multiset{x}
    decreases |s|
  {
    if |s| > 0 {
      assert s == [s[0]] + s[1..];
      if !Precedes(key(x), key(s[0])) {
        InsertMultiset(x, s[1..], key);
      }
    }
  }

  /** The LINQ ordering is a stable sort: its result is ordered by key,
      holds the same tiles, and keeps tiles with equal keys in input order. */
  lemma {:induction false} SortByIsStableSort<T>(ts: seq<T>, key: T -> Key)
    ensures Sorted(SortBy(ts, key), key)
    ensures multiset(SortBy(ts, key)) == multiset(ts)
    ensures forall k :: WithKey(SortBy(ts, key), k, key) == WithKey(ts, k, key)
    decreases |ts|
  {
    if |ts| > 0 {
      var init := ts[..|ts| - 1];
      var x := ts[|ts| - 1];
      SortByIsStableSort(init, key);
      var s := SortBy(init, key);
      InsertSorted(x, s, key);
      InsertMultiset(x, s, key);
      assert ts == init + [x];
      forall k ensures WithKey(SortBy(ts, key), k, key) == WithKey(ts, k, key) {
        InsertStable(x, s, k, key);
        WithKeyAppend(init, [x], k, key);
      }
    }
  }

  /** A sorted input is left as it is. */
  lemma {:induction false} SortBySorted<T>(ts: seq<T>, key: T -> Key)
    requires Sorted(ts, key)
    ensures SortBy(ts, key) == ts
    decreases |ts|
  {
    if |ts| > 0 {
      var init := ts[..|ts| - 1];
      var x := ts[|ts| - 1];
      assert Sorted(init, key);
      SortBySorted(init, key);
      InsertAtEnd(x, init, key);
      assert init + [x] == ts;
    }
  }

  lemma {:induction false} InsertAtEnd<T>(x: T, s: seq<T>, key: T -> Key)
    requires forall i :: 0 <= i < |s| ==> !Precedes(key(x), key(s[i]))
    ensures Insert(x, s, key) == s + [x]
    decreases |s|
  {
    if |s| > 0 {
      InsertAtEnd(x, s[1..], key);
      assert s == [s[0]] + s[1..];
    }
  }

  // ---------------------------------------------------------------------------
  // The drawing cursor
  // ---------------------------------------------------------------------------

  /** Where a tile is drawn: the pixel coordinates of its top-left corner. */
  datatype Placement<T> = Placement(tile: T, x: int, y: int)

  /** What one pass of the drawing loop ends in. */
  datatype Pass<T> =
    | Drawn(placements: seq<Placement<T>>)
    | NotLoaded(at: nat)     // the tile at this position could not be loaded
    | NoOverlap(at: nat)     // the tile at this position lies wholly off the canvas
    | Interrupted(at: nat)   // cancellation was seen after drawing this position

  /** The cell position of the `i`-th drawn tile on a grid `k` tiles wide. */
  function CellPosition(i: nat, k: nat): (p: (int, int))
    requires k > 0
    ensures p.0 == Cell(i, k).0 * TileSize && p.1 == Cell(i, k).1 * TileSize
  {
    (i % k * TileSize, i / k * TileSize)
  }

  /** Moving the cursor one tile on: the next cell in the row, or the first
      cell of the next row once the row is full. */
  lemma CellStep(i: nat, k: nat)
    requires k > 0
    ensures i % k + 1 < k ==> (i + 1) % k == i % k + 1 && (i + 1) / k == i / k
    ensures i % k + 1 == k ==> (i + 1) % k == 0 && (i + 1) / k == i / k + 1
  {
    var q, r := i / k, i % k;
    assert i == q * k + r;
    if r + 1 < k {
      DivModUnique(i + 1, k, q, r + 1);
    } else {
      assert i + 1 == (q + 1) * k + 0;
      DivModUnique(i + 1, k, q + 1, 0);
    }
  }

  /** ImageSharp's `DrawImage` refuses a tile that shares no pixel with the
      canvas: the tile at (x, y) must meet the `side × side` canvas. */
  predicate Overlaps(x: int, y: int, side: nat) {
    x < side && y < side && x + TileSize > 0 && y + TileSize > 0
  }

  /** The loop the stitch services share: for each tile in order, load it
      (or stop), draw it at the cursor (or stop, when the tile does not meet
      the canvas), move the cursor a tile to the right and wrap to the next
      row at the canvas side `side`, then stop if cancellation was
      requested. `loads` says whether a tile's data can be loaded and
      `canceled(i)` whether cancellation is requested when tile `i` has been
      drawn. The cursor is the pixel position of cell `Cell(i, k)`, so the
      first `k * k` tiles meet the canvas and tile `k * k`, if there is one,
      is the first that does not. */
  method Draw<T>(ordered: seq<T>, k: nat, loads: T -> bool, canceled: nat -> bool) returns (r: Pass<T>)
    requires |ordered| > 0 ==> k > 0
    ensures r.Drawn? <==> |ordered| <= k * k && forall i :: 0 <= i < |ordered| ==> loads(ordered[i]) && !canceled(i)
    ensures r.Drawn? ==> |r.placements| == |ordered|
    ensures r.Drawn? ==> forall i :: 0 <= i < |ordered| ==>
      r.placements[i] == Placement(ordered[i], CellPosition(i, k).0, CellPosition(i, k).1)
    ensures r.NotLoaded? ==> r.at < |ordered| && r.at <= k * k && !loads(ordered[r.at])
    ensures r.NoOverlap? <==> (k * k < |ordered| && loads(ordered[k * k]) &&
      forall j :: 0 <= j < k * k ==> loads(ordered[j]) && !canceled(j))
    ensures r.NoOverlap? ==> r.at == k * k
    ensures r.Interrupted? ==> r.at < |ordered| && r.at < k * k && loads(ordered[r.at]) && canceled(r.at)
    ensures !r.Drawn? ==> forall j :: 0 <= j < r.at ==> loads(ordered[j]) && !canceled(j)
  {
    var side := k * TileSize;
    var x, y := 0, 0;
    var placements: seq<Placement<T>> := [];
    var i := 0;
    while i < |ordered|
      invariant 0 <= i <= |ordered| && |placements| == i && i <= k * k
      invariant forall j :: 0 <= j < i ==> loads(ordered[j]) && !canceled(j)
      invariant forall j :: 0 <= j < i ==>
        placements[j] == Placement(ordered[j], CellPosition(j, k).0, CellPosition(j, k).1)
      invariant i < |ordered| ==> (x, y) == CellPosition(i, k)
    {
      if !loads(ordered[i]) {
        return NotLoaded(i);
      }
      OverlapsExactly(i, k);
      if !Overlaps(x, y, side) {
        return NoOverlap(i);
      }
      placements := placements + [Placement(ordered[i], x, y)];
      CellStep(i, k);
      x := x + TileSize;
      if x == side {
        x := 0;
        y := y + TileSize;
      }
      if canceled(i) {
        return Interrupted(i);
      }
      i := i + 1;
    }
    return Drawn(placements);
  }

  /** The `i`-th tile meets the canvas exactly when it is one of the first
      `k * k`. */
  lemma OverlapsExactly(i: nat, k: nat)
    requires k > 0
    ensures Overlaps(CellPosition(i, k).0, CellPosition(i, k).1, k * TileSize) <==> i < k * k
  {
    PositionBounds(i, k);
  }

  /** Drawn positions stay on the grid: x within the canvas side, and y too
      for the first `k * k` tiles; further tiles land below the canvas. */
  lemma PositionBounds(i: nat, k: nat)
    requires k > 0
    ensures 0 <= CellPosition(i, k).0 < k * TileSize
    ensures 0 <= CellPosition(i, k).1
    ensures CellPosition(i, k).1 < k * TileSize <==> i < k * k
  {
    var c := Cell(i, k);
    CellRoundTrip(i, 0, 0, k);
    MulLe(c.0 + 1, k, TileSize);
    if c.1 < k {
      MulLe(c.1 + 1, k, TileSize);
    } else {
      MulLe(k, c.1, TileSize);
    }
  }

  /** On `k * k` tiles the positions are pairwise distinct and every cell of
      the `k × k` grid receives exactly the tile whose index is its
      `CellIndex`. */
  lemma GridCovered(k: nat)
    requires k > 0
    ensures forall i, j :: 0 <= i < j < k * k ==> CellPosition(i, k) != CellPosition(j, k)
    ensures forall cx, cy :: 0 <= cx < k && 0 <= cy < k ==>
      CellIndex(cx, cy, k) < k * k && CellPosition(CellIndex(cx, cy, k), k) == (cx * TileSize, cy * TileSize)
  {
    forall i, j | 0 <= i < j < k * k ensures CellPosition(i, k) != CellPosition(j, k) {
      CellRoundTrip(i, 0, 0, k);
      CellRoundTrip(j, 0, 0, k);
    }
    forall cx, cy | 0 <= cx < k && 0 <= cy < k
      ensures CellIndex(cx, cy, k) < k * k && CellPosition(CellIndex(cx, cy, k), k) == (cx * TileSize, cy * TileSize)
    {
      CellRoundTrip(CellIndex(cx, cy, k), cx, cy, k);
    }
  }

  // ---------------------------------------------------------------------------
  // Stitch outcomes
  // ---------------------------------------------------------------------------

  /** What a stitch ends in: the canvas side and the drawn positions, or the
      exception it throws. `at` is a position in the drawing order. */
  datatype Stitch<T> =
    | Stitched(side: nat, placements: seq<Placement<T>>)
    | NotSquare                // InvalidOperationException
    | EmptyCanvas              // no tiles: a 0 x 0 image cannot be allocated
    | UnknownFormat(at: nat)   // no loader for the tile at `at`
    | OffCanvas(at: nat)       // ImageProcessingException: the tile at `at` misses the canvas
    | Canceled(at: nat)        // TaskCanceledException after drawing `at`

  /** A placement whose tile lies wholly on a canvas `side` pixels wide. */
  predicate OnCanvas<T>(p: Placement<T>, side: nat) {
    0 <= p.x && p.x + TileSize <= side && 0 <= p.y && p.y + TileSize <= side
  }

  /** The outcome of a stitch of the tiles in `ordered` on a grid `k` tiles
      wide whose drawing pass ended in `pass`. */
  function Finish<T>(pass: Pass<T>, k: nat): (r: Stitch<T>)
    ensures r.Stitched? <==> pass.Drawn?
    ensures r.Stitched? ==> r.side == k * TileSize && r.placements == pass.placements
    ensures pass.NotLoaded? ==> r == UnknownFormat(pass.at)
    ensures pass.NoOverlap? ==> r == OffCanvas(pass.at)
    ensures pass.Interrupted? ==> r == Canceled(pass.at)
  {
    match pass
    case Drawn(ps) => Stitched(k * TileSize, ps)
    case NotLoaded(i) => UnknownFormat(i)
    case NoOverlap(i) => OffCanvas(i)
    case Interrupted(i) => Canceled(i)
  }

  /** Every tile of a square stitch lies on the canvas. */
  lemma SquareOnCanvas<T>(ordered: seq<T>, ps: seq<Placement<T>>, k: nat)
    requires k > 0 && |ordered| == k * k && |ps| == |ordered|
    requires forall i :: 0 <= i < |ordered| ==>
      ps[i] == Placement(ordered[i], CellPosition(i, k).0, CellPosition(i, k).1)
    ensures forall i :: 0 <= i < |ps| ==> OnCanvas(ps[i], k * TileSize)
  {
    forall i | 0 <= i < |ps| ensures OnCanvas(ps[i], k * TileSize) {
      PositionBounds(i, k);
      var c := Cell(i, k);
      MulLe(c.0 + 1, k, TileSize);
      MulLe(c.1 + 1, k, TileSize);
    }
  }

  /** A non-empty count has at least one tile per side. */
  lemma FloorSqrtPositive(n: nat)
    requires n > 0
    ensures FloorSqrt(n) > 0
  {
  }
}
