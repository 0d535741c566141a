/** The value-level view of a minesweeper board: tiles, positions on a
    `w` × `h` grid, the adjacency count and counting tiles by attribute. */
module Grid {

  /** One cell of the board, with the fields of `Tile` in `src/objs.rs`. */
  datatype Tile = Tile(isMine: bool, isRevealed: bool, isFlagged: bool, adjacentMines: nat)

  /** The tile every cell of a new board starts as. */
  const Blank := Tile(false, false, false, 0)

  /** Rows of tiles: `g[y][x]` is the tile in column `x` of row `y`. */
  type Tiles = seq<seq<Tile>>

  datatype Pos = Pos(x: int, y: int)

  predicate InBounds(w: int, h: int, p: Pos) {
    0 <= p.x < w && 0 <= p.y < h
  }

  /** `g` has `h` rows of `w` tiles each. */
  predicate IsRect(g: Tiles, w: nat, h: nat) {
    |g| == h && forall y :: 0 <= y < |g| ==> |g[y]| == w
  }

  function At(g: Tiles, p: Pos): Tile
    requires 0 <= p.y < |g| && 0 <= p.x < |g[p.y]|
  {
    g[p.y][p.x]
  }

  /** `q` is one of the up to eight cells around `p`; `p` itself is not. */
  predicate Adjacent(p: Pos, q: Pos) {
    p != q && -1 <= q.x - p.x <= 1 && -1 <= q.y - p.y <= 1
  }

  /** The grid `g` with the tile at `p` replaced by `t`. */
  function Put(g: Tiles, p: Pos, t: Tile): (r: Tiles)
    requires 0 <= p.y < |g| && 0 <= p.x < |g[p.y]|
    ensures |r| == |g| && forall y :: 0 <= y < |g| ==> |r[y]| == |g[y]|
    ensures At(r, p) == t
    ensures forall q: Pos :: 0 <= q.y < |g| && 0 <= q.x < |g[q.y]| && q != p ==> At(r, q) == At(g, q)
  {
    g[p.y := g[p.y][p.x := t]]
  }

  // ---------------------------------------------------------------------
  // Adjacency count

  /** 1 when `q` lies on the board and holds a mine, otherwise 0. */
  function MineAt(g: Tiles, w: nat, h: nat, q: Pos): nat
    requires IsRect(g, w, h)
  {
    if InBounds(w, h, q) && At(g, q).isMine then 1 else 0
  }

  /** The number of mines among the in-bounds cells around `p`, `p` excluded:
      the value every tile's `adjacentMines` must hold. */
  function AdjacentMines(g: Tiles, w: nat, h: nat, p: Pos): (n: nat)
    requires IsRect(g, w, h)
    ensures n <= 8
  {
    MineAt(g, w, h, Pos(p.x - 1, p.y - 1)) + MineAt(g, w, h, Pos(p.x, p.y - 1))
      + MineAt(g, w, h, Pos(p.x + 1, p.y - 1)) + MineAt(g, w, h, Pos(p.x - 1, p.y))
      + MineAt(g, w, h, Pos(p.x + 1, p.y)) + MineAt(g, w, h, Pos(p.x - 1, p.y + 1))
      + MineAt(g, w, h, Pos(p.x, p.y + 1)) + MineAt(g, w, h, Pos(p.x + 1, p.y + 1))
  }

  /** Every in-bounds tile carries the exact adjacency count. */
  ghost predicate AdjacencyExact(g: Tiles, w: nat, h: nat) {
    IsRect(g, w, h) &&
    forall p {:trigger AdjacentMines(g, w, h, p)} ::
      InBounds(w, h, p) ==> At(g, p).adjacentMines == AdjacentMines(g, w, h, p)
  }

  /** `g0` and `g1` have the same shape and the same mines. */
  ghost predicate SameMines(g0: Tiles, g1: Tiles, w: nat, h: nat) {
    IsRect(g0, w, h) && IsRect(g1, w, h) &&
    forall p :: InBounds(w, h, p) ==> At(g1, p).isMine == At(g0, p).isMine
  }

  /** The adjacency count depends on the mines alone. */
  lemma SameMinesAdjacent(g0: Tiles, g1: Tiles, w: nat, h: nat)
    requires SameMines(g0, g1, w, h)
    ensures forall p :: AdjacentMines(g1, w, h, p) == AdjacentMines(g0, w, h, p)
  {
    forall p ensures AdjacentMines(g1, w, h, p) == AdjacentMines(g0, w, h, p) {
      forall q ensures MineAt(g1, w, h, q) == MineAt(g0, w, h, q) {
        if InBounds(w, h, q) {
          assert At(g1, q).isMine == At(g0, q).isMine;
        }
      }
    }
  }

  /** A zero count means, and only means, that no neighbour is a mine. */
  lemma {:induction false} ZeroAdjacentIffNoMine(g: Tiles, w: nat, h: nat, p: Pos)
    requires IsRect(g, w, h)
    ensures AdjacentMines(g, w, h, p) == 0 <==>
              forall q :: InBounds(w, h, q) && Adjacent(p, q) ==> !At(g, q).isMine
  {
    if AdjacentMines(g, w, h, p) == 0 {
      forall q | InBounds(w, h, q) && Adjacent(p, q) ensures !At(g, q).isMine {
        assert MineAt(g, w, h, q) == 0;
      }
    } else {
      var q :| q in {Pos(p.x - 1, p.y - 1), Pos(p.x, p.y - 1), Pos(p.x + 1, p.y - 1),
                     Pos(p.x - 1, p.y), Pos(p.x + 1, p.y), Pos(p.x - 1, p.y + 1),
                     Pos(p.x, p.y + 1), Pos(p.x + 1, p.y + 1)} && MineAt(g, w, h, q) == 1;
      assert InBounds(w, h, q) && Adjacent(p, q) && At(g, q).isMine;
    }
  }

  // ---------------------------------------------------------------------
  // Counting tiles by attribute

  datatype Attr = Mine | Flag | Unrevealed

  predicate Has(t: Tile, a: Attr) {
    match a
    case Mine => t.isMine
    case Flag => t.isFlagged
    case Unrevealed => !t.isRevealed
  }

  function Ind(t: Tile, a: Attr): nat {
    if Has(t, a) then 1 else 0
  }

  /** The number of tiles of `row` that have attribute `a`. */
  function RowCount(row: seq<Tile>, a: Attr): (n: nat)
    ensures n <= |row|
  {
    if row == [] then 0 else RowCount(row[..|row| - 1], a) + Ind(row[|row| - 1], a)
  }

  /** The number of tiles of `g` that have attribute `a`. */
  function GridCount(g: Tiles, a: Attr): nat {
    if g == [] then 0 else GridCount(g[..|g| - 1], a) + RowCount(g[|g| - 1], a)
  }

  lemma {:induction false} RowCountUpdate(row: seq<Tile>, i: nat, t: Tile, a: Attr)
    requires i < |row|
    ensures RowCount(row[i := t], a) == RowCount(row, a) - Ind(row[i], a) + Ind(t, a)
  {
    var n := |row| - 1;
    if i < n {
      assert row[i := t][..n] == row[..n][i := t];
      RowCountUpdate(row[..n], i, t, a);
    } else {
      assert row[i := t][..n] == row[..n];
    }
  }

  /** Replacing one tile moves the count by at most one, as the two tiles say. */
  lemma {:induction false} GridCountUpdate(g: Tiles, p: Pos, t: Tile, a: Attr)
    requires 0 <= p.y < |g| && 0 <= p.x < |g[p.y]|
    ensures GridCount(Put(g, p, t), a) == GridCount(g, a) - Ind(At(g, p), a) + Ind(t, a)
  {
    var n := |g| - 1;
    var r := Put(g, p, t);
    if p.y < n {
      assert r[..n] == Put(g[..n], p, t);
      GridCountUpdate(g[..n], p, t, a);
    } else {
      assert r[..n] == g[..n];
      RowCountUpdate(g[n], p.x, t, a);
    }
  }

  lemma {:induction false} RowCountMono(r0: seq<Tile>, r1: seq<Tile>, a: Attr)
    requires |r0| == |r1|
    requires forall i :: 0 <= i < |r1| ==> Has(r1[i], a) ==> Has(r0[i], a)
    ensures RowCount(r1, a) <= RowCount(r0, a)
  {
    if r1 != [] {
      var n := |r1| - 1;
      RowCountMono(r0[..n], r1[..n], a);
    }
  }

  lemma {:induction false} RowsCountMono(g0: Tiles, g1: Tiles, a: Attr)
    requires |g0| == |g1| && forall y :: 0 <= y < |g1| ==> |g1[y]| == |g0[y]|
    requires forall y, x :: 0 <= y < |g1| && 0 <= x < |g1[y]| ==> Has(g1[y][x], a) ==> Has(g0[y][x], a)
    ensures GridCount(g1, a) <= GridCount(g0, a)
  {
    if g1 != [] {
      var n := |g1| - 1;
      RowsCountMono(g0[..n], g1[..n], a);
      RowCountMono(g0[n], g1[n], a);
    }
  }

  /** If every tile of `g1` with attribute `a` has it in `g0` too, `g1` counts no more. */
  lemma GridCountMono(g0: Tiles, g1: Tiles, w: nat, h: nat, a: Attr)
    requires IsRect(g0, w, h) && IsRect(g1, w, h)
    requires forall p :: InBounds(w, h, p) ==> Has(At(g1, p), a) ==> Has(At(g0, p), a)
    ensures GridCount(g1, a) <= GridCount(g0, a)
  {
    forall y, x | 0 <= y < |g1| && 0 <= x < |g1[y]| ensures Has(g1[y][x], a) ==> Has(g0[y][x], a) {
      assert InBounds(w, h, Pos(x, y));
    }
    RowsCountMono(g0, g1, a);
  }

  lemma {:induction false} RowCountAll(row: seq<Tile>, a: Attr)
    requires forall i :: 0 <= i < |row| ==> Has(row[i], a)
    ensures RowCount(row, a) == |row|
  {
    if row != [] {
      RowCountAll(row[..|row| - 1], a);
    }
  }

  lemma {:induction false} RowCountNone(row: seq<Tile>, a: Attr)
    requires forall i :: 0 <= i < |row| ==> !Has(row[i], a)
    ensures RowCount(row, a) == 0
  {
    if row != [] {
      RowCountNone(row[..|row| - 1], a);
    }
  }

  lemma {:induction false} RowsCountBound(g: Tiles, w: nat, a: Attr)
    requires forall y :: 0 <= y < |g| ==> |g[y]| == w
    ensures GridCount(g, a) <= |g| * w
  {
    if g != [] {
      var n := |g| - 1;
      RowsCountBound(g[..n], w, a);
      assert n * w + w == |g| * w;
    }
  }

  lemma {:induction false} RowsCountAll(g: Tiles, w: nat, a: Attr)
    requires forall y :: 0 <= y < |g| ==> |g[y]| == w
    requires forall y, x :: 0 <= y < |g| && 0 <= x < w ==> Has(g[y][x], a)
    ensures GridCount(g, a) == |g| * w
  {
    if g != [] {
      var n := |g| - 1;
      assert forall y, x :: 0 <= y < n && 0 <= x < w ==> Has(g[..n][y][x], a);
      RowsCountAll(g[..n], w, a);
      RowCountAll(g[n], a);
      assert n * w + w == |g| * w;
    }
  }

  /** At most `w * h` tiles have any attribute; all of them do exactly when the count is `w * h`. */
  lemma GridCountBound(g: Tiles, w: nat, h: nat, a: Attr)
    requires IsRect(g, w, h)
    ensures GridCount(g, a) <= w * h
    ensures GridCount(g, a) < w * h ==> exists p :: InBounds(w, h, p) && !Has(At(g, p), a)
  {
    RowsCountBound(g, w, a);
    if GridCount(g, a) < w * h {
      if forall y, x :: 0 <= y < |g| && 0 <= x < w ==> Has(g[y][x], a) {
        RowsCountAll(g, w, a);
      }
      var y, x :| 0 <= y < |g| && 0 <= x < w && !Has(g[y][x], a);
      assert InBounds(w, h, Pos(x, y)) && !Has(At(g, Pos(x, y)), a);
    }
  }

  lemma {:induction false} GridCountNone(g: Tiles, a: Attr)
    requires forall y, x :: 0 <= y < |g| && 0 <= x < |g[y]| ==> !Has(g[y][x], a)
    ensures GridCount(g, a) == 0
  {
    if g != [] {
      var n := |g| - 1;
      assert forall y, x :: 0 <= y < n && 0 <= x < |g[..n][y]| ==> !Has(g[..n][y][x], a);
      GridCountNone(g[..n], a);
      RowCountNone(g[n], a);
    }
  }

  /** A count of zero means no tile has the attribute. */
  lemma GridCountZero(g: Tiles, w: nat, h: nat, a: Attr)
    requires IsRect(g, w, h) && GridCount(g, a) == 0
    ensures forall p :: InBounds(w, h, p) ==> !Has(At(g, p), a)
  {
    forall p | InBounds(w, h, p) ensures !Has(At(g, p), a) {
      var t := At(g, p).(isMine := false, isFlagged := false, isRevealed := true);
      GridCountUpdate(g, p, t, a);
    }
  }
}
