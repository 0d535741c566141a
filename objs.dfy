/** The game board of `src/objs.rs`: a `height` × `width` grid of tiles, the
    mine count and the flag counter, with mine placement, the adjacency pass,
    the flood-fill reveal, flag toggling, the win test and the loss reveal. */
module Objs {
  import opened Grid
  import opened Flood

  /** The board invariant on values: the grid shape, the exact mine count, the
      flag counter equal to the number of flagged tiles, and exact adjacency counts. */
  ghost predicate Consistent(g: Tiles, w: nat, h: nat, mines: nat, flags: nat) {
    IsRect(g, w, h) && GridCount(g, Mine) == mines && GridCount(g, Flag) == flags &&
    AdjacencyExact(g, w, h)
  }

  /** Revealing tiles keeps the board invariant and never adds a hidden tile. */
  lemma RevealingConsistent(g0: Tiles, g1: Tiles, w: nat, h: nat, mines: nat, flags: nat)
    requires Revealing(g0, g1, w, h) && Consistent(g0, w, h, mines, flags)
    ensures Consistent(g1, w, h, mines, flags)
    ensures GridCount(g1, Unrevealed) <= GridCount(g0, Unrevealed)
  {
    GridCountMono(g0, g1, w, h, Mine);
    GridCountMono(g1, g0, w, h, Mine);
    GridCountMono(g0, g1, w, h, Flag);
    GridCountMono(g1, g0, w, h, Flag);
    GridCountMono(g0, g1, w, h, Unrevealed);
    SameMinesAdjacent(g0, g1, w, h);
  }

  /** Every safe tile is revealed; flags and hidden mines do not matter. */
  ghost predicate Won(g: Tiles, w: nat, h: nat) {
    IsRect(g, w, h) && forall p :: InBounds(w, h, p) ==> At(g, p).isMine || At(g, p).isRevealed
  }

  /** A tile as the loss reveal leaves it. */
  function Expose(t: Tile): Tile {
    if t.isMine then t.(isRevealed := true) else t
  }

  /** `g1` is `g0` with every mine revealed and nothing else changed. */
  ghost predicate Exposes(g0: Tiles, g1: Tiles, w: nat, h: nat) {
    IsRect(g0, w, h) && IsRect(g1, w, h) &&
    forall p :: InBounds(w, h, p) ==> At(g1, p) == Expose(At(g0, p))
  }

  /** The grid after a flag toggle at `p`: a revealed tile is left alone. */
  function ToggleFlag(g: Tiles, p: Pos): Tiles
    requires 0 <= p.y < |g| && 0 <= p.x < |g[p.y]|
  {
    if At(g, p).isRevealed then g else Put(g, p, At(g, p).(isFlagged := !At(g, p).isFlagged))
  }

  /** Toggling the same tile twice restores the grid. */
  lemma ToggleFlagTwice(g: Tiles, p: Pos)
    requires 0 <= p.y < |g| && 0 <= p.x < |g[p.y]|
    ensures ToggleFlag(ToggleFlag(g, p), p) == g
  {
    if !At(g, p).isRevealed {
      assert g[p.y][p.x := At(g, p).(isFlagged := !At(g, p).isFlagged)][p.x := At(g, p)] == g[p.y];
    }
  }

  /** A toggle moves the number of flagged tiles by one, in the direction of the new flag. */
  lemma ToggleFlagCount(g: Tiles, p: Pos)
    requires 0 <= p.y < |g| && 0 <= p.x < |g[p.y]|
    ensures At(g, p).isFlagged ==> GridCount(g, Flag) >= 1
    ensures At(g, p).isRevealed ==> GridCount(ToggleFlag(g, p), Flag) == GridCount(g, Flag)
    ensures !At(g, p).isRevealed && At(g, p).isFlagged ==> GridCount(ToggleFlag(g, p), Flag) == GridCount(g, Flag) - 1
    ensures !At(g, p).isRevealed && !At(g, p).isFlagged ==> GridCount(ToggleFlag(g, p), Flag) == GridCount(g, Flag) + 1
  {
    GridCountUpdate(g, p, At(g, p).(isFlagged := !At(g, p).isFlagged), Flag);
  }

  /** The win test does not look at flags. */
  lemma ToggleFlagKeepsWon(g: Tiles, w: nat, h: nat, p: Pos)
    requires IsRect(g, w, h) && InBounds(w, h, p)
    ensures Won(ToggleFlag(g, p), w, h) <==> Won(g, w, h)
  {
    var g1 := ToggleFlag(g, p);
    assert forall q :: InBounds(w, h, q) ==> At(g1, q).isMine == At(g, q).isMine && At(g1, q).isRevealed == At(g, q).isRevealed;
  }

  /** Revealing the mines a second time changes nothing. */
  lemma ExposesIdempotent(g0: Tiles, g1: Tiles, g2: Tiles, w: nat, h: nat)
    requires Exposes(g0, g1, w, h) && Exposes(g1, g2, w, h)
    ensures g2 == g1
  {
    forall y | 0 <= y < h ensures g2[y] == g1[y] {
      forall x | 0 <= x < w ensures g2[y][x] == g1[y][x] {
        assert At(g2, Pos(x, y)) == Expose(At(g1, Pos(x, y)));
      }
    }
  }

  /** The loss reveal does not change whether the game is won. */
  lemma ExposesKeepsWon(g0: Tiles, g1: Tiles, w: nat, h: nat)
    requires Exposes(g0, g1, w, h)
    ensures Won(g1, w, h) <==> Won(g0, w, h)
  {
    assert forall p :: InBounds(w, h, p) ==> (At(g1, p).isMine || At(g1, p).isRevealed) == (At(g0, p).isMine || At(g0, p).isRevealed);
  }

  /** Revealing a hidden mine and then all mines is the same as revealing all mines. */
  lemma ExposesAfterReveal(g0: Tiles, g2: Tiles, w: nat, h: nat, s: Pos)
    requires IsRect(g0, w, h) && InBounds(w, h, s) && At(g0, s).isMine
    requires Exposes(RevealAt(g0, s), g2, w, h)
    ensures Exposes(g0, g2, w, h)
  {
    forall p | InBounds(w, h, p) ensures At(g2, p) == Expose(At(g0, p)) {
      assert At(g2, p) == Expose(At(RevealAt(g0, s), p));
    }
  }

  /** The adjacency sum over row offset `dy` and column offsets -1 up to `xe` - 1,
      the centre skipped, in the order the offset loops of `calculate_adjacent_mines` visit them. */
  ghost function RowBefore(g: Tiles, w: nat, h: nat, p: Pos, dy: int, xe: int): nat
    requires IsRect(g, w, h) && -1 <= xe <= 2
    decreases xe + 1
  {
    if xe == -1 then 0
    else RowBefore(g, w, h, p, dy, xe - 1) +
         (if xe - 1 == 0 && dy == 0 then 0 else MineAt(g, w, h, Pos(p.x + xe - 1, p.y + dy)))
  }

  /** The adjacency sum over row offsets -1 up to `ye` - 1. */
  ghost function RowsBefore(g: Tiles, w: nat, h: nat, p: Pos, ye: int): nat
    requires IsRect(g, w, h) && -1 <= ye <= 2
    decreases ye + 1
  {
    if ye == -1 then 0 else RowsBefore(g, w, h, p, ye - 1) + RowBefore(g, w, h, p, ye - 1, 2)
  }

  /** Every in-bounds neighbour of `s` that the offset loops have passed before
      offset (`xo`, `yo`) is revealed in `g`. */
  ghost predicate Swept(g: Tiles, w: nat, h: nat, s: Pos, yo: int, xo: int) {
    IsRect(g, w, h) &&
    forall q :: InBounds(w, h, q) && Adjacent(s, q) && (q.y - s.y < yo || (q.y - s.y == yo && q.x - s.x < xo)) ==>
      At(g, q).isRevealed
  }

  /** What a reveal started at `s` on `g0` has achieved by grid `g`: only
      hidden tiles were revealed, the start among them, every new tile is one
      the start uncovers, and every new tile that opens, other than the start,
      has its neighbours revealed. */
  ghost predicate Progress(g0: Tiles, g: Tiles, w: nat, h: nat, s: Pos) {
    Revealing(g0, g, w, h) && InBounds(w, h, s) && At(g, s).isRevealed &&
    (forall p :: Newly(g0, g, w, h, p) ==> Reach(g0, w, h, s, p)) &&
    (forall p :: Newly(g0, g, w, h, p) && p != s && Opens(g0, w, h, p) ==> NeighboursRevealed(g, w, h, p))
  }

  /** One pass of the offset loops: revealing neighbour `n` of the opening
      start `s`, as a recursive call does from `gi` to `g1`, keeps the progress
      and adds `n` to the neighbours swept. */
  lemma NeighbourStep(g0: Tiles, gi: Tiles, g1: Tiles, w: nat, h: nat, s: Pos, n: Pos, yo: int, xo: int)
    requires Progress(g0, gi, w, h, s) && Swept(gi, w, h, s, yo, xo)
    requires Opens(g0, w, h, s) && !At(g0, s).isRevealed
    requires InBounds(w, h, n) && Adjacent(s, n) && n == Pos(s.x + xo, s.y + yo)
    requires Revealing(gi, g1, w, h) && At(g1, n).isRevealed && Closed(gi, g1, w, h)
    requires FloodSpan(gi, g1, w, h, n)
    ensures Progress(g0, g1, w, h, s) && Swept(g1, w, h, s, yo, xo + 1)
  {
    forall p | Newly(g0, g1, w, h, p) ensures Reach(g0, w, h, s, p) {
      if !At(gi, p).isRevealed {
        ReachPrepend(g0, gi, w, h, s, n, p);
      }
    }
    forall p | Newly(g0, g1, w, h, p) && p != s && Opens(g0, w, h, p)
      ensures NeighboursRevealed(g1, w, h, p)
    {
      if !At(gi, p).isRevealed {
        assert Newly(gi, g1, w, h, p) && Opens(gi, w, h, p);
      } else {
        assert NeighboursRevealed(gi, w, h, p);
      }
    }
    forall q | InBounds(w, h, q) && Adjacent(s, q) && (q.y - s.y < yo || (q.y - s.y == yo && q.x - s.x < xo + 1))
      ensures At(g1, q).isRevealed
    {
      if q != n {
        assert At(gi, q).isRevealed;
      }
    }
  }

  /** Revealing the hidden start tile is the first step of a reveal. */
  lemma RevealStart(g0: Tiles, w: nat, h: nat, mines: nat, flags: nat, s: Pos)
    requires Consistent(g0, w, h, mines, flags) && InBounds(w, h, s) && !At(g0, s).isRevealed
    ensures Consistent(RevealAt(g0, s), w, h, mines, flags)
    ensures GridCount(RevealAt(g0, s), Unrevealed) < GridCount(g0, Unrevealed)
    ensures Progress(g0, RevealAt(g0, s), w, h, s)
  {
    var g1 := RevealAt(g0, s);
    GridCountUpdate(g0, s, At(g0, s).(isRevealed := true), Unrevealed);
    RevealingConsistent(g0, g1, w, h, mines, flags);
    ReachStart(g0, w, h, s);
  }

  /** When the start's neighbours are all revealed in case it opens, a reveal
      in progress has uncovered exactly what the start uncovers, and no mine
      but the start. */
  lemma FloodDone(g0: Tiles, g1: Tiles, w: nat, h: nat, s: Pos)
    requires Progress(g0, g1, w, h, s) && AdjacencyExact(g0, w, h)
    requires Opens(g0, w, h, s) ==> Swept(g1, w, h, s, 2, -1)
    ensures Closed(g0, g1, w, h) && FloodSpan(g0, g1, w, h, s)
    ensures forall p :: Newly(g0, g1, w, h, p) && p != s ==> !At(g1, p).isMine
  {
    assert Opens(g0, w, h, s) ==> NeighboursRevealed(g1, w, h, s);
    FloodComplete(g0, g1, w, h, s);
    forall p | Newly(g0, g1, w, h, p) && p != s ensures !At(g1, p).isMine {
      FloodSafe(g0, w, h, s, p);
    }
  }

  class Board {
    var tiles: Tiles
    var width: nat
    var height: nat
    var mines: nat
    var flags: nat

    /** The board invariant. The bounds keep the `u8` fields of the Rust `Board`
        and its `i8` neighbour arithmetic free of truncation. */
    ghost predicate Valid()
      reads this
    {
      width <= 127 && height <= 127 && mines <= 255 &&
      Consistent(tiles, width, height, mines, flags)
    }

    /** A new board: `height` rows of `width` hidden, unflagged tiles, exactly
        `mines` of them mines, adjacency counts exact, no flags. */
    constructor (width: nat, height: nat, mines: nat)
      requires width <= 127 && height <= 127 && mines <= 255
      requires mines <= width * height
      ensures Valid()
      ensures this.width == width && this.height == height && this.mines == mines && flags == 0
      ensures forall p :: InBounds(width, height, p) ==> !At(tiles, p).isRevealed && !At(tiles, p).isFlagged
    {
      var rows: Tiles := [];
      for i := 0 to height
        invariant |rows| == i
        invariant forall r :: 0 <= r < i ==> |rows[r]| == width
        invariant forall r, c :: 0 <= r < i && 0 <= c < |rows[r]| ==> rows[r][c] == Blank
      {
        var row: seq<Tile> := [];
        for j := 0 to width
          invariant |row| == j && forall c :: 0 <= c < j ==> row[c] == Blank
        {
          row := row + [Blank];
        }
        rows := rows + [row];
      }
      GridCountNone(rows, Mine);
      GridCountNone(rows, Flag);
      tiles := rows;
      this.width := width;
      this.height := height;
      this.mines := mines;
      flags := 0;
      new;
      PlaceMines();
      ghost var placed := tiles;
      CalculateAdjacentMines();
      SameMinesAdjacent(placed, tiles, width, height);
      GridCountMono(placed, tiles, width, height, Mine);
      GridCountMono(tiles, placed, width, height, Mine);
      GridCountMono(rows, tiles, width, height, Flag);
    }

    /** Adds mines one at a time until `mines` tiles are mines. Each round picks
        any tile that is not yet a mine: `place_mines` draws random coordinates
        and skips draws that hit a mine, which change nothing. */
    method PlaceMines()
      requires IsRect(tiles, width, height) && GridCount(tiles, Mine) == 0
      requires mines <= width * height
      modifies this
      ensures width == old(width) && height == old(height) && mines == old(mines) && flags == old(flags)
      ensures IsRect(tiles, width, height) && GridCount(tiles, Mine) == mines
      ensures forall p :: InBounds(width, height, p) ==>
                At(tiles, p) == At(old(tiles), p).(isMine := At(tiles, p).isMine)
    {
      var placed: nat := 0;
      while placed < mines
        invariant width == old(width) && height == old(height) && mines == old(mines) && flags == old(flags)
        invariant IsRect(tiles, width, height) && placed <= mines
        invariant GridCount(tiles, Mine) == placed
        invariant forall p :: InBounds(width, height, p) ==>
                    At(tiles, p) == At(old(tiles), p).(isMine := At(tiles, p).isMine)
        decreases mines - placed
      {
        GridCountBound(tiles, width, height, Mine);
        var x: nat, y: nat :| InBounds(width, height, Pos(x, y)) && !tiles[y][x].isMine;
        var p := Pos(x, y);
        GridCountUpdate(tiles, p, At(tiles, p).(isMine := true), Mine);
        tiles := Put(tiles, p, At(tiles, p).(isMine := true));
        placed := placed + 1;
      }
    }

    /** The number of mines around (x, y), counted as the offset loops of `calculate_adjacent_mines` do. */
    method CountAdjacent(x: nat, y: nat) returns (n: nat)
      requires IsRect(tiles, width, height) && InBounds(width, height, Pos(x, y))
      ensures n == AdjacentMines(tiles, width, height, Pos(x, y))
    {
      ghost var p := Pos(x, y);
      n := 0;
      for yo := -1 to 2
        invariant n == RowsBefore(tiles, width, height, p, yo)
      {
        for xo := -1 to 2
          invariant n == RowsBefore(tiles, width, height, p, yo) + RowBefore(tiles, width, height, p, yo, xo)
        {
          if !(xo == 0 && yo == 0) {
            var nx, ny := x + xo, y + yo;
            if 0 <= nx < width && 0 <= ny < height {
              if tiles[ny][nx].isMine {
                n := n + 1;
              }
            }
          }
        }
      }
    }

    /** Stores in every tile the number of mines around it. */
    method CalculateAdjacentMines()
      requires IsRect(tiles, width, height)
      modifies this
      ensures width == old(width) && height == old(height) && mines == old(mines) && flags == old(flags)
      ensures IsRect(tiles, width, height)
      ensures forall p :: InBounds(width, height, p) ==>
                At(tiles, p) == At(old(tiles), p).(adjacentMines := AdjacentMines(old(tiles), width, height, p))
    {
      ghost var g0 := tiles;
      for y := 0 to height
        invariant width == old(width) && height == old(height) && mines == old(mines) && flags == old(flags)
        invariant IsRect(tiles, width, height)
        invariant forall p :: InBounds(width, height, p) ==>
                    At(tiles, p) == if p.y < y then At(g0, p).(adjacentMines := AdjacentMines(g0, width, height, p))
                                    else At(g0, p)
      {
        for x := 0 to width
          invariant width == old(width) && height == old(height) && mines == old(mines) && flags == old(flags)
          invariant IsRect(tiles, width, height)
          invariant forall p :: InBounds(width, height, p) ==>
                      At(tiles, p) == if p.y < y || (p.y == y && p.x < x)
                                      then At(g0, p).(adjacentMines := AdjacentMines(g0, width, height, p))
                                      else At(g0, p)
        {
          var n := CountAdjacent(x, y);
          SameMinesAdjacent(g0, tiles, width, height);
          tiles := Put(tiles, Pos(x, y), tiles[y][x].(adjacentMines := n));
        }
      }
    }

    /** Reveals (x, y) and, when it is a safe tile with no mine around it, every
        tile around it in turn, recursively; answers whether a mine was revealed. */
    method SelectTile(x: nat, y: nat) returns (lost: bool)
      requires Valid() && InBounds(width, height, Pos(x, y))
      modifies this
      decreases GridCount(tiles, Unrevealed)
      ensures Valid()
      ensures width == old(width) && height == old(height) && mines == old(mines) && flags == old(flags)
      ensures Revealing(old(tiles), tiles, width, height)
      ensures At(tiles, Pos(x, y)).isRevealed
      ensures At(old(tiles), Pos(x, y)).isRevealed ==> !lost && tiles == old(tiles)
      ensures lost <==> !At(old(tiles), Pos(x, y)).isRevealed && At(old(tiles), Pos(x, y)).isMine
      ensures lost ==> tiles == RevealAt(old(tiles), Pos(x, y))
      ensures Closed(old(tiles), tiles, width, height)
      ensures FloodSpan(old(tiles), tiles, width, height, Pos(x, y))
      ensures forall p :: Newly(old(tiles), tiles, width, height, p) && p != Pos(x, y) ==> !At(tiles, p).isMine
    {
      var s := Pos(x, y);
      ghost var g0 := tiles;
      ReachHidden(g0, width, height, s);
      if tiles[y][x].isRevealed {
        return false;
      }
      var tile := tiles[y][x];
      tiles := RevealAt(tiles, s);
      RevealStart(g0, width, height, mines, flags, s);
      if tile.isMine {
        FloodDone(g0, tiles, width, height, s);
        return true;
      }
      if tile.adjacentMines == 0 {
        for yo := -1 to 2
          invariant Valid()
          invariant width == old(width) && height == old(height) && mines == old(mines) && flags == old(flags)
          invariant Progress(g0, tiles, width, height, s)
          invariant GridCount(tiles, Unrevealed) < GridCount(g0, Unrevealed)
          invariant Swept(tiles, width, height, s, yo, -1)
        {
          for xo := -1 to 2
            invariant Valid()
            invariant width == old(width) && height == old(height) && mines == old(mines) && flags == old(flags)
            invariant Progress(g0, tiles, width, height, s)
            invariant GridCount(tiles, Unrevealed) < GridCount(g0, Unrevealed)
            invariant Swept(tiles, width, height, s, yo, xo)
          {
            if !(xo == 0 && yo == 0) {
              var nx, ny := x + xo, y + yo;
              if 0 <= nx < width && 0 <= ny < height {
                var n := Pos(nx, ny);
                ghost var gi := tiles;
                NeighbourSafe(g0, tiles, width, height, s, n);
                var hit := SelectTile(nx, ny);
                // The neighbours of a tile with no mine around it are safe, so
                // the "mine found" branch of `select_tile` is never taken.
                assert !hit;
                RevealingConsistent(gi, tiles, width, height, mines, flags);
                NeighbourStep(g0, gi, tiles, width, height, s, n, yo, xo);
              }
            }
          }
        }
      }
      FloodDone(g0, tiles, width, height, s);
      return false;
    }

    /** Toggles the flag on a hidden tile and moves the counter with it. */
    method FlagTile(x: nat, y: nat)
      requires Valid() && InBounds(width, height, Pos(x, y))
      modifies this
      ensures Valid()
      ensures width == old(width) && height == old(height) && mines == old(mines)
      ensures tiles == ToggleFlag(old(tiles), Pos(x, y))
      ensures flags == if At(old(tiles), Pos(x, y)).isRevealed then old(flags)
                       else if At(old(tiles), Pos(x, y)).isFlagged then old(flags) - 1
                       else old(flags) + 1
    {
      var p := Pos(x, y);
      var tile := tiles[y][x];
      if tile.isRevealed {
        return;
      }
      ghost var g0 := tiles;
      var t := tile.(isFlagged := !tile.isFlagged);
      ToggleFlagCount(g0, p);
      GridCountUpdate(g0, p, t, Mine);
      tiles := Put(tiles, p, t);
      SameMinesAdjacent(g0, tiles, width, height);
      if t.isFlagged {
        flags := flags + 1;
      } else {
        flags := flags - 1;
      }
    }

    /** Whether every safe tile is revealed. */
    method IsWin() returns (won: bool)
      requires Valid()
      ensures won <==> Won(tiles, width, height)
    {
      for y := 0 to height
        invariant forall p :: InBounds(width, height, p) && p.y < y ==> At(tiles, p).isMine || At(tiles, p).isRevealed
      {
        for x := 0 to width
          invariant forall p :: InBounds(width, height, p) && (p.y < y || (p.y == y && p.x < x)) ==>
                      At(tiles, p).isMine || At(tiles, p).isRevealed
        {
          var tile := tiles[y][x];
          if !tile.isMine && !tile.isRevealed {
            assert At(tiles, Pos(x, y)) == tile;
            return false;
          }
        }
      }
      return true;
    }

    /** Reveals every mine, leaving every other tile as it is. */
    method OnLost()
      requires Valid()
      modifies this
      ensures Valid()
      ensures width == old(width) && height == old(height) && mines == old(mines) && flags == old(flags)
      ensures Exposes(old(tiles), tiles, width, height)
    {
      ghost var g0 := tiles;
      for y := 0 to height
        invariant width == old(width) && height == old(height) && mines == old(mines) && flags == old(flags)
        invariant IsRect(tiles, width, height)
        invariant forall p :: InBounds(width, height, p) ==>
                    At(tiles, p) == if p.y < y then Expose(At(g0, p)) else At(g0, p)
      {
        for x := 0 to width
          invariant width == old(width) && height == old(height) && mines == old(mines) && flags == old(flags)
          invariant IsRect(tiles, width, height)
          invariant forall p :: InBounds(width, height, p) ==>
                      At(tiles, p) == if p.y < y || (p.y == y && p.x < x) then Expose(At(g0, p)) else At(g0, p)
        {
          if tiles[y][x].isMine {
            tiles := Put(tiles, Pos(x, y), tiles[y][x].(isRevealed := true));
          }
        }
      }
      RevealingConsistent(g0, tiles, width, height, mines, flags);
    }

    function GetMines(): (m: nat)
      requires Valid()
      reads this
      ensures m == GridCount(tiles, Mine) && m <= width * height
    {
      GridCountBound(tiles, width, height, Mine);
      mines
    }

    function GetFlags(): (f: nat)
      requires Valid()
      reads this
      ensures f == GridCount(tiles, Flag) && f <= width * height
    {
      GridCountBound(tiles, width, height, Flag);
      flags
    }

    function GetWidth(): (w: nat)
      requires Valid()
      reads this
      ensures w <= 127 && forall y :: 0 <= y < |tiles| ==> |tiles[y]| == w
    {
      width
    }

    function GetHeight(): (h: nat)
      requires Valid()
      reads this
      ensures h <= 127 && h == |tiles|
    {
      height
    }

    function GetTile(x: nat, y: nat): (t: Tile)
      requires Valid() && InBounds(width, height, Pos(x, y))
      reads this
      ensures t == At(tiles, Pos(x, y))
      ensures t.adjacentMines == AdjacentMines(tiles, width, height, Pos(x, y)) && t.adjacentMines <= 8
    {
      tiles[y][x]
    }
  }
}
