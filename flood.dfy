/** What one reveal of a tile is meant to uncover: the tiles reachable from
    it through hidden tiles, stepping on only from safe tiles that have no
    mine around them. */
module Flood {
  import opened Grid

  /** Revealing `p` spreads to its neighbours: a safe tile with no adjacent mine. */
  ghost predicate Opens(g: Tiles, w: nat, h: nat, p: Pos) {
    IsRect(g, w, h) && InBounds(w, h, p) && !At(g, p).isMine && At(g, p).adjacentMines == 0
  }

  /** A walk over hidden tiles of `g`, each step from a tile that opens to a neighbour. */
  ghost predicate IsFloodPath(g: Tiles, w: nat, h: nat, path: seq<Pos>) {
    IsRect(g, w, h) && |path| > 0 &&
    (forall i :: 0 <= i < |path| ==> InBounds(w, h, path[i]) && !At(g, path[i]).isRevealed) &&
    (forall i :: 0 <= i < |path| - 1 ==> Opens(g, w, h, path[i]) && Adjacent(path[i], path[i + 1]))
  }

  /** Revealing `s` on `g` uncovers `q`. */
  ghost predicate Reach(g: Tiles, w: nat, h: nat, s: Pos, q: Pos) {
    exists path :: IsFloodPath(g, w, h, path) && path[0] == s && path[|path| - 1] == q
  }

  /** `p` is hidden in `g0` and revealed in `g1`. */
  ghost predicate Newly(g0: Tiles, g1: Tiles, w: nat, h: nat, p: Pos) {
    IsRect(g0, w, h) && IsRect(g1, w, h) && InBounds(w, h, p) &&
    !At(g0, p).isRevealed && At(g1, p).isRevealed
  }

  /** `g1` is `g0` with some hidden tiles revealed and nothing else changed. */
  ghost predicate Revealing(g0: Tiles, g1: Tiles, w: nat, h: nat) {
    IsRect(g0, w, h) && IsRect(g1, w, h) &&
    forall p :: InBounds(w, h, p) ==>
      At(g1, p) == At(g0, p).(isRevealed := At(g1, p).isRevealed) &&
      (At(g0, p).isRevealed ==> At(g1, p).isRevealed)
  }

  ghost predicate NeighboursRevealed(g: Tiles, w: nat, h: nat, p: Pos) {
    IsRect(g, w, h) &&
    forall q :: InBounds(w, h, q) && Adjacent(p, q) ==> At(g, q).isRevealed
  }

  /** Every tile newly revealed between `g0` and `g1` that opens has all its neighbours revealed. */
  ghost predicate Closed(g0: Tiles, g1: Tiles, w: nat, h: nat) {
    forall p :: Newly(g0, g1, w, h, p) && Opens(g0, w, h, p) ==> NeighboursRevealed(g1, w, h, p)
  }

  /** The tiles newly revealed between `g0` and `g1` are exactly those that revealing `s` uncovers. */
  ghost predicate FloodSpan(g0: Tiles, g1: Tiles, w: nat, h: nat, s: Pos) {
    forall p :: InBounds(w, h, p) ==> (Newly(g0, g1, w, h, p) <==> Reach(g0, w, h, s, p))
  }

  /** The grid `g` with the tile at `p` revealed. */
  function RevealAt(g: Tiles, p: Pos): Tiles
    requires 0 <= p.y < |g| && 0 <= p.x < |g[p.y]|
  {
    Put(g, p, At(g, p).(isRevealed := true))
  }

  // ---------------------------------------------------------------------

  lemma ReachStart(g: Tiles, w: nat, h: nat, s: Pos)
    requires IsRect(g, w, h) && InBounds(w, h, s) && !At(g, s).isRevealed
    ensures Reach(g, w, h, s, s)
  {
    assert IsFloodPath(g, w, h, [s]);
  }

  /** Only hidden tiles are uncovered, the start first of all. */
  lemma ReachHidden(g: Tiles, w: nat, h: nat, s: Pos)
    requires IsRect(g, w, h)
    ensures forall q :: Reach(g, w, h, s, q) ==>
              InBounds(w, h, s) && !At(g, s).isRevealed && InBounds(w, h, q) && !At(g, q).isRevealed
  {
    forall q | Reach(g, w, h, s, q)
      ensures InBounds(w, h, s) && !At(g, s).isRevealed && InBounds(w, h, q) && !At(g, q).isRevealed
    {
      var path :| IsFloodPath(g, w, h, path) && path[0] == s && path[|path| - 1] == q;
      assert InBounds(w, h, path[0]) && InBounds(w, h, path[|path| - 1]);
    }
  }

  /** A start that does not open uncovers only itself. */
  lemma ReachClosedStart(g: Tiles, w: nat, h: nat, s: Pos, q: Pos)
    requires Reach(g, w, h, s, q) && !Opens(g, w, h, s)
    ensures q == s
  {
    var path :| IsFloodPath(g, w, h, path) && path[0] == s && path[|path| - 1] == q;
    assert |path| == 1;
  }

  /** What a neighbour `n` of an opening start uncovers on a later grid `gi`,
      the start uncovers on the earlier grid `g0`. */
  lemma ReachPrepend(g0: Tiles, gi: Tiles, w: nat, h: nat, s: Pos, n: Pos, q: Pos)
    requires Revealing(g0, gi, w, h)
    requires Opens(g0, w, h, s) && !At(g0, s).isRevealed && Adjacent(s, n)
    requires Reach(gi, w, h, n, q)
    ensures Reach(g0, w, h, s, q)
  {
    var path :| IsFloodPath(gi, w, h, path) && path[0] == n && path[|path| - 1] == q;
    var longer := [s] + path;
    forall i | 0 <= i < |longer| ensures InBounds(w, h, longer[i]) && !At(g0, longer[i]).isRevealed {
      if i > 0 {
        assert longer[i] == path[i - 1];
      }
    }
    forall i | 0 <= i < |longer| - 1 ensures Opens(g0, w, h, longer[i]) && Adjacent(longer[i], longer[i + 1]) {
      if i > 0 {
        assert longer[i] == path[i - 1] && longer[i + 1] == path[i];
        assert Opens(gi, w, h, path[i - 1]);
      }
    }
    assert IsFloodPath(g0, w, h, longer);
  }

  lemma {:induction false} PathNewly(g0: Tiles, g1: Tiles, w: nat, h: nat, path: seq<Pos>, i: nat)
    requires Revealing(g0, g1, w, h) && Closed(g0, g1, w, h)
    requires IsFloodPath(g0, w, h, path) && At(g1, path[0]).isRevealed
    requires i < |path|
    ensures Newly(g0, g1, w, h, path[i])
  {
    if i > 0 {
      PathNewly(g0, g1, w, h, path, i - 1);
      assert Opens(g0, w, h, path[i - 1]) && Adjacent(path[i - 1], path[i]);
      assert NeighboursRevealed(g1, w, h, path[i - 1]);
    }
  }

  /** Once the start is revealed and the new reveals are closed, everything the
      start uncovers is revealed. */
  lemma FloodComplete(g0: Tiles, g1: Tiles, w: nat, h: nat, s: Pos)
    requires Revealing(g0, g1, w, h) && Closed(g0, g1, w, h)
    requires InBounds(w, h, s) && At(g1, s).isRevealed
    ensures forall q :: Reach(g0, w, h, s, q) ==> Newly(g0, g1, w, h, q)
  {
    forall q | Reach(g0, w, h, s, q) ensures Newly(g0, g1, w, h, q) {
      var path :| IsFloodPath(g0, w, h, path) && path[0] == s && path[|path| - 1] == q;
      PathNewly(g0, g1, w, h, path, |path| - 1);
    }
  }

  /** With exact adjacency counts, nothing but the start itself can be a mine. */
  lemma FloodSafe(g: Tiles, w: nat, h: nat, s: Pos, q: Pos)
    requires AdjacencyExact(g, w, h)
    requires Reach(g, w, h, s, q) && q != s
    ensures !At(g, q).isMine
  {
    var path :| IsFloodPath(g, w, h, path) && path[0] == s && path[|path| - 1] == q;
    var k := |path| - 2;
    assert Opens(g, w, h, path[k]) && Adjacent(path[k], path[k + 1]);
    ZeroAdjacentIffNoMine(g, w, h, path[k]);
  }

  /** With exact adjacency counts, the neighbours of a tile that opens are safe,
      on every later grid too. */
  lemma NeighbourSafe(g0: Tiles, g: Tiles, w: nat, h: nat, s: Pos, n: Pos)
    requires AdjacencyExact(g0, w, h) && Opens(g0, w, h, s) && Revealing(g0, g, w, h)
    requires InBounds(w, h, n) && Adjacent(s, n)
    ensures !At(g, n).isMine
  {
    ZeroAdjacentIffNoMine(g0, w, h, s);
  }

  /** One step from `a` toward `b`. */
  function Toward(a: int, b: int): int {
    if a < b then a + 1 else if a > b then a - 1 else a
  }

  /** On a grid where every tile is hidden and opens, revealing any tile
      uncovers every tile. */
  lemma {:induction false} ReachOpenGrid(g: Tiles, w: nat, h: nat, s: Pos, q: Pos)
    requires IsRect(g, w, h) && InBounds(w, h, s) && InBounds(w, h, q)
    requires forall p :: InBounds(w, h, p) ==> Opens(g, w, h, p) && !At(g, p).isRevealed
    ensures Reach(g, w, h, s, q)
    decreases (if s.x < q.x then q.x - s.x else s.x - q.x) + (if s.y < q.y then q.y - s.y else s.y - q.y)
  {
    if s == q {
      ReachStart(g, w, h, s);
    } else {
      var n := Pos(Toward(s.x, q.x), Toward(s.y, q.y));
      ReachOpenGrid(g, w, h, n, q);
      ReachPrepend(g, g, w, h, s, n, q);
    }
  }
}
