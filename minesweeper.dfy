/** The game state of `src/minesweeper.rs` around one board: the custom-board
    check, the count-to-texture-name mapping, starting a game and the click
    protocol that drives the board. */
module Game {
  import opened Grid
  import opened Flood
  import opened Objs

  /** The dimensions typed into the custom-game form. */
  datatype CustomBoard = CustomBoard(width: nat, height: nat, mines: nat)

  /** The form's initial contents. */
  const DefaultCustom := CustomBoard(10, 10, 10)

  /** Whether a custom board may be started: at least 3 × 3, with fewer mines than tiles. */
  function ValidInput(width: nat, height: nat, mines: nat): (ok: bool)
    ensures !ok <==> width < 3 || height < 3 || width * height <= mines
  {
    if width < 3 || height < 3 then false
    else if mines > width * height - 1 then false
    else true
  }

  /** A board built from an accepted custom input has a tile that is not a mine. */
  lemma ValidInputLeavesSafeTile(g: Tiles, w: nat, h: nat, mines: nat, flags: nat)
    requires Consistent(g, w, h, mines, flags) && ValidInput(w, h, mines)
    ensures exists p :: InBounds(w, h, p) && !At(g, p).isMine
  {
    GridCountBound(g, w, h, Mine);
  }

  /** The name of the number textures, indexed by adjacency count. */
  const Words: seq<string> := ["zero", "one", "two", "three", "four", "five", "six", "seven", "eight"]

  /** Every texture the texture database loads. */
  const TextureNames: set<string> :=
    {"base", "flag", "mine", "zero", "one", "two", "three", "four", "five", "six", "seven", "eight"}

  /** The lowercase English word for an adjacency count; anything above eight reads "zero". */
  function NumToWord(n: nat): (r: string)
    ensures n < |Words| ==> r == Words[n]
    ensures n >= |Words| ==> r == Words[0]
  {
    match n
    case 0 => "zero"
    case 1 => "one"
    case 2 => "two"
    case 3 => "three"
    case 4 => "four"
    case 5 => "five"
    case 6 => "six"
    case 7 => "seven"
    case 8 => "eight"
    case _ => "zero"
  }

  /** Different counts on a board read as different words. */
  lemma NumToWordInjective(a: nat, b: nat)
    requires a <= 8 && b <= 8 && NumToWord(a) == NumToWord(b)
    ensures a == b
  {
    assert forall i, j :: 0 <= i < j < |Words| ==> Words[i] != Words[j];
  }

  /** Every count names a texture that is loaded, and so does every other word the board shows. */
  lemma NumToWordIsTexture(n: nat)
    ensures NumToWord(n) in TextureNames
    ensures NumToWord(n) != "base" && NumToWord(n) != "flag" && NumToWord(n) != "mine"
  {
  }

  /** The count a revealed tile of a consistent board shows is its exact number
      of adjacent mines: the fallback to "zero" is never used. */
  lemma TileWord(g: Tiles, w: nat, h: nat, mines: nat, flags: nat, p: Pos)
    requires Consistent(g, w, h, mines, flags) && InBounds(w, h, p)
    ensures NumToWord(At(g, p).adjacentMines) == Words[AdjacentMines(g, w, h, p)]
  {
  }

  /** Revealing tiles never undoes a win. */
  lemma RevealingKeepsWon(g0: Tiles, g1: Tiles, w: nat, h: nat)
    requires Revealing(g0, g1, w, h) && Won(g0, w, h)
    ensures Won(g1, w, h)
  {
  }

  /** On a fresh board without mines, the first reveal uncovers every tile and
      the game is won. */
  lemma MineFreeClickWins(g0: Tiles, g1: Tiles, w: nat, h: nat, flags: nat, s: Pos)
    requires Consistent(g0, w, h, 0, flags) && InBounds(w, h, s)
    requires forall p :: InBounds(w, h, p) ==> !At(g0, p).isRevealed
    requires FloodSpan(g0, g1, w, h, s)
    ensures IsRect(g1, w, h) && forall p :: InBounds(w, h, p) ==> At(g1, p).isRevealed
    ensures Won(g1, w, h)
  {
    ReachStart(g0, w, h, s);
    assert Newly(g0, g1, w, h, s);
    GridCountZero(g0, w, h, Mine);
    forall p | InBounds(w, h, p) ensures Opens(g0, w, h, p) {
      ZeroAdjacentIffNoMine(g0, w, h, p);
    }
    forall q | InBounds(w, h, q) ensures At(g1, q).isRevealed {
      ReachOpenGrid(g0, w, h, s, q);
    }
  }

  class Minesweeper {
    var board: Board
    var isGameOver: bool
    var isGameWon: bool
    var gameStarted: bool
    var custom: CustomBoard

    ghost predicate Valid()
      reads this, board
    {
      board.Valid()
    }

    /** The initial state: a 10 × 10 board with 10 mines, not yet started. */
    constructor ()
      ensures Valid() && fresh(board)
      ensures board.width == 10 && board.height == 10 && board.mines == 10 && board.flags == 0
      ensures !isGameOver && !isGameWon && !gameStarted && custom == DefaultCustom
    {
      board := new Board(10, 10, 10);
      isGameOver := false;
      isGameWon := false;
      gameStarted := false;
      custom := DefaultCustom;
    }

    /** Starts a game on a fresh board of the given size. */
    method NewBoard(width: nat, height: nat, mines: nat)
      requires width <= 127 && height <= 127 && mines <= 255 && mines <= width * height
      modifies this
      ensures Valid() && fresh(board)
      ensures board.width == width && board.height == height && board.mines == mines && board.flags == 0
      ensures forall p :: InBounds(width, height, p) ==>
                !At(board.tiles, p).isRevealed && !At(board.tiles, p).isFlagged
      ensures !isGameOver && !isGameWon && gameStarted && custom == old(custom)
    {
      board := new Board(width, height, mines);
      isGameOver := false;
      isGameWon := false;
      gameStarted := true;
    }

    /** Returns to the start screen, keeping the board. */
    method PromptForNewGame()
      modifies this
      ensures !gameStarted
      ensures board == old(board) && isGameOver == old(isGameOver) && isGameWon == old(isGameWon)
      ensures custom == old(custom)
    {
      gameStarted := false;
    }

    /** Records the custom-game form's values. */
    method UpdateCustomBoard(width: nat, height: nat, mines: nat)
      modifies this
      ensures custom == CustomBoard(width, height, mines)
      ensures board == old(board) && isGameOver == old(isGameOver) && isGameWon == old(isGameWon)
      ensures gameStarted == old(gameStarted)
    {
      custom := CustomBoard(width, height, mines);
    }

    /** The "Start Custom Game" button: a new board when the form's values are
        accepted, nothing otherwise. */
    method StartCustomGame()
      requires Valid()
      requires ValidInput(custom.width, custom.height, custom.mines) ==>
                 custom.width <= 127 && custom.height <= 127 && custom.mines <= 255
      modifies this
      ensures Valid() && custom == old(custom)
      ensures ValidInput(custom.width, custom.height, custom.mines) ==>
                fresh(board) && board.width == custom.width && board.height == custom.height &&
                board.mines == custom.mines && board.flags == 0 &&
                board.mines < board.width * board.height &&
                (forall p :: InBounds(custom.width, custom.height, p) ==>
                   !At(board.tiles, p).isRevealed && !At(board.tiles, p).isFlagged) &&
                !isGameOver && !isGameWon && gameStarted
      ensures !ValidInput(custom.width, custom.height, custom.mines) ==>
                board == old(board) && isGameOver == old(isGameOver) && isGameWon == old(isGameWon) &&
                gameStarted == old(gameStarted)
    {
      if ValidInput(custom.width, custom.height, custom.mines) {
        NewBoard(custom.width, custom.height, custom.mines);
      }
    }

    /** A left click on (x, y): reveal it, test for a win, and on a mine end the
        game and reveal every mine. */
    method PrimaryClick(x: nat, y: nat)
      requires Valid() && InBounds(board.width, board.height, Pos(x, y))
      modifies this, board
      ensures Valid() && board == old(board)
      ensures board.width == old(board.width) && board.height == old(board.height)
      ensures board.mines == old(board.mines) && board.flags == old(board.flags)
      ensures gameStarted == old(gameStarted) && custom == old(custom)
      ensures isGameOver <==> !At(old(board.tiles), Pos(x, y)).isRevealed && At(old(board.tiles), Pos(x, y)).isMine
      ensures isGameWon <==> Won(board.tiles, board.width, board.height)
      ensures Won(old(board.tiles), board.width, board.height) ==> isGameWon
      ensures isGameOver ==> Exposes(old(board.tiles), board.tiles, board.width, board.height)
      ensures !isGameOver ==>
                Revealing(old(board.tiles), board.tiles, board.width, board.height) &&
                FloodSpan(old(board.tiles), board.tiles, board.width, board.height, Pos(x, y)) &&
                forall p :: Newly(old(board.tiles), board.tiles, board.width, board.height, p) ==>
                  !At(board.tiles, p).isMine
    {
      ghost var g0 := board.tiles;
      isGameOver := board.SelectTile(x, y);
      if Won(g0, board.width, board.height) {
        RevealingKeepsWon(g0, board.tiles, board.width, board.height);
      }
      isGameWon := board.IsWin();
      if isGameOver {
        ghost var g1 := board.tiles;
        board.OnLost();
        ExposesKeepsWon(g1, board.tiles, board.width, board.height);
        ExposesAfterReveal(g0, board.tiles, board.width, board.height, Pos(x, y));
      }
    }

    /** A right click on (x, y): toggle its flag; nothing else in the game changes. */
    method SecondaryClick(x: nat, y: nat)
      requires Valid() && InBounds(board.width, board.height, Pos(x, y))
      modifies board
      ensures Valid()
      ensures board.width == old(board.width) && board.height == old(board.height)
      ensures board.mines == old(board.mines)
      ensures board.tiles == ToggleFlag(old(board.tiles), Pos(x, y))
      ensures board.flags == if At(old(board.tiles), Pos(x, y)).isRevealed then old(board.flags)
                             else if At(old(board.tiles), Pos(x, y)).isFlagged then old(board.flags) - 1
                             else old(board.flags) + 1
    {
      board.FlagTile(x, y);
    }
  }
}
