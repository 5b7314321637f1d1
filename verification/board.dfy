/**
 * The LED grid `[[u8; 5]; 5]` and the two in-place grid operations of
 * src/main.rs: `randomize_board` and `invert_board`. The grid itself is an
 * `array2<u8>`; `Grid` is its value, used to specify the methods.
 */
module Board {

  /** Rust's `u8`: the type of one cell. */
  newtype u8 = x: int | 0 <= x < 0x100

  /** A 5-by-5 grid of cells, row by row. */
  predicate IsGrid(g: seq<seq<u8>>)
  {
    |g| == 5 && forall r | 0 <= r < 5 :: |g[r]| == 5
  }

  type Grid = g: seq<seq<u8>> | IsGrid(g) witness [[0, 0, 0, 0, 0], [0, 0, 0, 0, 0], [0, 0, 0, 0, 0], [0, 0, 0, 0, 0], [0, 0, 0, 0, 0]]

  /** The all-dark grid `EMPTY`. */
  const EMPTY: Grid := [
    [0, 0, 0, 0, 0],
    [0, 0, 0, 0, 0],
    [0, 0, 0, 0, 0],
    [0, 0, 0, 0, 0],
    [0, 0, 0, 0, 0]
  ]

  /** The glider the board starts from. */
  const GLIDER: Grid := [
    [0, 0, 0, 0, 0],
    [0, 0, 1, 0, 0],
    [0, 0, 0, 1, 0],
    [0, 1, 1, 1, 0],
    [0, 0, 0, 0, 0]
  ]

  /** Every cell is 0 or 1. */
  predicate IsBinary(g: Grid)
  {
    forall r, c | 0 <= r < 5 && 0 <= c < 5 :: g[r][c] <= 1
  }

  /** The photo-negative of a single cell: 1 becomes 0, anything else 1. */
  function InvertCell(v: u8): u8
  {
    if v == 1 then 0 else 1
  }

  /** The photo-negative of a grid, cell by cell. */
  function Inverted(g: Grid): (h: Grid)
    ensures IsBinary(h)
    ensures forall r, c | 0 <= r < 5 && 0 <= c < 5 :: (h[r][c] == 0 <==> g[r][c] == 1)
  {
    seq(5, r requires 0 <= r < 5 => seq(5, c requires 0 <= c < 5 => InvertCell(g[r][c])))
  }

  /** Negating twice gives the grid back exactly when every cell was 0 or 1. */
  lemma InvertedTwice(g: Grid)
    ensures Inverted(Inverted(g)) == g <==> IsBinary(g)
  {
    if IsBinary(g) {
      forall r | 0 <= r < 5
        ensures Inverted(Inverted(g))[r] == g[r]
      {
        assert forall c | 0 <= c < 5 :: Inverted(Inverted(g))[r][c] == g[r][c];
      }
    }
  }

  /**
   * The grid filled, in row-major order, from the random stream `draws`
   * starting at position `pos`: cell (r, c) takes draw `pos + 5 * r + c`.
   */
  function Randomized(draws: nat -> bool, pos: nat): (g: Grid)
    ensures IsBinary(g)
    ensures forall r, c | 0 <= r < 5 && 0 <= c < 5 :: (g[r][c] == 1 <==> draws(pos + 5 * r + c))
  {
    seq(5, r requires 0 <= r < 5 => seq(5, c requires 0 <= c < 5 => if draws(pos + 5 * r + c) then 1 else 0))
  }

  /** The value held by a 5-by-5 array. */
  function Cells(board: array2<u8>): (g: Grid)
    requires board.Length0 == 5 && board.Length1 == 5
    reads board
    ensures forall r, c | 0 <= r < 5 && 0 <= c < 5 :: g[r][c] == board[r, c]
  {
    seq(5, r requires 0 <= r < 5 reads board =>
      seq(5, c requires 0 <= c < 5 reads board => board[r, c]))
  }

  /**
   * The pseudo-random generator, seen only through the booleans it hands
   * out: `draws` is its whole output stream and `pos` the number of draws
   * made so far.
   */
  class Rng {
    const draws: nat -> bool
    var pos: nat

    constructor (draws: nat -> bool)
      ensures this.draws == draws && pos == 0
    {
      this.draws := draws;
      pos := 0;
    }

    /** `rng.generate()`: the next boolean of the stream. */
    method Generate() returns (b: bool)
      modifies this
      ensures b == draws(old(pos)) && pos == old(pos) + 1
    {
      b := draws(pos);
      pos := pos + 1;
    }
  }

  /** `randomize_board`: overwrites every cell, row by row, from 25 draws. */
  method RandomizeBoard(rng: Rng, board: array2<u8>)
    requires board.Length0 == 5 && board.Length1 == 5
    modifies rng, board
    ensures rng.pos == old(rng.pos) + 25
    ensures Cells(board) == Randomized(rng.draws, old(rng.pos))
  {
    ghost var target := Randomized(rng.draws, rng.pos);
    for row := 0 to 5
      invariant rng.pos == old(rng.pos) + 5 * row
      invariant forall r, c | 0 <= r < row && 0 <= c < 5 :: board[r, c] == target[r][c]
    {
      for col := 0 to 5
        invariant rng.pos == old(rng.pos) + 5 * row + col
        invariant forall r, c | 0 <= r < row && 0 <= c < 5 :: board[r, c] == target[r][c]
        invariant forall c | 0 <= c < col :: board[row, c] == target[row][c]
      {
        var b := rng.Generate();
        if b {
          board[row, col] := 1;
        } else {
          board[row, col] := 0;
        }
      }
    }
    assert forall r | 0 <= r < 5 :: Cells(board)[r] == target[r];
  }

  /** `invert_board`: photo-negates every cell in place. */
  method InvertBoard(board: array2<u8>)
    requires board.Length0 == 5 && board.Length1 == 5
    modifies board
    ensures Cells(board) == Inverted(old(Cells(board)))
  {
    ghost var target := Inverted(Cells(board));
    for row := 0 to 5
      invariant forall r, c | 0 <= r < row && 0 <= c < 5 :: board[r, c] == target[r][c]
      invariant forall r, c | row <= r < 5 && 0 <= c < 5 :: board[r, c] == old(board[r, c])
    {
      for col := 0 to 5
        invariant forall r, c | 0 <= r < row && 0 <= c < 5 :: board[r, c] == target[r][c]
        invariant forall c | 0 <= c < col :: board[row, c] == target[row][c]
        invariant forall r, c | row <= r < 5 && 0 <= c < 5 && (r > row || c >= col) :: board[r, c] == old(board[r, c])
      {
        board[row, col] := if board[row, col] == 1 then 0 else 1;
      }
    }
    assert forall r | 0 <= r < 5 :: Cells(board)[r] == target[r];
  }
}
