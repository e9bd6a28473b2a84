/** The piece catalog (`TetriminoTypes::generate`): seven kinds, each with a fixed
    list of hand-written 4 by 4 rotation states and a spawn position. */
module Catalog {

  import opened Piece

  datatype Kind = I | J | L | O | S | T | Z

  /** The cell value of a kind's blocks, which also selects its colour. */
  function Id(k: Kind): (v: int)
    ensures 1 <= v <= 7
  {
    match k
    case I => 1
    case J => 2
    case L => 3
    case O => 4
    case S => 5
    case T => 6
    case Z => 7
  }

  /** Distinct kinds leave distinct values on the board. */
  lemma IdInjective(k1: Kind, k2: Kind)
    ensures Id(k1) == Id(k2) ==> k1 == k2
  {
  }

  /** How many distinct orientations each kind has. */
  function StateCount(k: Kind): nat
  {
    match k
    case I => 2
    case J => 4
    case L => 4
    case O => 1
    case S => 2
    case T => 4
    case Z => 2
  }

  function Occupied(v: int): nat
  {
    if v != 0 then 1 else 0
  }

  /** Number of occupied cells of a 4 by 4 matrix. */
  function CellCount(m: Matrix): nat
    requires IsMatrix(m)
  {
    Occupied(m[0][0]) + Occupied(m[0][1]) + Occupied(m[0][2]) + Occupied(m[0][3]) +
    Occupied(m[1][0]) + Occupied(m[1][1]) + Occupied(m[1][2]) + Occupied(m[1][3]) +
    Occupied(m[2][0]) + Occupied(m[2][1]) + Occupied(m[2][2]) + Occupied(m[2][3]) +
    Occupied(m[3][0]) + Occupied(m[3][1]) + Occupied(m[3][2]) + Occupied(m[3][3])
  }

  /** Every cell of `m` is empty or holds `v`. */
  ghost predicate OnlyValue(m: Matrix, v: int)
    requires IsMatrix(m)
  {
    forall i, j :: 0 <= i < 4 && 0 <= j < 4 ==> m[i][j] == 0 || m[i][j] == v
  }

  /** A matrix with occupied cells has an occupied cell. */
  lemma CountedCellExists(m: Matrix)
    requires IsMatrix(m) && CellCount(m) > 0
    ensures HasCell(m)
  {
  }

  /** A valid rotation state of a kind with id `v`: a 4 by 4 matrix with
      exactly four blocks, all carrying `v`. */
  ghost predicate FourBlocks(m: Matrix, v: int)
  {
    IsMatrix(m) && CellCount(m) == 4 && OnlyValue(m, v)
  }

  function StatesI(): (r: seq<Matrix>)
    ensures |r| == 2 && forall s :: 0 <= s < |r| ==> FourBlocks(r[s], 1)
  {
    [[[1, 1, 1, 1], [0, 0, 0, 0], [0, 0, 0, 0], [0, 0, 0, 0]],
     [[0, 1, 0, 0], [0, 1, 0, 0], [0, 1, 0, 0], [0, 1, 0, 0]]]
  }

  function StatesJ(): (r: seq<Matrix>)
    ensures |r| == 4 && forall s :: 0 <= s < |r| ==> FourBlocks(r[s], 2)
  {
    [[[2, 2, 2, 0], [0, 0, 2, 0], [0, 0, 0, 0], [0, 0, 0, 0]],
     [[2, 2, 0, 0], [2, 0, 0, 0], [2, 0, 0, 0], [0, 0, 0, 0]],
     [[2, 0, 0, 0], [2, 2, 2, 0], [0, 0, 0, 0], [0, 0, 0, 0]],
     [[0, 2, 0, 0], [0, 2, 0, 0], [2, 2, 0, 0], [0, 0, 0, 0]]]
  }

  function StatesL(): (r: seq<Matrix>)
    ensures |r| == 4 && forall s :: 0 <= s < |r| ==> FourBlocks(r[s], 3)
  {
    [[[3, 3, 3, 0], [3, 0, 0, 0], [0, 0, 0, 0], [0, 0, 0, 0]],
     [[3, 3, 0, 0], [0, 3, 0, 0], [0, 3, 0, 0], [0, 0, 0, 0]],
     [[0, 0, 3, 0], [3, 3, 3, 0], [0, 0, 0, 0], [0, 0, 0, 0]],
     [[3, 0, 0, 0], [3, 0, 0, 0], [3, 3, 0, 0], [0, 0, 0, 0]]]
  }

  function StatesO(): (r: seq<Matrix>)
    ensures |r| == 1 && forall s :: 0 <= s < |r| ==> FourBlocks(r[s], 4)
  {
    [[[4, 4, 0, 0], [4, 4, 0, 0], [0, 0, 0, 0], [0, 0, 0, 0]]]
  }

  function StatesS(): (r: seq<Matrix>)
    ensures |r| == 2 && forall s :: 0 <= s < |r| ==> FourBlocks(r[s], 5)
  {
    [[[0, 5, 5, 0], [5, 5, 0, 0], [0, 0, 0, 0], [0, 0, 0, 0]],
     [[0, 5, 0, 0], [0, 5, 5, 0], [0, 0, 5, 0], [0, 0, 0, 0]]]
  }

  function StatesT(): (r: seq<Matrix>)
    ensures |r| == 4 && forall s :: 0 <= s < |r| ==> FourBlocks(r[s], 6)
  {
    [[[6, 6, 6, 0], [0, 6, 0, 0], [0, 0, 0, 0], [0, 0, 0, 0]],
     [[0, 6, 0, 0], [6, 6, 0, 0], [0, 6, 0, 0], [0, 0, 0, 0]],
     [[0, 6, 0, 0], [6, 6, 6, 0], [0, 0, 0, 0], [0, 0, 0, 0]],
     [[0, 6, 0, 0], [0, 6, 6, 0], [0, 6, 0, 0], [0, 0, 0, 0]]]
  }

  function StatesZ(): (r: seq<Matrix>)
    ensures |r| == 2 && forall s :: 0 <= s < |r| ==> FourBlocks(r[s], 7)
  {
    [[[7, 7, 0, 0], [0, 7, 7, 0], [0, 0, 0, 0], [0, 0, 0, 0]],
     [[0, 0, 7, 0], [0, 7, 7, 0], [0, 7, 0, 0], [0, 0, 0, 0]]]
  }

  /** The rotation states of each kind, in the order `rotate` cycles through
      them. Each is a 4 by 4 matrix with exactly four blocks, all carrying the
      kind's id. */
  function States(k: Kind): (r: seq<Matrix>)
    ensures |r| == StateCount(k)
    ensures forall s :: 0 <= s < |r| ==> FourBlocks(r[s], Id(k))
  {
    match k
    case I => StatesI()
    case J => StatesJ()
    case L => StatesL()
    case O => StatesO()
    case S => StatesS()
    case T => StatesT()
    case Z => StatesZ()
  }

  /** Spawn column: 4, except the square, which spawns at 5. */
  function SpawnX(k: Kind): int
  {
    if k == O then 5 else 4
  }

  /** `generate`: a fresh piece of kind `k` in state 0 at its spawn column on
      row 0; it is valid and none of its states is empty. */
  function Generate(k: Kind): (p: Tetrimino)
    ensures p.states == States(k) && p.x == SpawnX(k) && p.y == 0 && p.currentState == 0
    ensures Solid(p)
  {
    var p := Tetrimino(States(k), SpawnX(k), 0, 0);
    forall s | 0 <= s < |p.states|
      ensures HasCell(p.states[s])
    {
      CountedCellExists(p.states[s]);
    }
    p
  }

}
