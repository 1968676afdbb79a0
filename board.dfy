// The 4x4 board, the four blank moves and their legality tables.
//
// A board is a sequence of 16 tile values in row-major order; position i is
// row i / 4, column i % 4, and the value 0 is the blank.

module Board {

  const Width := 4
  const Squares := 16
  const Blank := 0

  // Direction ids of the moves of the blank, in the enumeration order of the search.
  const Left := 0
  const Right := 1
  const Up := 2
  const Down := 3

  // Sentinels that are not directions: the "previous move" of the root
  // call, and what Opposite returns for a non-direction.
  const ImpossibleDir1 := -1
  const ImpossibleDir2 := -2

  predicate IsOp(op: int) {
    Left <= op <= Down
  }

  /** A valid configuration: 16 distinct tiles, each in 0..15. */
  predicate IsBoard(s: seq<int>) {
    && |s| == Squares
    && (forall i :: 0 <= i < |s| ==> 0 <= s[i] < Squares)
    && (forall i, j :: 0 <= i < j < |s| ==> s[i] != s[j])
  }

  /** The solved configuration: tile t at index t (so the blank at index 0). */
  function Goal(): seq<int> {
    seq(Squares, i => i)
  }

  // Row and column of a value, with C's truncating division and remainder.
  function Row(v: int): int {
    if v >= 0 then v / Width else -((-v) / Width)
  }

  function Col(v: int): int {
    if v >= 0 then v % Width else -((-v) % Width)
  }

  function Abs(x: int): nat {
    if x < 0 then -x else x
  }

  // Static legality tables, indexed by the blank's position: 1 = legal.
  const ApOpLeft: seq<int> := [0, 1, 1, 1, 0, 1, 1, 1, 0, 1, 1, 1, 0, 1, 1, 1]
  const ApOpRight: seq<int> := [1, 1, 1, 0, 1, 1, 1, 0, 1, 1, 1, 0, 1, 1, 1, 0]
  const ApOpUp: seq<int> := [0, 0, 0, 0, 1, 1, 1, 1, 1, 1, 1, 1, 1, 1, 1, 1]
  const ApOpDown: seq<int> := [1, 1, 1, 1, 1, 1, 1, 1, 1, 1, 1, 1, 0, 0, 0, 0]
  const ApOps: seq<seq<int>> := [ApOpLeft, ApOpRight, ApOpUp, ApOpDown]

  /** Whether the blank at position `blankPos` may move in direction `op` (table lookup). */
  function Applicable(op: int, blankPos: int): bool
    requires IsOp(op) && 0 <= blankPos < Squares
  {
    ApOps[op][blankPos] != 0
  }

  /** The geometric meaning of the tables: the blank has a neighbour that way. */
  predicate HasNeighbour(op: int, blankPos: int) {
    || (op == Left && blankPos % Width != 0)
    || (op == Right && blankPos % Width != Width - 1)
    || (op == Up && blankPos >= Width)
    || (op == Down && blankPos < Squares - Width)
  }

  lemma ApplicableIff(op: int, blankPos: int)
    requires IsOp(op) && 0 <= blankPos < Squares
    ensures Applicable(op, blankPos) <==> HasNeighbour(op, blankPos)
  {
    var k := blankPos;
    assert k == 0 || k == 1 || k == 2 || k == 3 || k == 4 || k == 5 || k == 6 || k == 7
        || k == 8 || k == 9 || k == 10 || k == 11 || k == 12 || k == 13 || k == 14 || k == 15;
  }

  /** The position of the tile that a move of the blank swaps with. */
  function Neighbour(blankPos: int, op: int): (t: int)
    requires IsOp(op) && 0 <= blankPos < Squares && Applicable(op, blankPos)
    ensures 0 <= t < Squares && t != blankPos
  {
    ApplicableIff(op, blankPos);
    blankPos + (if op == Left then -1 else if op == Right then 1 else if op == Up then -Width else Width)
  }

  /** The swapped tile is a grid neighbour: same row and adjacent column, or the converse. */
  lemma NeighbourAdjacent(blankPos: int, op: int)
    requires IsOp(op) && 0 <= blankPos < Squares && Applicable(op, blankPos)
    ensures var t := Neighbour(blankPos, op);
      || (Row(t) == Row(blankPos) && Abs(Col(t) - Col(blankPos)) == 1)
      || (Col(t) == Col(blankPos) && Abs(Row(t) - Row(blankPos)) == 1)
  {
    ApplicableIff(op, blankPos);
  }

  /** The opposite direction; ImpossibleDir2 for anything that is not a direction. */
  function Opposite(op: int): int {
    if op == Left then Right
    else if op == Right then Left
    else if op == Up then Down
    else if op == Down then Up
    else ImpossibleDir2
  }

  lemma OppositeInvolution(op: int)
    ensures IsOp(op) ==> IsOp(Opposite(op)) && Opposite(op) != op && Opposite(Opposite(op)) == op
    ensures !IsOp(op) ==> !IsOp(Opposite(op))
  {
  }

  /** The board after moving the blank from `blankPos` in direction `op`. */
  function Moved(s: seq<int>, blankPos: int, op: int): (r: seq<int>)
    requires |s| == Squares && IsOp(op) && 0 <= blankPos < Squares && Applicable(op, blankPos)
  {
    var t := Neighbour(blankPos, op);
    s[blankPos := s[t]][t := Blank]
  }

  /** A legal move swaps the blank with its neighbour and leaves a valid board. */
  lemma MovePreservesBoard(s: seq<int>, blankPos: int, op: int)
    requires IsBoard(s) && 0 <= blankPos < Squares && s[blankPos] == Blank
    requires IsOp(op) && Applicable(op, blankPos)
    ensures IsBoard(Moved(s, blankPos, op))
    ensures Moved(s, blankPos, op)[Neighbour(blankPos, op)] == Blank
    ensures Moved(s, blankPos, op)[blankPos] == s[Neighbour(blankPos, op)]
    ensures forall i :: 0 <= i < Squares && i != blankPos && i != Neighbour(blankPos, op) ==>
      Moved(s, blankPos, op)[i] == s[i]
    ensures multiset(Moved(s, blankPos, op)) == multiset(s)
  {
  }

  /** Undoing a move: the opposite move is legal afterwards and restores board and blank. */
  lemma MoveUndo(s: seq<int>, blankPos: int, op: int)
    requires |s| == Squares && 0 <= blankPos < Squares && s[blankPos] == Blank
    requires IsOp(op) && Applicable(op, blankPos)
    ensures IsOp(Opposite(op)) && Applicable(Opposite(op), Neighbour(blankPos, op))
    ensures Neighbour(Neighbour(blankPos, op), Opposite(op)) == blankPos
    ensures Moved(Moved(s, blankPos, op), Neighbour(blankPos, op), Opposite(op)) == s
  {
    var t := Neighbour(blankPos, op);
    ApplicableIff(op, blankPos);
    ApplicableIff(Opposite(op), t);
    var r := Moved(s, blankPos, op);
    assert Moved(r, t, Opposite(op)) == r[t := r[blankPos]][blankPos := Blank];
  }

  /** Some direction other than the opposite of `prev` is legal at every blank position. */
  lemma ExistsEligibleMove(blankPos: int, prev: int)
    requires 0 <= blankPos < Squares
    ensures exists op :: IsOp(op) && op != Opposite(prev) && Applicable(op, blankPos)
  {
    ApplicableIff(Left, blankPos);
    ApplicableIff(Right, blankPos);
    ApplicableIff(Up, blankPos);
    ApplicableIff(Down, blankPos);
    if blankPos % Width != 0 && Opposite(prev) != Left {
      assert IsOp(Left) && Applicable(Left, blankPos);
    } else if blankPos % Width != Width - 1 && Opposite(prev) != Right {
      assert IsOp(Right) && Applicable(Right, blankPos);
    } else if blankPos >= Width && Opposite(prev) != Up {
      assert IsOp(Up) && Applicable(Up, blankPos);
    } else {
      assert IsOp(Down) && Applicable(Down, blankPos);
    }
  }

  /**
   * `path` is a sequence of moves leading from board `s` with the blank at
   * `blankPos` to board `t` with the blank at `tBlank`, where `prev` was the
   * move made just before: every move is legal where it is made, and no move
   * is the opposite of the one before it.
   */
  ghost predicate Reaches(s: seq<int>, blankPos: int, prev: int, path: seq<int>, t: seq<int>, tBlank: int)
    decreases |path|
  {
    if path == [] then s == t && blankPos == tBlank
    else
      && IsOp(path[0]) && path[0] != Opposite(prev)
      && |s| == Squares && 0 <= blankPos < Squares && Applicable(path[0], blankPos)
      && Reaches(Moved(s, blankPos, path[0]), Neighbour(blankPos, path[0]), path[0], path[1..], t, tBlank)
  }

  /** A legal first move followed by a walk from where it leads is a walk. */
  lemma WalkCons(s: seq<int>, blankPos: int, prev: int, op: int, rest: seq<int>, t: seq<int>, tBlank: int)
    requires |s| == Squares && 0 <= blankPos < Squares
    requires IsOp(op) && op != Opposite(prev) && Applicable(op, blankPos)
    requires Reaches(Moved(s, blankPos, op), Neighbour(blankPos, op), op, rest, t, tBlank)
    ensures Reaches(s, blankPos, prev, [op] + rest, t, tBlank)
  {
    assert ([op] + rest)[1..] == rest;
  }

  /** No two consecutive moves of a walk cancel each other. */
  lemma {:induction false} WalkNeverUndoes(s: seq<int>, blankPos: int, prev: int, path: seq<int>, t: seq<int>, tBlank: int)
    requires Reaches(s, blankPos, prev, path, t, tBlank)
    ensures |path| > 0 ==> path[0] != Opposite(prev)
    ensures forall i :: 0 < i < |path| ==> path[i] != Opposite(path[i - 1])
    decreases |path|
  {
    if path != [] {
      var rest := path[1..];
      WalkNeverUndoes(Moved(s, blankPos, path[0]), Neighbour(blankPos, path[0]), path[0], rest, t, tBlank);
      forall i | 0 < i < |path| ensures path[i] != Opposite(path[i - 1]) {
        if i > 1 {
          assert path[i] == rest[i - 1] && path[i - 1] == rest[i - 2];
        }
      }
    }
  }

  /** A walk from a valid board ends on a valid board with the blank tracked correctly. */
  lemma {:induction false} WalkKeepsBoard(s: seq<int>, blankPos: int, prev: int, path: seq<int>, t: seq<int>, tBlank: int)
    requires IsBoard(s) && 0 <= blankPos < Squares && s[blankPos] == Blank
    requires Reaches(s, blankPos, prev, path, t, tBlank)
    ensures IsBoard(t) && 0 <= tBlank < Squares && t[tBlank] == Blank
    decreases |path|
  {
    if path != [] {
      MovePreservesBoard(s, blankPos, path[0]);
      WalkKeepsBoard(Moved(s, blankPos, path[0]), Neighbour(blankPos, path[0]), path[0], path[1..], t, tBlank);
    }
  }
}
