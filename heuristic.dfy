// The Manhattan-distance heuristic, computed in full and incrementally.

module Heuristic {
  import opened Board

  const MaxManhattan := Squares * 6

  /** Distance of tile `v` at position `i` from its goal position `v`; the blank counts 0. */
  function TileDistance(v: int, i: int): nat {
    if v == Blank then 0 else Abs(Row(v) - Row(i)) + Abs(Col(v) - Col(i))
  }

  /** Sum of the tile distances over the first `n` positions. */
  function ManhattanPrefix(s: seq<int>, n: nat): (sum: nat)
    requires n <= |s|
  {
    if n == 0 then 0 else ManhattanPrefix(s, n - 1) + TileDistance(s[n - 1], n - 1)
  }

  /** The full Manhattan-distance sum of a board. */
  function Manhattan(s: seq<int>): (h: nat)
    requires |s| == Squares
  {
    ManhattanPrefix(s, Squares)
  }

  /** The accumulator loop that computes the full sum. */
  method ComputeManhattan(state: array<int>) returns (sum: int)
    requires state.Length == Squares
    ensures sum == Manhattan(state[..])
  {
    sum := 0;
    var i := 0;
    while i < Squares
      invariant 0 <= i <= Squares
      invariant sum == ManhattanPrefix(state[..], i)
    {
      if state[i] != Blank {
        sum := sum + Abs(Row(state[i]) - Row(i)) + Abs(Col(state[i]) - Col(i));
      }
      i := i + 1;
    }
  }

  /**
   * The change in the Manhattan sum caused by one move, read from the board
   * after the move: the tile now at `swappedTile` (the blank's old position)
   * came from `blankPos` (the blank's new position).
   */
  function HeuristicIncrement(state: seq<int>, blankPos: int, swappedTile: int): int
    requires 0 <= swappedTile < |state|
  {
    var t := state[swappedTile];
    Abs(Row(t) - Row(swappedTile)) - Abs(Row(t) - Row(blankPos))
      + Abs(Col(t) - Col(swappedTile)) - Abs(Col(t) - Col(blankPos))
  }

  lemma {:induction false} PrefixBounds(s: seq<int>, n: nat)
    requires |s| == Squares && n <= |s|
    requires forall i :: 0 <= i < |s| ==> 0 <= s[i] < Squares
    ensures 0 <= ManhattanPrefix(s, n) <= 6 * n
  {
    if n > 0 {
      PrefixBounds(s, n - 1);
      var v := s[n - 1];
      assert 0 <= Row(v) <= 3 && 0 <= Col(v) <= 3;
      assert 0 <= Row(n - 1) <= 3 && 0 <= Col(n - 1) <= 3;
    }
  }

  /** The heuristic of a board lies in 0..16*6. */
  lemma ManhattanBounds(s: seq<int>)
    requires IsBoard(s)
    ensures 0 <= Manhattan(s) <= MaxManhattan
  {
    PrefixBounds(s, Squares);
  }

  lemma TileDistanceZero(v: int, i: int)
    requires 0 <= v < Squares && 0 <= i < Squares
    ensures TileDistance(v, i) == 0 <==> v == Blank || v == i
  {
    if v != Blank && Row(v) == Row(i) && Col(v) == Col(i) {
      assert v == Width * (v / Width) + v % Width;
      assert i == Width * (i / Width) + i % Width;
    }
  }

  lemma {:induction false} PrefixZero(s: seq<int>, n: nat)
    requires n <= |s|
    ensures ManhattanPrefix(s, n) == 0 <==> forall i :: 0 <= i < n ==> TileDistance(s[i], i) == 0
  {
    if n > 0 {
      PrefixZero(s, n - 1);
    }
  }

  /** The heuristic is 0 exactly when every non-blank tile sits on its own index. */
  lemma ManhattanZeroIff(s: seq<int>)
    requires |s| == Squares && forall i :: 0 <= i < Squares ==> 0 <= s[i] < Squares
    ensures Manhattan(s) == 0 <==> forall i :: 0 <= i < Squares ==> s[i] == Blank || s[i] == i
  {
    PrefixZero(s, Squares);
    forall i | 0 <= i < Squares ensures TileDistance(s[i], i) == 0 <==> s[i] == Blank || s[i] == i {
      TileDistanceZero(s[i], i);
    }
  }

  /** On a valid board the heuristic is 0 exactly at the goal. */
  lemma ManhattanZeroIsGoal(s: seq<int>)
    requires IsBoard(s)
    ensures Manhattan(s) == 0 <==> s == Goal()
  {
    ManhattanZeroIff(s);
    if Manhattan(s) == 0 {
      assert s[0] == 0;
      forall i | 0 < i < Squares ensures s[i] == Goal()[i] {
        assert s[i] != s[0];
      }
    } else {
      assert forall i :: 0 <= i < Squares ==> Goal()[i] == Blank || Goal()[i] == i;
    }
  }

  /** Changing two cells of a board changes a prefix sum by the change at those cells. */
  lemma {:induction false} PrefixTwoCellChange(s: seq<int>, s': seq<int>, p: int, q: int, n: nat)
    requires |s| == |s'| && n <= |s| && 0 <= p < |s| && 0 <= q < |s| && p != q
    requires forall i :: 0 <= i < |s| && i != p && i != q ==> s'[i] == s[i]
    ensures ManhattanPrefix(s', n) - ManhattanPrefix(s, n) ==
      (if p < n then TileDistance(s'[p], p) - TileDistance(s[p], p) else 0)
      + (if q < n then TileDistance(s'[q], q) - TileDistance(s[q], q) else 0)
  {
    if n > 0 {
      PrefixTwoCellChange(s, s', p, q, n - 1);
    }
  }

  /** The increment is the moved tile's distance at its new position minus that at its old one. */
  lemma IncrementIsTileChange(state: seq<int>, blankPos: int, swappedTile: int)
    requires 0 <= swappedTile < |state| && state[swappedTile] != Blank
    ensures HeuristicIncrement(state, blankPos, swappedTile)
      == TileDistance(state[swappedTile], swappedTile) - TileDistance(state[swappedTile], blankPos)
  {
  }

  /** The incremental update agrees with recomputing the full sum after a move. */
  lemma IncrementMatchesManhattan(s: seq<int>, blankPos: int, op: int)
    requires IsBoard(s) && 0 <= blankPos < Squares && s[blankPos] == Blank
    requires IsOp(op) && Applicable(op, blankPos)
    ensures Manhattan(Moved(s, blankPos, op))
      == Manhattan(s) + HeuristicIncrement(Moved(s, blankPos, op), Neighbour(blankPos, op), blankPos)
  {
    var t := Neighbour(blankPos, op);
    var m := Moved(s, blankPos, op);
    PrefixTwoCellChange(s, m, blankPos, t, Squares);
    var v := s[t];
    assert v != Blank by { assert s[t] != s[blankPos]; }
    assert m[blankPos] == v && m[t] == Blank;
    IncrementIsTileChange(m, t, blankPos);
    assert TileDistance(s[blankPos], blankPos) == 0 && TileDistance(m[t], t) == 0;
  }

  /** Every move changes the heuristic by exactly one, up or down. */
  lemma IncrementIsUnit(s: seq<int>, blankPos: int, op: int)
    requires IsBoard(s) && 0 <= blankPos < Squares && s[blankPos] == Blank
    requires IsOp(op) && Applicable(op, blankPos)
    ensures var d := HeuristicIncrement(Moved(s, blankPos, op), Neighbour(blankPos, op), blankPos);
      d == 1 || d == -1
  {
    NeighbourAdjacent(blankPos, op);
  }
}
