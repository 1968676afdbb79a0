// IDA* search over a single node that is changed in place and restored on
// backtracking.

module Search {
  import opened Board
  import opened Heuristic

  // Initial value of the next threshold (C's INT_MAX).
  const IntMax := 0x7fff_ffff

  /**
   * A threshold sequence grows at every pass, by at most one move plus the
   * largest heuristic, unless it has already reached IntMax.
   */
  ghost predicate Escalating(ts: seq<int>) {
    forall i :: 0 < i < |ts| ==>
      (ts[i - 1] < ts[i] || ts[i - 1] == ts[i] == IntMax) && ts[i] <= ts[i - 1] + 1 + MaxManhattan
  }

  lemma EscalatingSnoc(ts: seq<int>, next: int)
    requires Escalating(ts) && |ts| >= 1
    requires ts[|ts| - 1] < next || ts[|ts| - 1] == next == IntMax
    requires next <= ts[|ts| - 1] + 1 + MaxManhattan
    ensures Escalating(ts + [next])
  {
  }

  /**
   * What the search relies on when it generates a child of a settled node:
   * the child is a valid board, its f computed incrementally equals its
   * g + h, and the opposite move restores the parent.
   */
  lemma ChildStep(s: seq<int>, blankPos: int, op: int, g: int, f: int)
    requires IsBoard(s) && 0 <= blankPos < Squares && s[blankPos] == Blank
    requires IsOp(op) && Applicable(op, blankPos)
    requires g >= 0 && f == g + Manhattan(s)
    ensures var m, t := Moved(s, blankPos, op), Neighbour(blankPos, op);
      && IsBoard(m) && m[t] == Blank
      && f - g + HeuristicIncrement(m, t, blankPos) == Manhattan(m)
      && Manhattan(m) <= MaxManhattan
      && IsOp(Opposite(op)) && Applicable(Opposite(op), t) && Neighbour(t, Opposite(op)) == blankPos
      && Moved(m, t, Opposite(op)) == s
  {
    MovePreservesBoard(s, blankPos, op);
    IncrementMatchesManhattan(s, blankPos, op);
    MoveUndo(s, blankPos, op);
    ManhattanBounds(s);
    ManhattanBounds(Moved(s, blankPos, op));
  }

  /**
   * The pass reached the node (s, blankPos) with path cost g, entered by the
   * move `prev`, and failed there with next threshold `bound`: either the
   * node's f exceeds the threshold and is at least `bound`, or the node is
   * within the threshold, is not a goal, and the pass below it failed.
   */
  ghost predicate NodeExhausted(s: seq<int>, blankPos: int, prev: int, g: int, threshold: int, bound: int)
    decreases threshold - g + 1, 0
  {
    && |s| == Squares
    && var f := g + Manhattan(s);
       if threshold < f then bound <= f
       else Manhattan(s) != 0 && Exhausted(s, blankPos, prev, g, threshold, bound)
  }

  /** The pass below the node failed: every child the move rule allows is exhausted. */
  ghost predicate Exhausted(s: seq<int>, blankPos: int, prev: int, g: int, threshold: int, bound: int)
    decreases threshold - g, 1
  {
    forall op :: IsOp(op) && op != Opposite(prev) && |s| == Squares && 0 <= blankPos < Squares && Applicable(op, blankPos) ==>
      NodeExhausted(Moved(s, blankPos, op), Neighbour(blankPos, op), op, g + 1, threshold, bound)
  }

  /** The children reached by the allowed moves numbered below `n` are exhausted. */
  ghost predicate ExhaustedBelow(s: seq<int>, blankPos: int, prev: int, g: int, threshold: int, bound: int, n: int) {
    forall op :: IsOp(op) && op < n && op != Opposite(prev) && |s| == Squares && 0 <= blankPos < Squares && Applicable(op, blankPos) ==>
      NodeExhausted(Moved(s, blankPos, op), Neighbour(blankPos, op), op, g + 1, threshold, bound)
  }

  /**
   * `path` leads from the node (s, blankPos) with path cost g, entered by
   * `prev`, through non-goal nodes whose f is within `threshold`, to a node
   * the pass cuts off, whose f is `fe` and exceeds the threshold. The empty
   * path says the node itself is cut off.
   */
  ghost predicate Frontier(s: seq<int>, blankPos: int, prev: int, path: seq<int>, g: int, threshold: int, fe: int)
    decreases |path|
  {
    && |s| == Squares
    && if path == [] then threshold < g + Manhattan(s) && g + Manhattan(s) == fe
       else
         && g + Manhattan(s) <= threshold && Manhattan(s) != 0
         && IsOp(path[0]) && path[0] != Opposite(prev) && 0 <= blankPos < Squares && Applicable(path[0], blankPos)
         && Frontier(Moved(s, blankPos, path[0]), Neighbour(blankPos, path[0]), path[0], path[1..], g + 1, threshold, fe)
  }

  /** A cut-off path that starts below the node (s, blankPos) with a legal move. */
  ghost predicate FrontierWalk(s: seq<int>, blankPos: int, prev: int, path: seq<int>, g: int, threshold: int, fe: int) {
    && |path| >= 1 && IsOp(path[0]) && path[0] != Opposite(prev)
    && |s| == Squares && 0 <= blankPos < Squares && Applicable(path[0], blankPos)
    && Frontier(Moved(s, blankPos, path[0]), Neighbour(blankPos, path[0]), path[0], path[1..], g + 1, threshold, fe)
  }

  /** Every node along `path`, whose first node has path cost g + 1, has f within `threshold`. */
  ghost predicate WithinThreshold(s: seq<int>, blankPos: int, path: seq<int>, g: int, threshold: int)
    decreases |path|
  {
    || path == []
    || (&& IsOp(path[0]) && |s| == Squares && 0 <= blankPos < Squares && Applicable(path[0], blankPos)
        && var m := Moved(s, blankPos, path[0]);
           && g + 1 + Manhattan(m) <= threshold
           && WithinThreshold(m, Neighbour(blankPos, path[0]), path[1..], g + 1, threshold))
  }

  /**
   * What a failed pass from the root (s, blankPos) with `threshold` yields as
   * the next threshold: every node is exhausted, and the result is IntMax or
   * the f of a node the pass cut off.
   */
  ghost predicate FailedPass(s: seq<int>, blankPos: int, threshold: int, next: int) {
    && Exhausted(s, blankPos, ImpossibleDir1, 0, threshold, next)
    && (next == IntMax || exists path :: FrontierWalk(s, blankPos, ImpossibleDir1, path, 0, threshold, next))
  }

  /** Each threshold after the first is what the failed pass at the one before yields. */
  ghost predicate PassLog(s: seq<int>, blankPos: int, ts: seq<int>) {
    forall i :: 0 < i < |ts| ==> FailedPass(s, blankPos, ts[i - 1], ts[i])
  }

  /** Appending what a failed pass from the root yields keeps the threshold log. */
  lemma PassLogSnoc(s: seq<int>, blankPos: int, ts: seq<int>, next: int, cutoff: seq<int>)
    requires PassLog(s, blankPos, ts) && |ts| >= 1
    requires Exhausted(s, blankPos, ImpossibleDir1, 0, ts[|ts| - 1], next)
    requires next != IntMax ==> FrontierWalk(s, blankPos, ImpossibleDir1, cutoff, 0, ts[|ts| - 1], next)
    ensures PassLog(s, blankPos, ts + [next])
  {
    assert FailedPass(s, blankPos, ts[|ts| - 1], next);
    var ts' := ts + [next];
    forall i | 0 < i < |ts'| ensures FailedPass(s, blankPos, ts'[i - 1], ts'[i]) {
      if i < |ts| {
        assert ts'[i - 1] == ts[i - 1] && ts'[i] == ts[i];
      }
    }
  }

  /** Lowering the bound keeps a failed pass failed. */
  lemma {:induction false} NodeExhaustedMonotone(s: seq<int>, blankPos: int, prev: int, g: int, threshold: int, bound: int, bound': int)
    requires NodeExhausted(s, blankPos, prev, g, threshold, bound) && bound' <= bound
    ensures NodeExhausted(s, blankPos, prev, g, threshold, bound')
    decreases threshold - g + 1, 0
  {
    if g + Manhattan(s) <= threshold {
      ExhaustedMonotone(s, blankPos, prev, g, threshold, bound, bound');
    }
  }

  lemma {:induction false} ExhaustedMonotone(s: seq<int>, blankPos: int, prev: int, g: int, threshold: int, bound: int, bound': int)
    requires Exhausted(s, blankPos, prev, g, threshold, bound) && bound' <= bound
    ensures Exhausted(s, blankPos, prev, g, threshold, bound')
    decreases threshold - g, 1
  {
    forall op | IsOp(op) && op != Opposite(prev) && |s| == Squares && 0 <= blankPos < Squares && Applicable(op, blankPos)
      ensures NodeExhausted(Moved(s, blankPos, op), Neighbour(blankPos, op), op, g + 1, threshold, bound')
    {
      NodeExhaustedMonotone(Moved(s, blankPos, op), Neighbour(blankPos, op), op, g + 1, threshold, bound, bound');
    }
  }

  /** One more move of the loop over directions: lower the bound, and add that move's child if it is allowed. */
  lemma ExhaustedBelowStep(s: seq<int>, blankPos: int, prev: int, g: int, threshold: int, bound: int, bound': int, op: int)
    requires ExhaustedBelow(s, blankPos, prev, g, threshold, bound, op) && bound' <= bound && IsOp(op)
    requires op != Opposite(prev) && |s| == Squares && 0 <= blankPos < Squares && Applicable(op, blankPos) ==>
      NodeExhausted(Moved(s, blankPos, op), Neighbour(blankPos, op), op, g + 1, threshold, bound')
    ensures ExhaustedBelow(s, blankPos, prev, g, threshold, bound', op + 1)
    ensures op == Down ==> Exhausted(s, blankPos, prev, g, threshold, bound')
  {
    forall o | IsOp(o) && o < op && o != Opposite(prev) && |s| == Squares && 0 <= blankPos < Squares && Applicable(o, blankPos)
      ensures NodeExhausted(Moved(s, blankPos, o), Neighbour(blankPos, o), o, g + 1, threshold, bound')
    {
      NodeExhaustedMonotone(Moved(s, blankPos, o), Neighbour(blankPos, o), o, g + 1, threshold, bound, bound');
    }
  }

  /**
   * A failed pass below a node within the threshold has a bound of at most
   * one move plus the largest heuristic above the threshold: every node has
   * an allowed move, so some node below is cut off.
   */
  lemma {:induction false} ExhaustedBounded(s: seq<int>, blankPos: int, prev: int, g: int, threshold: int, bound: int)
    requires IsBoard(s) && 0 <= blankPos < Squares && s[blankPos] == Blank && g <= threshold
    requires Exhausted(s, blankPos, prev, g, threshold, bound)
    ensures bound <= threshold + 1 + MaxManhattan
    decreases threshold - g
  {
    ExistsEligibleMove(blankPos, prev);
    var op :| IsOp(op) && op != Opposite(prev) && Applicable(op, blankPos);
    var m, t := Moved(s, blankPos, op), Neighbour(blankPos, op);
    MovePreservesBoard(s, blankPos, op);
    ManhattanBounds(m);
    assert NodeExhausted(m, t, op, g + 1, threshold, bound);
    if g + 1 + Manhattan(m) <= threshold {
      ExhaustedBounded(m, t, op, g + 1, threshold, bound);
    }
  }

  /** The bound of a failed pass at a node is at most the f of every node cut off below it. */
  lemma {:induction false} NodeBoundsFrontier(s: seq<int>, blankPos: int, prev: int, g: int, threshold: int, bound: int,
                                              path: seq<int>, fe: int)
    requires NodeExhausted(s, blankPos, prev, g, threshold, bound)
    requires Frontier(s, blankPos, prev, path, g, threshold, fe)
    ensures bound <= fe
    decreases |path|
  {
    if path != [] {
      NodeBoundsFrontier(Moved(s, blankPos, path[0]), Neighbour(blankPos, path[0]), path[0], g + 1, threshold, bound,
                         path[1..], fe);
    }
  }

  /** The bound of a failed pass is the least f among the nodes it cut off: at most every one of them. */
  lemma ExhaustedBoundsFrontier(s: seq<int>, blankPos: int, prev: int, g: int, threshold: int, bound: int,
                                path: seq<int>, fe: int)
    requires Exhausted(s, blankPos, prev, g, threshold, bound)
    requires FrontierWalk(s, blankPos, prev, path, g, threshold, fe)
    ensures bound <= fe
  {
    NodeBoundsFrontier(Moved(s, blankPos, path[0]), Neighbour(blankPos, path[0]), path[0], g + 1, threshold, bound,
                       path[1..], fe);
  }

  /** After a failed pass, no walk whose nodes all have f within the threshold ends at a goal. */
  lemma {:induction false} ExhaustedNoGoal(s: seq<int>, blankPos: int, prev: int, g: int, threshold: int, bound: int,
                                           path: seq<int>, t: seq<int>, tBlank: int)
    requires Exhausted(s, blankPos, prev, g, threshold, bound)
    requires Reaches(s, blankPos, prev, path, t, tBlank) && WithinThreshold(s, blankPos, path, g, threshold)
    requires path != []
    ensures |t| == Squares && Manhattan(t) != 0
    decreases |path|
  {
    var m, mBlank := Moved(s, blankPos, path[0]), Neighbour(blankPos, path[0]);
    assert NodeExhausted(m, mBlank, path[0], g + 1, threshold, bound);
    if |path| > 1 {
      ExhaustedNoGoal(m, mBlank, path[0], g + 1, threshold, bound, path[1..], t, tBlank);
    }
  }

  /**
   * The search node (board, g, f) together with the process-wide state the
   * search shares: the cached blank position and the two statistics counters.
   */
  class Puzzle {
    const state: array<int>
    var blankPos: int
    var g: int
    var f: int
    var generated: nat
    var expanded: nat

    /** The board is a permutation, the blank cache is right, and every expansion was generated. */
    ghost predicate Valid()
      reads this, state
    {
      && state.Length == Squares
      && IsBoard(state[..])
      && 0 <= blankPos < Squares
      && state[blankPos] == Blank
      && expanded <= generated
    }

    /** The cost fields agree with the board: f = g + h. */
    ghost predicate Settled()
      reads this, state
      requires state.Length == Squares
    {
      g >= 0 && f == g + Manhattan(state[..])
    }

    /** A node for a validated initial configuration, before the search. */
    constructor (tiles: seq<int>, blank: int)
      requires IsBoard(tiles) && 0 <= blank < Squares && tiles[blank] == Blank
      ensures Valid() && fresh(state)
      ensures state[..] == tiles && blankPos == blank
      ensures g == 0 && f == 0 && generated == 0 && expanded == 0
    {
      state := new int[Squares](i requires 0 <= i < Squares => tiles[i]);
      blankPos := blank;
      g, f := 0, 0;
      generated, expanded := 0, 0;
    }

    /** Move the blank in direction `op`, swapping it with its neighbour. */
    method Apply(op: int)
      requires state.Length == Squares && 0 <= blankPos < Squares
      requires IsOp(op) && Applicable(op, blankPos)
      modifies this`blankPos, state
      ensures state[..] == Moved(old(state[..]), old(blankPos), op)
      ensures blankPos == Neighbour(old(blankPos), op)
    {
      var t := Neighbour(blankPos, op);
      state[blankPos] := state[t];
      state[t] := Blank;
      blankPos := t;
    }

    /**
     * One bounded depth-first pass below the current node. `prev` is the move
     * that led here, `newThreshold` the smallest over-bound f seen so far.
     * On success the node is left at a goal reached by `path`; on failure the
     * node is restored, every child is exhausted, and `bound` is either
     * `newThreshold` or the f of the node that `cutoff` leads to.
     */
    method Ida(threshold: int, newThreshold: int, prev: int)
      returns (found: bool, bound: int, ghost path: seq<int>, ghost cutoff: seq<int>)
      requires Valid() && Settled() && f <= threshold
      modifies this, state
      decreases threshold - g, 2
      ensures Valid()
      ensures old(generated) <= generated && old(expanded) <= expanded
      ensures expanded - old(expanded) <= generated - old(generated)
      ensures bound <= newThreshold && (bound == newThreshold || threshold < bound)
      ensures found ==>
        && Settled() && Manhattan(state[..]) == 0 && f <= threshold
        && Reaches(old(state[..]), old(blankPos), prev, path, state[..], blankPos)
        && |path| >= 1 && g == old(g) + |path|
      ensures !found ==>
        && state[..] == old(state[..]) && blankPos == old(blankPos)
        && g == old(g) && f == old(f)
        && bound <= threshold + 1 + MaxManhattan
        && Exhausted(old(state[..]), old(blankPos), prev, old(g), threshold, bound)
      ensures !found && bound != newThreshold ==>
        FrontierWalk(old(state[..]), old(blankPos), prev, cutoff, old(g), threshold, bound)
    {
      found, bound, path, cutoff := false, newThreshold, [], [];
      var op := Left;
      while op <= Down
        invariant Left <= op <= Down + 1
        invariant Valid() && Settled()
        invariant state[..] == old(state[..]) && blankPos == old(blankPos) && g == old(g) && f == old(f)
        invariant old(generated) <= generated && old(expanded) <= expanded
        invariant expanded - old(expanded) <= generated - old(generated)
        invariant bound <= newThreshold && (bound == newThreshold || threshold < bound)
        invariant ExhaustedBelow(old(state[..]), old(blankPos), prev, old(g), threshold, bound, op)
        invariant bound != newThreshold ==>
          FrontierWalk(old(state[..]), old(blankPos), prev, cutoff, old(g), threshold, bound)
      {
        var b := bound;
        if op != Opposite(prev) && Applicable(op, blankPos) {
          ghost var c;
          found, b, path, c := TryMove(threshold, bound, prev, op);
          if found {
            bound := b;
            return;
          }
          if b != bound {
            cutoff := c;
          }
        }
        ExhaustedBelowStep(old(state[..]), old(blankPos), prev, old(g), threshold, bound, b, op);
        bound := b;
        op := op + 1;
      }
      ExhaustedBounded(old(state[..]), old(blankPos), prev, old(g), threshold, bound);
    }

    /**
     * The body of the search loop for one legal move `op`: generate the
     * child in place with incrementally updated g and f, test it, and undo
     * the move unless a goal was found below it.
     */
    method TryMove(threshold: int, newThreshold: int, prev: int, op: int)
      returns (found: bool, bound: int, ghost path: seq<int>, ghost cutoff: seq<int>)
      requires Valid() && Settled() && f <= threshold
      requires IsOp(op) && op != Opposite(prev) && Applicable(op, blankPos)
      modifies this, state
      decreases threshold - g, 1
      ensures Valid()
      ensures old(generated) < generated && old(expanded) <= expanded
      ensures expanded - old(expanded) <= generated - old(generated)
      ensures bound <= newThreshold && (bound == newThreshold || threshold < bound)
      ensures found ==>
        && Settled() && Manhattan(state[..]) == 0 && f <= threshold
        && Reaches(old(state[..]), old(blankPos), prev, path, state[..], blankPos)
        && |path| >= 1 && path[0] == op && g == old(g) + |path|
      ensures !found ==>
        && state[..] == old(state[..]) && blankPos == old(blankPos)
        && g == old(g) && f == old(f)
        && NodeExhausted(Moved(old(state[..]), old(blankPos), op), Neighbour(old(blankPos), op), op, old(g) + 1, threshold, bound)
      ensures !found && bound != newThreshold ==>
        FrontierWalk(old(state[..]), old(blankPos), prev, cutoff, old(g), threshold, bound) && cutoff[0] == op
    {
      ghost var start, startBlank := state[..], blankPos;
      var tmpG, tmpF := g, f;
      MoveUndo(start, startBlank, op);
      var heuristic := Generate(op);

      ghost var p, c;
      found, bound, p, c := Visit(threshold, newThreshold, op, heuristic);
      if found {
        path, cutoff := [op] + p, [];
        WalkCons(start, startBlank, prev, op, p, state[..], blankPos);
        return;
      }
      path, cutoff := [], [op] + c;
      assert cutoff[1..] == c;
      Apply(Opposite(op));
      g, f := tmpG, tmpF;
    }

    /**
     * Generate the child reached by `op` in place: move the blank, count the
     * node, and update g and f, taking the heuristic from the parent's f - g
     * and the increment of the moved tile.
     */
    method Generate(op: int) returns (heuristic: int)
      requires Valid() && Settled()
      requires IsOp(op) && Applicable(op, blankPos)
      modifies this, state
      ensures Valid() && Settled() && heuristic == Manhattan(state[..])
      ensures state[..] == Moved(old(state[..]), old(blankPos), op) && blankPos == Neighbour(old(blankPos), op)
      ensures g == old(g) + 1 && generated == old(generated) + 1 && expanded == old(expanded)
    {
      var swappedTile := blankPos;
      ChildStep(state[..], blankPos, op, g, f);
      Apply(op);
      generated := generated + 1;
      heuristic := f - g + HeuristicIncrement(state[..], blankPos, swappedTile);
      g := g + 1;
      f := g + heuristic;
    }

    /**
     * The test of a newly generated node entered by the move `prev`, whose
     * heuristic is `heuristic`: record its f if it exceeds the threshold,
     * stop if it is a goal, or count it as expanded and search below it.
     */
    method Visit(threshold: int, newThreshold: int, prev: int, heuristic: int)
      returns (found: bool, bound: int, ghost path: seq<int>, ghost cutoff: seq<int>)
      requires Valid() && Settled() && heuristic == Manhattan(state[..]) && g <= threshold + 1
      requires expanded < generated
      modifies this, state
      decreases threshold - g + 1, 0
      ensures Valid()
      ensures old(generated) <= generated && old(expanded) <= expanded
      ensures expanded - old(expanded) <= generated - old(generated) + 1
      ensures bound <= newThreshold && (bound == newThreshold || threshold < bound)
      ensures threshold < old(f) ==> !found && bound == (if old(f) < newThreshold then old(f) else newThreshold)
      ensures threshold < old(f) || heuristic == 0 ==> generated == old(generated) && expanded == old(expanded)
      ensures old(f) <= threshold && heuristic != 0 ==> old(expanded) < expanded
      ensures found ==>
        && Settled() && Manhattan(state[..]) == 0 && f <= threshold
        && Reaches(old(state[..]), old(blankPos), prev, path, state[..], blankPos)
        && g == old(g) + |path|
      ensures !found ==>
        && state[..] == old(state[..]) && blankPos == old(blankPos)
        && g == old(g) && f == old(f)
        && bound <= threshold + 1 + MaxManhattan
        && NodeExhausted(old(state[..]), old(blankPos), prev, old(g), threshold, bound)
      ensures !found && bound != newThreshold ==>
        Frontier(old(state[..]), old(blankPos), prev, cutoff, old(g), threshold, bound)
    {
      found, bound, path, cutoff := false, newThreshold, [], [];
      ManhattanBounds(state[..]);
      if f > threshold {
        if f < bound {
          bound := f;
        }
      } else {
        if heuristic == 0 {
          found := true;
          return;
        }
        expanded := expanded + 1;
        found, bound, path, cutoff := Ida(threshold, bound, prev);
      }
    }

    /**
     * The iterative-deepening loop: search with the initial heuristic as the
     * threshold, and after each failed pass raise it to the smallest f that
     * exceeded it. At most `maxPasses` passes are run; -1 when they run out.
     */
    method ControlLoop(maxPasses: nat) returns (solution: int, ghost thresholds: seq<int>, ghost path: seq<int>)
      requires state.Length == Squares && IsBoard(state[..])
      requires 0 <= blankPos < Squares && state[blankPos] == Blank
      requires g == 0
      modifies this, state
      ensures Valid()
      ensures |thresholds| >= 1 && thresholds[0] == Manhattan(old(state[..]))
      ensures Escalating(thresholds) && PassLog(old(state[..]), old(blankPos), thresholds)
      ensures Manhattan(old(state[..])) == 0 ==>
        solution == 0 && generated == 0 && expanded == 0 && thresholds == [0]
        && state[..] == old(state[..]) && blankPos == old(blankPos)
      ensures maxPasses == 0 ==> generated == 0 && expanded == 0
      ensures solution == -1 || solution >= 0
      ensures solution >= 0 ==>
        && state[..] == Goal() && Settled() && g == solution
        && f <= thresholds[|thresholds| - 1]
        && Reaches(old(state[..]), old(blankPos), ImpossibleDir1, path, state[..], blankPos)
        && |path| == solution
      ensures solution == -1 ==>
        && |thresholds| == maxPasses + 1
        && state[..] == old(state[..]) && blankPos == old(blankPos) && g == 0 && Settled()
    {
      ghost var initial, initialBlank := state[..], blankPos;
      generated, expanded := 0, 0;
      var threshold := ComputeManhattan(state);
      f := threshold;
      ManhattanBounds(initial);
      thresholds, path := [threshold], [];

      var r := false;
      if threshold == 0 {
        r := true;
      }

      var passes := 0;
      while !r && passes < maxPasses
        invariant Valid() && Settled()
        invariant 0 <= passes <= maxPasses
        invariant |thresholds| >= 1 && thresholds[0] == Manhattan(initial)
        invariant thresholds[|thresholds| - 1] == threshold && f <= threshold <= IntMax
        invariant Escalating(thresholds) && PassLog(initial, initialBlank, thresholds)
        invariant Manhattan(initial) == 0 ==> r && generated == 0 && expanded == 0 && thresholds == [0]
        invariant passes == 0 ==> generated == 0 && expanded == 0
        invariant !r ==> state[..] == initial && blankPos == initialBlank && g == 0 && |thresholds| == passes + 1
        invariant r ==>
          && Manhattan(state[..]) == 0
          && Reaches(initial, initialBlank, ImpossibleDir1, path, state[..], blankPos)
          && |path| == g
      {
        var newThreshold;
        ghost var cutoff;
        r, newThreshold, path, cutoff := Ida(threshold, IntMax, ImpossibleDir1);
        if !r {
          PassLogSnoc(initial, initialBlank, thresholds, newThreshold, cutoff);
          EscalatingSnoc(thresholds, newThreshold);
          threshold := newThreshold;
          thresholds := thresholds + [threshold];
        }
        passes := passes + 1;
      }

      if r {
        ManhattanZeroIsGoal(state[..]);
        solution := g;
      } else {
        solution := -1;
      }
    }
  }
}
