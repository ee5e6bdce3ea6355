/** The nuts-and-pegs puzzle plugged into the generic A* search, once with
    the move generator as the code has it and once with self-moves excluded. */
module NutSearch {
  import opened AStar
  import opened NutsAndPegs

  /** The puzzle as a game: heuristic, successors (self-moves included) and
      goal test. */
  function NutGame(): Game<NutState> {
    Game(Heuristic, Successors, IsGoal)
  }

  /** The puzzle with the corrected move generator. */
  function CorrectedNutGame(): Game<NutState> {
    Game(Heuristic, CorrectedSuccessors, IsGoal)
  }

  /** Along any sequence of moves the capacity and the number of pegs stay the
      same, and pegs within capacity stay within it. */
  lemma {:induction false} WalkKeepsShape(game: Game<NutState>, p: seq<NutState>, n: nat)
    requires game == NutGame() || game == CorrectedNutGame()
    requires IsWalk(game, p) && n < |p|
    ensures p[n].pegSize == p[0].pegSize && |p[n].pegs| == |p[0].pegs|
    ensures Fits(p[0]) ==> Fits(p[n])
  {
    if n > 0 {
      WalkKeepsShape(game, p, n - 1);
      assert p[n] in game.successors(p[n - 1]);
      SuccessorKeepsShape(p[n - 1], p[n]);
    }
  }

  /** With self-moves excluded, every state along a sequence of moves holds
      the same nuts as the first. */
  lemma {:induction false} CorrectedWalkConserves(p: seq<NutState>, n: nat)
    requires IsWalk(CorrectedNutGame(), p) && n < |p|
    ensures Nuts(p[n].pegs) == Nuts(p[0].pegs)
  {
    if n > 0 {
      CorrectedWalkConserves(p, n - 1);
      assert p[n] in CorrectedSuccessors(p[n - 1]);
      CorrectedSuccessorsConserve(p[n - 1], p[n]);
    }
  }

  /** The heuristic never overestimates: from the n-th state of a sequence of
      moves that ends solved, at least Heuristic(p[n]) moves remain. */
  lemma {:induction false} HeuristicAdmissible(game: Game<NutState>, p: seq<NutState>, n: nat)
    requires game == NutGame() || game == CorrectedNutGame()
    requires IsWalk(game, p) && n < |p| && IsGoal(p[|p| - 1])
    ensures Heuristic(p[n]) <= |p| - 1 - n
    decreases |p| - n
  {
    if n == |p| - 1 {
      HeuristicZeroIffGoal(p[n]);
    } else {
      HeuristicAdmissible(game, p, n + 1);
      assert p[n + 1] in game.successors(p[n]);
      HeuristicConsistent(p[n], p[n + 1]);
    }
  }

  /** Solves a puzzle with the move generator as written. A solution is a
      sequence of moves from init to a solved state whose heuristic is 0, with
      no solved state before the last, with the capacity and peg count of init
      throughout, and within capacity throughout when init is; Unsolvable
      means no sequence of moves solves init. */
  method SolveNuts(init: NutState, fuel: nat) returns (r: SearchResult<NutState>)
    ensures r.Found? ==> IsWalk(NutGame(), r.path) && r.path[0] == init
    ensures r.Found? ==> IsGoal(r.path[|r.path| - 1]) && Heuristic(r.path[|r.path| - 1]) == 0
    ensures r.Found? ==> forall i :: 0 <= i < |r.path| - 1 ==> !IsGoal(r.path[i])
    ensures r.Found? ==> forall i :: 0 <= i < |r.path| ==>
      r.path[i].pegSize == init.pegSize && |r.path[i].pegs| == |init.pegs| && (Fits(init) ==> Fits(r.path[i]))
    ensures r.Unsolvable? ==> forall p :: IsWalk(NutGame(), p) && p[0] == init ==> !IsGoal(p[|p| - 1])
  {
    ghost var expanded;
    r, expanded := Solve(NutGame(), init, fuel);
    if r.Found? {
      HeuristicZeroIffGoal(r.path[|r.path| - 1]);
      forall i | 0 <= i < |r.path|
        ensures r.path[i].pegSize == init.pegSize && |r.path[i].pegs| == |init.pegs|
        ensures Fits(init) ==> Fits(r.path[i])
      {
        WalkKeepsShape(NutGame(), r.path, i);
      }
    }
  }

  /** Solves a puzzle with self-moves excluded. Besides what SolveNuts
      promises, every state of a solution holds exactly the nuts of init. */
  method SolveCorrected(init: NutState, fuel: nat) returns (r: SearchResult<NutState>)
    ensures r.Found? ==> IsWalk(CorrectedNutGame(), r.path) && r.path[0] == init
    ensures r.Found? ==> IsGoal(r.path[|r.path| - 1]) && Heuristic(r.path[|r.path| - 1]) == 0
    ensures r.Found? ==> forall i :: 0 <= i < |r.path| - 1 ==> !IsGoal(r.path[i])
    ensures r.Found? ==> forall i :: 0 <= i < |r.path| ==>
      && r.path[i].pegSize == init.pegSize && |r.path[i].pegs| == |init.pegs| && (Fits(init) ==> Fits(r.path[i]))
      && Nuts(r.path[i].pegs) == Nuts(init.pegs)
    ensures r.Unsolvable? ==> forall p :: IsWalk(CorrectedNutGame(), p) && p[0] == init ==> !IsGoal(p[|p| - 1])
  {
    ghost var expanded;
    r, expanded := Solve(CorrectedNutGame(), init, fuel);
    if r.Found? {
      HeuristicZeroIffGoal(r.path[|r.path| - 1]);
      forall i | 0 <= i < |r.path|
        ensures r.path[i].pegSize == init.pegSize && |r.path[i].pegs| == |init.pegs|
        ensures Fits(init) ==> Fits(r.path[i])
        ensures Nuts(r.path[i].pegs) == Nuts(init.pegs)
      {
        WalkKeepsShape(CorrectedNutGame(), r.path, i);
        CorrectedWalkConserves(r.path, i);
      }
    }
  }
}
