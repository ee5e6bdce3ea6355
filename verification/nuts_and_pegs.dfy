/** The nuts-and-pegs puzzle: a state is a peg capacity and a sequence of pegs,
    each peg a sequence of nut colours with index 0 at the bottom and the last
    element on top. The module gives the goal test, the heuristic and the move
    generator as specification functions, the loop-based procedures that compute
    the heuristic and the successors, and the properties of a move. */
module NutsAndPegs {

  datatype NutState = NutState(pegSize: int, pegs: seq<seq<int>>)

  /** The top nut of a non-empty peg. */
  function Top(peg: seq<int>): int
    requires peg != []
  {
    peg[|peg| - 1]
  }

  predicate Monochrome(peg: seq<int>) {
    forall k :: 0 <= k < |peg| ==> peg[k] == peg[0]
  }

  predicate NoDup(xs: seq<int>) {
    forall i, j :: 0 <= i < j < |xs| ==> xs[i] != xs[j]
  }

  function Elems(xs: seq<int>): set<int> {
    set x | x in xs
  }

  /** The bottom nut of every non-empty peg, in peg order. */
  function FirstNuts(pegs: seq<seq<int>>): (firsts: seq<int>)
    ensures forall x :: x in firsts <==> exists j :: 0 <= j < |pegs| && pegs[j] != [] && pegs[j][0] == x
  {
    if pegs == [] then []
    else
      var rest := FirstNuts(pegs[1..]);
      assert forall j :: 1 <= j < |pegs| ==> pegs[1..][j - 1] == pegs[j];
      (if pegs[0] != [] then [pegs[0][0]] else []) + rest
  }

  /** The goal test: each non-empty peg holds one colour and the bottom
      colours of the non-empty pegs are pairwise distinct. */
  predicate IsGoal(s: NutState) {
    && (forall i :: 0 <= i < |s.pegs| && s.pegs[i] != [] ==> Monochrome(s.pegs[i]))
    && |FirstNuts(s.pegs)| == |Elems(FirstNuts(s.pegs))|
  }

  predicate DistinctBottoms(pegs: seq<seq<int>>) {
    forall i, j :: 0 <= i < j < |pegs| && pegs[i] != [] && pegs[j] != [] ==> pegs[i][0] != pegs[j][0]
  }

  lemma {:induction false} ElemsCard(xs: seq<int>)
    ensures |Elems(xs)| <= |xs|
    ensures |Elems(xs)| == |xs| <==> NoDup(xs)
  {
    if xs != [] {
      var rest := xs[1..];
      ElemsCard(rest);
      assert Elems(xs) == {xs[0]} + Elems(rest);
      assert forall j :: 1 <= j < |xs| ==> rest[j - 1] == xs[j];
      if xs[0] in rest {
        assert Elems(xs) == Elems(rest);
        var j :| 0 <= j < |rest| && rest[j] == xs[0];
        assert xs[0] == xs[j + 1];
      } else {
        assert |Elems(xs)| == 1 + |Elems(rest)|;
        assert NoDup(xs) <==> NoDup(rest);
      }
    }
  }

  lemma NoDupCons(x: int, tail: seq<int>)
    ensures NoDup([x] + tail) <==> x !in tail && NoDup(tail)
  {
    var xs := [x] + tail;
    assert forall j :: 1 <= j < |xs| ==> xs[j] == tail[j - 1];
    if x in tail {
      var j :| 0 <= j < |tail| && tail[j] == x;
      assert xs[0] == xs[j + 1];
    }
    if NoDup(xs) {
      forall i, j | 0 <= i < j < |tail| ensures tail[i] != tail[j] {
        assert tail[i] == xs[i + 1] && tail[j] == xs[j + 1];
      }
    }
    if NoDup(tail) && x !in tail {
      forall i, j | 0 <= i < j < |xs| ensures xs[i] != xs[j] {
        assert xs[j] == tail[j - 1];
        if i > 0 {
          assert xs[i] == tail[i - 1];
        } else {
          assert tail[j - 1] in tail;
        }
      }
    }
  }

  lemma DistinctBottomsCons(pegs: seq<seq<int>>)
    requires pegs != []
    ensures DistinctBottoms(pegs) <==>
      && DistinctBottoms(pegs[1..])
      && (pegs[0] != [] ==> forall j :: 1 <= j < |pegs| && pegs[j] != [] ==> pegs[j][0] != pegs[0][0])
  {
    var rest := pegs[1..];
    assert forall j :: 1 <= j < |pegs| ==> rest[j - 1] == pegs[j];
  }

  lemma {:induction false} FirstNutsNoDup(pegs: seq<seq<int>>)
    ensures NoDup(FirstNuts(pegs)) <==> DistinctBottoms(pegs)
  {
    if pegs != [] {
      var rest := pegs[1..];
      FirstNutsNoDup(rest);
      DistinctBottomsCons(pegs);
      var tail := FirstNuts(rest);
      if pegs[0] != [] {
        var x := pegs[0][0];
        assert FirstNuts(pegs) == [x] + tail;
        NoDupCons(x, tail);
        assert (x in tail) <==> exists j :: 1 <= j < |pegs| && pegs[j] != [] && pegs[j][0] == x by {
          assert forall j :: 1 <= j < |pegs| ==> rest[j - 1] == pegs[j];
          if x in tail {
            var j :| 0 <= j < |rest| && rest[j] != [] && rest[j][0] == x;
            assert pegs[j + 1] == rest[j];
          }
        }
      } else {
        assert FirstNuts(pegs) == tail;
      }
    }
  }

  /** Both halves of the goal test read as properties of the pegs. */
  lemma GoalCharacterization(s: NutState)
    ensures IsGoal(s) <==>
      (forall i :: 0 <= i < |s.pegs| && s.pegs[i] != [] ==> Monochrome(s.pegs[i])) && DistinctBottoms(s.pegs)
  {
    ElemsCard(FirstNuts(s.pegs));
    FirstNutsNoDup(s.pegs);
  }

  /** The bottom nuts of two runs of pegs side by side are those of each run,
      in order. */
  lemma {:induction false} FirstNutsAppend(a: seq<seq<int>>, b: seq<seq<int>>)
    ensures FirstNuts(a + b) == FirstNuts(a) + FirstNuts(b)
  {
    if a == [] {
      assert a + b == b;
    } else {
      var head := if a[0] != [] then [a[0][0]] else [];
      assert (a + b)[0] == a[0] && (a + b)[1..] == a[1..] + b;
      FirstNutsAppend(a[1..], b);
      calc {
        FirstNuts(a + b);
        head + FirstNuts(a[1..] + b);
        head + (FirstNuts(a[1..]) + FirstNuts(b));
        (head + FirstNuts(a[1..])) + FirstNuts(b);
      }
    }
  }

  /** The non-empty pegs among the first n. */
  function NonEmptyPegs(pegs: seq<seq<int>>, n: nat): set<nat>
    requires n <= |pegs|
  {
    set j: nat | j < n && pegs[j] != []
  }

  /** FirstNuts has exactly one entry per non-empty peg. */
  lemma FirstNutsCount(pegs: seq<seq<int>>)
    ensures |FirstNuts(pegs)| == |NonEmptyPegs(pegs, |pegs|)|
  {
    FirstNutsCountUpTo(pegs, |pegs|);
    assert pegs[..|pegs|] == pegs;
  }

  lemma {:induction false} FirstNutsCountUpTo(pegs: seq<seq<int>>, n: nat)
    requires n <= |pegs|
    ensures |FirstNuts(pegs[..n])| == |NonEmptyPegs(pegs, n)|
  {
    if n == 0 {
      assert NonEmptyPegs(pegs, 0) == {};
    } else {
      var m := n - 1;
      FirstNutsCountUpTo(pegs, m);
      assert |FirstNuts(pegs[..n])| == |FirstNuts(pegs[..m])| + (if pegs[m] != [] then 1 else 0) by {
        assert pegs[..n] == pegs[..m] + [pegs[m]];
        FirstNutsAppend(pegs[..m], [pegs[m]]);
        assert [pegs[m]][1..] == [];
      }
      if pegs[m] != [] {
        assert NonEmptyPegs(pegs, n) == NonEmptyPegs(pegs, m) + {m} && m !in NonEmptyPegs(pegs, m);
      } else {
        assert NonEmptyPegs(pegs, n) == NonEmptyPegs(pegs, m);
      }
    }
  }

  // ---------------------------------------------------------------------------
  // Heuristic

  /** The number of positions i in [1, n) where peg[i] differs from peg[i - 1]. */
  function PegMismatches(peg: seq<int>, n: nat): nat
    requires n <= |peg|
  {
    if n <= 1 then 0
    else PegMismatches(peg, n - 1) + (if peg[n - 1] != peg[n - 2] then 1 else 0)
  }

  /** The adjacent mismatches one peg contributes; an empty peg has none. */
  function PegCost(peg: seq<int>): nat {
    if peg == [] then 0 else PegMismatches(peg, |peg|)
  }

  /** Adjacent mismatches summed over the first m pegs. */
  function Mismatches(pegs: seq<seq<int>>, m: nat): nat
    requires m <= |pegs|
  {
    if m == 0 then 0 else Mismatches(pegs, m - 1) + PegCost(pegs[m - 1])
  }

  /** The number of entries of xs beyond the distinct colours, that is the
      entries that repeat an earlier colour; none exactly when xs has no
      duplicate. */
  function Dups(xs: seq<int>): (d: int)
    ensures d >= 0
    ensures d == 0 <==> NoDup(xs)
  {
    ElemsCard(xs);
    |xs| - |Elems(xs)|
  }

  /** Adjacent-mismatch count plus the number of non-empty pegs whose bottom
      colour repeats that of another non-empty peg. */
  function Heuristic(s: NutState): (h: int)
    ensures h >= 0
  {
    Mismatches(s.pegs, |s.pegs|) + Dups(FirstNuts(s.pegs))
  }

  lemma {:induction false} PegMismatchesZero(peg: seq<int>, n: nat)
    requires 1 <= n <= |peg|
    ensures PegMismatches(peg, n) == 0 <==> forall k :: 0 <= k < n ==> peg[k] == peg[0]
  {
    if n > 1 {
      PegMismatchesZero(peg, n - 1);
    }
  }

  lemma {:induction false} MismatchesZero(pegs: seq<seq<int>>, m: nat)
    requires m <= |pegs|
    ensures Mismatches(pegs, m) == 0 <==> forall i :: 0 <= i < m && pegs[i] != [] ==> Monochrome(pegs[i])
  {
    if m > 0 {
      MismatchesZero(pegs, m - 1);
      var peg := pegs[m - 1];
      if peg != [] {
        PegMismatchesZero(peg, |peg|);
      }
    }
  }

  /** The heuristic vanishes exactly on goal states. */
  lemma HeuristicZeroIffGoal(s: NutState)
    ensures Heuristic(s) == 0 <==> IsGoal(s)
  {
    ElemsCard(FirstNuts(s.pegs));
    MismatchesZero(s.pegs, |s.pegs|);
  }

  /** The accumulator loop that computes the heuristic. */
  method GetHeuristic(s: NutState) returns (badNuts: int)
    ensures badNuts == Heuristic(s)
    ensures badNuts == 0 <==> IsGoal(s)
  {
    badNuts := 0;
    for p := 0 to |s.pegs|
      invariant badNuts == Mismatches(s.pegs, p)
    {
      var peg := s.pegs[p];
      if peg == [] {
        continue;
      }
      for i := 1 to |peg|
        invariant badNuts == Mismatches(s.pegs, p) + PegMismatches(peg, i)
      {
        if peg[i] != peg[i - 1] {
          badNuts := badNuts + 1;
        }
      }
    }
    var firstNuts := FirstNuts(s.pegs);
    badNuts := badNuts + (|firstNuts| - |Elems(firstNuts)|);
    HeuristicZeroIffGoal(s);
  }

  // ---------------------------------------------------------------------------
  // Moves

  /** The number of nuts equal to top at the top of peg, counted downwards
      until the first nut of another colour. */
  function RunLength(peg: seq<int>, top: int): (size: nat)
    ensures size <= |peg|
    ensures forall k :: |peg| - size <= k < |peg| ==> peg[k] == top
    ensures size < |peg| ==> peg[|peg| - 1 - size] != top
  {
    if peg == [] || peg[|peg| - 1] != top then 0
    else 1 + RunLength(peg[..|peg| - 1], top)
  }

  /** The run moved off a non-empty peg: all nuts equal to the top nut
      directly below it. */
  function TopRun(peg: seq<int>): (size: nat)
    requires peg != []
    ensures 1 <= size <= |peg|
  {
    RunLength(peg, Top(peg))
  }

  /** Whether a run of size nuts of colour nut may be dropped on peg dst. */
  predicate CanDrop(s: NutState, dst: nat, nut: int, size: nat)
    requires dst < |s.pegs|
  {
    && (s.pegs[dst] == [] || Top(s.pegs[dst]) == nut)
    && |s.pegs[dst]| + size <= s.pegSize
  }

  /** The state after moving the top size nuts of peg src onto peg dst. The
      source peg is written first and the destination second, so for src == dst
      the second write wins and the peg becomes the old peg plus the run. */
  function Move(s: NutState, src: nat, dst: nat, size: nat): NutState
    requires src < |s.pegs| && dst < |s.pegs| && size <= |s.pegs[src]|
  {
    var srcPeg := s.pegs[src];
    var pegs := s.pegs[src := srcPeg[..|srcPeg| - size]];
    NutState(s.pegSize, pegs[dst := s.pegs[dst] + srcPeg[|srcPeg| - size..]])
  }

  /** The moves from the non-empty peg src to destinations [0, d), in
      ascending destination order. With selfMoves false a peg is never its
      own destination. */
  function DropsUpTo(s: NutState, src: nat, d: nat, selfMoves: bool): seq<NutState>
    requires src < |s.pegs| && s.pegs[src] != [] && d <= |s.pegs|
  {
    if d == 0 then []
    else
      var size := TopRun(s.pegs[src]);
      DropsUpTo(s, src, d - 1, selfMoves)
        + (if (selfMoves || d - 1 != src) && CanDrop(s, d - 1, Top(s.pegs[src]), size)
           then [Move(s, src, d - 1, size)] else [])
  }

  /** The moves from sources [0, n), in ascending source order. */
  function MovesUpTo(s: NutState, n: nat, selfMoves: bool): seq<NutState>
    requires n <= |s.pegs|
  {
    if n == 0 then []
    else
      MovesUpTo(s, n - 1, selfMoves)
        + (if s.pegs[n - 1] == [] then [] else DropsUpTo(s, n - 1, |s.pegs|, selfMoves))
  }

  /** The successors as the code enumerates them, self-moves included. */
  function Successors(s: NutState): seq<NutState> {
    MovesUpTo(s, |s.pegs|, true)
  }

  /** The successors with self-moves excluded, as the move rule is documented. */
  function CorrectedSuccessors(s: NutState): seq<NutState> {
    MovesUpTo(s, |s.pegs|, false)
  }

  /** t results from a legal move of the top run of peg src onto peg dst. */
  predicate IsMove(s: NutState, t: NutState, src: nat, dst: nat, selfMoves: bool) {
    && src < |s.pegs| && dst < |s.pegs|
    && s.pegs[src] != []
    && (selfMoves || src != dst)
    && CanDrop(s, dst, Top(s.pegs[src]), TopRun(s.pegs[src]))
    && t == Move(s, src, dst, TopRun(s.pegs[src]))
  }

  lemma {:induction false} DropsUpToSpec(s: NutState, src: nat, d: nat, selfMoves: bool, t: NutState)
    requires src < |s.pegs| && s.pegs[src] != [] && d <= |s.pegs|
    ensures t in DropsUpTo(s, src, d, selfMoves) <==> exists dst: nat :: dst < d && IsMove(s, t, src, dst, selfMoves)
  {
    if d > 0 {
      DropsUpToSpec(s, src, d - 1, selfMoves, t);
      var last: nat := d - 1;
      if IsMove(s, t, src, last, selfMoves) {
        assert t in DropsUpTo(s, src, d, selfMoves);
      }
      if t in DropsUpTo(s, src, d, selfMoves) && t !in DropsUpTo(s, src, d - 1, selfMoves) {
        assert IsMove(s, t, src, last, selfMoves);
      }
    }
  }

  /** t results from a legal move of the top run of peg src. */
  ghost predicate MoveFrom(s: NutState, t: NutState, src: nat, selfMoves: bool) {
    exists dst: nat :: IsMove(s, t, src, dst, selfMoves)
  }

  lemma {:induction false} MovesUpToSpec(s: NutState, n: nat, selfMoves: bool, t: NutState)
    requires n <= |s.pegs|
    ensures t in MovesUpTo(s, n, selfMoves) <==> exists src: nat :: src < n && MoveFrom(s, t, src, selfMoves)
  {
    if n > 0 {
      var last: nat := n - 1;
      var here := if s.pegs[last] == [] then [] else DropsUpTo(s, last, |s.pegs|, selfMoves);
      assert MovesUpTo(s, n, selfMoves) == MovesUpTo(s, last, selfMoves) + here;
      MovesUpToSpec(s, last, selfMoves, t);
      MovesFromSpec(s, last, selfMoves, t);
      if MoveFrom(s, t, last, selfMoves) {
        assert last < n;
      }
      if exists src: nat :: src < n && MoveFrom(s, t, src, selfMoves) {
        var src: nat :| src < n && MoveFrom(s, t, src, selfMoves);
        if src != last {
          assert src < n - 1;
        }
      }
    }
  }

  /** The moves the source loop yields for source src are exactly the legal
      moves from src; an empty source yields none. */
  lemma MovesFromSpec(s: NutState, src: nat, selfMoves: bool, t: NutState)
    requires src < |s.pegs|
    ensures t in (if s.pegs[src] == [] then [] else DropsUpTo(s, src, |s.pegs|, selfMoves)) <==> MoveFrom(s, t, src, selfMoves)
  {
    if s.pegs[src] != [] {
      DropsUpToSpec(s, src, |s.pegs|, selfMoves, t);
      if MoveFrom(s, t, src, selfMoves) {
        var dst: nat :| IsMove(s, t, src, dst, selfMoves);
        assert dst < |s.pegs|;
      }
    } else {
      forall dst: nat ensures !IsMove(s, t, src, dst, selfMoves) {
      }
    }
  }

  /** A state is a successor exactly when it results from one legal move;
      empty source pegs contribute nothing. */
  lemma SuccessorsSpec(s: NutState, t: NutState)
    ensures t in Successors(s) <==> exists src: nat, dst: nat :: IsMove(s, t, src, dst, true)
    ensures t in CorrectedSuccessors(s) <==> exists src: nat, dst: nat :: IsMove(s, t, src, dst, false)
  {
    forall selfMoves: bool
      ensures t in MovesUpTo(s, |s.pegs|, selfMoves) <==> exists src: nat, dst: nat :: IsMove(s, t, src, dst, selfMoves)
    {
      MovesUpToSpec(s, |s.pegs|, selfMoves, t);
      if exists src: nat, dst: nat :: IsMove(s, t, src, dst, selfMoves) {
        var src: nat, dst: nat :| IsMove(s, t, src, dst, selfMoves);
        assert src < |s.pegs| && MoveFrom(s, t, src, selfMoves);
      }
    }
  }

  /** The loop that counts the nuts equal to the top nut, from the top down,
      stopping at the first that differs: the size of the moved run. */
  method CountRun(srcPeg: seq<int>) returns (size: nat)
    requires srcPeg != []
    ensures size == TopRun(srcPeg)
  {
    var nutToMove := srcPeg[|srcPeg| - 1];
    size := 0;
    for i := 0 to |srcPeg|
      invariant size == i
      invariant RunLength(srcPeg, nutToMove) == size + RunLength(srcPeg[..|srcPeg| - size], nutToMove)
    {
      ghost var rest := srcPeg[..|srcPeg| - size];
      assert rest[|rest| - 1] == srcPeg[|srcPeg| - 1 - i];
      if srcPeg[|srcPeg| - 1 - i] != nutToMove {
        break;
      }
      assert rest[..|rest| - 1] == srcPeg[..|srcPeg| - (size + 1)];
      size := size + 1;
    }
  }

  /** The method that enumerates the successors with its nested loops. */
  method GetSuccessors(s: NutState) returns (succs: seq<NutState>)
    ensures succs == Successors(s)
  {
    succs := [];
    for srcI := 0 to |s.pegs|
      invariant succs == MovesUpTo(s, srcI, true)
    {
      var srcPeg := s.pegs[srcI];
      if srcPeg == [] {
        assert MovesUpTo(s, srcI + 1, true) == MovesUpTo(s, srcI, true);
        continue;
      }
      var nutToMove := srcPeg[|srcPeg| - 1];
      var size := CountRun(srcPeg);
      for dstI := 0 to |s.pegs|
        invariant succs == MovesUpTo(s, srcI, true) + DropsUpTo(s, srcI, dstI, true)
      {
        var dstPeg := s.pegs[dstI];
        if dstPeg != [] && dstPeg[|dstPeg| - 1] != nutToMove {
          continue;
        }
        if |dstPeg| + size > s.pegSize {
          continue;
        }
        var newPegs := s.pegs;
        newPegs := newPegs[srcI := srcPeg[..|srcPeg| - size]];
        newPegs := newPegs[dstI := dstPeg + srcPeg[|srcPeg| - size..]];
        assert NutState(s.pegSize, newPegs) == Move(s, srcI, dstI, TopRun(srcPeg));
        assert DropsUpTo(s, srcI, dstI + 1, true) == DropsUpTo(s, srcI, dstI, true) + [NutState(s.pegSize, newPegs)];
        succs := succs + [NutState(s.pegSize, newPegs)];
      }
      assert MovesUpTo(s, srcI + 1, true) == MovesUpTo(s, srcI, true) + DropsUpTo(s, srcI, |s.pegs|, true);
    }
  }

  // ---------------------------------------------------------------------------
  // Properties of a move

  /** Every peg holds at most pegSize nuts. */
  predicate Fits(s: NutState) {
    forall i :: 0 <= i < |s.pegs| ==> |s.pegs[i]| <= s.pegSize
  }

  /** All nuts of all pegs. */
  function Nuts(pegs: seq<seq<int>>): multiset<int> {
    if pegs == [] then multiset{} else Nuts(pegs[..|pegs| - 1]) + multiset(pegs[|pegs| - 1])
  }

  lemma {:induction false} NutsUpdate(pegs: seq<seq<int>>, i: nat, p: seq<int>)
    requires i < |pegs|
    ensures Nuts(pegs[i := p]) + multiset(pegs[i]) == Nuts(pegs) + multiset(p)
  {
    var n := |pegs|;
    var q := pegs[i := p];
    var front := pegs[..n - 1];
    assert Nuts(pegs) == Nuts(front) + multiset(pegs[n - 1]);
    if i == n - 1 {
      assert q[..n - 1] == front;
      assert Nuts(q) == Nuts(front) + multiset(p);
    } else {
      assert q[..n - 1] == front[i := p];
      assert Nuts(q) == Nuts(front[i := p]) + multiset(pegs[n - 1]);
      assert front[i] == pegs[i];
      NutsUpdate(front, i, p);
      calc {
        Nuts(q) + multiset(pegs[i]);
        Nuts(front[i := p]) + multiset(front[i]) + multiset(pegs[n - 1]);
        Nuts(front) + multiset(p) + multiset(pegs[n - 1]);
        Nuts(pegs) + multiset(p);
      }
    }
  }

  /** A move keeps the capacity and the number of pegs, and keeps every peg
      within capacity if every peg was. */
  lemma MoveKeepsShape(s: NutState, t: NutState, src: nat, dst: nat, selfMoves: bool)
    requires IsMove(s, t, src, dst, selfMoves)
    ensures t.pegSize == s.pegSize && |t.pegs| == |s.pegs|
    ensures Fits(s) ==> Fits(t)
  {
  }

  /** The same for every successor. */
  lemma SuccessorKeepsShape(s: NutState, t: NutState)
    requires t in Successors(s) || t in CorrectedSuccessors(s)
    ensures t.pegSize == s.pegSize && |t.pegs| == |s.pegs|
    ensures Fits(s) ==> Fits(t)
  {
    SuccessorsSpec(s, t);
    if t in Successors(s) {
      var src, dst :| IsMove(s, t, src, dst, true);
      MoveKeepsShape(s, t, src, dst, true);
    } else {
      var src, dst :| IsMove(s, t, src, dst, false);
      MoveKeepsShape(s, t, src, dst, false);
    }
  }

  /** A move between two distinct pegs takes the maximal top run off the
      source, appends it to the destination, leaves every other peg alone and
      conserves the nuts. */
  lemma MoveBetweenPegs(s: NutState, t: NutState, src: nat, dst: nat, selfMoves: bool)
    requires IsMove(s, t, src, dst, selfMoves) && src != dst
    ensures var p := s.pegs[src]; var size := TopRun(p);
      && (forall k :: |p| - size <= k < |p| ==> p[k] == Top(p))
      && (size < |p| ==> p[|p| - 1 - size] != Top(p))
      && t.pegs[src] == p[..|p| - size]
      && t.pegs[dst] == s.pegs[dst] + p[|p| - size..]
      && (forall k :: 0 <= k < |s.pegs| && k != src && k != dst ==> t.pegs[k] == s.pegs[k])
    ensures Nuts(t.pegs) == Nuts(s.pegs)
  {
    var p := s.pegs[src];
    var size := TopRun(p);
    var rest, run := p[..|p| - size], p[|p| - size..];
    assert t.pegs == s.pegs[src := rest][dst := s.pegs[dst] + run];
    assert Nuts(t.pegs) == Nuts(s.pegs) by {
      assert p == rest + run;
      MoveConserves(s.pegs, src, dst, rest, run);
    }
  }

  lemma MoveConserves(pegs: seq<seq<int>>, src: nat, dst: nat, rest: seq<int>, run: seq<int>)
    requires src < |pegs| && dst < |pegs| && src != dst && pegs[src] == rest + run
    ensures Nuts(pegs[src := rest][dst := pegs[dst] + run]) == Nuts(pegs)
  {
    var mid := pegs[src := rest];
    var last := mid[dst := pegs[dst] + run];
    assert mid[dst] == pegs[dst];
    NutsUpdate(pegs, src, rest);
    NutsUpdate(mid, dst, pegs[dst] + run);
    var a, m, after := Nuts(pegs), Nuts(mid), Nuts(last);
    var msRest, msRun, msDst := multiset(rest), multiset(run), multiset(pegs[dst]);
    assert m + msRest + msRun == a + msRest by {
      assert multiset(pegs[src]) == msRest + msRun;
    }
    assert after + msDst == m + msDst + msRun by {
      assert multiset(pegs[dst] + run) == msDst + msRun;
    }
    forall x ensures after[x] == a[x] {
      assert (m + msRest + msRun)[x] == (a + msRest)[x];
      assert (after + msDst)[x] == (m + msDst + msRun)[x];
    }
    assert after == Nuts(pegs);
  }

  /** A self-move (src == dst), which the code does not exclude, puts a copy of
      the top run on the same peg: the peg grows by the run and the nuts grow by
      the run's nuts. */
  lemma SelfMoveGrows(s: NutState, t: NutState, src: nat)
    requires IsMove(s, t, src, src, true)
    ensures var p := s.pegs[src]; var size := TopRun(p);
      && t.pegs[src] == p + p[|p| - size..]
      && (forall k :: 0 <= k < |s.pegs| && k != src ==> t.pegs[k] == s.pegs[k])
      && Nuts(t.pegs) == Nuts(s.pegs) + multiset(p[|p| - size..])
      && |Nuts(t.pegs)| == |Nuts(s.pegs)| + size
  {
    var p := s.pegs[src];
    var size := TopRun(p);
    var run := p[|p| - size..];
    assert t.pegs == s.pegs[src := p + run];
    NutsGrow(s.pegs, src, run);
  }

  /** Appending run to one peg adds exactly the nuts of run. */
  lemma NutsGrow(pegs: seq<seq<int>>, i: nat, run: seq<int>)
    requires i < |pegs|
    ensures Nuts(pegs[i := pegs[i] + run]) == Nuts(pegs) + multiset(run)
  {
    var p := pegs[i];
    NutsUpdate(pegs, i, p + run);
    var a, after, msP, msRun := Nuts(pegs), Nuts(pegs[i := p + run]), multiset(p), multiset(run);
    assert after + msP == a + msP + msRun by {
      assert multiset(p + run) == msP + msRun;
    }
    forall x ensures after[x] == (a + msRun)[x] {
      assert (after + msP)[x] == (a + msP + msRun)[x];
    }
    assert after == a + msRun;
  }

  /** The smallest instance of the self-move: one peg of capacity 2 holding one
      nut has, as its only successor, the peg holding two such nuts. */
  lemma SelfMoveExample()
    ensures Successors(NutState(2, [[7]])) == [NutState(2, [[7, 7]])]
    ensures |Nuts([[7, 7]])| == |Nuts([[7]])| + 1
    ensures CorrectedSuccessors(NutState(2, [[7]])) == []
  {
    var s := NutState(2, [[7]]);
    assert TopRun([7]) == 1;
    assert [7][..0] == [] && [7][0..] == [7] && [7] + [7] == [7, 7];
    assert [[7]][0 := []][0 := [7, 7]] == [[7, 7]];
    assert Move(s, 0, 0, 1) == NutState(2, [[7, 7]]);
    assert Nuts([[7, 7]]) == multiset{7, 7} by {
      assert [[7, 7]][..0] == [];
    }
    assert Nuts([[7]]) == multiset{7} by {
      assert [[7]][..0] == [];
    }
  }

  /** Every corrected successor conserves the nuts. */
  lemma CorrectedSuccessorsConserve(s: NutState, t: NutState)
    requires t in CorrectedSuccessors(s)
    ensures Nuts(t.pegs) == Nuts(s.pegs)
  {
    SuccessorsSpec(s, t);
    var src, dst :| IsMove(s, t, src, dst, false);
    MoveBetweenPegs(s, t, src, dst, false);
  }

  // ---------------------------------------------------------------------------
  // Consistency of the heuristic

  /** Replacing peg i by q changes the mismatch total by the difference of
      the two pegs' costs. */
  lemma {:induction false} MismatchesUpdate(pegs: seq<seq<int>>, i: nat, q: seq<int>, m: nat)
    requires i < |pegs| && m <= |pegs|
    ensures Mismatches(pegs[i := q], m) + (if i < m then PegCost(pegs[i]) else 0)
         == Mismatches(pegs, m) + (if i < m then PegCost(q) else 0)
  {
    if m > 0 {
      MismatchesUpdate(pegs, i, q, m - 1);
    }
  }

  lemma {:induction false} PegMismatchesPrefix(x: seq<int>, y: seq<int>, n: nat)
    requires n <= |x| && n <= |y|
    requires forall k :: 0 <= k < n ==> x[k] == y[k]
    ensures PegMismatches(x, n) == PegMismatches(y, n)
  {
    if n > 1 {
      PegMismatchesPrefix(x, y, n - 1);
    }
  }

  lemma {:induction false} PegMismatchesAppend(a: seq<int>, b: seq<int>, k: nat)
    requires k <= |b|
    ensures PegMismatches(a + b, |a| + k)
         == PegCost(a) + PegMismatches(b, k) + (if a != [] && k >= 1 && a[|a| - 1] != b[0] then 1 else 0)
  {
    if k == 0 {
      PegMismatchesPrefix(a + b, a, |a|);
    } else {
      PegMismatchesAppend(a, b, k - 1);
      assert (a + b)[|a| + k - 1] == b[k - 1];
      if k >= 2 {
        assert (a + b)[|a| + k - 2] == b[k - 2];
      } else if a != [] {
        assert (a + b)[|a| - 1] == a[|a| - 1];
      }
    }
  }

  /** Stacking b on a costs the mismatches of each plus one at the seam when
      the colours there differ. */
  lemma PegCostAppend(a: seq<int>, b: seq<int>)
    ensures PegCost(a + b) == PegCost(a) + PegCost(b) + (if a != [] && b != [] && a[|a| - 1] != b[0] then 1 else 0)
  {
    if a + b != [] {
      PegMismatchesAppend(a, b, |b|);
    } else {
      assert a == [] && b == [];
    }
  }

  /** A peg of one colour has no mismatches. */
  lemma MonochromeCost(peg: seq<int>, c: int)
    requires forall k :: 0 <= k < |peg| ==> peg[k] == c
    ensures PegCost(peg) == 0
  {
    if peg != [] {
      PegMismatchesZero(peg, |peg|);
    }
  }

  /** The bottom nuts around peg i, with q in its place. */
  lemma FirstNutsUpdate(pegs: seq<seq<int>>, i: nat, q: seq<int>)
    requires i < |pegs|
    ensures FirstNuts(pegs[i := q]) == FirstNuts(pegs[..i]) + (if q == [] then [] else [q[0]]) + FirstNuts(pegs[i + 1..])
  {
    assert pegs[i := q] == pegs[..i] + [q] + pegs[i + 1..];
    FirstNutsAppend(pegs[..i] + [q], pegs[i + 1..]);
    FirstNutsAppend(pegs[..i], [q]);
    assert [q][1..] == [];
  }

  /** A peg that keeps its bottom nut keeps FirstNuts. */
  lemma FirstNutsSameBottom(pegs: seq<seq<int>>, i: nat, q: seq<int>)
    requires i < |pegs| && pegs[i] != [] && q != [] && q[0] == pegs[i][0]
    ensures FirstNuts(pegs[i := q]) == FirstNuts(pegs)
  {
    FirstNutsUpdate(pegs, i, q);
    FirstNutsUpdate(pegs, i, pegs[i]);
    assert pegs[i := pegs[i]] == pegs;
  }

  /** One more entry adds zero or one repeated colour. */
  lemma DupsInsert(a: seq<int>, c: int, b: seq<int>)
    ensures Dups(a + b) <= Dups(a + [c] + b) <= Dups(a + b) + 1
  {
    assert Elems(a + [c] + b) == Elems(a + b) + {c};
    if c !in Elems(a + b) {
      assert |Elems(a + b) + {c}| == |Elems(a + b)| + 1;
    }
  }

  /** Filling an empty peg never lowers the repeated-bottom count and raises
      it by at most one. */
  lemma DupsFill(pegs: seq<seq<int>>, i: nat, q: seq<int>)
    requires i < |pegs| && pegs[i] == [] && q != []
    ensures Dups(FirstNuts(pegs)) <= Dups(FirstNuts(pegs[i := q])) <= Dups(FirstNuts(pegs)) + 1
  {
    FirstNutsUpdate(pegs, i, q);
    FirstNutsUpdate(pegs, i, pegs[i]);
    assert pegs[i := pegs[i]] == pegs;
    var a, b := FirstNuts(pegs[..i]), FirstNuts(pegs[i + 1..]);
    assert FirstNuts(pegs) == a + b;
    DupsInsert(a, q[0], b);
  }

  /** Moving a run of colour c off rest onto a peg that is empty or topped by
      c removes the mismatch under the run when rest is not empty, and adds
      none. */
  lemma MoveMismatches(pegs: seq<seq<int>>, moved: seq<seq<int>>, src: nat, dst: nat, rest: seq<int>, run: seq<int>, c: int)
    requires src < |pegs| && dst < |pegs| && src != dst && pegs[src] == rest + run
    requires moved == pegs[src := rest][dst := pegs[dst] + run]
    requires run != [] && forall k :: 0 <= k < |run| ==> run[k] == c
    requires rest == [] || rest[|rest| - 1] != c
    requires pegs[dst] == [] || pegs[dst][|pegs[dst]| - 1] == c
    ensures Mismatches(moved, |moved|) + (if rest != [] then 1 else 0) == Mismatches(pegs, |pegs|)
  {
    var mid := pegs[src := rest];
    var d := pegs[dst];
    assert mid[dst] == d;
    MonochromeCost(run, c);
    PegCostAppend(rest, run);
    PegCostAppend(d, run);
    MismatchesUpdate(pegs, src, rest, |pegs|);
    MismatchesUpdate(mid, dst, d + run, |pegs|);
  }

  /** Moving a run off pegs[src] onto another peg removes a repeated bottom
      colour only if it empties the source, and at most one. */
  lemma MoveDups(pegs: seq<seq<int>>, moved: seq<seq<int>>, src: nat, dst: nat, rest: seq<int>, run: seq<int>)
    requires src < |pegs| && dst < |pegs| && src != dst && pegs[src] == rest + run && run != []
    requires moved == pegs[src := rest][dst := pegs[dst] + run]
    ensures Dups(FirstNuts(pegs)) <= Dups(FirstNuts(moved)) + (if rest == [] then 1 else 0)
  {
    var mid := pegs[src := rest];
    var d := pegs[dst];
    assert mid[dst] == d;
    if rest == [] {
      assert pegs == mid[src := pegs[src]];
      DupsFill(mid, src, pegs[src]);
    } else {
      assert rest[0] == pegs[src][0];
      FirstNutsSameBottom(pegs, src, rest);
    }
    if d == [] {
      DupsFill(mid, dst, d + run);
    } else {
      assert (d + run)[0] == d[0];
      FirstNutsSameBottom(mid, dst, d + run);
    }
  }

  /** One move lowers the heuristic by at most one. */
  lemma MoveHeuristic(s: NutState, t: NutState, src: nat, dst: nat, selfMoves: bool)
    requires IsMove(s, t, src, dst, selfMoves)
    ensures Heuristic(s) <= Heuristic(t) + 1
  {
    MoveCounts(s, t, src, dst, selfMoves);
  }

  /** A move between two pegs removes the mismatch under the run only if the
      source keeps nuts, and a repeated bottom colour only if the source
      empties; a self-move changes neither count. */
  lemma MoveCounts(s: NutState, t: NutState, src: nat, dst: nat, selfMoves: bool)
    requires IsMove(s, t, src, dst, selfMoves)
    ensures Mismatches(s.pegs, |s.pegs|) + Dups(FirstNuts(s.pegs))
         <= Mismatches(t.pegs, |t.pegs|) + Dups(FirstNuts(t.pegs)) + 1
  {
    if src == dst {
      SelfMoveCounts(s, t, src, selfMoves);
    } else {
      BetweenPegsCounts(s, t, src, dst, selfMoves);
    }
  }

  lemma SelfMoveCounts(s: NutState, t: NutState, src: nat, selfMoves: bool)
    requires IsMove(s, t, src, src, selfMoves)
    ensures Mismatches(t.pegs, |t.pegs|) == Mismatches(s.pegs, |s.pegs|)
    ensures FirstNuts(t.pegs) == FirstNuts(s.pegs)
  {
    var p := s.pegs[src];
    var run := p[|p| - TopRun(p)..];
    assert t.pegs == s.pegs[src := p + run];
    SelfMoveHeuristic(s.pegs, src, run);
  }

  lemma BetweenPegsCounts(s: NutState, t: NutState, src: nat, dst: nat, selfMoves: bool)
    requires IsMove(s, t, src, dst, selfMoves) && src != dst
    ensures Mismatches(s.pegs, |s.pegs|) + Dups(FirstNuts(s.pegs))
         <= Mismatches(t.pegs, |t.pegs|) + Dups(FirstNuts(t.pegs)) + 1
  {
    var p := s.pegs[src];
    var size := TopRun(p);
    var rest, run := p[..|p| - size], p[|p| - size..];
    assert p == rest + run;
    MoveMismatches(s.pegs, t.pegs, src, dst, rest, run, Top(p));
    MoveDups(s.pegs, t.pegs, src, dst, rest, run);
  }

  /** Stacking a run of the top colour onto its own peg changes neither the
      mismatches nor the bottom nuts. */
  lemma SelfMoveHeuristic(pegs: seq<seq<int>>, i: nat, run: seq<int>)
    requires i < |pegs| && pegs[i] != []
    requires forall k :: 0 <= k < |run| ==> run[k] == Top(pegs[i])
    ensures Mismatches(pegs[i := pegs[i] + run], |pegs|) == Mismatches(pegs, |pegs|)
    ensures FirstNuts(pegs[i := pegs[i] + run]) == FirstNuts(pegs)
  {
    var p := pegs[i];
    MonochromeCost(run, Top(p));
    PegCostAppend(p, run);
    MismatchesUpdate(pegs, i, p + run, |pegs|);
    assert (p + run)[0] == p[0];
    FirstNutsSameBottom(pegs, i, p + run);
  }

  /** The heuristic is consistent for both move generators: a successor's
      heuristic is at most one less than its predecessor's. */
  lemma HeuristicConsistent(s: NutState, t: NutState)
    requires t in Successors(s) || t in CorrectedSuccessors(s)
    ensures Heuristic(s) <= Heuristic(t) + 1
  {
    SuccessorsSpec(s, t);
    if t in Successors(s) {
      var src, dst :| IsMove(s, t, src, dst, true);
      MoveHeuristic(s, t, src, dst, true);
    } else {
      var src, dst :| IsMove(s, t, src, dst, false);
      MoveHeuristic(s, t, src, dst, false);
    }
  }
}
