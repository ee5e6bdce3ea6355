/** Generic A* search over any game given by a heuristic, a successor
    function and a goal test. The open set holds (f, counter, state) entries
    and is popped in lexicographic (f, counter) order; the search keeps a
    visited set, a best-known cost g for every discovered state and a parent
    link for path reconstruction. Every move costs 1. */
module AStar {

  datatype Option<T> = None | Some(value: T)

  /** The three operations a game supplies to the search. */
  datatype Game<!S> = Game(heuristic: S -> int, successors: S -> seq<S>, isGoal: S -> bool)

  /** An open-set entry: priority f, insertion counter, state. */
  datatype Entry<S> = Entry(f: int, counter: nat, state: S)

  /** A path found, the space exhausted, or the iteration bound reached. */
  datatype SearchResult<S> = Found(path: seq<S>) | Unsolvable | OutOfFuel

  /** Lexicographic order on (f, counter), the order in which entries pop. */
  predicate KeyLess<S>(a: Entry<S>, b: Entry<S>) {
    a.f < b.f || (a.f == b.f && a.counter < b.counter)
  }

  /** A non-empty sequence of states each of which is a successor of the one before. */
  predicate IsWalk<S(==)>(game: Game<S>, p: seq<S>) {
    |p| >= 1 && forall i :: 0 <= i < |p| - 1 ==> p[i + 1] in game.successors(p[i])
  }

  function Reverse<T>(s: seq<T>): (r: seq<T>)
    ensures |r| == |s|
    ensures forall i :: 0 <= i < |s| ==> r[i] == s[|s| - 1 - i]
  {
    if s == [] then [] else [s[|s| - 1]] + Reverse(s[..|s| - 1])
  }

  // ---------------------------------------------------------------------------
  // Invariants of the search's bookkeeping

  /** Parent links and costs agree: the initial state has cost 0 and no
      parent, and every other recorded state was reached in one move from its
      parent and costs one more. */
  ghost predicate Linked<S>(game: Game<S>, init: S, g: map<S, nat>, parent: map<S, Option<S>>) {
    && parent.Keys == g.Keys
    && init in g && g[init] == 0 && parent[init] == None
    && (forall s :: s in parent && parent[s].None? ==> s == init)
    && (forall s :: s in parent && parent[s].Some? ==>
          && parent[s].value in g
          && s != init
          && s in game.successors(parent[s].value)
          && g[s] == g[parent[s].value] + 1)
  }

  /** Only expanded states are parents. */
  ghost predicate ParentsIn<S>(parent: map<S, Option<S>>, visited: set<S>) {
    forall s :: s in parent && parent[s].Some? ==> parent[s].value in visited
  }

  /** Every entry's state is discovered and its priority is at least its
      current cost plus its heuristic (the cost only falls after a push);
      counters rise along the open set and stay below the next counter. */
  ghost predicate OpenOk<S>(game: Game<S>, g: map<S, nat>, open: seq<Entry<S>>, counter: nat) {
    && (forall i :: 0 <= i < |open| ==>
          && open[i].state in g
          && g[open[i].state] + game.heuristic(open[i].state) <= open[i].f
          && open[i].counter < counter)
    && (forall i, j :: 0 <= i < j < |open| ==> open[i].counter < open[j].counter)
  }

  /** The states that still have an entry in the open set. */
  ghost function Pending<S>(open: seq<Entry<S>>): set<S> {
    set e | e in open :: e.state
  }

  /** The path from the initial state to s along parent links. */
  ghost function ChainTo<S>(game: Game<S>, init: S, g: map<S, nat>, parent: map<S, Option<S>>, s: S): (path: seq<S>)
    requires Linked(game, init, g, parent) && s in parent
    ensures |path| == g[s] + 1
    ensures path[0] == init && path[|path| - 1] == s
    ensures IsWalk(game, path)
    ensures forall i :: 0 <= i < |path| ==> path[i] in g && g[path[i]] == i
    decreases g[s]
  {
    match parent[s]
    case None => [s]
    case Some(p) => ChainTo(game, init, g, parent, p) + [s]
  }

  /** A path rebuilt from parent links visits no state twice, since the cost
      rises by one at every step. */
  lemma ChainToDistinct<S>(game: Game<S>, init: S, g: map<S, nat>, parent: map<S, Option<S>>, s: S)
    requires Linked(game, init, g, parent) && s in parent
    ensures var path := ChainTo(game, init, g, parent, s);
      forall i, j :: 0 <= i < j < |path| ==> path[i] != path[j]
  {
    var path := ChainTo(game, init, g, parent, s);
    forall i, j | 0 <= i < j < |path| ensures path[i] != path[j] {
      assert g[path[i]] == i && g[path[j]] == j;
    }
  }

  /** Every state of the chain before s is the parent of the next one, so it
      was expanded. */
  lemma {:induction false} ChainToVisited<S>(game: Game<S>, init: S, g: map<S, nat>, parent: map<S, Option<S>>,
                                             visited: set<S>, s: S)
    requires Linked(game, init, g, parent) && s in parent && ParentsIn(parent, visited)
    ensures forall i :: 0 <= i < |ChainTo(game, init, g, parent, s)| - 1 ==> ChainTo(game, init, g, parent, s)[i] in visited
    decreases g[s]
  {
    match parent[s]
    case None =>
    case Some(p) =>
      ChainToVisited(game, init, g, parent, visited, p);
      assert ChainTo(game, init, g, parent, s) == ChainTo(game, init, g, parent, p) + [s];
  }

  // ---------------------------------------------------------------------------
  // Operations

  /** The index of an entry with the smallest (f, counter) key. */
  method ArgMin<S>(open: seq<Entry<S>>) returns (k: nat)
    requires open != []
    ensures k < |open|
    ensures forall i :: 0 <= i < |open| ==> !KeyLess(open[i], open[k])
  {
    k := 0;
    for i := 1 to |open|
      invariant k < i
      invariant forall j :: 0 <= j < i ==> !KeyLess(open[j], open[k])
    {
      if KeyLess(open[i], open[k]) {
        k := i;
      }
    }
  }

  /** Counters rise along the open set, so no two entries share a key and the
      entry ArgMin picks is strictly below every other: pops follow the
      lexicographic (f, counter) order with no tie left to break. */
  lemma PoppedKeyUnique<S>(open: seq<Entry<S>>, k: nat)
    requires forall i, j :: 0 <= i < j < |open| ==> open[i].counter < open[j].counter
    requires k < |open| && forall i :: 0 <= i < |open| ==> !KeyLess(open[i], open[k])
    ensures forall i :: 0 <= i < |open| && i != k ==> KeyLess(open[k], open[i])
  {
    forall i | 0 <= i < |open| && i != k ensures KeyLess(open[k], open[i]) {
      assert open[i].counter != open[k].counter;
    }
  }

  /** Follows parent links from goal back to the initial state, collecting
      the states, and returns them reversed. */
  method Reconstruct<S(==)>(ghost game: Game<S>, ghost init: S, ghost g: map<S, nat>, parent: map<S, Option<S>>, goal: S)
    returns (path: seq<S>)
    requires Linked(game, init, g, parent) && goal in parent
    ensures path == ChainTo(game, init, g, parent, goal)
  {
    var rev: seq<S> := [];
    var current: Option<S> := Some(goal);
    while current.Some?
      invariant current.Some? ==> current.value in parent
      invariant (if current.Some? then ChainTo(game, init, g, parent, current.value) else []) + Reverse(rev)
                == ChainTo(game, init, g, parent, goal)
      decreases if current.Some? then g[current.value] + 1 else 0
    {
      var c := current.value;
      assert Reverse(rev + [c]) == [c] + Reverse(rev) by {
        assert (rev + [c])[..|rev|] == rev;
      }
      rev := rev + [c];
      current := if c in parent then parent[c] else None;
    }
    path := Reverse(rev);
  }

  /** Expands current: every successor not yet visited whose cost improves
      (or that is new) gets cost g[current] + 1, parent current and a fresh
      open-set entry; nothing else changes. */
  method Expand<S(==)>(game: Game<S>, ghost init: S, current: S, visited: set<S>,
                       g0: map<S, nat>, parent0: map<S, Option<S>>, open0: seq<Entry<S>>, counter0: nat)
    returns (g: map<S, nat>, parent: map<S, Option<S>>, open: seq<Entry<S>>, counter: nat)
    requires Linked(game, init, g0, parent0) && ParentsIn(parent0, visited)
    requires current in visited && init in visited && visited <= g0.Keys
    requires OpenOk(game, g0, open0, counter0)
    ensures ExpandInv(game, init, current, visited, g0, parent0, open0, counter0, game.successors(current), g, parent, open, counter)
    ensures ExpandRelaxes(current, visited, g0, parent0, open0, game.successors(current), g, parent, open)
  {
    g, parent, open, counter := g0, parent0, open0, counter0;
    var succs := game.successors(current);
    for i := 0 to |succs|
      invariant ExpandInv(game, init, current, visited, g0, parent0, open0, counter0, succs[..i], g, parent, open, counter)
      invariant ExpandRelaxes(current, visited, g0, parent0, open0, succs[..i], g, parent, open)
    {
      var successor := succs[i];
      PrefixStep(succs, i);
      var g1, parent1, open1, counter1 := g, parent, open, counter;
      var tentative := g[current] + 1;
      var e := Entry(tentative + game.heuristic(successor), counter, successor);
      if successor !in visited && (successor !in g || tentative < g[successor]) {
        g1 := g[successor := tentative];
        parent1 := parent[successor := Some(current)];
        open1 := open + [e];
        counter1 := counter + 1;
      }
      ExpandStep(game, init, current, visited, g0, parent0, open0, counter0, succs[..i], g, parent, open, counter,
                 successor, e, g1, parent1, open1, counter1);
      g, parent, open, counter := g1, parent1, open1, counter1;
    }
    assert succs[..|succs|] == succs;
  }

  /** The prefix of length i + 1 is the prefix of length i and element i. */
  lemma PrefixStep<T>(xs: seq<T>, i: nat)
    requires i < |xs|
    ensures xs[..i + 1] == xs[..i] + [xs[i]]
  {
  }

  /** What holds after Expand has handled the successors in done, starting
      from g0, parent0, open0 and counter0: the bookkeeping invariants; the
      discovered states are the old ones plus the unvisited successors handled;
      costs only fall; a visited state keeps its cost and parent; a state whose
      cost was set or lowered has parent current and cost g0[current] + 1; the
      old entries stay in place and each new entry, for an unvisited
      successor, carries the next counter and f = g0[current] + 1 + heuristic;
      and every newly discovered state has an entry. */
  ghost predicate ExpandInv<S>(game: Game<S>, init: S, current: S, visited: set<S>,
                               g0: map<S, nat>, parent0: map<S, Option<S>>, open0: seq<Entry<S>>, counter0: nat,
                               done: seq<S>, g: map<S, nat>, parent: map<S, Option<S>>, open: seq<Entry<S>>, counter: nat)
  {
    && parent0.Keys == g0.Keys && current in g0
    && Linked(game, init, g, parent) && ParentsIn(parent, visited)
    && OpenOk(game, g, open, counter)
    && (forall s :: s in g ==> s in g0 || (s in done && s !in visited))
    && (forall s :: s in g0 ==> s in g)
    && (forall s :: s in done && s !in visited ==> s in g)
    && (forall s :: s in g0 ==> g[s] <= g0[s])
    && (forall s :: s in visited ==> s in g0 && g[s] == g0[s] && parent[s] == parent0[s])
    && (forall s :: s in g && (s !in g0 || g[s] < g0[s]) ==> parent[s] == Some(current) && g[s] == g0[current] + 1)
    && |open| >= |open0| && open[..|open0|] == open0
    && counter == counter0 + (|open| - |open0|)
    && (forall j :: |open0| <= j < |open| ==>
          && open[j].counter == counter0 + (j - |open0|)
          && open[j].state in done && open[j].state !in visited
          && open[j].f == g0[current] + 1 + game.heuristic(open[j].state))
    && g.Keys - g0.Keys <= Pending(open)
  }

  /** Which states Expand relaxes, after handling the successors in done: a
      state's cost or parent changes only if it is an unvisited successor
      handled and its cost was set or lowered; every unvisited successor
      handled costs at most g0[current] + 1, so its cost is the smaller of its
      old cost and g0[current] + 1; and the new entries are exactly one per
      state whose cost was set or lowered. */
  ghost predicate ExpandRelaxes<S>(current: S, visited: set<S>,
                                   g0: map<S, nat>, parent0: map<S, Option<S>>, open0: seq<Entry<S>>,
                                   done: seq<S>, g: map<S, nat>, parent: map<S, Option<S>>, open: seq<Entry<S>>)
  {
    && current in g0 && |open0| <= |open|
    && (forall s :: s in g && (s !in g0 || g[s] < g0[s]) ==> s in done && s !in visited)
    && (forall s :: s in g0 && s in g && g[s] == g0[s] ==> s in parent && s in parent0 && parent[s] == parent0[s])
    && (forall s :: s in done && s !in visited ==> s in g && g[s] <= g0[current] + 1)
    && (forall j :: |open0| <= j < |open| ==>
          open[j].state in g && (open[j].state !in g0 || g[open[j].state] < g0[open[j].state]))
    && (forall i, j :: |open0| <= i < j < |open| ==> open[i].state != open[j].state)
    && (forall s :: s in g && (s !in g0 || g[s] < g0[s]) ==> s in Pending(open[|open0|..]))
    && (forall i, j :: |open0| <= i < j < |open| && open[i].state in done && open[j].state in done ==>
          FirstIndex(done, open[i].state) < FirstIndex(done, open[j].state))
  }

  /** The position of the first occurrence of x in xs. */
  ghost function FirstIndex<S>(xs: seq<S>, x: S): (k: nat)
    requires x in xs
    ensures k < |xs| && xs[k] == x
    ensures forall i :: 0 <= i < k ==> xs[i] != x
  {
    if xs[0] == x then 0 else 1 + FirstIndex(xs[1..], x)
  }

  /** Appending to a sequence keeps the first position of what it held. */
  lemma FirstIndexAppend<S>(xs: seq<S>, t: S, x: S)
    requires x in xs
    ensures FirstIndex(xs + [t], x) == FirstIndex(xs, x)
  {
    var a, b := FirstIndex(xs + [t], x), FirstIndex(xs, x);
    assert (xs + [t])[b] == x;
  }

  /** Handling one successor, relaxed or skipped, keeps both loop invariants
      of Expand. */
  lemma ExpandStep<S>(game: Game<S>, init: S, current: S, visited: set<S>,
                      g0: map<S, nat>, parent0: map<S, Option<S>>, open0: seq<Entry<S>>, counter0: nat,
                      done: seq<S>, g: map<S, nat>, parent: map<S, Option<S>>, open: seq<Entry<S>>, counter: nat,
                      t: S, e: Entry<S>, g': map<S, nat>, parent': map<S, Option<S>>, open': seq<Entry<S>>, counter': nat)
    requires ExpandInv(game, init, current, visited, g0, parent0, open0, counter0, done, g, parent, open, counter)
    requires ExpandRelaxes(current, visited, g0, parent0, open0, done, g, parent, open)
    requires current in visited && init in visited && t in game.successors(current)
    requires e == Entry(g[current] + 1 + game.heuristic(t), counter, t)
    requires if t !in visited && (t !in g || g[current] + 1 < g[t])
      then g' == g[t := g[current] + 1] && parent' == parent[t := Some(current)] && open' == open + [e] && counter' == counter + 1
      else g' == g && parent' == parent && open' == open && counter' == counter
    ensures ExpandInv(game, init, current, visited, g0, parent0, open0, counter0, done + [t], g', parent', open', counter')
    ensures ExpandRelaxes(current, visited, g0, parent0, open0, done + [t], g', parent', open')
  {
    if t !in visited && (t !in g || g[current] + 1 < g[t]) {
      RelaxStep(game, init, current, visited, g0, parent0, open0, counter0, done, g, parent, open, counter, t, e);
      RelaxRelaxes(current, visited, g0, parent0, open0, done, g, parent, open, t, e);
    } else {
      SkipStep(game, init, current, visited, g0, parent0, open0, counter0, done, g, parent, open, counter, t);
      SkipRelaxes(current, visited, g0, parent0, open0, done, g, parent, open, t);
    }
  }

  /** A successor that is visited or not improved leaves everything as it was. */
  lemma SkipStep<S>(game: Game<S>, init: S, current: S, visited: set<S>,
                    g0: map<S, nat>, parent0: map<S, Option<S>>, open0: seq<Entry<S>>, counter0: nat,
                    done: seq<S>, g: map<S, nat>, parent: map<S, Option<S>>, open: seq<Entry<S>>, counter: nat, t: S)
    requires ExpandInv(game, init, current, visited, g0, parent0, open0, counter0, done, g, parent, open, counter)
    requires current in visited
    requires t in visited || (t in g && g[current] + 1 >= g[t])
    ensures ExpandInv(game, init, current, visited, g0, parent0, open0, counter0, done + [t], g, parent, open, counter)
  {
  }

  /** A skipped successor relaxes nothing. */
  lemma SkipRelaxes<S>(current: S, visited: set<S>,
                       g0: map<S, nat>, parent0: map<S, Option<S>>, open0: seq<Entry<S>>,
                       done: seq<S>, g: map<S, nat>, parent: map<S, Option<S>>, open: seq<Entry<S>>, t: S)
    requires ExpandRelaxes(current, visited, g0, parent0, open0, done, g, parent, open)
    requires current in g && g[current] == g0[current]
    requires t in visited || (t in g && g[current] + 1 >= g[t])
    ensures ExpandRelaxes(current, visited, g0, parent0, open0, done + [t], g, parent, open)
  {
    forall x | x in done {
      FirstIndexAppend(done, t, x);
    }
  }

  /** Relaxing an unvisited successor whose cost improves sets its cost to
      g0[current] + 1 and pushes its only new entry. */
  lemma RelaxRelaxes<S>(current: S, visited: set<S>,
                        g0: map<S, nat>, parent0: map<S, Option<S>>, open0: seq<Entry<S>>,
                        done: seq<S>, g: map<S, nat>, parent: map<S, Option<S>>, open: seq<Entry<S>>,
                        t: S, e: Entry<S>)
    requires ExpandRelaxes(current, visited, g0, parent0, open0, done, g, parent, open)
    requires parent.Keys == g.Keys && g0.Keys <= g.Keys && current in g && g[current] == g0[current]
    requires forall s :: s in g0 ==> g[s] <= g0[s]
    requires forall s :: s in g && (s !in g0 || g[s] < g0[s]) ==> g[s] == g0[current] + 1
    requires t !in visited && (t !in g || g[current] + 1 < g[t]) && e.state == t
    ensures ExpandRelaxes(current, visited, g0, parent0, open0, done + [t],
                          g[t := g[current] + 1], parent[t := Some(current)], open + [e])
  {
    RelaxSetsCost(current, visited, g0, parent0, done, g, parent, t);
    RelaxPushesOnce(current, g0, open0, g, open, t, e);
    RelaxPending(g0, open0, g, open, t, g[current] + 1, e);
    RelaxKeepsOrder(current, visited, g0, open0, done, g, open, t, e);
  }

  /** The entry pushed for a relaxed successor comes after every other new
      entry, and t was not handled before, so the new entries stay in the
      order in which their states first appear among the successors. */
  lemma RelaxKeepsOrder<S>(current: S, visited: set<S>, g0: map<S, nat>, open0: seq<Entry<S>>,
                           done: seq<S>, g: map<S, nat>, open: seq<Entry<S>>, t: S, e: Entry<S>)
    requires |open0| <= |open| && current in g0 && current in g && g[current] == g0[current]
    requires forall s :: s in g && (s !in g0 || g[s] < g0[s]) ==> s in done && s !in visited
    requires forall s :: s in done && s !in visited ==> s in g && g[s] <= g0[current] + 1
    requires forall j :: |open0| <= j < |open| ==>
      open[j].state in g && (open[j].state !in g0 || g[open[j].state] < g0[open[j].state])
    requires forall i, j :: |open0| <= i < j < |open| && open[i].state in done && open[j].state in done ==>
      FirstIndex(done, open[i].state) < FirstIndex(done, open[j].state)
    requires t !in visited && (t !in g || g[current] + 1 < g[t]) && e.state == t
    ensures var done', open' := done + [t], open + [e];
      forall i, j :: |open0| <= i < j < |open'| && open'[i].state in done' && open'[j].state in done' ==>
        FirstIndex(done', open'[i].state) < FirstIndex(done', open'[j].state)
  {
    var done', open' := done + [t], open + [e];
    assert t !in done;
    assert FirstIndex(done', t) == |done|;
    forall i, j | |open0| <= i < j < |open'| && open'[i].state in done' && open'[j].state in done'
      ensures FirstIndex(done', open'[i].state) < FirstIndex(done', open'[j].state)
    {
      assert open'[i] == open[i];
      assert open[i].state in done;
      FirstIndexAppend(done, t, open[i].state);
      if j < |open| {
        assert open'[j] == open[j];
        FirstIndexAppend(done, t, open[j].state);
      }
    }
  }

  /** After relaxing t, every state whose cost was set or lowered has a new
      entry. */
  lemma RelaxPending<S>(g0: map<S, nat>, open0: seq<Entry<S>>, g: map<S, nat>, open: seq<Entry<S>>,
                        t: S, cost: nat, e: Entry<S>)
    requires |open0| <= |open|
    requires forall s :: s in g && (s !in g0 || g[s] < g0[s]) ==> s in Pending(open[|open0|..])
    requires e.state == t
    ensures forall s :: s in g[t := cost] && (s !in g0 || g[t := cost][s] < g0[s]) ==>
      s in Pending((open + [e])[|open0|..])
  {
    assert (open + [e])[|open0|..] == open[|open0|..] + [e];
    PendingAppend(open[|open0|..], e);
  }

  /** Relaxing t changes the cost and parent of t alone, to g0[current] + 1
      and current. */
  lemma RelaxSetsCost<S>(current: S, visited: set<S>, g0: map<S, nat>, parent0: map<S, Option<S>>,
                         done: seq<S>, g: map<S, nat>, parent: map<S, Option<S>>, t: S)
    requires g0.Keys <= g.Keys && current in g0 && current in g && g[current] == g0[current]
    requires forall s :: s in g0 ==> g[s] <= g0[s]
    requires forall s :: s in g && (s !in g0 || g[s] < g0[s]) ==> s in done && s !in visited
    requires forall s :: s in g0 && s in g && g[s] == g0[s] ==> s in parent && s in parent0 && parent[s] == parent0[s]
    requires forall s :: s in done && s !in visited ==> s in g && g[s] <= g0[current] + 1
    requires t !in visited && (t !in g || g[current] + 1 < g[t])
    ensures var g', parent', done' := g[t := g[current] + 1], parent[t := Some(current)], done + [t];
      && (forall s :: s in g' && (s !in g0 || g'[s] < g0[s]) ==> s in done' && s !in visited)
      && (forall s :: s in g0 && s in g' && g'[s] == g0[s] ==> s in parent' && s in parent0 && parent'[s] == parent0[s])
      && (forall s :: s in done' && s !in visited ==> s in g' && g'[s] <= g0[current] + 1)
  {
  }

  /** The entry pushed for a relaxed successor is its only new entry, and its
      cost did improve. */
  lemma RelaxPushesOnce<S>(current: S, g0: map<S, nat>, open0: seq<Entry<S>>, g: map<S, nat>, open: seq<Entry<S>>,
                           t: S, e: Entry<S>)
    requires |open0| <= |open| && g0.Keys <= g.Keys && current in g0 && current in g && g[current] == g0[current]
    requires forall s :: s in g0 ==> g[s] <= g0[s]
    requires forall s :: s in g && (s !in g0 || g[s] < g0[s]) ==> g[s] == g0[current] + 1
    requires forall j :: |open0| <= j < |open| ==>
      open[j].state in g && (open[j].state !in g0 || g[open[j].state] < g0[open[j].state])
    requires forall i, j :: |open0| <= i < j < |open| ==> open[i].state != open[j].state
    requires (t !in g || g[current] + 1 < g[t]) && e.state == t
    ensures var g', open' := g[t := g[current] + 1], open + [e];
      && (forall j :: |open0| <= j < |open'| ==>
            open'[j].state in g' && (open'[j].state !in g0 || g'[open'[j].state] < g0[open'[j].state]))
      && (forall i, j :: |open0| <= i < j < |open'| ==> open'[i].state != open'[j].state)
  {
    var g', open' := g[t := g[current] + 1], open + [e];
    forall j | |open0| <= j < |open'|
      ensures open'[j].state in g' && (open'[j].state !in g0 || g'[open'[j].state] < g0[open'[j].state])
    {
      if j < |open| {
        assert open'[j] == open[j];
      }
    }
    forall i, j | |open0| <= i < j < |open'| ensures open'[i].state != open'[j].state {
      if j == |open| {
        assert open'[i] == open[i];
      }
    }
  }

  /** Relaxing an unvisited successor whose cost improves keeps the loop
      invariant of Expand. */
  lemma RelaxStep<S>(game: Game<S>, init: S, current: S, visited: set<S>,
                     g0: map<S, nat>, parent0: map<S, Option<S>>, open0: seq<Entry<S>>, counter0: nat,
                     done: seq<S>, g: map<S, nat>, parent: map<S, Option<S>>, open: seq<Entry<S>>, counter: nat,
                     t: S, e: Entry<S>)
    requires ExpandInv(game, init, current, visited, g0, parent0, open0, counter0, done, g, parent, open, counter)
    requires current in visited && init in visited
    requires t !in visited && t in game.successors(current)
    requires t !in g || g[current] + 1 < g[t]
    requires e == Entry(g[current] + 1 + game.heuristic(t), counter, t)
    ensures ExpandInv(game, init, current, visited, g0, parent0, open0, counter0, done + [t],
                      g[t := g[current] + 1], parent[t := Some(current)], open + [e], counter + 1)
  {
    RelaxKeepsInvariants(game, init, visited, current, g, parent, open, counter, t);
    RelaxCosts(current, visited, g0, parent0, done, g, parent, t);
    RelaxEntries(game, current, visited, g0, open0, counter0, done, g, open, counter, t, e);
  }

  /** Relaxing t gives it cost g0[current] + 1 and parent current and leaves
      every other state's cost and parent alone. */
  lemma RelaxCosts<S>(current: S, visited: set<S>, g0: map<S, nat>, parent0: map<S, Option<S>>,
                      done: seq<S>, g: map<S, nat>, parent: map<S, Option<S>>, t: S)
    requires current in visited && parent0.Keys == g0.Keys && parent.Keys == g.Keys && current in g0
    requires forall s :: s in g ==> s in g0 || (s in done && s !in visited)
    requires forall s :: s in g0 ==> s in g
    requires forall s :: s in done && s !in visited ==> s in g
    requires forall s :: s in g0 ==> g[s] <= g0[s]
    requires forall s :: s in visited ==> s in g0 && g[s] == g0[s] && parent[s] == parent0[s]
    requires forall s :: s in g && (s !in g0 || g[s] < g0[s]) ==> parent[s] == Some(current) && g[s] == g0[current] + 1
    requires t !in visited && (t !in g || g[current] + 1 < g[t])
    ensures var g', parent', done' := g[t := g[current] + 1], parent[t := Some(current)], done + [t];
      && (forall s :: s in g' ==> s in g0 || (s in done' && s !in visited))
      && (forall s :: s in g0 ==> s in g')
      && (forall s :: s in done' && s !in visited ==> s in g')
      && (forall s :: s in g0 ==> g'[s] <= g0[s])
      && (forall s :: s in visited ==> s in g0 && g'[s] == g0[s] && parent'[s] == parent0[s])
      && (forall s :: s in g' && (s !in g0 || g'[s] < g0[s]) ==> parent'[s] == Some(current) && g'[s] == g0[current] + 1)
  {
  }

  /** Pushing the entry of a relaxed successor keeps the old entries in place
      and gives the new one the next counter and f = g0[current] + 1 +
      heuristic. */
  lemma RelaxEntries<S>(game: Game<S>, current: S, visited: set<S>, g0: map<S, nat>, open0: seq<Entry<S>>, counter0: nat,
                        done: seq<S>, g: map<S, nat>, open: seq<Entry<S>>, counter: nat, t: S, e: Entry<S>)
    requires current in visited && current in g0 && current in g && g[current] == g0[current]
    requires |open| >= |open0| && open[..|open0|] == open0
    requires counter == counter0 + (|open| - |open0|)
    requires forall j :: |open0| <= j < |open| ==>
      && open[j].counter == counter0 + (j - |open0|)
      && open[j].state in done && open[j].state !in visited
      && open[j].f == g0[current] + 1 + game.heuristic(open[j].state)
    requires g.Keys - g0.Keys <= Pending(open)
    requires t !in visited && e == Entry(g[current] + 1 + game.heuristic(t), counter, t)
    ensures var g', open', done' := g[t := g[current] + 1], open + [e], done + [t];
      && |open'| >= |open0| && open'[..|open0|] == open0
      && counter + 1 == counter0 + (|open'| - |open0|)
      && (forall j :: |open0| <= j < |open'| ==>
            && open'[j].counter == counter0 + (j - |open0|)
            && open'[j].state in done' && open'[j].state !in visited
            && open'[j].f == g0[current] + 1 + game.heuristic(open'[j].state))
      && g'.Keys - g0.Keys <= Pending(open')
  {
    var open' := open + [e];
    PendingAppend(open, e);
    assert open'[..|open0|] == open[..|open0|];
    forall j | |open0| <= j < |open'|
      ensures open'[j].counter == counter0 + (j - |open0|)
      ensures open'[j].state in done + [t] && open'[j].state !in visited
      ensures open'[j].f == g0[current] + 1 + game.heuristic(open'[j].state)
    {
      if j < |open| {
        assert open'[j] == open[j];
      }
    }
  }

  lemma PendingAppend<S>(open: seq<Entry<S>>, e: Entry<S>)
    ensures Pending(open + [e]) == Pending(open) + {e.state}
  {
    assert forall x :: x in open + [e] <==> x in open || x == e;
  }

  /** Recording a cheaper cost for an unvisited successor and pushing its
      entry keeps the bookkeeping invariants. */
  lemma RelaxKeepsInvariants<S>(game: Game<S>, init: S, visited: set<S>, current: S,
                                g: map<S, nat>, parent: map<S, Option<S>>, open: seq<Entry<S>>, counter: nat, t: S)
    requires Linked(game, init, g, parent) && ParentsIn(parent, visited) && OpenOk(game, g, open, counter)
    requires current in visited && current in g && init in visited
    requires t !in visited && t in game.successors(current)
    requires t !in g || g[current] + 1 < g[t]
    ensures var g', parent' := g[t := g[current] + 1], parent[t := Some(current)];
      && Linked(game, init, g', parent')
      && ParentsIn(parent', visited)
      && OpenOk(game, g', open + [Entry(g[current] + 1 + game.heuristic(t), counter, t)], counter + 1)
  {
    var g', parent' := g[t := g[current] + 1], parent[t := Some(current)];
    forall s | s in parent' && parent'[s].Some?
      ensures parent'[s].value in g' && s != init && s in game.successors(parent'[s].value)
      ensures g'[s] == g'[parent'[s].value] + 1
    {
      if s != t {
        assert parent'[s] == parent[s];
        assert parent[s].value in visited;
      }
    }
    var open' := open + [Entry(g[current] + 1 + game.heuristic(t), counter, t)];
    forall i | 0 <= i < |open'|
      ensures open'[i].state in g' && g'[open'[i].state] + game.heuristic(open'[i].state) <= open'[i].f
      ensures open'[i].counter < counter + 1
    {
      if i < |open| {
        assert open'[i] == open[i];
      }
    }
  }

  /** Removing the entry at k loses at most its state from the pending set. */
  lemma PendingRemove<S>(open: seq<Entry<S>>, k: nat)
    requires k < |open|
    ensures Pending(open) - {open[k].state} <= Pending(open[..k] + open[k + 1..])
  {
    var rest := open[..k] + open[k + 1..];
    forall s | s in Pending(open) - {open[k].state} ensures s in Pending(rest) {
      var e :| e in open && e.state == s;
      var i :| 0 <= i < |open| && open[i] == e;
      if i < k {
        assert rest[i] == e;
      } else {
        assert rest[i - 1] == e;
      }
    }
  }

  /** Removing an entry keeps the open-set invariant. */
  lemma OpenOkRemove<S>(game: Game<S>, g: map<S, nat>, open: seq<Entry<S>>, counter: nat, k: nat)
    requires k < |open| && OpenOk(game, g, open, counter)
    ensures OpenOk(game, g, open[..k] + open[k + 1..], counter)
  {
    var rest := open[..k] + open[k + 1..];
    assert forall i :: 0 <= i < |rest| ==> rest[i] == open[if i < k then i else i + 1];
  }

  lemma PendingPrefix<S>(open: seq<Entry<S>>, longer: seq<Entry<S>>)
    requires |open| <= |longer| && longer[..|open|] == open
    ensures Pending(open) <= Pending(longer)
  {
    forall s | s in Pending(open) ensures s in Pending(longer) {
      var e :| e in open && e.state == s;
      var i :| 0 <= i < |open| && open[i] == e;
      assert longer[i] == e;
    }
  }

  /** The loop invariant of Solve. Besides the bookkeeping invariants: every
      discovered state that is not yet expanded still has an entry in the open
      set; the successors of every expanded state are discovered; expanded
      lists the visited states once each, none of them a goal; and a parent
      was expanded before any expanded state it is the parent of. */
  ghost predicate SearchInv<S>(game: Game<S>, init: S, visited: set<S>, g: map<S, nat>, parent: map<S, Option<S>>,
                               open: seq<Entry<S>>, counter: nat, expanded: seq<S>)
  {
    && Linked(game, init, g, parent) && ParentsIn(parent, visited)
    && OpenOk(game, g, open, counter)
    && visited <= g.Keys
    && (visited == {} ==> forall i :: 0 <= i < |open| ==> open[i].state == init)
    && (visited != {} ==> init in visited)
    && g.Keys - visited <= Pending(open)
    && (forall s, t :: s in visited && t in game.successors(s) ==> t in g)
    && (forall s :: s in visited ==> s in expanded)
    && (forall i :: 0 <= i < |expanded| ==> expanded[i] in visited)
    && (forall i, j :: 0 <= i < j < |expanded| ==> expanded[i] != expanded[j])
    && (forall i :: 0 <= i < |expanded| ==> !game.isGoal(expanded[i]))
    && (forall i, j :: 0 <= i < |expanded| && 0 <= j < |expanded| && parent[expanded[j]] == Some(expanded[i]) ==> i < j)
  }

  /** Marks the popped state visited and expands it, with the popped entry
      removed from the open set: the new costs, parents and entries are those
      Expand promises, and the search invariant holds afterwards with the
      state appended to the expansion order. */
  method VisitAndExpand<S(==)>(game: Game<S>, ghost init: S, visited: set<S>, g: map<S, nat>, parent: map<S, Option<S>>,
                               open: seq<Entry<S>>, counter: nat, ghost expanded: seq<S>, k: nat)
    returns (g': map<S, nat>, parent': map<S, Option<S>>, open': seq<Entry<S>>, counter': nat)
    requires SearchInv(game, init, visited, g, parent, open, counter, expanded)
    requires k < |open| && open[k].state !in visited && !game.isGoal(open[k].state)
    ensures var current := open[k].state;
      SearchInv(game, init, visited + {current}, g', parent', open', counter', expanded + [current])
    ensures var current := open[k].state;
      ExpandInv(game, init, current, visited + {current}, g, parent, open[..k] + open[k + 1..], counter,
                game.successors(current), g', parent', open', counter')
    ensures var current := open[k].state;
      ExpandRelaxes(current, visited + {current}, g, parent, open[..k] + open[k + 1..],
                    game.successors(current), g', parent', open')
  {
    var current := open[k].state;
    OpenOkRemove(game, g, open, counter, k);
    assert visited == {} ==> current == init;
    g', parent', open', counter' :=
      Expand(game, init, current, visited + {current}, g, parent, open[..k] + open[k + 1..], counter);
    PopExpand(game, init, visited, g, parent, open, counter, expanded, k, g', parent', open', counter');
  }

  /** Dropping a stale entry (its state already expanded) keeps the invariant. */
  lemma PopStale<S>(game: Game<S>, init: S, visited: set<S>, g: map<S, nat>, parent: map<S, Option<S>>,
                    open: seq<Entry<S>>, counter: nat, expanded: seq<S>, k: nat)
    requires SearchInv(game, init, visited, g, parent, open, counter, expanded)
    requires k < |open| && open[k].state in visited
    ensures SearchInv(game, init, visited, g, parent, open[..k] + open[k + 1..], counter, expanded)
  {
    PendingRemove(open, k);
    OpenOkRemove(game, g, open, counter, k);
  }

  /** Popping an unvisited non-goal state, marking it visited and expanding it
      keeps the invariant. */
  lemma PopExpand<S>(game: Game<S>, init: S, visited: set<S>, g: map<S, nat>, parent: map<S, Option<S>>,
                     open: seq<Entry<S>>, counter: nat, expanded: seq<S>, k: nat,
                     g': map<S, nat>, parent': map<S, Option<S>>, open': seq<Entry<S>>, counter': nat)
    requires SearchInv(game, init, visited, g, parent, open, counter, expanded)
    requires k < |open| && open[k].state !in visited && !game.isGoal(open[k].state)
    requires var current := open[k].state;
      ExpandInv(game, init, current, visited + {current}, g, parent, open[..k] + open[k + 1..], counter,
                game.successors(current), g', parent', open', counter')
    ensures var current := open[k].state;
      SearchInv(game, init, visited + {current}, g', parent', open', counter', expanded + [current])
  {
    var current := open[k].state;
    PopExpandBookkeeping(init, visited, g, open, k, g', open');
    forall t | t in game.successors(current) ensures t in g' {
      if t !in visited + {current} {
        assert t in game.successors(current)[..];
      }
    }
    PopExpandClosed(game, visited, g, current, g');
    PopExpandOrder(game, visited, parent, expanded, current, parent');
  }

  lemma PopExpandBookkeeping<S>(init: S, visited: set<S>, g: map<S, nat>, open: seq<Entry<S>>, k: nat,
                                g': map<S, nat>, open': seq<Entry<S>>)
    requires visited <= g.Keys && g.Keys - visited <= Pending(open)
    requires visited == {} ==> forall i :: 0 <= i < |open| ==> open[i].state == init
    requires visited != {} ==> init in visited
    requires k < |open| && open[k].state in g
    requires g.Keys <= g'.Keys && g'.Keys - g.Keys <= Pending(open')
    requires var open1 := open[..k] + open[k + 1..]; |open1| <= |open'| && open'[..|open1|] == open1
    ensures var visited1 := visited + {open[k].state};
      && visited1 <= g'.Keys
      && init in visited1
      && g'.Keys - visited1 <= Pending(open')
  {
    var current := open[k].state;
    var visited1, open1 := visited + {current}, open[..k] + open[k + 1..];
    PendingRemove(open, k);
    PendingPrefix(open1, open');
    assert visited == {} ==> current == init;
    forall s | s in g'.Keys - visited1 ensures s in Pending(open') {
      if s in g {
        assert s in Pending(open1);
      }
    }
  }

  lemma PopExpandClosed<S>(game: Game<S>, visited: set<S>, g: map<S, nat>, current: S, g': map<S, nat>)
    requires forall s, t :: s in visited && t in game.successors(s) ==> t in g
    requires forall s :: s in g ==> s in g'
    requires forall t :: t in game.successors(current) ==> t in g'
    ensures forall s, t :: s in visited + {current} && t in game.successors(s) ==> t in g'
  {
  }

  lemma PopExpandOrder<S>(game: Game<S>, visited: set<S>, parent: map<S, Option<S>>, expanded: seq<S>,
                          current: S, parent': map<S, Option<S>>)
    requires (forall s :: s in visited ==> s in expanded) && (forall i :: 0 <= i < |expanded| ==> expanded[i] in visited)
    requires forall i, j :: 0 <= i < j < |expanded| ==> expanded[i] != expanded[j]
    requires forall i :: 0 <= i < |expanded| ==> !game.isGoal(expanded[i])
    requires visited <= parent.Keys && ParentsIn(parent, visited)
    requires forall i, j :: 0 <= i < |expanded| && 0 <= j < |expanded| && parent[expanded[j]] == Some(expanded[i]) ==> i < j
    requires current !in visited && !game.isGoal(current) && current in parent
    requires forall s :: s in visited + {current} ==> s in parent' && parent'[s] == parent[s]
    ensures var visited1, expanded1 := visited + {current}, expanded + [current];
      && (forall s :: s in visited1 ==> s in expanded1)
      && (forall i :: 0 <= i < |expanded1| ==> expanded1[i] in visited1)
      && (forall i, j :: 0 <= i < j < |expanded1| ==> expanded1[i] != expanded1[j])
      && (forall i :: 0 <= i < |expanded1| ==> !game.isGoal(expanded1[i]))
      && (forall i, j :: 0 <= i < |expanded1| && 0 <= j < |expanded1| && parent'[expanded1[j]] == Some(expanded1[i]) ==> i < j)
  {
    var visited1, expanded1 := visited + {current}, expanded + [current];
    var m := |expanded|;
    assert forall i :: 0 <= i < m ==> expanded1[i] == expanded[i];
    assert forall j :: 0 <= j < |expanded1| ==> expanded1[j] in visited1;
    forall i, j | 0 <= i < |expanded1| && 0 <= j < |expanded1| && parent'[expanded1[j]] == Some(expanded1[i])
      ensures i < j
    {
      assert parent'[expanded1[j]] == parent[expanded1[j]];
      if j == m {
        assert parent[current].value in visited;
      }
    }
  }

  /** When the open set is empty, the expanded states are exactly the
      discovered ones, include the initial state and are closed under
      successors. */
  lemma Exhausted<S>(game: Game<S>, init: S, visited: set<S>, g: map<S, nat>, parent: map<S, Option<S>>,
                     counter: nat, expanded: seq<S>)
    requires SearchInv(game, init, visited, g, parent, [], counter, expanded)
    ensures forall s :: s in g <==> s in expanded
    ensures init in expanded
    ensures forall s, t :: s in expanded && t in game.successors(s) ==> t in expanded
  {
    assert Pending<S>([]) == {};
    forall s | s in g ensures s in visited {
      assert s !in Pending<S>([]);
    }
  }

  /** Walks that start in a set closed under successors never leave it. */
  lemma {:induction false} ClosedSetTrapsWalks<S>(game: Game<S>, closed: seq<S>, p: seq<S>, n: nat)
    requires IsWalk(game, p) && p[0] in closed && n < |p|
    requires forall s, t :: s in closed && t in game.successors(s) ==> t in closed
    ensures p[n] in closed
  {
    if n > 0 {
      ClosedSetTrapsWalks(game, closed, p, n - 1);
      assert p[n] in game.successors(p[n - 1]);
    }
  }

  /** A* search with a bound of fuel loop iterations. A path found runs from
      the initial state to a goal in successor steps without repeating a
      state; Unsolvable means no walk from the initial state reaches a goal.
      expanded lists the states whose successors were enumerated, in order. */
  method Solve<S(==)>(game: Game<S>, init: S, fuel: nat) returns (r: SearchResult<S>, ghost expanded: seq<S>)
    ensures r.Found? ==> IsWalk(game, r.path) && r.path[0] == init && game.isGoal(r.path[|r.path| - 1])
    ensures r.Found? ==> forall i, j :: 0 <= i < j < |r.path| ==> r.path[i] != r.path[j]
    ensures r.Found? ==> forall i :: 0 <= i < |r.path| - 1 ==> r.path[i] in expanded && !game.isGoal(r.path[i])
    ensures game.isGoal(init) && fuel > 0 ==> r == Found([init])
    ensures r.Unsolvable? ==> forall p :: IsWalk(game, p) && p[0] == init ==> !game.isGoal(p[|p| - 1])
    ensures r.Unsolvable? ==> init in expanded && forall s, t :: s in expanded && t in game.successors(s) ==> t in expanded
    ensures forall i, j :: 0 <= i < j < |expanded| ==> expanded[i] != expanded[j]
    ensures forall i :: 0 <= i < |expanded| ==> !game.isGoal(expanded[i])
    ensures |expanded| <= fuel
  {
    var counter := 0;
    var open := [Entry(game.heuristic(init), counter, init)];
    counter := counter + 1;
    var visited: set<S> := {};
    var g: map<S, nat> := map[init := 0];
    var parent: map<S, Option<S>> := map[init := None];
    var steps := 0;
    expanded := [];
    while open != []
      invariant steps <= fuel && |expanded| <= steps
      invariant game.isGoal(init) ==> steps == 0
      invariant steps == 0 ==> open == [Entry(game.heuristic(init), 0, init)] && parent == map[init := None] && g == map[init := 0]
      invariant SearchInv(game, init, visited, g, parent, open, counter, expanded)
      decreases fuel - steps
    {
      if steps == fuel {
        return OutOfFuel, expanded;
      }
      steps := steps + 1;
      var k := ArgMin(open);
      var current := open[k].state;

      if game.isGoal(current) {
        var path := Reconstruct(game, init, g, parent, current);
        ChainToDistinct(game, init, g, parent, current);
        ChainToVisited(game, init, g, parent, visited, current);
        return Found(path), expanded;
      }

      if current in visited {
        PopStale(game, init, visited, g, parent, open, counter, expanded, k);
        open := open[..k] + open[k + 1..];
        continue;
      }
      var g', parent', open', counter' := VisitAndExpand(game, init, visited, g, parent, open, counter, expanded, k);
      visited := visited + {current};
      expanded := expanded + [current];
      g, parent, open, counter := g', parent', open', counter';
    }
    Exhausted(game, init, visited, g, parent, counter, expanded);
    forall p | IsWalk(game, p) && p[0] == init ensures !game.isGoal(p[|p| - 1]) {
      ClosedSetTrapsWalks(game, expanded, p, |p| - 1);
    }
    return Unsolvable, expanded;
  }
}
