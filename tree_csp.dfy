/**
 * The tree-structured CSP solver: the neighbour graph of the unassigned
 * variables is oriented, sorted topologically with Kahn's algorithm,
 * pruned backwards and then assigned forwards.
 */
module TreeCsp {
  import opened Wrappers
  import opened Errors
  import opened Domain
  import opened Variables
  import opened Problem
  import Backtracking

  /** A directed graph over arena positions: each variable's successors. */
  type Graph = map<nat, set<nat>>

  /** The successors of v, read through the map's index operator (a missing key reads as empty). */
  function Succ(g: Graph, v: nat): set<nat> {
    if v in g then g[v] else {}
  }

  /** An in-degree counter read through the map's index operator. */
  function Degree(deg: map<nat, int>, v: nat): int {
    if v in deg then deg[v] else 0
  }

  /** The members of A with an edge to v. */
  function Pre(g: Graph, A: set<nat>, v: nat): set<nat> {
    set a | a in A && v in Succ(g, a)
  }

  /** Both variables are unassigned and share a constraint. */
  predicate Adjacent(cs: seq<Constraint>, S: seq<VarState>, a: nat, b: nat) {
    a < |S| && b < |S| && S[a].index.None? && S[b].index.None? && AreNeighbors(cs, a, b)
  }

  /** The orientation: each adjacent pair is an edge from the earlier variable to the later one. */
  predicate Edge(cs: seq<Constraint>, S: seq<VarState>, a: nat, b: nat) {
    Adjacent(cs, S, a, b) && a < b
  }

  /** Every edge goes to a later position (so the graph has no cycle). */
  ghost predicate Upward(g: Graph) {
    forall a: nat, b: nat :: b in Succ(g, a) ==> a < b
  }

  /** Every edge has both ends in K. */
  ghost predicate EdgesIn(g: Graph, K: set<nat>) {
    forall a: nat, b: nat :: b in Succ(g, a) ==> a in K && b in K
  }

  /** Some unassigned variable has no unassigned neighbour. */
  ghost predicate HasIsolated(cs: seq<Constraint>, S: seq<VarState>) {
    exists v: nat :: v < |S| && S[v].index.None? && UnassignedNeighbors(cs, S, v) == {}
  }

  lemma AdjacentSymmetric(cs: seq<Constraint>, S: seq<VarState>, a: nat, b: nat)
    ensures Adjacent(cs, S, a, b) <==> Adjacent(cs, S, b, a)
  {
    if AreNeighbors(cs, a, b) {
      var k :| 0 <= k < |cs| && InScope(cs[k], a) && InScope(cs[k], b);
      assert InScope(cs[k], b) && InScope(cs[k], a);
    }
    if AreNeighbors(cs, b, a) {
      var k :| 0 <= k < |cs| && InScope(cs[k], b) && InScope(cs[k], a);
      assert InScope(cs[k], a) && InScope(cs[k], b);
    }
  }

  /** The position in the list of unassigned variables read as a bound on arena positions. */
  function Bound(U: seq<nat>, i: nat, n: nat): nat {
    if i < |U| then U[i] else n
  }

  /** The unassigned variables below Bound(U, i, n) are exactly those of U[..i]. */
  lemma BoundStep(S: seq<VarState>, i: nat)
    requires i < |UnassignedVariables(S)|
    ensures var U := UnassignedVariables(S);
            forall a: nat :: a < |S| && S[a].index.None? ==> (a <= U[i] <==> a < Bound(U, i + 1, |S|))
  {
    var U := UnassignedVariables(S);
    UnassignedVariablesComplete(S);
    forall a: nat | a < |S| && S[a].index.None? && a < Bound(U, i + 1, |S|) ensures a <= U[i] {
      var k :| 0 <= k < |U| && U[k] == a;
    }
  }

  lemma BoundStart(S: seq<VarState>)
    ensures forall a: nat :: a < |S| && S[a].index.None? ==> !(a < Bound(UnassignedVariables(S), 0, |S|))
  {
    var U := UnassignedVariables(S);
    UnassignedVariablesComplete(S);
    forall a: nat | a < |S| && S[a].index.None? ensures a >= Bound(U, 0, |S|) {
      var k :| 0 <= k < |U| && U[k] == a;
      if k > 0 { assert U[0] < U[k]; }
    }
  }

  /** A non-empty set of positions has a member (the witness for picking one). */
  lemma NonEmptyPositions(s: set<nat>)
    requires s != {}
    ensures exists x :: x in s
  {
    if forall x :: x !in s {
      assert false;
    }
  }

  /** The edges of the variables before x, and those from x to the visited neighbours. */
  ghost predicate OrientedUpTo(cs: seq<Constraint>, S: seq<VarState>, g: Graph, x: nat, todo: set<nat>) {
    forall a: nat, b: nat :: b in Succ(g, a) <==> Edge(cs, S, a, b) && (a < x || (a == x && b !in todo))
  }

  /** Visiting neighbour n of x: the edge x -> n is added exactly when n comes after x. */
  lemma OrientStep(cs: seq<Constraint>, S: seq<VarState>, g: Graph, g': Graph, x: nat, todo: set<nat>, n: nat)
    requires x < |S| && S[x].index.None? && n in todo && todo <= UnassignedNeighbors(cs, S, x)
    requires OrientedUpTo(cs, S, g, x, todo)
    requires var g1 := g[n := Succ(g, n)];
             g' == if x !in Succ(g1, n) then g1[x := Succ(g1, x) + {n}] else g1
    ensures OrientedUpTo(cs, S, g', x, todo - {n})
  {
    AdjacentSymmetric(cs, S, x, n);
    assert Adjacent(cs, S, x, n) && n != x;
    assert x in Succ(g, n) <==> n < x;
    forall a: nat, b: nat ensures b in Succ(g', a) <==> Edge(cs, S, a, b) && (a < x || (a == x && b !in todo - {n})) {
      if a == x {
        assert Succ(g', a) == if n < x then Succ(g, x) else Succ(g, x) + {n};
        assert b in Succ(g, x) <==> Edge(cs, S, x, b) && b !in todo;
        if b == n {
          assert Edge(cs, S, x, n) <==> x < n;
        }
      } else {
        assert Succ(g', a) == Succ(g, a);
        assert b in Succ(g, a) <==> Edge(cs, S, a, b) && a < x;
      }
    }
  }

  /**
   * The inner loop of __init_directed_graph (lines 19-27) for the
   * unassigned variable x: every unassigned neighbour is visited, and an
   * edge from x is added to each one that has none to x.
   */
  method AddEdgesFrom(cs: seq<Constraint>, S: seq<VarState>, g: Graph, x: nat) returns (g': Graph)
    requires x < |S| && S[x].index.None?
    requires forall a: nat, b: nat :: b in Succ(g, a) <==> Edge(cs, S, a, b) && a < x
    ensures forall a: nat, b: nat :: b in Succ(g', a) <==> Edge(cs, S, a, b) && a <= x
  {
    g' := g;
    var todo := UnassignedNeighbors(cs, S, x);
    while todo != {}
      invariant todo <= UnassignedNeighbors(cs, S, x)
      invariant OrientedUpTo(cs, S, g', x, todo)
      decreases |todo|
    {
      NonEmptyPositions(todo);
      var n :| n in todo;
      ghost var g0 := g';
      g' := g'[n := Succ(g', n)];
      if x !in Succ(g', n) {
        g' := g'[x := Succ(g', x) + {n}];
      }
      OrientStep(cs, S, g0, g', x, todo, n);
      todo := todo - {n};
    }
  }

  /**
   * __init_directed_graph (lines 13-31): each unassigned variable, in
   * arena order, gets an edge to every unassigned neighbour that has no
   * edge to it yet. The result is the orientation from earlier to later.
   */
  method InitDirectedGraph(p: Problem) returns (g: Graph)
    ensures forall a: nat, b: nat :: b in Succ(g, a) <==> Edge(p.constraints, StatesOf(p.vars), a, b)
  {
    var S := StatesOf(p.vars);
    var U := UnassignedVariables(S);
    UnassignedVariablesComplete(S);
    BoundStart(S);
    g := map[];
    var i := 0;
    while i < |U|
      invariant i <= |U|
      invariant forall a: nat, b: nat :: b in Succ(g, a) <==> Edge(p.constraints, S, a, b) && a < Bound(U, i, |S|)
    {
      g := AddEdgesFrom(p.constraints, S, g, U[i]);
      BoundStep(S, i);
      i := i + 1;
    }
  }

  // ---------------------------------------------------------------------
  // In-degrees and Kahn's algorithm
  // ---------------------------------------------------------------------

  /** Adding x to the sources adds x to the predecessors of each of its successors. */
  lemma PreAdd(g: Graph, D: set<nat>, x: nat, v: nat)
    requires x !in D
    ensures Pre(g, D + {x}, v) == Pre(g, D, v) + (if v in Succ(g, x) then {x} else {})
    ensures |Pre(g, D + {x}, v)| == |Pre(g, D, v)| + (if v in Succ(g, x) then 1 else 0)
  {
    assert Pre(g, D + {x}, v) == Pre(g, D, v) + (if v in Succ(g, x) then {x} else {});
  }

  /** At v, the in-degree map holds the edges from the sources in D. */
  ghost predicate DegreeAt(g: Graph, D: set<nat>, deg: map<nat, int>, everyVariable: bool, v: nat) {
    Degree(deg, v) == |Pre(g, D, v)| &&
    (v in deg <==> (v in D && (everyVariable || Succ(g, v) != {})) || Pre(g, D, v) != {})
  }

  /** The in-degree map after counting the edges of the sources in D. */
  ghost predicate DegreesOf(g: Graph, D: set<nat>, deg: map<nat, int>, everyVariable: bool) {
    forall v: nat :: DegreeAt(g, D, deg, everyVariable, v)
  }

  /** At v, midway through the edges of x: those already visited (outside todo) are counted. */
  ghost predicate CountedAt(g: Graph, D: set<nat>, deg: map<nat, int>, everyVariable: bool, x: nat,
                            todo: set<nat>, emplaced: bool, v: nat) {
    Degree(deg, v) == |Pre(g, D, v)| + (if v in Succ(g, x) && v !in todo then 1 else 0) &&
    (v in deg <==> (v in D && (everyVariable || Succ(g, v) != {})) || Pre(g, D, v) != {} ||
                   (v == x && emplaced) || (v in Succ(g, x) && v !in todo))
  }

  lemma CountStart(g: Graph, D: set<nat>, deg: map<nat, int>, deg': map<nat, int>, everyVariable: bool, x: nat)
    requires DegreesOf(g, D, deg, everyVariable)
    requires deg' == if everyVariable && x !in deg then deg[x := 0] else deg
    ensures forall v: nat :: CountedAt(g, D, deg', everyVariable, x, Succ(g, x), everyVariable, v)
  {
    forall v: nat ensures CountedAt(g, D, deg', everyVariable, x, Succ(g, x), everyVariable, v) {
      assert DegreeAt(g, D, deg, everyVariable, v);
    }
  }

  lemma CountStep(g: Graph, D: set<nat>, deg: map<nat, int>, deg': map<nat, int>, everyVariable: bool, x: nat,
                  todo: set<nat>, emplaced: bool, n: nat)
    requires n in todo && todo <= Succ(g, x)
    requires forall v: nat :: CountedAt(g, D, deg, everyVariable, x, todo, emplaced, v)
    requires var d1 := if x !in deg then deg[x := 0] else deg;
             deg' == d1[n := Degree(d1, n) + 1]
    ensures forall v: nat :: CountedAt(g, D, deg', everyVariable, x, todo - {n}, true, v)
  {
    forall v: nat ensures CountedAt(g, D, deg', everyVariable, x, todo - {n}, true, v) {
      assert CountedAt(g, D, deg, everyVariable, x, todo, emplaced, v);
      assert CountedAt(g, D, deg, everyVariable, x, todo, emplaced, n);
    }
  }

  lemma CountDone(g: Graph, D: set<nat>, deg: map<nat, int>, everyVariable: bool, x: nat, emplaced: bool)
    requires x !in D && emplaced == (everyVariable || Succ(g, x) != {})
    requires forall v: nat :: CountedAt(g, D, deg, everyVariable, x, {}, emplaced, v)
    ensures DegreesOf(g, D + {x}, deg, everyVariable)
  {
    forall v: nat ensures DegreeAt(g, D + {x}, deg, everyVariable, v) {
      assert CountedAt(g, D, deg, everyVariable, x, {}, emplaced, v);
      PreAdd(g, D, x, v);
    }
  }

  /**
   * The inner loop of __init_inDegree (lines 40-44) for the source x:
   * each successor's count goes up by one, and x gets a zero entry on its
   * first edge. With everyVariable, x gets its zero entry before the
   * loop, edges or not.
   */
  method CountEdgesFrom(g: Graph, ghost D: set<nat>, x: nat, deg: map<nat, int>, everyVariable: bool)
    returns (deg': map<nat, int>)
    requires x !in D && DegreesOf(g, D, deg, everyVariable)
    ensures DegreesOf(g, D + {x}, deg', everyVariable)
  {
    deg' := deg;
    if everyVariable && x !in deg' {
      deg' := deg'[x := 0];
    }
    CountStart(g, D, deg, deg', everyVariable, x);
    var todo := Succ(g, x);
    ghost var emplaced := everyVariable;
    while todo != {}
      invariant todo <= Succ(g, x)
      invariant emplaced == (everyVariable || todo != Succ(g, x))
      invariant forall v: nat :: CountedAt(g, D, deg', everyVariable, x, todo, emplaced, v)
      decreases |todo|
    {
      NonEmptyPositions(todo);
      var n :| n in todo;
      ghost var deg0 := deg';
      if x !in deg' {
        deg' := deg'[x := 0];
      }
      deg' := deg'[n := Degree(deg', n) + 1];
      CountStep(g, D, deg0, deg', everyVariable, x, todo, emplaced, n);
      todo := todo - {n};
      emplaced := true;
    }
    CountDone(g, D, deg', everyVariable, x, emplaced);
  }

  /**
   * __init_inDegree (lines 34-48): the number of edges into each
   * variable. As written, only variables with an edge get an entry; with
   * everyVariable, every listed variable does.
   */
  method InitInDegree(g: Graph, U: seq<nat>, everyVariable: bool) returns (deg: map<nat, int>)
    requires Distinct(U)
    ensures forall v: nat :: Degree(deg, v) == |Pre(g, Elements(U), v)|
    ensures forall v: nat :: v in deg <==> (v in U && (everyVariable || Succ(g, v) != {})) || Pre(g, Elements(U), v) != {}
  {
    deg := map[];
    ghost var D: set<nat> := {};
    for i := 0 to |U|
      invariant forall v: nat :: v in D <==> v in U[..i]
      invariant DegreesOf(g, D, deg, everyVariable)
    {
      assert U[i] !in U[..i];
      deg := CountEdgesFrom(g, D, U[i], deg, everyVariable);
      D := D + {U[i]};
      assert U[..i + 1] == U[..i] + [U[i]];
    }
    assert U[..|U|] == U;
    assert D == Elements(U);
    forall v: nat ensures Degree(deg, v) == |Pre(g, Elements(U), v)| &&
                          (v in deg <==> (v in U && (everyVariable || Succ(g, v) != {})) || Pre(g, Elements(U), v) != {}) {
      assert DegreeAt(g, D, deg, everyVariable, v);
    }
  }

  /** init_zero_in_degree_vars (lines 51-64): the variables whose count is zero. */
  method ZeroInDegreeVars(deg: map<nat, int>) returns (zero: set<nat>)
    ensures forall v: nat :: v in zero <==> v in deg && deg[v] == 0
  {
    zero := {};
    var keys := deg.Keys;
    while keys != {}
      invariant keys <= deg.Keys
      invariant forall v: nat :: v in zero <==> v in deg && v !in keys && deg[v] == 0
      decreases |keys|
    {
      NonEmptyPositions(keys);
      var v :| v in keys;
      if deg[v] == 0 {
        zero := zero + {v};
      }
      keys := keys - {v};
    }
  }

  /** Every variable of the order comes after all its predecessors. */
  ghost predicate TopoInv(g: Graph, K: set<nat>, order: seq<nat>) {
    forall j, a: nat :: 0 <= j < |order| && a in Pre(g, K, order[j]) ==> a in order[..j]
  }

  /** The predecessors of an output variable are output. */
  lemma OutputClosed(g: Graph, K: set<nat>, order: seq<nat>, out: set<nat>)
    requires TopoInv(g, K, order) && forall v: nat :: v in out <==> v in order
    ensures forall v: nat, a: nat :: v in out && a in Pre(g, K, v) ==> a in out
  {
    forall v: nat, a: nat | v in out && a in Pre(g, K, v) ensures a in out {
      var j :| 0 <= j < |order| && order[j] == v;
      assert a in order[..j];
    }
  }

  lemma TopoAppend(g: Graph, K: set<nat>, order: seq<nat>, x: nat)
    requires TopoInv(g, K, order) && forall a: nat :: a in Pre(g, K, x) ==> a in order
    ensures TopoInv(g, K, order + [x])
  {
    var o := order + [x];
    forall j, a: nat | 0 <= j < |o| && a in Pre(g, K, o[j]) ensures a in o[..j] {
      if j < |order| {
        assert o[j] == order[j] && o[..j] == order[..j];
      } else {
        assert o[..j] == order;
      }
    }
  }

  /** Outputting x lowers by one the count of unoutput predecessors of each successor of x. */
  lemma CardStep(P: set<nat>, out: set<nat>, x: nat)
    requires x !in out
    ensures |P - out| == |P - (out + {x})| + (if x in P then 1 else 0)
  {
    if x in P {
      assert P - out == (P - (out + {x})) + {x};
    } else {
      assert P - out == P - (out + {x});
    }
  }

  /** At v, the count is the number of predecessors not yet output, plus one while v is still in todo. */
  ghost predicate PendingAt(g: Graph, K: set<nat>, deg: map<nat, int>, out: set<nat>, todo: set<nat>, v: nat) {
    v in K ==> Degree(deg, v) == |Pre(g, K, v) - out| + (if v in todo then 1 else 0)
  }

  /** At v, v is ready exactly when it is a counted variable, not output, with count zero. */
  ghost predicate ReadyAt(K: set<nat>, deg: map<nat, int>, out: set<nat>, zero: set<nat>, v: nat) {
    v in zero <==> v in K && v !in out && Degree(deg, v) == 0
  }

  lemma DecrementStep(g: Graph, K: set<nat>, deg: map<nat, int>, deg': map<nat, int>, zero: set<nat>, zero': set<nat>,
                      out: set<nat>, todo: set<nat>, n: nat)
    requires n in todo && n in K && n !in out
    requires forall v: nat :: PendingAt(g, K, deg, out, todo, v)
    requires forall v: nat :: ReadyAt(K, deg, out, zero, v)
    requires deg' == deg[n := Degree(deg, n) - 1]
    requires zero' == if Degree(deg', n) == 0 then zero + {n} else zero
    ensures forall v: nat :: PendingAt(g, K, deg', out, todo - {n}, v)
    ensures forall v: nat :: ReadyAt(K, deg', out, zero', v)
  {
    assert PendingAt(g, K, deg, out, todo, n);
    assert ReadyAt(K, deg, out, zero, n);
    forall v: nat ensures PendingAt(g, K, deg', out, todo - {n}, v) && ReadyAt(K, deg', out, zero', v) {
      assert PendingAt(g, K, deg, out, todo, v);
      assert ReadyAt(K, deg, out, zero, v);
    }
  }

  /**
   * The inner loop of Kahn's algorithm (lines 82-89): each successor of
   * the output variable x loses one count and, at zero, becomes ready.
   */
  method DecrementSuccessors(g: Graph, ghost K: set<nat>, x: nat, deg: map<nat, int>, zero: set<nat>, ghost out: set<nat>)
    returns (deg': map<nat, int>, zero': set<nat>)
    requires EdgesIn(g, K)
    requires forall v: nat :: v in Succ(g, x) ==> v !in out
    requires forall v: nat :: PendingAt(g, K, deg, out, Succ(g, x), v)
    requires forall v: nat :: ReadyAt(K, deg, out, zero, v)
    ensures forall v: nat :: PendingAt(g, K, deg', out, {}, v)
    ensures forall v: nat :: ReadyAt(K, deg', out, zero', v)
  {
    deg', zero' := deg, zero;
    var todo := Succ(g, x);
    while todo != {}
      invariant todo <= Succ(g, x)
      invariant forall v: nat :: PendingAt(g, K, deg', out, todo, v)
      invariant forall v: nat :: ReadyAt(K, deg', out, zero', v)
      decreases |todo|
    {
      NonEmptyPositions(todo);
      var n :| n in todo;
      ghost var deg0, zero0 := deg', zero';
      deg' := deg'[n := Degree(deg', n) - 1];
      if Degree(deg', n) == 0 {
        zero' := zero' + {n};
      }
      DecrementStep(g, K, deg0, deg', zero0, zero', out, todo, n);
      todo := todo - {n};
    }
  }

  /** When nothing is ready, every variable of an upward graph has been output. */
  lemma {:induction false} KahnComplete(g: Graph, K: set<nat>, deg: map<nat, int>, out: set<nat>, v: nat)
    requires Upward(g)
    requires forall u: nat :: u in K ==> Degree(deg, u) == |Pre(g, K, u) - out|
    requires forall u: nat :: u in K && u !in out ==> Degree(deg, u) != 0
    ensures v in K ==> v in out
    decreases v
  {
    if v in K {
      forall u: nat | u in Pre(g, K, v) ensures u in out {
        KahnComplete(g, K, deg, out, u);
      }
      assert Pre(g, K, v) - out == {};
    }
  }

  /** A ready variable has all its predecessors output. */
  lemma ReadyHasOutputPreds(g: Graph, K: set<nat>, deg: map<nat, int>, zero: set<nat>, out: set<nat>, x: nat)
    requires x in zero && PendingAt(g, K, deg, out, {}, x) && ReadyAt(K, deg, out, zero, x)
    ensures x in K && x !in out && forall a: nat :: a in Pre(g, K, x) ==> a in out
  {
    var P := Pre(g, K, x) - out;
    assert |P| == 0;
    forall a: nat | a in Pre(g, K, x) ensures a in out {
      assert a !in P;
    }
  }

  /** Appending the ready variable x keeps the order duplicate-free and topological. */
  lemma OutputOrder(g: Graph, K: set<nat>, out: set<nat>, order: seq<nat>, x: nat)
    requires x !in out && (forall v: nat :: v in out <==> v in order) && Distinct(order)
    requires TopoInv(g, K, order) && forall a: nat :: a in Pre(g, K, x) ==> a in out
    ensures forall v: nat :: v in out + {x} <==> v in order + [x]
    ensures Distinct(order + [x]) && TopoInv(g, K, order + [x])
  {
    TopoAppend(g, K, order, x);
  }

  /** The successors of a ready variable are neither output nor the variable itself. */
  lemma SuccessorsFresh(g: Graph, K: set<nat>, out: set<nat>, order: seq<nat>, x: nat)
    requires x in K && x !in out && (forall v: nat :: v in out <==> v in order)
    requires TopoInv(g, K, order) && forall a: nat :: a in Pre(g, K, x) ==> a in out
    ensures forall v: nat :: v in Succ(g, x) ==> v !in out + {x}
  {
    OutputClosed(g, K, order, out);
    forall v: nat | v in Succ(g, x) ensures v !in out + {x} {
      assert x in Pre(g, K, v);
    }
  }

  /** Outputting x leaves each successor of x pending one count. */
  lemma OutputCounts(g: Graph, K: set<nat>, deg: map<nat, int>, zero: set<nat>, out: set<nat>, x: nat)
    requires x in K && x !in out
    requires forall v: nat :: PendingAt(g, K, deg, out, {}, v)
    requires forall v: nat :: ReadyAt(K, deg, out, zero, v)
    ensures forall v: nat :: PendingAt(g, K, deg, out + {x}, Succ(g, x), v)
    ensures forall v: nat :: ReadyAt(K, deg, out + {x}, zero - {x}, v)
    ensures |K - (out + {x})| < |K - out|
  {
    assert K - (out + {x}) == (K - out) - {x};
    forall v: nat ensures PendingAt(g, K, deg, out + {x}, Succ(g, x), v) && ReadyAt(K, deg, out + {x}, zero - {x}, v) {
      assert PendingAt(g, K, deg, out, {}, v);
      assert ReadyAt(K, deg, out, zero, v);
      CardStep(Pre(g, K, v), out, x);
      assert v in Succ(g, x) <==> x in Pre(g, K, v);
    }
  }

  /** When no variable is ready, an upward graph has had every counted variable output. */
  lemma KahnDone(g: Graph, K: set<nat>, deg: map<nat, int>, out: set<nat>, zero: set<nat>)
    requires zero == {}
    requires forall v: nat :: PendingAt(g, K, deg, out, {}, v)
    requires forall v: nat :: ReadyAt(K, deg, out, zero, v)
    ensures Upward(g) ==> forall v: nat :: v in K ==> v in out
  {
    if Upward(g) {
      forall u: nat | u in K ensures Degree(deg, u) == |Pre(g, K, u) - out| {
        assert PendingAt(g, K, deg, out, {}, u);
      }
      forall u: nat | u in K && u !in out ensures Degree(deg, u) != 0 {
        assert ReadyAt(K, deg, out, zero, u);
      }
      forall v: nat | v in K ensures v in out {
        KahnComplete(g, K, deg, out, v);
      }
    }
  }

  /** The counts of the in-degree map before anything is output. */
  lemma KahnStart(g: Graph, deg0: map<nat, int>, zero: set<nat>)
    requires forall v: nat :: v in deg0 ==> deg0[v] == |Pre(g, deg0.Keys, v)|
    requires forall v: nat :: v in zero <==> v in deg0 && deg0[v] == 0
    ensures forall v: nat :: PendingAt(g, deg0.Keys, deg0, {}, {}, v)
    ensures forall v: nat :: ReadyAt(deg0.Keys, deg0, {}, zero, v)
  {
    forall v: nat ensures PendingAt(g, deg0.Keys, deg0, {}, {}, v) {
      assert Pre(g, deg0.Keys, v) - {} == Pre(g, deg0.Keys, v);
    }
  }

  /**
   * Kahn's algorithm (lines 72, 76-90): a ready variable is picked in the
   * set's iteration order, output, and its successors' counts lowered.
   * The output lists variables of the in-degree map without repetition,
   * each after its predecessors; on an upward graph it lists all of them.
   */
  method Kahn(g: Graph, deg0: map<nat, int>) returns (order: seq<nat>)
    requires EdgesIn(g, deg0.Keys)
    requires forall v: nat :: v in deg0 ==> deg0[v] == |Pre(g, deg0.Keys, v)|
    ensures Distinct(order) && forall k :: 0 <= k < |order| ==> order[k] in deg0
    ensures TopoInv(g, deg0.Keys, order)
    ensures Upward(g) ==> forall v: nat :: v in deg0 ==> v in order
  {
    ghost var K := deg0.Keys;
    var deg := deg0;
    var zero := ZeroInDegreeVars(deg0);
    order := [];
    ghost var out: set<nat> := {};
    KahnStart(g, deg0, zero);
    while zero != {}
      invariant out <= K && (forall v: nat :: v in out <==> v in order)
      invariant Distinct(order)
      invariant TopoInv(g, K, order)
      invariant forall v: nat :: PendingAt(g, K, deg, out, {}, v)
      invariant forall v: nat :: ReadyAt(K, deg, out, zero, v)
      decreases |K - out|
    {
      NonEmptyPositions(zero);
      var x :| x in zero;
      assert PendingAt(g, K, deg, out, {}, x) && ReadyAt(K, deg, out, zero, x);
      ReadyHasOutputPreds(g, K, deg, zero, out, x);
      OutputOrder(g, K, out, order, x);
      SuccessorsFresh(g, K, out, order, x);
      OutputCounts(g, K, deg, zero, out, x);
      zero := zero - {x};
      order := order + [x];
      out := out + {x};
      deg, zero := DecrementSuccessors(g, K, x, deg, zero, out);
    }
    KahnDone(g, K, deg, out, zero);
  }

  // ---------------------------------------------------------------------
  // The topological sort of the unassigned variables
  // ---------------------------------------------------------------------

  /** Every edge between two listed variables points forward in the list. */
  ghost predicate Topological(cs: seq<Constraint>, S: seq<VarState>, order: seq<nat>) {
    forall i, j :: 0 <= i < |order| && 0 <= j < |order| && Edge(cs, S, order[i], order[j]) ==> i < j
  }

  /** A duplicate-free listing of A has |A| entries. */
  lemma {:induction false} ListingCard(s: seq<nat>, A: set<nat>)
    requires Distinct(s) && forall v: nat :: v in A <==> v in s
    ensures |A| == |s|
    decreases |s|
  {
    if s != [] {
      var t := s[1..];
      forall i, j | 0 <= i < j < |t| ensures t[i] != t[j] {
        assert t[i] == s[i + 1] && t[j] == s[j + 1];
      }
      forall k | 0 <= k < |t| ensures t[k] != s[0] {
        assert t[k] == s[k + 1];
      }
      assert forall v: nat :: v in s <==> v == s[0] || v in t;
      ListingCard(t, A - {s[0]});
    }
  }

  /** A subset is no larger, and a subset of the same size is the whole set. */
  lemma {:induction false} NatSubsetCard(A: set<nat>, B: set<nat>)
    requires A <= B
    ensures |A| <= |B| && (|A| == |B| ==> A == B)
    decreases |B|
  {
    if B != {} {
      NonEmptyPositions(B);
      var x :| x in B;
      NatSubsetCard(A - {x}, B - {x});
      if x in A {
        assert A == (A - {x}) + {x} && B == (B - {x}) + {x};
      } else {
        assert A - {x} == A;
      }
    }
  }

  /** Every source of an edge is unassigned, and so listed and counted. */
  lemma SamePredecessors(cs: seq<Constraint>, S: seq<VarState>, U: seq<nat>, g: Graph, deg: map<nat, int>, everyVariable: bool)
    requires U == UnassignedVariables(S)
    requires forall a: nat, b: nat :: b in Succ(g, a) <==> Edge(cs, S, a, b)
    requires forall v: nat :: v in deg <==> (v in U && (everyVariable || Succ(g, v) != {})) || Pre(g, Elements(U), v) != {}
    ensures forall v: nat :: Pre(g, deg.Keys, v) == Pre(g, Elements(U), v)
  {
    UnassignedVariablesComplete(S);
    forall v: nat ensures Pre(g, deg.Keys, v) == Pre(g, Elements(U), v) {
      forall a: nat | v in Succ(g, a) ensures a in U && a in deg {
        assert Edge(cs, S, a, v);
      }
    }
  }

  /** An unassigned variable has an edge in or out exactly when it has an unassigned neighbour. */
  lemma EdgesIffNeighbors(cs: seq<Constraint>, S: seq<VarState>, U: seq<nat>, g: Graph, v: nat)
    requires U == UnassignedVariables(S)
    requires forall a: nat, b: nat :: b in Succ(g, a) <==> Edge(cs, S, a, b)
    ensures (v in U && Succ(g, v) != {}) || Pre(g, Elements(U), v) != {} <==>
            v < |S| && S[v].index.None? && UnassignedNeighbors(cs, S, v) != {}
  {
    UnassignedVariablesComplete(S);
    if v < |S| && S[v].index.None? && UnassignedNeighbors(cs, S, v) != {} {
      NonEmptyPositions(UnassignedNeighbors(cs, S, v));
      var w :| w in UnassignedNeighbors(cs, S, v);
      AdjacentSymmetric(cs, S, v, w);
      if w < v {
        assert w in Pre(g, Elements(U), v);
      } else {
        assert w in Succ(g, v);
      }
    }
    if Succ(g, v) != {} {
      NonEmptyPositions(Succ(g, v));
      var w :| w in Succ(g, v);
      assert w in UnassignedNeighbors(cs, S, v);
    }
    if Pre(g, Elements(U), v) != {} {
      NonEmptyPositions(Pre(g, Elements(U), v));
      var a :| a in Pre(g, Elements(U), v);
      AdjacentSymmetric(cs, S, a, v);
      assert a in UnassignedNeighbors(cs, S, v);
    }
  }

  /**
   * What the orientation and the in-degree map give Kahn's algorithm:
   * the graph is upward, the map counts every edge, and its keys are the
   * unassigned variables with an unassigned neighbour (with everyVariable,
   * all unassigned variables).
   */
  lemma SortPremises(cs: seq<Constraint>, S: seq<VarState>, U: seq<nat>, g: Graph, deg: map<nat, int>, everyVariable: bool)
    requires U == UnassignedVariables(S)
    requires forall a: nat, b: nat :: b in Succ(g, a) <==> Edge(cs, S, a, b)
    requires forall v: nat :: Degree(deg, v) == |Pre(g, Elements(U), v)|
    requires forall v: nat :: v in deg <==> (v in U && (everyVariable || Succ(g, v) != {})) || Pre(g, Elements(U), v) != {}
    ensures Upward(g) && EdgesIn(g, deg.Keys)
    ensures forall v: nat :: v in deg ==> deg[v] == |Pre(g, deg.Keys, v)|
    ensures forall v: nat :: v in deg <==> v < |S| && S[v].index.None? && (everyVariable || UnassignedNeighbors(cs, S, v) != {})
  {
    UnassignedVariablesComplete(S);
    SamePredecessors(cs, S, U, g, deg, everyVariable);
    forall v: nat ensures v in deg <==> v < |S| && S[v].index.None? && (everyVariable || UnassignedNeighbors(cs, S, v) != {}) {
      EdgesIffNeighbors(cs, S, U, g, v);
    }
    forall a: nat, b: nat | b in Succ(g, a) ensures a in deg && b in deg {
      assert a in Pre(g, Elements(U), b);
    }
  }

  /**
   * The length check of lines 93-96: with the counted variables listed
   * without repetition, the order is as long as the list of unassigned
   * variables exactly when no unassigned variable was left uncounted, that
   * is (as written) when none is isolated.
   */
  lemma LengthCheck(cs: seq<Constraint>, S: seq<VarState>, U: seq<nat>, K: set<nat>, sorted: seq<nat>, everyVariable: bool)
    requires U == UnassignedVariables(S)
    requires forall v: nat :: v in K <==> v < |S| && S[v].index.None? && (everyVariable || UnassignedNeighbors(cs, S, v) != {})
    requires Distinct(sorted) && forall v: nat :: v in sorted <==> v in K
    ensures |sorted| == |U| <==> !(!everyVariable && HasIsolated(cs, S))
    ensures |sorted| == |U| ==> forall v: nat :: v < |S| && S[v].index.None? ==> v in sorted
  {
    UnassignedVariablesComplete(S);
    assert Distinct(U);
    ListingCard(sorted, K);
    ListingCard(U, Elements(U));
    assert K <= Elements(U);
    NatSubsetCard(K, Elements(U));
    if !everyVariable && HasIsolated(cs, S) {
      var v: nat :| v < |S| && S[v].index.None? && UnassignedNeighbors(cs, S, v) == {};
      assert v in Elements(U) && v !in K;
    }
    if K != Elements(U) {
      var v :| v in Elements(U) && v !in K;
      assert v < |S| && S[v].index.None? && UnassignedNeighbors(cs, S, v) == {};
    }
  }

  /** A topological listing of the counted variables orders every edge between them. */
  lemma TopoOrdered(cs: seq<Constraint>, S: seq<VarState>, g: Graph, K: set<nat>, order: seq<nat>)
    requires forall a: nat, b: nat :: b in Succ(g, a) <==> Edge(cs, S, a, b)
    requires Distinct(order) && (forall k :: 0 <= k < |order| ==> order[k] in K) && TopoInv(g, K, order)
    ensures Topological(cs, S, order)
  {
    forall i, j | 0 <= i < |order| && 0 <= j < |order| && Edge(cs, S, order[i], order[j]) ensures i < j {
      assert order[i] in Pre(g, K, order[j]);
      assert order[i] in order[..j];
      var k :| 0 <= k < j && order[..j][k] == order[i];
      assert order[k] == order[i];
    }
  }

  /**
   * The first steps of __kahnTopologicalSort (lines 69-71): the
   * oriented graph of the unassigned variables and their in-degree map,
   * with the facts Kahn's loop and the length check rely on.
   */
  method OrientAndCount(p: Problem, everyVariable: bool) returns (g: Graph, deg: map<nat, int>)
    ensures forall a: nat, b: nat :: b in Succ(g, a) <==> Edge(p.constraints, StatesOf(p.vars), a, b)
    ensures Upward(g) && EdgesIn(g, deg.Keys)
    ensures forall v: nat :: v in deg ==> deg[v] == |Pre(g, deg.Keys, v)|
    ensures var S := StatesOf(p.vars);
            forall v: nat :: v in deg <==> v < |S| && S[v].index.None? && (everyVariable || UnassignedNeighbors(p.constraints, S, v) != {})
  {
    var S := StatesOf(p.vars);
    var U := UnassignedVariables(S);
    UnassignedVariablesComplete(S);
    assert Distinct(U);
    g := InitDirectedGraph(p);
    deg := InitInDegree(g, U, everyVariable);
    SortPremises(p.constraints, S, U, g, deg, everyVariable);
  }

  /**
   * __kahnTopologicalSort (lines 67-101): orient, count, sort, and return
   * the order only when it lists as many variables as are unassigned.
   * With everyVariable, the in-degree map has an entry for every
   * unassigned variable (the corrected count).
   */
  method SortWith(p: Problem, everyVariable: bool) returns (order: seq<nat>)
    ensures var S := StatesOf(p.vars);
            Distinct(order) && (forall k :: 0 <= k < |order| ==> order[k] < |S| && S[order[k]].index.None?)
    ensures Topological(p.constraints, StatesOf(p.vars), order)
    ensures var S := StatesOf(p.vars);
            order == [] <==> UnassignedVariables(S) == [] || (!everyVariable && HasIsolated(p.constraints, S))
    ensures var S := StatesOf(p.vars);
            order != [] ==> forall v: nat :: v < |S| && S[v].index.None? ==> v in order
    ensures order != [] ==> |order| == |UnassignedVariables(StatesOf(p.vars))|
  {
    var S := StatesOf(p.vars);
    var U := UnassignedVariables(S);
    var g, deg := OrientAndCount(p, everyVariable);
    var sorted := Kahn(g, deg);
    TopoOrdered(p.constraints, S, g, deg.Keys, sorted);
    LengthCheck(p.constraints, S, U, deg.Keys, sorted, everyVariable);
    if |sorted| != |U| {
      order := [];
    } else {
      order := sorted;
    }
  }

  /**
   * __kahnTopologicalSort as written: the order is empty exactly when
   * nothing is unassigned or some unassigned variable has no unassigned
   * neighbour (such a variable never enters the in-degree map, so the
   * length check at line 93 fails).
   */
  method KahnTopologicalSort(p: Problem) returns (order: seq<nat>)
    ensures var S := StatesOf(p.vars);
            Distinct(order) && (forall k :: 0 <= k < |order| ==> order[k] < |S| && S[order[k]].index.None?)
    ensures Topological(p.constraints, StatesOf(p.vars), order)
    ensures var S := StatesOf(p.vars);
            order == [] <==> UnassignedVariables(S) == [] || HasIsolated(p.constraints, S)
    ensures var S := StatesOf(p.vars);
            order != [] ==> forall v: nat :: v < |S| && S[v].index.None? ==> v in order
    ensures order != [] ==> |order| == |UnassignedVariables(StatesOf(p.vars))|
  {
    order := SortWith(p, false);
  }

  /**
   * The sort with every unassigned variable entered in the in-degree map:
   * it lists every unassigned variable in an order that puts each edge's
   * tail first.
   */
  method CorrectedTopologicalSort(p: Problem) returns (order: seq<nat>)
    ensures var S := StatesOf(p.vars);
            Distinct(order) && (forall k :: 0 <= k < |order| ==> order[k] < |S| && S[order[k]].index.None?)
    ensures Topological(p.constraints, StatesOf(p.vars), order)
    ensures var S := StatesOf(p.vars);
            forall v: nat :: v < |S| && S[v].index.None? ==> v in order
    ensures |order| == |UnassignedVariables(StatesOf(p.vars))|
  {
    order := SortWith(p, true);
    ghost var S := StatesOf(p.vars);
    if order == [] {
      UnassignedVariablesComplete(S);
    }
  }

  /**
   * One unconstrained variable with the domain [1]: it has no neighbour,
   * so the sort as written returns nothing, yet giving it its one value
   * solves the problem.
   */
  lemma IsolatedVariableCounterexample()
    ensures var S := [VarState([1], None)];
            UnassignedVariables(S) != [] && HasIsolated([], S) &&
            IsCompletelyConsistentlyAssigned([], S[0 := VarState([1], Some(0))])
  {
    var S := [VarState([1], None)];
    assert forall y: nat :: !AreNeighbors([], 0, y);
    assert UnassignedNeighbors([], S, 0) == {};
    assert UnassignedFrom(S, 1) == [];
  }

  /**
   * assignByValue on an unassigned arena variable: on success the
   * variable holds v and nothing else changes; on failure (v not found)
   * nothing changes. A sorted-or-unordered domain that holds v succeeds.
   */
  method AssignValueInArena(p: Problem, x: nat, v: int) returns (r: Outcome<CspError>)
    requires p.Valid() && x < |p.vars| && AllWellFormed(StatesOf(p.vars))
    requires StatesOf(p.vars)[x].index.None?
    modifies p.vars[x]
    ensures AllWellFormed(StatesOf(p.vars))
    ensures DomainsOf(StatesOf(p.vars)) == DomainsOf(old(StatesOf(p.vars)))
    ensures r.Pass? ==> Values(StatesOf(p.vars)) == Values(old(StatesOf(p.vars)))[x := Some(v)]
    ensures r.Pass? ==> StatesOf(p.vars)[x].index.Some?
    ensures r.Pass? ==> StatesOf(p.vars) == old(StatesOf(p.vars))[x := VarState(old(StatesOf(p.vars))[x].domain, StatesOf(p.vars)[x].index)]
    ensures r.Fail? ==> r.error == UncontainedValue && StatesOf(p.vars) == old(StatesOf(p.vars))
    ensures (p.vars[x].ordered ==> Sorted(old(StatesOf(p.vars))[x].domain)) && v in old(StatesOf(p.vars))[x].domain ==> r.Pass?
  {
    ghost var S0 := StatesOf(p.vars);
    StatesOfPointwise(p.vars);
    r := p.vars[x].AssignByValue(v);
    ghost var st := p.vars[x].State();
    assert forall j :: 0 <= j < |p.vars| && j != x ==> p.vars[j] != p.vars[x];
    StatesOfPointwise(p.vars);
    assert StatesOf(p.vars) == S0[x := st];
    UpdateKeepsWellFormed(S0, x, st);
    DomainsOfUpdate(S0, x, st);
    ValuesUpdate(S0, x, st);
    if r.Fail? {
      assert S0[x := st] == S0;
    }
  }

  /**
   * Giving x the value d leaves y at least one consistent value: the test
   * of the backward pass (tree_csp_solver.h lines 123-124).
   */
  predicate Supported(cs: seq<Constraint>, S: seq<VarState>, x: nat, y: nat, d: int)
    requires ConstraintsValid(cs, |S|) && x < |S| && y < |S|
  {
    ConsistentDomain(cs, Values(S)[x := Some(d)], y, S[y].domain) != []
  }

  /** Every value of x supports y. */
  ghost predicate SupportsAll(cs: seq<Constraint>, S: seq<VarState>, x: nat, y: nat)
    requires ConstraintsValid(cs, |S|) && x < |S| && y < |S|
  {
    forall d :: d in S[x].domain ==> Supported(cs, S, x, y, d)
  }

  /** The entries of dom[..n] that support y, in domain order. */
  function Keep(cs: seq<Constraint>, S: seq<VarState>, x: nat, y: nat, dom: seq<int>, n: nat): (r: seq<int>)
    requires ConstraintsValid(cs, |S|) && x < |S| && y < |S| && n <= |dom|
    ensures |r| <= n
  {
    if n == 0 then []
    else Keep(cs, S, x, y, dom, n - 1) + (if Supported(cs, S, x, y, dom[n - 1]) then [dom[n - 1]] else [])
  }

  /** What the corrected pruning leaves of x's domain: its values that support y. */
  function Pruned(cs: seq<Constraint>, S: seq<VarState>, x: nat, y: nat): seq<int>
    requires ConstraintsValid(cs, |S|) && x < |S| && y < |S|
  {
    Keep(cs, S, x, y, S[x].domain, |S[x].domain|)
  }

  /** Keep retains exactly the supporting entries, in order. */
  lemma {:induction false} KeepMembers(cs: seq<Constraint>, S: seq<VarState>, x: nat, y: nat, dom: seq<int>, n: nat)
    requires ConstraintsValid(cs, |S|) && x < |S| && y < |S| && n <= |dom|
    ensures forall d :: d in Keep(cs, S, x, y, dom, n) <==> d in dom[..n] && Supported(cs, S, x, y, d)
  {
    if n > 0 {
      KeepMembers(cs, S, x, y, dom, n - 1);
      assert dom[..n] == dom[..n - 1] + [dom[n - 1]];
    }
  }

  /** Keep is a subsequence of the domain. */
  lemma {:induction false} KeepSubseq(cs: seq<Constraint>, S: seq<VarState>, x: nat, y: nat, dom: seq<int>, n: nat)
    requires ConstraintsValid(cs, |S|) && x < |S| && y < |S| && n <= |dom|
    ensures IsSubseq(Keep(cs, S, x, y, dom, n), dom[..n])
  {
    if n > 0 {
      KeepSubseq(cs, S, x, y, dom, n - 1);
      var k := Keep(cs, S, x, y, dom, n - 1);
      SubseqSnoc(k, dom[..n - 1], dom[n - 1], Supported(cs, S, x, y, dom[n - 1]));
      assert dom[..n] == dom[..n - 1] + [dom[n - 1]];
    }
  }

  /** Appending one entry to a sequence keeps a subsequence one, with or without that entry. */
  lemma {:induction false} SubseqSnoc(b: seq<int>, a: seq<int>, e: int, take: bool)
    requires IsSubseq(b, a)
    ensures IsSubseq(b + (if take then [e] else []), a + [e])
    decreases |a|
  {
    if a == [] {
      assert b == [];
      if take {
        assert [] + [e] == [e] && IsSubseq([e][1..], [e][1..]);
      } else {
        assert IsSubseq([], [e]);
      }
    } else if b != [] && b[0] == a[0] {
      SubseqSnoc(b[1..], a[1..], e, take);
      assert (b + (if take then [e] else []))[1..] == b[1..] + (if take then [e] else []);
      assert (a + [e])[1..] == a[1..] + [e];
    } else if b == [] {
      SubseqSnoc(b, a[1..], e, take);
      assert (a + [e])[1..] == a[1..] + [e];
      if take {
        assert b + [e] == [e];
        if e == a[0] {
          assert IsSubseq([e][1..], (a + [e])[1..]);
        }
      }
    } else {
      SubseqSnoc(b, a[1..], e, take);
      assert (a + [e])[1..] == a[1..] + [e];
      assert (b + (if take then [e] else []))[0] == b[0];
    }
  }

  /**
   * Variable x, if it keeps its domain sorted, has a sorted domain in S:
   * the invariant of the C++ variable under which assignByValue finds
   * every entry of the domain.
   */
  ghost predicate SortedAt(vars: seq<Variable>, S: seq<VarState>, x: nat)
    requires x < |vars| && x < |S|
  {
    vars[x].ordered ==> Sorted(S[x].domain)
  }

  /** Every variable of the arena keeps that invariant in S. */
  ghost predicate SortedIfOrdered(vars: seq<Variable>, S: seq<VarState>) {
    |S| == |vars| && forall v :: 0 <= v < |vars| ==> SortedAt(vars, S, v)
  }

  /** Domains that shrank to subsequences keep the invariant. */
  lemma ShrunkSorted(vars: seq<Variable>, S: seq<VarState>, T: seq<VarState>)
    requires SortedIfOrdered(vars, S) && |T| == |S|
    requires forall v :: 0 <= v < |S| ==> IsSubseq(T[v].domain, S[v].domain)
    ensures SortedIfOrdered(vars, T)
  {
    forall v | 0 <= v < |vars| ensures SortedAt(vars, T, v) {
      if vars[v].ordered {
        assert SortedAt(vars, S, v);
        SubseqSorted(T[v].domain, S[v].domain);
      }
    }
  }

  /** Keep of a sorted domain is sorted. */
  lemma {:induction false} KeepSorted(cs: seq<Constraint>, S: seq<VarState>, x: nat, y: nat, dom: seq<int>, n: nat)
    requires ConstraintsValid(cs, |S|) && x < |S| && y < |S| && n <= |dom| && Sorted(dom)
    ensures Sorted(Keep(cs, S, x, y, dom, n))
  {
    if n > 0 {
      KeepSorted(cs, S, x, y, dom, n - 1);
      KeepMembers(cs, S, x, y, dom, n - 1);
      var K := Keep(cs, S, x, y, dom, n - 1);
      forall i | 0 <= i < |K| ensures K[i] <= dom[n - 1] {
        assert K[i] in K;
        assert K[i] in dom[..n - 1];
        var l :| 0 <= l < n - 1 && dom[..n - 1][l] == K[i];
        assert dom[l] <= dom[n - 1];
      }
    }
  }

  /**
   * During the corrected inner loop a sorted domain stays sorted: the
   * kept prefix lies below the entries not yet examined.
   */
  lemma PruneLayoutSorted(cs: seq<Constraint>, S: seq<VarState>, x: nat, y: nat, dom: seq<int>, m: nat)
    requires ConstraintsValid(cs, |S|) && x < |S| && y < |S| && m <= |dom| && Sorted(dom)
    ensures Sorted(Keep(cs, S, x, y, dom, m) + dom[m..])
  {
    var K := Keep(cs, S, x, y, dom, m);
    KeepSorted(cs, S, x, y, dom, m);
    KeepMembers(cs, S, x, y, dom, m);
    var D := K + dom[m..];
    forall i, j | 0 <= i < j < |D| ensures D[i] <= D[j] {
      if j < |K| {
        assert D[i] == K[i] && D[j] == K[j];
      } else if i >= |K| {
        assert D[i] == dom[m + i - |K|] && D[j] == dom[m + j - |K|];
      } else {
        assert D[i] == K[i] && K[i] in K;
        assert K[i] in dom[..m];
        var l :| 0 <= l < m && dom[..m][l] == K[i];
        assert D[j] == dom[m + j - |K|];
        assert dom[l] <= dom[m + j - |K|];
      }
    }
  }

  /**
   * One step of the inner loop as written (lines 123-132): x takes its
   * j-th value and y's consistent domain is computed; when it is empty
   * the removal is refused because x is still assigned. A step that
   * succeeds leaves everything as it was. When x keeps its domain sorted
   * the lookup finds the value, so the step succeeds exactly when the
   * value supports y, and otherwise fails on the removal.
   */
  method TryValue(p: Problem, x: nat, y: nat, j: nat) returns (r: Outcome<CspError>)
    requires p.Valid() && AllWellFormed(StatesOf(p.vars)) && x < |p.vars| && y < |p.vars| && x != y
    requires StatesOf(p.vars)[x].index.None? && j < |StatesOf(p.vars)[x].domain|
    modifies p.vars[x]
    ensures AllWellFormed(StatesOf(p.vars))
    ensures r.Pass? ==> StatesOf(p.vars) == old(StatesOf(p.vars))
    ensures r.Pass? ==> Supported(p.constraints, old(StatesOf(p.vars)), x, y, old(StatesOf(p.vars))[x].domain[j])
    ensures r.Fail? ==> r.error == DomainAlteration || r.error == UncontainedValue
    ensures r == Fail(DomainAlteration) ==> StatesOf(p.vars)[x].index.Some?
    ensures SortedAt(p.vars, old(StatesOf(p.vars)), x) ==>
              (r.Pass? <==> Supported(p.constraints, old(StatesOf(p.vars)), x, y, old(StatesOf(p.vars))[x].domain[j])) &&
              (r.Fail? ==> r.error == DomainAlteration)
  {
    ghost var S := StatesOf(p.vars);
    StatesOfAt(p.vars, x);
    var v := p.vars[x].domain[j];
    assert v in S[x].domain;
    r := AssignValueInArena(p, x, v);
    if r.Fail? {
      return;
    }
    ghost var S1 := StatesOf(p.vars);
    assert S1[y] == S[y];
    StatesOfAt(p.vars, y);
    var cd := ConsistentDomain(p.constraints, Values(StatesOf(p.vars)), y, p.vars[y].domain);
    if cd == [] {
      r := RemoveInArena(p, x, j);
      return;
    }
    UnassignInArena(p, x);
    RestoreState(S, x, S1[x]);
  }

  /**
   * The inner loop of the backward pass as written (lines 121-133): every
   * value of x is tried against y. It succeeds, leaving x as it was, only
   * when every value of x supports y; when x keeps its domain sorted it
   * succeeds exactly then, and otherwise fails on the removal.
   */
  method CheckValues(p: Problem, x: nat, y: nat) returns (r: Outcome<CspError>)
    requires p.Valid() && AllWellFormed(StatesOf(p.vars)) && x < |p.vars| && y < |p.vars| && x != y
    requires StatesOf(p.vars)[x].index.None?
    modifies p.vars[x]
    ensures AllWellFormed(StatesOf(p.vars))
    ensures r.Pass? ==> StatesOf(p.vars) == old(StatesOf(p.vars))
    ensures r.Pass? ==> SupportsAll(p.constraints, old(StatesOf(p.vars)), x, y)
    ensures r.Fail? ==> r.error == DomainAlteration || r.error == UncontainedValue
    ensures r == Fail(DomainAlteration) ==> StatesOf(p.vars)[x].index.Some?
    ensures SortedAt(p.vars, old(StatesOf(p.vars)), x) ==>
              (r.Pass? <==> SupportsAll(p.constraints, old(StatesOf(p.vars)), x, y)) && (r.Fail? ==> r.error == DomainAlteration)
  {
    ghost var S := StatesOf(p.vars);
    StatesOfAt(p.vars, x);
    ghost var dom := p.vars[x].domain;
    var j := 0;
    while j < |p.vars[x].domain|
      invariant StatesOf(p.vars) == S && p.vars[x].domain == dom && j <= |dom|
      invariant forall k :: 0 <= k < j ==> Supported(p.constraints, S, x, y, dom[k])
      decreases |dom| - j
    {
      r := TryValue(p, x, y, j);
      if r.Fail? {
        assert SortedAt(p.vars, S, x) ==> !SupportsAll(p.constraints, S, x, y) by {
          assert dom[j] in S[x].domain;
        }
        return;
      }
      j := j + 1;
      StatesOfAt(p.vars, x);
    }
    r := Pass;
    assert SupportsAll(p.constraints, S, x, y) by {
      forall d | d in dom ensures Supported(p.constraints, S, x, y, d) {
        var k :| 0 <= k < |dom| && dom[k] == d;
      }
    }
  }

  /** A two-variable constraint that their values differ. */
  predicate DifferentValues(vals: seq<int>) {
    |vals| == 2 ==> vals[0] != vals[1]
  }

  /**
   * Variable 0 with the domain [1], variable 1 with [1, 2], and one
   * constraint that their values differ. The value 1 of variable 1 leaves
   * variable 0 no consistent value, so the pass as written must remove it
   * while variable 1 is still assigned, and fails; yet 0 := 1, 1 := 2
   * solves the problem, and pruning keeps exactly the value 2.
   */
  lemma UnsupportedValueCounterexample()
    ensures var cs := [Constraint(0, [0, 1], DifferentValues)];
            var S := [VarState([1], None), VarState([1, 2], None)];
            ConstraintsValid(cs, |S|) && !Supported(cs, S, 1, 0, 1) && Pruned(cs, S, 1, 0) == [2] &&
            IsCompletelyConsistentlyAssigned(cs, [VarState([1], Some(0)), VarState([1, 2], Some(1))])
  {
    var cs := [Constraint(0, [0, 1], DifferentValues)];
    var S := [VarState([1], None), VarState([1, 2], None)];
    SingletonPairSupport(1);
    SingletonPairSupport(2);
    assert Keep(cs, S, 1, 0, [1, 2], 1) == [];
    assert Keep(cs, S, 1, 0, [1, 2], 2) == [2];
    var T := [VarState([1], Some(0)), VarState([1, 2], Some(1))];
    assert AssignedValues([0, 1], Values(T)) == [1, 2];
  }

  /** In that problem, variable 1 := d leaves variable 0 its value 1 exactly when d is not 1. */
  lemma SingletonPairSupport(d: int)
    ensures var cs := [Constraint(0, [0, 1], DifferentValues)];
            var S := [VarState([1], None), VarState([1, 2], None)];
            ConstraintsValid(cs, |S|) && (Supported(cs, S, 1, 0, d) <==> d != 1)
  {
    var cs := [Constraint(0, [0, 1], DifferentValues)];
    var S := [VarState([1], None), VarState([1, 2], None)];
    assert Distinct(Ids(cs));
    var V := Values(S)[1 := Some(d)];
    assert AssignedValues([0, 1], V[0 := Some(1)]) == [1, d];
    assert InScope(cs[0], 0);
    assert ConsistentWith(cs, V, 0, 1) <==> d != 1;
    assert ConsistentDomain(cs, V, 0, [1]) == if d != 1 then [1] else [];
  }

  /**
   * Two variables with the domain [1, 2] and one constraint that their
   * values differ, along the order [0, 1]: each value of variable 1
   * leaves variable 0 a consistent value, so the backward pass as written
   * meets no unsupported value and, the domains being sorted, the solver
   * as written does not fail on this order.
   */
  lemma DifferentPairSupported()
    ensures var cs := [Constraint(0, [0, 1], DifferentValues)];
            var S := [VarState([1, 2], None), VarState([1, 2], None)];
            ConstraintsValid(cs, |S|) && ValidOrder(S, [0, 1]) && !Unsupported(cs, S, [0, 1])
  {
    var cs := [Constraint(0, [0, 1], DifferentValues)];
    var S := [VarState([1, 2], None), VarState([1, 2], None)];
    DifferentPairValue(1, 2);
    DifferentPairValue(2, 1);
    assert AllSupported(cs, S, [0, 1], 1);
  }

  /** In that problem, variable 1 := d leaves variable 0 the value e != d. */
  lemma DifferentPairValue(d: int, e: int)
    requires d != e && (e == 1 || e == 2)
    ensures var cs := [Constraint(0, [0, 1], DifferentValues)];
            var S := [VarState([1, 2], None), VarState([1, 2], None)];
            ConstraintsValid(cs, |S|) && Supported(cs, S, 1, 0, d)
  {
    var cs := [Constraint(0, [0, 1], DifferentValues)];
    var S := [VarState([1, 2], None), VarState([1, 2], None)];
    assert Distinct(Ids(cs));
    var V := Values(S)[1 := Some(d)];
    assert AssignedValues([0, 1], V[0 := Some(e)]) == [e, d];
    assert ConsistentWith(cs, V, 0, e);
    ConsistentDomainMembers(cs, V, 0, [1, 2]);
    assert e in ConsistentDomain(cs, V, 0, [1, 2]);
  }

  /** Changing the domain of an unassigned variable changes no value. */
  lemma UnassignedDomainUpdate(S: seq<VarState>, x: nat, dom: seq<int>)
    requires x < |S| && S[x].index.None?
    ensures Values(S[x := VarState(dom, None)]) == Values(S)
  {
    ValuesUpdate(S, x, VarState(dom, None));
    assert Values(S)[x := None] == Values(S);
  }

  /** Keep depends on the state only through its values and y's domain. */
  lemma {:induction false} KeepFrame(cs: seq<Constraint>, S: seq<VarState>, T: seq<VarState>, x: nat, y: nat, dom: seq<int>, n: nat)
    requires |S| == |T| && ConstraintsValid(cs, |S|) && x < |S| && y < |S| && n <= |dom|
    requires Values(S) == Values(T) && S[y] == T[y]
    ensures Keep(cs, S, x, y, dom, n) == Keep(cs, T, x, y, dom, n)
  {
    if n > 0 {
      KeepFrame(cs, S, T, x, y, dom, n - 1);
    }
  }

  /**
   * The end of a corrected step (lines 126 and 132, reordered): the
   * assigned x is unassigned and, when the value failed, its j-th entry is
   * then removed.
   */
  method Settle(p: Problem, x: nat, j: nat, remove: bool, ghost S: seq<VarState>)
    requires p.Valid() && AllWellFormed(StatesOf(p.vars)) && x < |S| == |p.vars|
    requires S[x].index.None? && j < |S[x].domain|
    requires StatesOf(p.vars) == S[x := VarState(S[x].domain, StatesOf(p.vars)[x].index)]
    modifies p.vars[x]
    ensures AllWellFormed(StatesOf(p.vars))
    ensures !remove ==> StatesOf(p.vars) == S
    ensures remove ==> StatesOf(p.vars) == S[x := VarState(S[x].domain[..j] + S[x].domain[j + 1..], None)]
  {
    ghost var S1 := StatesOf(p.vars);
    UnassignInArena(p, x);
    RestoreState(S, x, S1[x]);
    if remove {
      var r := RemoveInArena(p, x, j);
      ghost var S2 := StatesOf(p.vars);
      UnassignInArena(p, x);
      assert S2[x := VarState(S2[x].domain, None)] == S2;
    } else {
      UnassignInArena(p, x);
    }
  }

  /**
   * One step of the corrected inner loop: x takes its j-th value; when y
   * is left without a consistent value, x is unassigned first and the
   * value is then removed. Either way x ends unassigned; when x keeps its
   * domain sorted the step cannot fail.
   */
  method PruneValue(p: Problem, x: nat, y: nat, j: nat) returns (r: Outcome<CspError>, kept: bool)
    requires p.Valid() && AllWellFormed(StatesOf(p.vars)) && x < |p.vars| && y < |p.vars| && x != y
    requires StatesOf(p.vars)[x].index.None? && j < |StatesOf(p.vars)[x].domain|
    modifies p.vars[x]
    ensures AllWellFormed(StatesOf(p.vars))
    ensures r.Pass? ==> kept == Supported(p.constraints, old(StatesOf(p.vars)), x, y, old(StatesOf(p.vars))[x].domain[j])
    ensures r.Pass? && kept ==> StatesOf(p.vars) == old(StatesOf(p.vars))
    ensures r.Pass? && !kept ==>
              StatesOf(p.vars) == old(StatesOf(p.vars))[x := VarState(old(StatesOf(p.vars))[x].domain[..j] + old(StatesOf(p.vars))[x].domain[j + 1..], None)]
    ensures r.Fail? ==> r.error == UncontainedValue
    ensures SortedAt(p.vars, old(StatesOf(p.vars)), x) ==> r.Pass?
  {
    ghost var S := StatesOf(p.vars);
    StatesOfAt(p.vars, x);
    var v := p.vars[x].domain[j];
    assert v in S[x].domain;
    kept := false;
    r := AssignValueInArena(p, x, v);
    if r.Fail? {
      return;
    }
    ghost var S1 := StatesOf(p.vars);
    assert S1[y] == S[y];
    StatesOfAt(p.vars, y);
    var cd := ConsistentDomain(p.constraints, Values(StatesOf(p.vars)), y, p.vars[y].domain);
    kept := cd != [];
    Settle(p, x, j, !kept, S);
  }

  /**
   * The domain during the corrected inner loop: the kept prefix, then the
   * entries not yet examined; the next entry is tested as in the
   * original state.
   */
  lemma PruneLayout(cs: seq<Constraint>, S: seq<VarState>, x: nat, y: nat, m: nat)
    requires ConstraintsValid(cs, |S|) && x < |S| && y < |S| && x != y && S[x].index.None? && m < |S[x].domain|
    ensures var dom := S[x].domain;
            var K := Keep(cs, S, x, y, dom, m);
            var D := K + dom[m..];
            |K| < |D| && D[|K|] == dom[m] &&
            Supported(cs, S[x := VarState(D, None)], x, y, dom[m]) == Supported(cs, S, x, y, dom[m])
  {
    var dom := S[x].domain;
    var K := Keep(cs, S, x, y, dom, m);
    var D := K + dom[m..];
    assert D[|K|] == dom[m];
    UnassignedDomainUpdate(S, x, D);
  }

  /** One examined entry of the corrected inner loop: it stays exactly when it supports y. */
  lemma PruneStep(cs: seq<Constraint>, S: seq<VarState>, x: nat, y: nat, m: nat, kept: bool)
    requires ConstraintsValid(cs, |S|) && x < |S| && y < |S| && m < |S[x].domain|
    requires kept == Supported(cs, S, x, y, S[x].domain[m])
    ensures var dom := S[x].domain;
            var K := Keep(cs, S, x, y, dom, m);
            var D := K + dom[m..];
            var next := Keep(cs, S, x, y, dom, m + 1) + dom[m + 1..];
            (kept ==> D == next && |Keep(cs, S, x, y, dom, m + 1)| == |K| + 1) &&
            (!kept ==> D[..|K|] + D[|K| + 1..] == next && |Keep(cs, S, x, y, dom, m + 1)| == |K|)
  {
    var dom := S[x].domain;
    var K := Keep(cs, S, x, y, dom, m);
    var D := K + dom[m..];
    assert Keep(cs, S, x, y, dom, m + 1) == K + (if kept then [dom[m]] else []);
    assert dom[m..] == [dom[m]] + dom[m + 1..];
    if kept {
      assert D == (K + [dom[m]]) + dom[m + 1..];
    } else {
      assert D[..|K|] == K;
      assert D[|K| + 1..] == dom[m + 1..];
    }
  }

  /** The corrected loop body: the state advances from m examined entries to m + 1. */
  method PruneNext(p: Problem, x: nat, y: nat, j: nat, ghost S: seq<VarState>, ghost m: nat) returns (r: Outcome<CspError>, j': nat)
    requires p.Valid() && AllWellFormed(StatesOf(p.vars)) && x < |p.vars| == |S| && y < |p.vars| && x != y
    requires S[x].index.None? && m < |S[x].domain| && j == |Keep(p.constraints, S, x, y, S[x].domain, m)|
    requires StatesOf(p.vars) == S[x := VarState(Keep(p.constraints, S, x, y, S[x].domain, m) + S[x].domain[m..], None)]
    modifies p.vars[x]
    ensures AllWellFormed(StatesOf(p.vars))
    ensures r.Pass? ==> j' == |Keep(p.constraints, S, x, y, S[x].domain, m + 1)|
    ensures r.Pass? ==> StatesOf(p.vars) == S[x := VarState(Keep(p.constraints, S, x, y, S[x].domain, m + 1) + S[x].domain[m + 1..], None)]
    ensures r.Fail? ==> r.error == UncontainedValue
    ensures SortedAt(p.vars, S, x) ==> r.Pass?
  {
    PruneLayout(p.constraints, S, x, y, m);
    if SortedAt(p.vars, S, x) && p.vars[x].ordered {
      PruneLayoutSorted(p.constraints, S, x, y, S[x].domain, m);
    }
    j' := j;
    var kept;
    r, kept := PruneValue(p, x, y, j);
    if r.Fail? {
      return;
    }
    PruneStep(p.constraints, S, x, y, m, kept);
    j' := if kept then j + 1 else j;
  }

  /**
   * The inner loop of the backward pass, corrected: x keeps exactly its
   * values that support y, in domain order, and ends unassigned. When x
   * keeps its domain sorted it cannot fail.
   */
  method PruneValues(p: Problem, x: nat, y: nat) returns (r: Outcome<CspError>)
    requires p.Valid() && AllWellFormed(StatesOf(p.vars)) && x < |p.vars| && y < |p.vars| && x != y
    requires StatesOf(p.vars)[x].index.None?
    modifies p.vars[x]
    ensures AllWellFormed(StatesOf(p.vars))
    ensures r.Pass? ==> StatesOf(p.vars) == old(StatesOf(p.vars))[x := VarState(Pruned(p.constraints, old(StatesOf(p.vars)), x, y), None)]
    ensures r.Fail? ==> r.error == UncontainedValue
    ensures SortedAt(p.vars, old(StatesOf(p.vars)), x) ==> r.Pass?
  {
    ghost var S := StatesOf(p.vars);
    ghost var cs := p.constraints;
    ghost var dom := S[x].domain;
    ghost var m: nat := 0;
    assert S[x := VarState(dom, None)] == S;
    assert Keep(cs, S, x, y, dom, 0) + dom[0..] == dom;
    var j := 0;
    r := Pass;
    StatesOfAt(p.vars, x);
    while j < |p.vars[x].domain|
      invariant m <= |dom| && j == |Keep(cs, S, x, y, dom, m)|
      invariant StatesOf(p.vars) == S[x := VarState(Keep(cs, S, x, y, dom, m) + dom[m..], None)]
      invariant p.vars[x].domain == Keep(cs, S, x, y, dom, m) + dom[m..]
      invariant AllWellFormed(StatesOf(p.vars)) && r == Pass
      decreases |dom| - m
    {
      r, j := PruneNext(p, x, y, j, S, m);
      if r.Fail? {
        return;
      }
      m := m + 1;
      StatesOfAt(p.vars, x);
    }
    assert m == |dom|;
    assert Keep(cs, S, x, y, dom, m) + dom[m..] == Pruned(cs, S, x, y);
  }

  /** A sort result: distinct unassigned arena positions. */
  ghost predicate ValidOrder(S: seq<VarState>, order: seq<nat>) {
    Distinct(order) && forall k :: 0 <= k < |order| ==> order[k] < |S| && S[order[k]].index.None?
  }

  /** Every value of the k-th variable of the order supports its predecessor. */
  ghost predicate AllSupported(cs: seq<Constraint>, S: seq<VarState>, order: seq<nat>, k: nat)
    requires ConstraintsValid(cs, |S|) && ValidOrder(S, order) && 1 <= k < |order|
  {
    SupportsAll(cs, S, order[k], order[k - 1])
  }

  /**
   * The variables order[i+1..] have non-empty domains, and every value of
   * each supports the previous variable of the order.
   */
  ghost predicate CheckedAbove(cs: seq<Constraint>, S: seq<VarState>, order: seq<nat>, i: nat)
    requires ConstraintsValid(cs, |S|) && ValidOrder(S, order) && i < |order|
  {
    forall k: nat :: i < k < |order| ==> S[order[k]].domain != [] && AllSupported(cs, S, order, k)
  }

  lemma CheckedStep(cs: seq<Constraint>, S: seq<VarState>, order: seq<nat>, i: nat)
    requires ConstraintsValid(cs, |S|) && ValidOrder(S, order) && 1 <= i < |order|
    requires CheckedAbove(cs, S, order, i) && S[order[i]].domain != [] && AllSupported(cs, S, order, i)
    ensures CheckedAbove(cs, S, order, i - 1)
  {
  }

  /**
   * Where the backward pass as written stopped: 0 when it went through,
   * otherwise the position of the variable whose domain was empty;
   * everything above was checked.
   */
  ghost predicate CheckedUntil(cs: seq<Constraint>, S: seq<VarState>, order: seq<nat>, stop: nat)
    requires ConstraintsValid(cs, |S|) && ValidOrder(S, order)
  {
    stop < |order| && (stop > 0 ==> S[order[stop]].domain == []) && CheckedAbove(cs, S, order, stop)
  }

  /**
   * The backward pass as written meets, with everything above it checked,
   * a variable with a value that does not support the previous variable.
   */
  ghost predicate Unsupported(cs: seq<Constraint>, S: seq<VarState>, order: seq<nat>)
    requires ConstraintsValid(cs, |S|) && ValidOrder(S, order)
  {
    exists k: nat :: 1 <= k < |order| && CheckedAbove(cs, S, order, k) && !AllSupported(cs, S, order, k)
  }

  /** A pass that stopped or went through met no unsupported value. */
  lemma CheckedUntilSupported(cs: seq<Constraint>, S: seq<VarState>, order: seq<nat>, stop: nat)
    requires ConstraintsValid(cs, |S|) && ValidOrder(S, order) && CheckedUntil(cs, S, order, stop)
    ensures !Unsupported(cs, S, order)
  {
    forall k: nat | 1 <= k < |order| && CheckedAbove(cs, S, order, k) ensures AllSupported(cs, S, order, k) {
      if k < stop {
        assert false;
      }
    }
  }

  /**
   * The backward pass as written (lines 117-139), from the last variable
   * of the order down to the second: it completes (result 0) or stops at
   * the first variable met with an empty domain (its position) without
   * changing anything, and only when every value it looked at supports
   * the previous variable. With sorted domains a value that does not
   * support it is exactly what makes the pass fail.
   */
  method BackwardPass(p: Problem, order: seq<nat>) returns (r: Result<nat, CspError>)
    requires p.Valid() && AllWellFormed(StatesOf(p.vars)) && ValidOrder(StatesOf(p.vars), order) && order != []
    modifies p.vars
    ensures AllWellFormed(StatesOf(p.vars))
    ensures r.Ok? ==> StatesOf(p.vars) == old(StatesOf(p.vars))
    ensures r.Ok? ==> CheckedUntil(p.constraints, old(StatesOf(p.vars)), order, r.value)
    ensures r.Err? ==> r.error == DomainAlteration || r.error == UncontainedValue
    ensures SortedIfOrdered(p.vars, old(StatesOf(p.vars))) ==>
              (r.Err? <==> Unsupported(p.constraints, old(StatesOf(p.vars)), order)) &&
              (r.Err? ==> r.error == DomainAlteration)
  {
    ghost var S := StatesOf(p.vars);
    ghost var cs := p.constraints;
    var i: nat := |order| - 1;
    while i > 0
      invariant i < |order| && StatesOf(p.vars) == S
      invariant CheckedAbove(cs, S, order, i)
      decreases i
    {
      var x, y := order[i], order[i - 1];
      var a := CheckValues(p, x, y);
      if a.Fail? {
        if SortedIfOrdered(p.vars, S) {
          assert SortedAt(p.vars, S, x);
          assert !AllSupported(cs, S, order, i);
        }
        return Err(a.error);
      }
      StatesOfAt(p.vars, x);
      if |p.vars[x].domain| == 0 {
        CheckedUntilSupported(cs, S, order, i);
        return Ok(i);
      }
      assert AllSupported(cs, S, order, i);
      CheckedStep(cs, S, order, i);
      i := i - 1;
    }
    CheckedUntilSupported(cs, S, order, 0);
    return Ok(0);
  }

  /**
   * T is S with each of order[i..] unassigned and holding its entry of
   * doms; every other variable is as in S.
   */
  ghost predicate ResetWith(S: seq<VarState>, order: seq<nat>, doms: seq<seq<int>>, i: nat, T: seq<VarState>)
    requires ValidOrder(S, order) && |doms| == |order|
    decreases |order| - i
  {
    i <= |order| && |T| == |S| &&
    if i == |order| then T == S
    else T[order[i]] == VarState(doms[i], None) && ResetWith(S, order, doms, i + 1, T[order[i] := S[order[i]]])
  }

  /** A variable outside order[i..] keeps its state. */
  lemma {:induction false} ResetWithOutside(S: seq<VarState>, order: seq<nat>, doms: seq<seq<int>>, i: nat, T: seq<VarState>, v: nat)
    requires ValidOrder(S, order) && |doms| == |order| && ResetWith(S, order, doms, i, T) && v < |S|
    requires forall k :: i <= k < |order| ==> order[k] != v
    ensures T[v] == S[v]
    decreases |order| - i
  {
    if i < |order| {
      ResetWithOutside(S, order, doms, i + 1, T[order[i] := S[order[i]]], v);
    }
  }

  /** A variable of order[i..] holds its entry of doms, unassigned. */
  lemma {:induction false} ResetWithInside(S: seq<VarState>, order: seq<nat>, doms: seq<seq<int>>, i: nat, T: seq<VarState>, k: nat)
    requires ValidOrder(S, order) && |doms| == |order| && ResetWith(S, order, doms, i, T) && i <= k < |order|
    ensures T[order[k]] == VarState(doms[k], None)
    decreases |order| - i
  {
    if i < k {
      assert order[i] != order[k] by {
        assert Distinct(order);
      }
      ResetWithInside(S, order, doms, i + 1, T[order[i] := S[order[i]]], k);
    }
  }

  /** Resetting unassigned variables changes no value and no assignment index. */
  lemma {:induction false} ResetWithValues(S: seq<VarState>, order: seq<nat>, doms: seq<seq<int>>, i: nat, T: seq<VarState>)
    requires ValidOrder(S, order) && |doms| == |order| && ResetWith(S, order, doms, i, T) && AllWellFormed(S)
    ensures Values(T) == Values(S) && AllWellFormed(T)
    ensures forall v :: 0 <= v < |S| ==> T[v].index == S[v].index
    decreases |order| - i
  {
    if i < |order| {
      var x := order[i];
      var U := T[x := S[x]];
      var st := VarState(doms[i], None);
      ResetWithValues(S, order, doms, i + 1, U);
      assert T == U[x := st];
      ValuesUpdate(U, x, st);
      assert Values(S)[x := None] == Values(S);
      UpdateKeepsWellFormed(U, x, st);
    }
  }

  /** Resetting one more variable of the order. */
  lemma ResetWithStep(S: seq<VarState>, order: seq<nat>, doms: seq<seq<int>>, i: nat, T: seq<VarState>)
    requires ValidOrder(S, order) && |doms| == |order| && i < |order| && ResetWith(S, order, doms, i + 1, T)
    ensures ResetWith(S, order, doms, i, T[order[i] := VarState(doms[i], None)])
  {
    var x := order[i];
    assert forall k :: i + 1 <= k < |order| ==> order[k] != x by {
      assert Distinct(order);
    }
    ResetWithOutside(S, order, doms, i + 1, T, x);
    assert T[x := VarState(doms[i], None)][x := S[x]] == T;
  }

  /** Before order[i] is reset, it and its predecessor are as they were, and so are all values. */
  lemma ResetWithBefore(S: seq<VarState>, order: seq<nat>, doms: seq<seq<int>>, i: nat, T: seq<VarState>)
    requires ValidOrder(S, order) && |doms| == |order| && 1 <= i < |order| && AllWellFormed(S)
    requires ResetWith(S, order, doms, i + 1, T)
    ensures T[order[i]] == S[order[i]] && T[order[i - 1]] == S[order[i - 1]] && Values(T) == Values(S)
  {
    var x, y := order[i], order[i - 1];
    assert forall k :: i + 1 <= k < |order| ==> order[k] != x && order[k] != y by {
      assert Distinct(order);
    }
    ResetWithOutside(S, order, doms, i + 1, T, x);
    ResetWithOutside(S, order, doms, i + 1, T, y);
    ResetWithValues(S, order, doms, i + 1, T);
  }

  /** doms[k] is what pruning the k-th variable of the order against its predecessor leaves. */
  ghost predicate IsPrunedDomain(cs: seq<Constraint>, S: seq<VarState>, order: seq<nat>, doms: seq<seq<int>>, k: nat)
    requires ConstraintsValid(cs, |S|) && ValidOrder(S, order) && |doms| == |order| && 1 <= k < |order|
  {
    doms[k] == Pruned(cs, S, order[k], order[k - 1])
  }

  /** doms lists the pruned domains of the order (the first variable is never pruned). */
  ghost predicate PrunedDomains(cs: seq<Constraint>, S: seq<VarState>, order: seq<nat>, doms: seq<seq<int>>)
    requires ConstraintsValid(cs, |S|) && ValidOrder(S, order)
  {
    |doms| == |order| && forall k: nat :: 1 <= k < |order| ==> IsPrunedDomain(cs, S, order, doms, k)
  }

  /** The pruned domains of order[k..], with an empty entry for the first variable of the order. */
  ghost function PrunedList(cs: seq<Constraint>, S: seq<VarState>, order: seq<nat>, k: nat): (r: seq<seq<int>>)
    requires ConstraintsValid(cs, |S|) && ValidOrder(S, order) && k <= |order|
    ensures |r| == |order| - k
    decreases |order| - k
  {
    if k == |order| then []
    else [if k == 0 then [] else Pruned(cs, S, order[k], order[k - 1])] + PrunedList(cs, S, order, k + 1)
  }

  lemma {:induction false} PrunedListAt(cs: seq<Constraint>, S: seq<VarState>, order: seq<nat>, k: nat, j: nat)
    requires ConstraintsValid(cs, |S|) && ValidOrder(S, order) && 1 <= j && k <= j < |order|
    ensures PrunedList(cs, S, order, k)[j - k] == Pruned(cs, S, order[j], order[j - 1])
    decreases j - k
  {
    if k < j {
      PrunedListAt(cs, S, order, k + 1, j);
    }
  }

  lemma PrunedDomainsExist(cs: seq<Constraint>, S: seq<VarState>, order: seq<nat>)
    requires ConstraintsValid(cs, |S|) && ValidOrder(S, order)
    ensures exists doms :: PrunedDomains(cs, S, order, doms)
  {
    var doms := PrunedList(cs, S, order, 0);
    forall k: nat | 1 <= k < |order| ensures IsPrunedDomain(cs, S, order, doms, k) {
      PrunedListAt(cs, S, order, 0, k);
    }
    assert PrunedDomains(cs, S, order, doms);
  }

  /**
   * T is S after the corrected backward pass has pruned order[i..]: each
   * of those variables is unassigned and holds the values of its domain
   * that support its predecessor in the order; every other variable is as
   * in S.
   */
  ghost predicate PrunedStates(cs: seq<Constraint>, S: seq<VarState>, order: seq<nat>, i: nat, T: seq<VarState>)
    requires ConstraintsValid(cs, |S|) && ValidOrder(S, order)
  {
    1 <= i && exists doms :: PrunedDomains(cs, S, order, doms) && ResetWith(S, order, doms, i, T)
  }

  /** A variable outside order[i..] keeps its state. */
  lemma PrunedStatesOutside(cs: seq<Constraint>, S: seq<VarState>, order: seq<nat>, i: nat, T: seq<VarState>, v: nat)
    requires ConstraintsValid(cs, |S|) && ValidOrder(S, order) && PrunedStates(cs, S, order, i, T) && v < |S|
    requires forall k :: i <= k < |order| ==> order[k] != v
    ensures T[v] == S[v]
  {
    var doms :| PrunedDomains(cs, S, order, doms) && ResetWith(S, order, doms, i, T);
    ResetWithOutside(S, order, doms, i, T, v);
  }

  /** A variable of order[i..] holds its pruned domain, unassigned. */
  lemma PrunedStatesInside(cs: seq<Constraint>, S: seq<VarState>, order: seq<nat>, i: nat, T: seq<VarState>, k: nat)
    requires ConstraintsValid(cs, |S|) && ValidOrder(S, order) && PrunedStates(cs, S, order, i, T) && i <= k < |order|
    ensures T[order[k]] == VarState(Pruned(cs, S, order[k], order[k - 1]), None)
  {
    var doms :| PrunedDomains(cs, S, order, doms) && ResetWith(S, order, doms, i, T);
    ResetWithInside(S, order, doms, i, T, k);
    assert IsPrunedDomain(cs, S, order, doms, k);
  }

  /** Pruning changes no value and no assignment index, and keeps the arena well formed. */
  lemma PrunedStatesValues(cs: seq<Constraint>, S: seq<VarState>, order: seq<nat>, i: nat, T: seq<VarState>)
    requires ConstraintsValid(cs, |S|) && ValidOrder(S, order) && PrunedStates(cs, S, order, i, T) && AllWellFormed(S)
    ensures Values(T) == Values(S) && AllWellFormed(T)
    ensures forall v :: 0 <= v < |S| ==> T[v].index == S[v].index
  {
    var doms :| PrunedDomains(cs, S, order, doms) && ResetWith(S, order, doms, i, T);
    ResetWithValues(S, order, doms, i, T);
  }

  /**
   * After the corrected pass has pruned order[i..], each pruned variable
   * keeps exactly the values of its original domain that support its
   * predecessor, in domain order.
   */
  lemma PrunedStatesSupported(cs: seq<Constraint>, S: seq<VarState>, order: seq<nat>, i: nat, T: seq<VarState>, k: nat)
    requires ConstraintsValid(cs, |S|) && ValidOrder(S, order) && PrunedStates(cs, S, order, i, T) && i <= k < |order|
    ensures var dom := T[order[k]].domain;
            IsSubseq(dom, S[order[k]].domain) &&
            forall d :: d in dom <==> d in S[order[k]].domain && Supported(cs, S, order[k], order[k - 1], d)
  {
    PrunedStatesInside(cs, S, order, i, T, k);
    var x, y, dom := order[k], order[k - 1], S[order[k]].domain;
    KeepMembers(cs, S, x, y, dom, |dom|);
    KeepSubseq(cs, S, x, y, dom, |dom|);
    assert dom[..|dom|] == dom;
  }

  /** Pruning depends on a state only through its values and the two variables' states. */
  lemma PrunedFrame(cs: seq<Constraint>, S: seq<VarState>, T: seq<VarState>, x: nat, y: nat)
    requires |S| == |T| && ConstraintsValid(cs, |S|) && x < |S| && y < |S|
    requires T[x] == S[x] && T[y] == S[y] && Values(T) == Values(S)
    ensures Pruned(cs, T, x, y) == Pruned(cs, S, x, y)
  {
    KeepFrame(cs, T, S, x, y, S[x].domain, |S[x].domain|);
  }

  /** The k-th variable of the order keeps some value when pruned against its predecessor. */
  ghost predicate KeepsValue(cs: seq<Constraint>, S: seq<VarState>, order: seq<nat>, k: nat)
    requires ConstraintsValid(cs, |S|) && ValidOrder(S, order)
  {
    1 <= k < |order| && Pruned(cs, S, order[k], order[k - 1]) != []
  }

  /** The variables order[i+1..] keep some value after pruning. */
  ghost predicate PrunedAbove(cs: seq<Constraint>, S: seq<VarState>, order: seq<nat>, i: nat)
    requires ConstraintsValid(cs, |S|) && ValidOrder(S, order) && i < |order|
  {
    forall k: nat :: i < k < |order| ==> KeepsValue(cs, S, order, k)
  }

  /**
   * Where the corrected backward pass stopped, and the state T it left:
   * 0 when it went through (order[1..] pruned), otherwise the position
   * of the variable whose pruned domain was empty (order[stop..] pruned).
   */
  ghost predicate PrunedUntil(cs: seq<Constraint>, S: seq<VarState>, order: seq<nat>, stop: nat, T: seq<VarState>)
    requires ConstraintsValid(cs, |S|) && ValidOrder(S, order)
  {
    stop < |order| && PrunedStates(cs, S, order, if stop == 0 then 1 else stop, T) &&
    (stop > 0 ==> Pruned(cs, S, order[stop], order[stop - 1]) == []) && PrunedAbove(cs, S, order, stop)
  }

  /** The corrected backward pass has reset order[i+1..] to their entries of doms, none of them empty. */
  ghost predicate ResetBelow(S: seq<VarState>, order: seq<nat>, doms: seq<seq<int>>, i: nat, T: seq<VarState>)
    requires ValidOrder(S, order) && |doms| == |order|
  {
    i < |order| && ResetWith(S, order, doms, i + 1, T) && forall k :: i < k < |order| ==> doms[k] != []
  }

  /** The corrected backward pass stopped at stop with T, in terms of doms. */
  ghost predicate ResetUntil(S: seq<VarState>, order: seq<nat>, doms: seq<seq<int>>, stop: nat, T: seq<VarState>)
    requires ValidOrder(S, order) && |doms| == |order|
  {
    stop < |order| && ResetWith(S, order, doms, if stop == 0 then 1 else stop, T) &&
    (stop > 0 ==> doms[stop] == []) && forall k :: stop < k < |order| ==> doms[k] != []
  }

  /** With the pruned domains for doms, stopping in terms of doms is PrunedUntil. */
  lemma ResetUntilPruned(cs: seq<Constraint>, S: seq<VarState>, order: seq<nat>, doms: seq<seq<int>>, stop: nat, T: seq<VarState>)
    requires ConstraintsValid(cs, |S|) && ValidOrder(S, order) && PrunedDomains(cs, S, order, doms)
    requires ResetUntil(S, order, doms, stop, T)
    ensures PrunedUntil(cs, S, order, stop, T)
  {
    if stop > 0 {
      assert IsPrunedDomain(cs, S, order, doms, stop);
    }
    forall k: nat | stop < k < |order| ensures KeepsValue(cs, S, order, k) {
      assert IsPrunedDomain(cs, S, order, doms, k);
    }
  }

  /**
   * One variable of the corrected backward pass: order[i] is pruned
   * against order[i-1], which takes the state from order[i+1..] pruned to
   * order[i..] pruned; empty tells whether nothing was left, and then the
   * pass stops at i.
   */
  method PruneAt(p: Problem, order: seq<nat>, i: nat, ghost S: seq<VarState>, ghost doms: seq<seq<int>>) returns (r: Outcome<CspError>, empty: bool)
    requires p.Valid() && |S| == |p.vars| && AllWellFormed(S) && ValidOrder(S, order) && 1 <= i
    requires PrunedDomains(p.constraints, S, order, doms)
    requires ResetBelow(S, order, doms, i, StatesOf(p.vars)) && AllWellFormed(StatesOf(p.vars))
    modifies p.vars[order[i]]
    ensures AllWellFormed(StatesOf(p.vars))
    ensures r.Pass? && !empty ==> ResetBelow(S, order, doms, i - 1, StatesOf(p.vars))
    ensures r.Pass? && empty ==> ResetUntil(S, order, doms, i, StatesOf(p.vars))
    ensures r.Fail? ==> r.error == UncontainedValue
    ensures SortedIfOrdered(p.vars, S) ==> r.Pass?
  {
    var x, y := order[i], order[i - 1];
    ghost var cs := p.constraints;
    ghost var T := StatesOf(p.vars);
    ResetWithBefore(S, order, doms, i, T);
    PrunedFrame(cs, S, T, x, y);
    assert IsPrunedDomain(cs, S, order, doms, i);
    assert SortedIfOrdered(p.vars, S) ==> SortedAt(p.vars, S, x) && SortedAt(p.vars, T, x);
    r := PruneValues(p, x, y);
    empty := false;
    if r.Pass? {
      ResetWithStep(S, order, doms, i, T);
      StatesOfAt(p.vars, x);
      empty := |p.vars[x].domain| == 0;
    }
  }

  /**
   * The backward pass with the pruning corrected: from the last variable
   * of the order down to the second, each variable keeps exactly its
   * values that support the previous variable; the pass stops at the
   * first variable whose pruned domain is empty (its position) or
   * completes (result 0). Only a failed value lookup can make it fail,
   * and with sorted domains it does not fail.
   */
  method BackwardPassCorrected(p: Problem, order: seq<nat>) returns (r: Result<nat, CspError>)
    requires p.Valid() && AllWellFormed(StatesOf(p.vars)) && ValidOrder(StatesOf(p.vars), order) && order != []
    modifies p.vars
    ensures AllWellFormed(StatesOf(p.vars))
    ensures r.Ok? ==> PrunedUntil(p.constraints, old(StatesOf(p.vars)), order, r.value, StatesOf(p.vars))
    ensures r.Err? ==> r.error == UncontainedValue
    ensures SortedIfOrdered(p.vars, old(StatesOf(p.vars))) ==> r.Ok?
  {
    ghost var S := StatesOf(p.vars);
    ghost var cs := p.constraints;
    PrunedDomainsExist(cs, S, order);
    ghost var doms :| PrunedDomains(cs, S, order, doms);
    var i: nat := |order| - 1;
    while i > 0
      invariant ResetBelow(S, order, doms, i, StatesOf(p.vars))
      invariant AllWellFormed(StatesOf(p.vars))
      decreases i
    {
      var a, empty := PruneAt(p, order, i, S, doms);
      if a.Fail? {
        return Err(a.error);
      }
      if empty {
        ResetUntilPruned(cs, S, order, doms, i, StatesOf(p.vars));
        return Ok(i);
      }
      i := i - 1;
    }
    ResetUntilPruned(cs, S, order, doms, 0, StatesOf(p.vars));
    return Ok(0);
  }

  /**
   * The values after the forward pass has visited order[..k]
   * (lines 141-154): each visited variable takes the last value of its
   * consistent domain; a variable whose consistent domain is empty stops
   * the pass, and nothing changes for it.
   */
  ghost function Forward(cs: seq<Constraint>, S: seq<VarState>, order: seq<nat>, k: nat): (r: seq<Option<int>>)
    requires ConstraintsValid(cs, |S|) && ValidOrder(S, order) && k <= |order|
    ensures |r| == |S|
  {
    if k == 0 then Values(S)
    else
      var vals := Forward(cs, S, order, k - 1);
      var cd := ConsistentDomain(cs, vals, order[k - 1], S[order[k - 1]].domain);
      if cd == [] then vals else vals[order[k - 1] := Some(cd[|cd| - 1])]
  }

  /** The forward pass stops at order[k]: its consistent domain is empty. */
  ghost predicate Stuck(cs: seq<Constraint>, S: seq<VarState>, order: seq<nat>, k: nat)
    requires ConstraintsValid(cs, |S|) && ValidOrder(S, order) && k < |order|
  {
    ConsistentDomain(cs, Forward(cs, S, order, k), order[k], S[order[k]].domain) == []
  }

  /** The history the forward pass writes for order[..k]: one event per assignment. */
  ghost function ForwardEvents(cs: seq<Constraint>, S: seq<VarState>, order: seq<nat>, k: nat): (r: seq<Backtracking.Event>)
    requires ConstraintsValid(cs, |S|) && ValidOrder(S, order) && k <= |order|
    ensures |r| == k
  {
    if k == 0 then []
    else ForwardEvents(cs, S, order, k - 1) + [Backtracking.Event(order[k - 1], Forward(cs, S, order, k)[order[k - 1]])]
  }

  /** Assigning from consistent domains keeps a consistent problem consistent. */
  lemma {:induction false} ForwardConsistent(cs: seq<Constraint>, S: seq<VarState>, order: seq<nat>, k: nat)
    requires ConstraintsValid(cs, |S|) && ValidOrder(S, order) && k <= |order|
    requires IsConsistentlyAssigned(cs, Values(S))
    ensures IsConsistentlyAssigned(cs, Forward(cs, S, order, k))
  {
    if k > 0 {
      ForwardConsistent(cs, S, order, k - 1);
      var vals := Forward(cs, S, order, k - 1);
      var cd := ConsistentDomain(cs, vals, order[k - 1], S[order[k - 1]].domain);
      if cd != [] {
        assert cd[|cd| - 1] in cd;
        ConsistentDomainKeepsConsistency(cs, vals, order[k - 1], S[order[k - 1]].domain, cd[|cd| - 1]);
      }
    }
  }

  /**
   * A pass that was not stopped before order[k] has given each of
   * order[..k] a value and left every other variable as it was; the
   * history records exactly those values.
   */
  lemma {:induction false} ForwardAssigns(cs: seq<Constraint>, S: seq<VarState>, order: seq<nat>, k: nat)
    requires ConstraintsValid(cs, |S|) && ValidOrder(S, order) && k <= |order|
    requires forall j :: 0 <= j < k ==> !Stuck(cs, S, order, j)
    ensures forall v :: 0 <= v < |S| && (forall j :: 0 <= j < k ==> order[j] != v) ==> Forward(cs, S, order, k)[v] == Values(S)[v]
    ensures forall j :: 0 <= j < k ==> Forward(cs, S, order, k)[order[j]].Some?
    ensures forall j :: 0 <= j < k ==> ForwardEvents(cs, S, order, k)[j] == Backtracking.Event(order[j], Forward(cs, S, order, k)[order[j]])
  {
    if k > 0 {
      ForwardAssigns(cs, S, order, k - 1);
      assert !Stuck(cs, S, order, k - 1);
      assert forall j :: 0 <= j < k - 1 ==> order[j] != order[k - 1] by {
        assert Distinct(order);
      }
    }
  }

  /**
   * A forward pass that visited the whole order, when the order lists
   * every unassigned variable of a consistent problem, leaves the problem
   * completely and consistently assigned.
   */
  lemma ForwardSolves(cs: seq<Constraint>, S: seq<VarState>, order: seq<nat>, T: seq<VarState>)
    requires ConstraintsValid(cs, |S|) && ValidOrder(S, order) && AllWellFormed(S) && |T| == |S|
    requires forall v: nat :: v < |S| && S[v].index.None? ==> v in order
    requires forall j :: 0 <= j < |order| ==> !Stuck(cs, S, order, j)
    requires IsConsistentlyAssigned(cs, Values(S))
    requires Values(T) == Forward(cs, S, order, |order|)
    ensures IsCompletelyConsistentlyAssigned(cs, T)
  {
    ForwardConsistent(cs, S, order, |order|);
    ForwardAssigns(cs, S, order, |order|);
    forall v | 0 <= v < |T| ensures T[v].index.Some? {
      if S[v].index.None? {
        var j :| 0 <= j < |order| && order[j] == v;
        assert Values(T)[v].Some?;
      } else {
        assert ValueOf(S[v]).Some?;
        assert Values(T)[v].Some?;
      }
    }
  }

  /**
   * The arena T after the forward pass has visited order[..k] from S:
   * values as Forward computes them, domains as in S, the rest of the
   * order still unassigned.
   */
  ghost predicate ForwardInv(cs: seq<Constraint>, S: seq<VarState>, order: seq<nat>, k: nat, T: seq<VarState>)
    requires ConstraintsValid(cs, |S|) && ValidOrder(S, order) && k <= |order|
  {
    |T| == |S| && Values(T) == Forward(cs, S, order, k) && DomainsOf(T) == DomainsOf(S) && AllWellFormed(T) &&
    forall j :: k <= j < |order| ==> T[order[j]].index.None?
  }

  /**
   * One visit of the forward pass: stop at an empty consistent domain, or
   * assign its last value, which a sorted domain always yields.
   */
  method ForwardStep(p: Problem, order: seq<nat>, k: nat, write: bool, events: seq<Backtracking.Event>, ghost S: seq<VarState>)
    returns (r: Result<seq<Backtracking.Event>, CspError>, stop: bool)
    requires p.Valid() && |S| == |p.vars| && ValidOrder(S, order) && k < |order|
    requires ForwardInv(p.constraints, S, order, k, StatesOf(p.vars))
    requires events == if write then ForwardEvents(p.constraints, S, order, k) else []
    modifies p.vars[order[k]]
    ensures AllWellFormed(StatesOf(p.vars))
    ensures r.Ok? && stop ==> Stuck(p.constraints, S, order, k) && r.value == events && StatesOf(p.vars) == old(StatesOf(p.vars))
    ensures r.Ok? && !stop ==> !Stuck(p.constraints, S, order, k) && ForwardInv(p.constraints, S, order, k + 1, StatesOf(p.vars))
    ensures r.Ok? && !stop ==> r.value == if write then ForwardEvents(p.constraints, S, order, k + 1) else []
    ensures r.Err? ==> r.error == UncontainedValue
    ensures SortedIfOrdered(p.vars, S) ==> r.Ok?
  {
    var x := order[k];
    ghost var T := StatesOf(p.vars);
    StatesOfAt(p.vars, x);
    DomainsOfAt(T, x);
    DomainsOfAt(S, x);
    var cd := ConsistentDomain(p.constraints, Values(StatesOf(p.vars)), x, p.vars[x].domain);
    stop := cd == [];
    if stop {
      return Ok(events), stop;
    }
    var value := cd[|cd| - 1];
    ConsistentDomainMembers(p.constraints, Values(T), x, p.vars[x].domain);
    assert value in cd;
    assert SortedIfOrdered(p.vars, S) ==> SortedAt(p.vars, S, x) && SortedAt(p.vars, T, x);
    var a := AssignValueInArena(p, x, value);
    if a.Fail? {
      return Err(a.error), stop;
    }
    assert forall j :: k < j < |order| ==> order[j] != x by {
      assert Distinct(order);
    }
    r := Ok(if write then events + [Backtracking.Event(x, Some(value))] else events);
  }

  /** The forward pass was not stopped before order[k]. */
  ghost predicate NoneStuck(cs: seq<Constraint>, S: seq<VarState>, order: seq<nat>, k: nat)
    requires ConstraintsValid(cs, |S|) && ValidOrder(S, order) && k <= |order|
  {
    forall j :: 0 <= j < k ==> !Stuck(cs, S, order, j)
  }

  lemma NoneStuckStep(cs: seq<Constraint>, S: seq<VarState>, order: seq<nat>, k: nat)
    requires ConstraintsValid(cs, |S|) && ValidOrder(S, order) && k < |order|
    requires NoneStuck(cs, S, order, k) && !Stuck(cs, S, order, k)
    ensures NoneStuck(cs, S, order, k + 1)
  {
  }

  /**
   * The forward pass (lines 141-154): the variables of the order, in
   * order, each take the last value of their consistent domain, until one
   * has none. count is how many were assigned; domains do not change.
   * The history has one event per assignment when it is written. With
   * sorted domains the pass does not fail.
   */
  method ForwardPass(p: Problem, order: seq<nat>, write: bool) returns (r: Result<seq<Backtracking.Event>, CspError>, ghost count: nat)
    requires p.Valid() && AllWellFormed(StatesOf(p.vars)) && ValidOrder(StatesOf(p.vars), order)
    modifies p.vars
    ensures AllWellFormed(StatesOf(p.vars))
    ensures count <= |order| && NoneStuck(p.constraints, old(StatesOf(p.vars)), order, count)
    ensures r.Ok? ==> count == |order| || Stuck(p.constraints, old(StatesOf(p.vars)), order, count)
    ensures r.Ok? ==> Values(StatesOf(p.vars)) == Forward(p.constraints, old(StatesOf(p.vars)), order, count)
    ensures r.Ok? ==> DomainsOf(StatesOf(p.vars)) == DomainsOf(old(StatesOf(p.vars)))
    ensures r.Ok? ==> r.value == if write then ForwardEvents(p.constraints, old(StatesOf(p.vars)), order, count) else []
    ensures r.Err? ==> r.error == UncontainedValue
    ensures SortedIfOrdered(p.vars, old(StatesOf(p.vars))) ==> r.Ok?
  {
    ghost var S := StatesOf(p.vars);
    ghost var cs := p.constraints;
    var k := 0;
    var stop := false;
    count := 0;
    r := Ok([]);
    while !stop && k < |order|
      invariant k <= |order| && count == k
      invariant NoneStuck(cs, S, order, k)
      invariant AllWellFormed(StatesOf(p.vars))
      invariant r.Ok? ==> ForwardInv(cs, S, order, k, StatesOf(p.vars))
      invariant r.Ok? ==> r.value == if write then ForwardEvents(cs, S, order, k) else []
      invariant r.Ok? && stop ==> k < |order| && Stuck(cs, S, order, k)
      invariant r.Err? ==> stop && r.error == UncontainedValue
      invariant SortedIfOrdered(p.vars, S) ==> r.Ok?
      decreases |order| - k, !stop
    {
      var next, stuck := ForwardStep(p, order, k, write, r.value, S);
      r := next;
      stop := stuck || next.Err?;
      if !stop {
        NoneStuckStep(cs, S, order, k);
        k := k + 1;
        count := k;
      }
    }
  }

  /** Each history entry names a variable that was unassigned and now holds the recorded value. */
  ghost predicate Recorded(S: seq<VarState>, T: seq<VarState>, h: seq<Backtracking.Event>) {
    |T| == |S| &&
    forall k :: 0 <= k < |h| ==>
      h[k].variable < |S| && S[h[k].variable].index.None? && h[k].value.Some? && Values(T)[h[k].variable] == h[k].value
  }

  /**
   * What a solver run from S to T with history h delivers: the history
   * matches the final state and is empty unless written, a consistent
   * problem stays consistent, and a history with an entry for every
   * unassigned variable of a consistent problem means the problem is
   * solved.
   */
  ghost predicate SolverOutcome(cs: seq<Constraint>, S: seq<VarState>, T: seq<VarState>, h: seq<Backtracking.Event>, write: bool)
    requires ConstraintsValid(cs, |S|)
  {
    Recorded(S, T, h) && (!write ==> h == []) &&
    (IsConsistentlyAssigned(cs, Values(S)) ==> IsConsistentlyAssigned(cs, Values(T))) &&
    (write && |h| == |UnassignedVariables(S)| && IsConsistentlyAssigned(cs, Values(S)) ==> IsCompletelyConsistentlyAssigned(cs, T))
  }

  /**
   * A run that records nothing and keeps every value delivers the
   * outcome, provided it left the state alone or something was unassigned.
   */
  lemma EmptyOutcome(cs: seq<Constraint>, S: seq<VarState>, T: seq<VarState>, write: bool)
    requires ConstraintsValid(cs, |S|) && |T| == |S| && Values(T) == Values(S)
    requires T == S || UnassignedVariables(S) != []
    ensures SolverOutcome(cs, S, T, [], write)
  {
    if UnassignedVariables(S) == [] && IsConsistentlyAssigned(cs, Values(S)) {
      NothingUnassigned(cs, S);
    }
  }

  /**
   * An outcome from a state P that differs from S only in the domains of
   * unassigned variables is an outcome from S.
   */
  lemma OutcomeFromPruned(cs: seq<Constraint>, S: seq<VarState>, P: seq<VarState>, T: seq<VarState>, h: seq<Backtracking.Event>, write: bool)
    requires ConstraintsValid(cs, |S|) && |P| == |S| && Values(P) == Values(S)
    requires forall v: nat :: v < |S| ==> (P[v].index.None? <==> S[v].index.None?)
    requires UnassignedVariables(P) == UnassignedVariables(S)
    requires SolverOutcome(cs, P, T, h, write)
    ensures SolverOutcome(cs, S, T, h, write)
  {
  }

  /**
   * What a run of the forward pass from S gives the solver: a history
   * that matches the final state, consistency kept, and a complete
   * consistent assignment when the history has an entry for every
   * unassigned variable.
   */
  lemma ForwardOutcome(cs: seq<Constraint>, S: seq<VarState>, order: seq<nat>, count: nat, T: seq<VarState>, h: seq<Backtracking.Event>, write: bool)
    requires ConstraintsValid(cs, |S|) && ValidOrder(S, order) && AllWellFormed(S) && |T| == |S|
    requires forall v: nat :: v < |S| && S[v].index.None? ==> v in order
    requires |order| == |UnassignedVariables(S)|
    requires count <= |order| && NoneStuck(cs, S, order, count)
    requires Values(T) == Forward(cs, S, order, count)
    requires h == if write then ForwardEvents(cs, S, order, count) else []
    ensures SolverOutcome(cs, S, T, h, write)
  {
    ForwardAssigns(cs, S, order, count);
    if IsConsistentlyAssigned(cs, Values(S)) {
      ForwardConsistent(cs, S, order, count);
      if write && |h| == |UnassignedVariables(S)| {
        ForwardSolves(cs, S, order, T);
      }
    }
  }

  /** With nothing unassigned, a consistent problem is solved. */
  lemma NothingUnassigned(cs: seq<Constraint>, S: seq<VarState>)
    requires ConstraintsValid(cs, |S|) && UnassignedVariables(S) == [] && IsConsistentlyAssigned(cs, Values(S))
    ensures IsCompletelyConsistentlyAssigned(cs, S)
  {
    UnassignedVariablesComplete(S);
  }

  /**
   * What the forward pass left from P: the first count variables of the
   * order took the last value of their consistent domains, and the pass
   * ended at the end of the order or at a variable without a consistent
   * value; the domains are those of P and the history lists the
   * assignments when it is written.
   */
  ghost predicate ForwardRun(cs: seq<Constraint>, P: seq<VarState>, order: seq<nat>, count: nat,
                             T: seq<VarState>, h: seq<Backtracking.Event>, write: bool)
    requires ConstraintsValid(cs, |P|) && ValidOrder(P, order)
  {
    count <= |order| && NoneStuck(cs, P, order, count) && (count == |order| || Stuck(cs, P, order, count)) &&
    |T| == |P| && Values(T) == Forward(cs, P, order, count) && DomainsOf(T) == DomainsOf(P) &&
    h == (if write then ForwardEvents(cs, P, order, count) else [])
  }

  /** Once order[0] has its value, the later steps of the forward pass leave it alone. */
  lemma {:induction false} ForwardKeepsFirst(cs: seq<Constraint>, S: seq<VarState>, order: seq<nat>, k: nat)
    requires ConstraintsValid(cs, |S|) && ValidOrder(S, order) && 1 <= k <= |order|
    ensures Forward(cs, S, order, k)[order[0]] == Forward(cs, S, order, 1)[order[0]]
    decreases k
  {
    if k > 1 {
      ForwardKeepsFirst(cs, S, order, k - 1);
      assert order[k - 1] != order[0];
    }
  }

  /**
   * A forward run along an order whose first variable has a consistent
   * value assigns that variable, so the values do not stay those of P.
   */
  lemma ForwardRunAssignsFirst(cs: seq<Constraint>, P: seq<VarState>, order: seq<nat>, count: nat,
                               T: seq<VarState>, h: seq<Backtracking.Event>, write: bool)
    requires ConstraintsValid(cs, |P|) && ValidOrder(P, order) && order != []
    requires ForwardRun(cs, P, order, count, T, h, write) && !Stuck(cs, P, order, 0)
    ensures count >= 1 && Values(T)[order[0]].Some? && Values(T) != Values(P)
  {
    ForwardKeepsFirst(cs, P, order, count);
  }

  /**
   * A run of the two passes as written from S along order: the backward
   * pass stopped at position stop > 0 and the problem is as it was with
   * an empty history, or it went through (stop = 0) and the forward pass
   * ran from S.
   */
  ghost predicate WrittenRun(cs: seq<Constraint>, S: seq<VarState>, order: seq<nat>, stop: nat, count: nat,
                             T: seq<VarState>, h: seq<Backtracking.Event>, write: bool)
    requires ConstraintsValid(cs, |S|) && ValidOrder(S, order)
  {
    CheckedUntil(cs, S, order, stop) &&
    if stop > 0 then T == S && h == [] else ForwardRun(cs, S, order, count, T, h, write)
  }

  /**
   * A run of the two corrected passes from S along order: the backward
   * pass pruned S to P and stopped at position stop > 0 (the problem is
   * left as P with an empty history), or went through (stop = 0) and the
   * forward pass ran from P.
   */
  ghost predicate CorrectedRun(cs: seq<Constraint>, S: seq<VarState>, order: seq<nat>, stop: nat, P: seq<VarState>,
                               count: nat, T: seq<VarState>, h: seq<Backtracking.Event>, write: bool)
    requires ConstraintsValid(cs, |S|) && ValidOrder(S, order)
  {
    |P| == |S| && ValidOrder(P, order) && PrunedUntil(cs, S, order, stop, P) &&
    if stop > 0 then T == P && h == [] else ForwardRun(cs, P, order, count, T, h, write)
  }

  /**
   * The two passes of treeCspSolver as written (lines 117-154) on a
   * non-empty order of all unassigned variables: the backward pass checks
   * (and fails instead of pruning), and when it went through the forward
   * pass assigns. No domain changes. With sorted domains the passes fail
   * exactly when the backward pass meets an unsupported value.
   */
  method PassesAsWritten(p: Problem, order: seq<nat>, write: bool)
    returns (r: Result<seq<Backtracking.Event>, CspError>, ghost stop: nat, ghost count: nat)
    requires p.Valid() && AllWellFormed(StatesOf(p.vars)) && ValidOrder(StatesOf(p.vars), order) && order != []
    requires var S := StatesOf(p.vars);
             forall v: nat :: v < |S| && S[v].index.None? ==> v in order
    requires |order| == |UnassignedVariables(StatesOf(p.vars))|
    modifies p.vars
    ensures AllWellFormed(StatesOf(p.vars))
    ensures r.Err? ==> r.error == DomainAlteration || r.error == UncontainedValue
    ensures r.Ok? ==> DomainsOf(StatesOf(p.vars)) == DomainsOf(old(StatesOf(p.vars)))
    ensures r.Ok? ==> SolverOutcome(p.constraints, old(StatesOf(p.vars)), StatesOf(p.vars), r.value, write)
    ensures r.Ok? ==> WrittenRun(p.constraints, old(StatesOf(p.vars)), order, stop, count, StatesOf(p.vars), r.value, write)
    ensures SortedIfOrdered(p.vars, old(StatesOf(p.vars))) ==>
              (r.Err? <==> Unsupported(p.constraints, old(StatesOf(p.vars)), order)) &&
              (r.Err? ==> r.error == DomainAlteration)
  {
    ghost var S := StatesOf(p.vars);
    count := 0;
    var b := BackwardPass(p, order);
    if b.Err? {
      return Err(b.error), 0, 0;
    }
    stop := b.value;
    if b.value > 0 {
      EmptyOutcome(p.constraints, S, S, write);
      return Ok([]), stop, count;
    }
    var f;
    f, count := ForwardPass(p, order, write);
    if f.Err? {
      return Err(f.error), stop, count;
    }
    ForwardOutcome(p.constraints, S, order, count, StatesOf(p.vars), f.value, write);
    r := f;
  }

  /**
   * treeCspSolver as written (lines 106-157): sort, prune backwards, assign
   * forwards. It returns an empty history without touching the problem
   * when nothing is unassigned or some unassigned variable has no
   * unassigned neighbour; it never changes a domain; it fails whenever
   * the backward pass meets a value to remove, and with sorted domains
   * for no other reason. A run delivers the
   * solver's outcome: its history matches the final state, a consistent
   * problem stays consistent, and a history with an entry for every
   * unassigned variable means the problem is solved.
   */
  method TreeCspSolver(p: Problem, write: bool)
    returns (r: Result<seq<Backtracking.Event>, CspError>, ghost order: seq<nat>, ghost stop: nat, ghost count: nat)
    requires p.Valid() && AllWellFormed(StatesOf(p.vars))
    modifies p.vars
    ensures AllWellFormed(StatesOf(p.vars))
    ensures ValidOrder(old(StatesOf(p.vars)), order) && Topological(p.constraints, old(StatesOf(p.vars)), order)
    ensures var S := old(StatesOf(p.vars));
            order == [] <==> UnassignedVariables(S) == [] || HasIsolated(p.constraints, S)
    ensures var S := old(StatesOf(p.vars));
            order != [] ==> forall v: nat :: v < |S| && S[v].index.None? ==> v in order
    ensures order == [] ==> r == Ok([]) && StatesOf(p.vars) == old(StatesOf(p.vars))
    ensures r.Err? ==> r.error == DomainAlteration || r.error == UncontainedValue
    ensures r.Ok? ==> DomainsOf(StatesOf(p.vars)) == DomainsOf(old(StatesOf(p.vars)))
    ensures r.Ok? ==> SolverOutcome(p.constraints, old(StatesOf(p.vars)), StatesOf(p.vars), r.value, write)
    ensures r.Ok? && order != [] ==>
              WrittenRun(p.constraints, old(StatesOf(p.vars)), order, stop, count, StatesOf(p.vars), r.value, write)
    ensures SortedIfOrdered(p.vars, old(StatesOf(p.vars))) ==>
              (r.Err? <==> order != [] && Unsupported(p.constraints, old(StatesOf(p.vars)), order)) &&
              (r.Err? ==> r.error == DomainAlteration)
  {
    ghost var S := StatesOf(p.vars);
    var sorted := KahnTopologicalSort(p);
    order := sorted;
    stop, count := 0, 0;
    if sorted == [] {
      EmptyOutcome(p.constraints, S, S, write);
      return Ok([]), order, stop, count;
    }
    r, stop, count := PassesAsWritten(p, sorted, write);
  }

  lemma {:induction false} SubseqRefl(a: seq<int>)
    ensures IsSubseq(a, a)
    decreases |a|
  {
    if a != [] {
      SubseqRefl(a[1..]);
    }
  }

  /** The pruned domain of x is a subsequence of its domain. */
  lemma PrunedSubseq(cs: seq<Constraint>, S: seq<VarState>, x: nat, y: nat)
    requires ConstraintsValid(cs, |S|) && x < |S| && y < |S|
    ensures IsSubseq(Pruned(cs, S, x, y), S[x].domain)
  {
    KeepSubseq(cs, S, x, y, S[x].domain, |S[x].domain|);
    assert S[x].domain[..|S[x].domain|] == S[x].domain;
  }

  /** Pruning shrinks each domain to a subsequence. */
  lemma PrunedStatesShape(cs: seq<Constraint>, S: seq<VarState>, order: seq<nat>, i: nat, T: seq<VarState>)
    requires ConstraintsValid(cs, |S|) && ValidOrder(S, order) && PrunedStates(cs, S, order, i, T)
    ensures forall v :: 0 <= v < |S| ==> IsSubseq(T[v].domain, S[v].domain)
  {
    forall v | 0 <= v < |S| ensures IsSubseq(T[v].domain, S[v].domain) {
      if k :| i <= k < |order| && order[k] == v {
        PrunedStatesInside(cs, S, order, i, T, k);
        PrunedSubseq(cs, S, v, order[k - 1]);
      } else {
        PrunedStatesOutside(cs, S, order, i, T, v);
        SubseqRefl(S[v].domain);
      }
    }
  }

  /** Each domain of T is a subsequence of the same variable's domain in S. */
  ghost predicate ShrunkBySubseq(S: seq<VarState>, T: seq<VarState>) {
    |T| == |S| && forall v :: 0 <= v < |S| ==> IsSubseq(T[v].domain, S[v].domain)
  }

  lemma ShrunkRefl(S: seq<VarState>)
    ensures ShrunkBySubseq(S, S)
  {
    forall v | 0 <= v < |S| ensures IsSubseq(S[v].domain, S[v].domain) {
      SubseqRefl(S[v].domain);
    }
  }

  /** Arenas with the same assignment indices list the same unassigned variables. */
  lemma {:induction false} SameIndexesSameUnassigned(S: seq<VarState>, T: seq<VarState>, k: nat)
    requires |S| == |T| && k <= |S|
    requires forall v :: 0 <= v < |S| ==> S[v].index == T[v].index
    ensures UnassignedFrom(S, k) == UnassignedFrom(T, k)
    decreases |S| - k
  {
    if k < |S| {
      SameIndexesSameUnassigned(S, T, k + 1);
      var head: seq<nat> := if S[k].index.None? then [k] else [];
      assert S[k].index == T[k].index;
      assert UnassignedFrom(S, k) == head + UnassignedFrom(S, k + 1);
      assert UnassignedFrom(T, k) == head + UnassignedFrom(T, k + 1);
    }
  }

  /**
   * The state the corrected backward pass hands to the forward pass is
   * the original one with some domains pruned: the same values, the same
   * unassigned variables, and the order is still valid for it.
   */
  lemma PrunedHandOver(cs: seq<Constraint>, S: seq<VarState>, order: seq<nat>, i: nat, P: seq<VarState>)
    requires ConstraintsValid(cs, |S|) && ValidOrder(S, order) && PrunedStates(cs, S, order, i, P) && AllWellFormed(S)
    ensures Values(P) == Values(S) && AllWellFormed(P) && ValidOrder(P, order) &&
            UnassignedVariables(P) == UnassignedVariables(S) &&
            (forall v: nat :: v < |S| ==> (P[v].index.None? <==> S[v].index.None?)) &&
            ShrunkBySubseq(S, P)
  {
    PrunedStatesValues(cs, S, order, i, P);
    PrunedStatesShape(cs, S, order, i, P);
    SameIndexesSameUnassigned(P, S, 0);
  }

  /** A forward pass that keeps domains keeps the subsequence relation of the backward pass. */
  lemma DomainsStaySubseq(S: seq<VarState>, P: seq<VarState>, T: seq<VarState>)
    requires |S| == |P| == |T| && DomainsOf(T) == DomainsOf(P) && ShrunkBySubseq(S, P)
    ensures ShrunkBySubseq(S, T)
  {
    forall v | 0 <= v < |S| ensures T[v].domain == P[v].domain {
      DomainsOfAt(T, v);
      DomainsOfAt(P, v);
    }
  }

  /**
   * The two passes with the pruning corrected, on a non-empty order of
   * all unassigned variables: the backward pass prunes, and when no
   * domain became empty the forward pass assigns. Each domain ends as a
   * subsequence of its original. With sorted domains the passes do not
   * fail.
   */
  method PassesCorrected(p: Problem, order: seq<nat>, write: bool)
    returns (r: Result<seq<Backtracking.Event>, CspError>, ghost stop: nat, ghost P: seq<VarState>, ghost count: nat)
    requires p.Valid() && AllWellFormed(StatesOf(p.vars)) && ValidOrder(StatesOf(p.vars), order) && order != []
    requires var S := StatesOf(p.vars);
             forall v: nat :: v < |S| && S[v].index.None? ==> v in order
    requires |order| == |UnassignedVariables(StatesOf(p.vars))|
    modifies p.vars
    ensures AllWellFormed(StatesOf(p.vars))
    ensures r.Err? ==> r.error == UncontainedValue
    ensures r.Ok? ==> ShrunkBySubseq(old(StatesOf(p.vars)), StatesOf(p.vars))
    ensures r.Ok? ==> SolverOutcome(p.constraints, old(StatesOf(p.vars)), StatesOf(p.vars), r.value, write)
    ensures r.Ok? ==>
              CorrectedRun(p.constraints, old(StatesOf(p.vars)), order, stop, P, count, StatesOf(p.vars), r.value, write)
    ensures SortedIfOrdered(p.vars, old(StatesOf(p.vars))) ==> r.Ok?
  {
    ghost var S := StatesOf(p.vars);
    ghost var cs := p.constraints;
    count := 0;
    var b := BackwardPassCorrected(p, order);
    if b.Err? {
      return Err(b.error), 0, S, 0;
    }
    stop := b.value;
    ghost var i := if b.value == 0 then 1 else b.value;
    PrunedHandOver(cs, S, order, i, StatesOf(p.vars));
    P := StatesOf(p.vars);
    if SortedIfOrdered(p.vars, S) {
      ShrunkSorted(p.vars, S, P);
    }
    if b.value > 0 {
      EmptyOutcome(cs, S, StatesOf(p.vars), write);
      return Ok([]), stop, P, count;
    }
    var f;
    f, count := ForwardPass(p, order, write);
    if f.Err? {
      return Err(f.error), stop, P, count;
    }
    ForwardOutcome(cs, P, order, count, StatesOf(p.vars), f.value, write);
    OutcomeFromPruned(cs, S, P, StatesOf(p.vars), f.value, write);
    DomainsStaySubseq(S, P, StatesOf(p.vars));
    r := f;
  }

  /**
   * The solver with both corrections: every unassigned variable is
   * sorted, and the backward pass prunes (x is unassigned before a value
   * is removed). Only a failed value lookup can make it fail, so with
   * sorted domains it does not fail. Each domain ends as a subsequence of
   * its original, and a run delivers the solver's outcome.
   */
  method CorrectedTreeCspSolver(p: Problem, write: bool)
    returns (r: Result<seq<Backtracking.Event>, CspError>, ghost order: seq<nat>, ghost stop: nat,
             ghost P: seq<VarState>, ghost count: nat)
    requires p.Valid() && AllWellFormed(StatesOf(p.vars))
    modifies p.vars
    ensures AllWellFormed(StatesOf(p.vars))
    ensures ValidOrder(old(StatesOf(p.vars)), order) && Topological(p.constraints, old(StatesOf(p.vars)), order)
    ensures var S := old(StatesOf(p.vars));
            forall v: nat :: v < |S| && S[v].index.None? ==> v in order
    ensures UnassignedVariables(old(StatesOf(p.vars))) == [] ==> r == Ok([]) && StatesOf(p.vars) == old(StatesOf(p.vars))
    ensures r.Err? ==> r.error == UncontainedValue
    ensures r.Ok? ==> ShrunkBySubseq(old(StatesOf(p.vars)), StatesOf(p.vars))
    ensures r.Ok? ==> SolverOutcome(p.constraints, old(StatesOf(p.vars)), StatesOf(p.vars), r.value, write)
    ensures r.Ok? && order != [] ==>
              CorrectedRun(p.constraints, old(StatesOf(p.vars)), order, stop, P, count, StatesOf(p.vars), r.value, write)
    ensures SortedIfOrdered(p.vars, old(StatesOf(p.vars))) ==> r.Ok?
  {
    ghost var S := StatesOf(p.vars);
    var sorted := CorrectedTopologicalSort(p);
    order := sorted;
    stop, P, count := 0, S, 0;
    if sorted == [] {
      EmptyOutcome(p.constraints, S, S, write);
      ShrunkRefl(S);
      return Ok([]), order, stop, P, count;
    }
    r, stop, P, count := PassesCorrected(p, sorted, write);
  }
}
