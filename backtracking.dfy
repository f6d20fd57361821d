/**
 * Plain backtracking: generate-and-test depth-first search that checks
 * consistency only once every variable is assigned, always branching on
 * the last unassigned variable and trying its domain indices in
 * ascending order.
 */
module Backtracking {
  import opened Wrappers
  import opened Domain
  import opened Variables
  import opened Problem

  /** A history entry: a variable and the value it was given, or None when it was unassigned. */
  datatype Event = Event(variable: nat, value: Option<int>)

  /** The values that result from applying a history to the values vals. */
  function Replay(vals: seq<Option<int>>, events: seq<Event>): (r: seq<Option<int>>)
    ensures |r| == |vals|
    ensures events == [] ==> r == vals
    decreases |events|
  {
    if events == [] then vals
    else
      var e := events[0];
      Replay(if e.variable < |vals| then vals[e.variable := e.value] else vals, events[1..])
  }

  /** Replaying two histories in turn is replaying their concatenation. */
  lemma {:induction false} ReplayConcat(vals: seq<Option<int>>, e1: seq<Event>, e2: seq<Event>)
    ensures Replay(vals, e1 + e2) == Replay(Replay(vals, e1), e2)
    decreases |e1|
  {
    if e1 == [] {
      assert e1 + e2 == e2;
    } else {
      assert (e1 + e2)[0] == e1[0] && (e1 + e2)[1..] == e1[1..] + e2;
      var e := e1[0];
      ReplayConcat(if e.variable < |vals| then vals[e.variable := e.value] else vals, e1[1..], e2);
    }
  }

  /** The states S with the assignment indices a. */
  function WithIndices(S: seq<VarState>, a: seq<nat>): (r: seq<VarState>)
    requires |a| == |S|
    ensures |r| == |S|
    ensures forall i :: 0 <= i < |S| ==> r[i] == VarState(S[i].domain, Some(a[i]))
  {
    seq(|S|, i requires 0 <= i < |S| => VarState(S[i].domain, Some(a[i])))
  }

  /** The assignment indices of a completely assigned arena. */
  function IndicesOf(S: seq<VarState>): (r: seq<nat>)
    ensures |r| == |S|
    ensures forall i :: 0 <= i < |S| && S[i].index.Some? ==> r[i] == S[i].index.value
  {
    seq(|S|, i requires 0 <= i < |S| => if S[i].index.Some? then S[i].index.value else 0)
  }

  /**
   * a (one domain index per variable) completes the entry state S: it
   * keeps every assignment S already has, stays inside every domain, and
   * leaves every constraint consistent.
   */
  ghost predicate IsSolutionExtension(cs: seq<Constraint>, S: seq<VarState>, a: seq<nat>)
    requires ConstraintsValid(cs, |S|)
  {
    |a| == |S| &&
    (forall i :: 0 <= i < |S| ==> a[i] < |S[i].domain|) &&
    (forall i :: 0 <= i < |S| && S[i].index.Some? ==> a[i] == S[i].index.value) &&
    IsConsistentlyAssigned(cs, Values(WithIndices(S, a)))
  }

  ghost predicate HasSolution(cs: seq<Constraint>, S: seq<VarState>)
    requires ConstraintsValid(cs, |S|)
  {
    exists a :: IsSolutionExtension(cs, S, a)
  }

  /** A completed extension is a complete, consistent state. */
  lemma SolutionIsCompleteAndConsistent(cs: seq<Constraint>, S: seq<VarState>, a: seq<nat>)
    requires ConstraintsValid(cs, |S|) && IsSolutionExtension(cs, S, a)
    ensures IsCompletelyConsistentlyAssigned(cs, WithIndices(S, a)) && AllWellFormed(WithIndices(S, a))
  {
  }

  /** A complete arena with the entry domains is the entry arena with its own indices. */
  lemma CompletedArena(S0: seq<VarState>, S: seq<VarState>)
    requires DomainsOf(S) == DomainsOf(S0) && IsCompletelyAssigned(S)
    ensures WithIndices(S0, IndicesOf(S)) == S
  {
    forall i | 0 <= i < |S| ensures S[i].domain == S0[i].domain {
      DomainsOfAt(S, i);
      DomainsOfAt(S0, i);
    }
  }

  /** A completely assigned state has a completion exactly when it is consistent: itself. */
  lemma CompleteSolution(cs: seq<Constraint>, S: seq<VarState>)
    requires ConstraintsValid(cs, |S|) && AllWellFormed(S) && IsCompletelyAssigned(S)
    ensures HasSolution(cs, S) <==> IsConsistentlyAssigned(cs, Values(S))
    ensures IsConsistentlyAssigned(cs, Values(S)) ==> IsSolutionExtension(cs, S, IndicesOf(S))
  {
    CompleteSolutionUnique(cs, S);
    if IsConsistentlyAssigned(cs, Values(S)) {
      assert IsSolutionExtension(cs, S, IndicesOf(S));
    }
  }

  /** The only candidate completion of a completely assigned state is the state itself. */
  lemma CompleteSolutionUnique(cs: seq<Constraint>, S: seq<VarState>)
    requires ConstraintsValid(cs, |S|) && AllWellFormed(S) && IsCompletelyAssigned(S)
    ensures forall a :: IsSolutionExtension(cs, S, a) <==> a == IndicesOf(S) && IsConsistentlyAssigned(cs, Values(S))
  {
    assert WithIndices(S, IndicesOf(S)) == S;
    forall a | IsSolutionExtension(cs, S, a) ensures a == IndicesOf(S) {
    }
  }

  /**
   * Fixing index j of an unassigned variable x splits the extensions: the
   * extensions of the branch are those of S that pick j for x.
   */
  lemma BranchSolutions(cs: seq<Constraint>, S: seq<VarState>, x: nat, j: nat, a: seq<nat>)
    requires ConstraintsValid(cs, |S|) && x < |S| && S[x].index.None? && j < |S[x].domain|
    ensures IsSolutionExtension(cs, S[x := VarState(S[x].domain, Some(j))], a) <==>
              IsSolutionExtension(cs, S, a) && a[x] == j
  {
    var B := S[x := VarState(S[x].domain, Some(j))];
    if |a| == |S| {
      assert WithIndices(B, a) == WithIndices(S, a);
    }
  }

  /** No completion of S picks an index below i for x. */
  ghost predicate NoSolutionBelow(cs: seq<Constraint>, S: seq<VarState>, x: nat, i: nat)
    requires ConstraintsValid(cs, |S|) && x < |S|
  {
    forall a :: IsSolutionExtension(cs, S, a) ==> a[x] >= i
  }

  /** A branch without completions moves the bound up by one. */
  lemma FailedBranch(cs: seq<Constraint>, S: seq<VarState>, x: nat, i: nat)
    requires ConstraintsValid(cs, |S|) && x < |S| && S[x].index.None? && i < |S[x].domain|
    requires NoSolutionBelow(cs, S, x, i)
    requires !HasSolution(cs, S[x := VarState(S[x].domain, Some(i))])
    ensures NoSolutionBelow(cs, S, x, i + 1)
  {
    forall a | IsSolutionExtension(cs, S, a) ensures a[x] >= i + 1 {
      BranchSolutions(cs, S, x, i, a);
    }
  }

  /** A completion of a branch is a completion of S. */
  lemma FoundBranch(cs: seq<Constraint>, S: seq<VarState>, x: nat, i: nat, a: seq<nat>)
    requires ConstraintsValid(cs, |S|) && x < |S| && S[x].index.None? && i < |S[x].domain|
    requires IsSolutionExtension(cs, S[x := VarState(S[x].domain, Some(i))], a)
    ensures IsSolutionExtension(cs, S, a) && HasSolution(cs, S) && a[x] == i
  {
    BranchSolutions(cs, S, x, i, a);
  }

  /** When every index of x is exhausted without a completion, S has none. */
  lemma Exhausted(cs: seq<Constraint>, S: seq<VarState>, x: nat)
    requires ConstraintsValid(cs, |S|) && x < |S|
    requires NoSolutionBelow(cs, S, x, |S[x].domain|)
    ensures !HasSolution(cs, S)
  {
  }

  /** A single event replays as one update. */
  lemma ReplayOne(vals: seq<Option<int>>, e: Event)
    requires e.variable < |vals|
    ensures Replay(vals, [e]) == vals[e.variable := e.value]
  {
  }

  /**
   * The history of one failed branch (assign x, the branch's own events,
   * unassign x) leaves the values as they were.
   */
  lemma FailedBranchReplay(V0: seq<Option<int>>, x: nat, d: int, sub: seq<Event>)
    requires x < |V0| && V0[x].None?
    requires Replay(V0[x := Some(d)], sub) == V0[x := Some(d)]
    ensures Replay(V0, [Event(x, Some(d))] + sub + [Event(x, None)]) == V0
  {
    ReplayConcat(V0, [Event(x, Some(d))] + sub, [Event(x, None)]);
    ReplayConcat(V0, [Event(x, Some(d))], sub);
    ReplayOne(V0, Event(x, Some(d)));
    ReplayOne(V0[x := Some(d)], Event(x, None));
    assert V0[x := Some(d)][x := None] == V0;
  }

  /** The history of a successful branch replays to the branch's final values. */
  lemma FoundBranchReplay(V0: seq<Option<int>>, x: nat, d: int, sub: seq<Event>)
    requires x < |V0|
    ensures Replay(V0, [Event(x, Some(d))] + sub) == Replay(V0[x := Some(d)], sub)
  {
    ReplayConcat(V0, [Event(x, Some(d))], sub);
    ReplayOne(V0, Event(x, Some(d)));
  }

  /**
   * The variables still open after the history h, starting from the open
   * list st: an assign event opens its variable, an unassign event closes
   * the variable opened last, and an unassign of any other variable makes
   * the history ill bracketed (None).
   */
  function OpenAfter(st: seq<nat>, h: seq<Event>): (r: Option<seq<nat>>)
    ensures h == [] ==> r == Some(st)
    decreases |h|
  {
    if h == [] then Some(st)
    else if h[0].value.Some? then OpenAfter(st + [h[0].variable], h[1..])
    else if st != [] && st[|st| - 1] == h[0].variable then OpenAfter(st[..|st| - 1], h[1..])
    else None
  }

  /**
   * A search history is bracketed: every unassign event closes the latest
   * open assign event of the same variable; a failed search closes all it
   * opened, and a successful one leaves exactly n assignments open.
   */
  ghost predicate Bracketed(h: seq<Event>, found: bool, n: nat) {
    OpenAfter([], h).Some? && |OpenAfter([], h).value| == (if found then n else 0)
  }

  /** Running two histories in turn is running their concatenation. */
  lemma {:induction false} OpenAfterConcat(st: seq<nat>, h1: seq<Event>, h2: seq<Event>)
    ensures OpenAfter(st, h1 + h2) ==
              if OpenAfter(st, h1).None? then None else OpenAfter(OpenAfter(st, h1).value, h2)
    decreases |h1|
  {
    if h1 == [] {
      assert h1 + h2 == h2;
    } else {
      assert (h1 + h2)[0] == h1[0] && (h1 + h2)[1..] == h1[1..] + h2;
      var e := h1[0];
      if e.value.Some? {
        OpenAfterConcat(st + [e.variable], h1[1..], h2);
      } else if st != [] && st[|st| - 1] == e.variable {
        OpenAfterConcat(st[..|st| - 1], h1[1..], h2);
      }
    }
  }

  /** A bracketed history runs the same on top of any outer open list. */
  lemma {:induction false} OpenAfterShift(outer: seq<nat>, st: seq<nat>, h: seq<Event>)
    requires OpenAfter(st, h).Some?
    ensures OpenAfter(outer + st, h) == Some(outer + OpenAfter(st, h).value)
    decreases |h|
  {
    if h != [] {
      var e := h[0];
      if e.value.Some? {
        assert outer + st + [e.variable] == outer + (st + [e.variable]);
        OpenAfterShift(outer, st + [e.variable], h[1..]);
      } else {
        assert (outer + st)[..|outer + st| - 1] == outer + st[..|st| - 1];
        OpenAfterShift(outer, st[..|st| - 1], h[1..]);
      }
    }
  }

  /** Assigning x before a bracketed branch history opens x below it. */
  lemma BranchBrackets(x: nat, d: int, sub: seq<Event>, found: bool, n: nat)
    requires Bracketed(sub, found, n)
    ensures OpenAfter([], [Event(x, Some(d))] + sub) == Some([x] + OpenAfter([], sub).value)
  {
    var h := [Event(x, Some(d))] + sub;
    assert h[0] == Event(x, Some(d)) && h[1..] == sub;
    assert [] + [x] == [x] + [];
    assert OpenAfter([], h) == OpenAfter([x] + [], sub);
    OpenAfterShift([x], [], sub);
  }

  /** A successful branch leaves its variable and the branch's own assignments open. */
  lemma FoundBranchBrackets(x: nat, d: int, sub: seq<Event>, n: nat)
    requires Bracketed(sub, true, n)
    ensures Bracketed([Event(x, Some(d))] + sub, true, n + 1)
  {
    BranchBrackets(x, d, sub, true, n);
  }

  /** A failed branch closes its variable again. */
  lemma FailedBranchBrackets(x: nat, d: int, sub: seq<Event>, n: nat)
    requires Bracketed(sub, false, n)
    ensures Bracketed([Event(x, Some(d))] + sub + [Event(x, None)], false, n)
  {
    BranchBrackets(x, d, sub, false, n);
    assert OpenAfter([], sub).value == [];
    assert [x] + [] == [x];
    OpenAfterConcat([], [Event(x, Some(d))] + sub, [Event(x, None)]);
    assert OpenAfter([], [Event(x, Some(d))] + sub) == Some([x]);
    assert [Event(x, None)][1..] == [];
  }

  /** Histories of failed branches in front of a branch history change nothing. */
  lemma LoopBrackets(events: seq<Event>, sub: seq<Event>, found: bool, n: nat)
    requires Bracketed(events, false, n) && Bracketed(sub, found, n)
    ensures Bracketed(events + sub, found, n)
  {
    OpenAfterConcat([], events, sub);
  }

  /**
   * What a search call records: nothing unless writing is asked for, and
   * otherwise a bracketed history that replays the values V0 to V.
   */
  ghost predicate SearchHistory(V0: seq<Option<int>>, V: seq<Option<int>>, events: seq<Event>,
                                found: bool, n: nat, write: bool) {
    if write then Replay(V0, events) == V && Bracketed(events, found, n) else events == []
  }

  /** The record of a successful branch on x. */
  lemma FoundBranchHistory(V0: seq<Option<int>>, V: seq<Option<int>>, x: nat, d: int, sub: seq<Event>,
                           n: nat, write: bool)
    requires x < |V0| && SearchHistory(V0[x := Some(d)], V, sub, true, n, write)
    ensures SearchHistory(V0, V, if write then [Event(x, Some(d))] + sub else [], true, n + 1, write)
  {
    if write {
      FoundBranchReplay(V0, x, d, sub);
      FoundBranchBrackets(x, d, sub, n);
    }
  }

  /** The record of a failed branch on x. */
  lemma FailedBranchHistory(V0: seq<Option<int>>, x: nat, d: int, sub: seq<Event>, n: nat, write: bool)
    requires x < |V0| && V0[x].None? && SearchHistory(V0[x := Some(d)], V0[x := Some(d)], sub, false, n, write)
    ensures SearchHistory(V0, V0, if write then [Event(x, Some(d))] + sub + [Event(x, None)] else [],
                          false, n + 1, write)
  {
    if write {
      FailedBranchReplay(V0, x, d, sub);
      FailedBranchBrackets(x, d, sub, n);
    }
  }

  /** Failed branches recorded in front of a branch's record. */
  lemma LoopHistory(V0: seq<Option<int>>, V: seq<Option<int>>, events: seq<Event>, sub: seq<Event>,
                    found: bool, n: nat, write: bool)
    requires SearchHistory(V0, V0, events, false, n, write) && SearchHistory(V0, V, sub, found, n, write)
    ensures SearchHistory(V0, V, events + sub, found, n, write)
  {
    if write {
      ReplayConcat(V0, events, sub);
      LoopBrackets(events, sub, found, n);
    } else {
      assert events + sub == [];
    }
  }

  /**
   * The solution a is the first one the search meets at its branching
   * variable (the last unassigned one of S): no completion of S gives that
   * variable a lower domain index.
   */
  ghost predicate FirstAtBranch(cs: seq<Constraint>, S: seq<VarState>, a: seq<nat>)
    requires ConstraintsValid(cs, |S|)
  {
    var u := UnassignedVariables(S);
    u != [] ==> |a| == |S| && u[|u| - 1] < |S| && NoSolutionBelow(cs, S, u[|u| - 1], a[u[|u| - 1]])
  }

  /**
   * __backtrackingSolver. On success the arena is completely and
   * consistently assigned and extends the entry state; on failure every
   * variable is as it was on entry, and failure happens exactly when the
   * entry state has no consistent completion. Domains never change. The
   * result is the list of history entries the call appends: none unless
   * writing is asked for, and replaying them reproduces the values of the
   * final state.
   */
  method Backtrack(p: Problem, write: bool) returns (found: bool, events: seq<Event>)
    requires p.Valid() && AllWellFormed(StatesOf(p.vars))
    modifies p.vars
    decreases |UnassignedVariables(StatesOf(p.vars))|, 1
    ensures AllWellFormed(StatesOf(p.vars))
    ensures DomainsOf(StatesOf(p.vars)) == DomainsOf(old(StatesOf(p.vars)))
    ensures found <==> HasSolution(p.constraints, old(StatesOf(p.vars)))
    ensures found ==> IsCompletelyAssigned(StatesOf(p.vars))
    ensures found ==> IsSolutionExtension(p.constraints, old(StatesOf(p.vars)), IndicesOf(StatesOf(p.vars)))
    ensures !found ==> StatesOf(p.vars) == old(StatesOf(p.vars))
    ensures SearchHistory(Values(old(StatesOf(p.vars))), Values(StatesOf(p.vars)), events, found,
                          |UnassignedVariables(old(StatesOf(p.vars)))|, write)
    ensures found ==> FirstAtBranch(p.constraints, old(StatesOf(p.vars)), IndicesOf(StatesOf(p.vars)))
  {
    ghost var S0 := StatesOf(p.vars);
    var cs := p.constraints;
    events := [];
    if IsCompletelyAssigned(StatesOf(p.vars)) {
      CompleteSolution(cs, S0);
      CompletelyAssignedIffNoneUnassigned(S0);
      found := IsConsistentlyAssigned(cs, Values(StatesOf(p.vars)));
      return;
    }
    var unassigned := UnassignedVariables(StatesOf(p.vars));
    LastUnassigned(S0);
    var x := unassigned[|unassigned| - 1];
    StatesOfAt(p.vars, x);
    var domain := p.vars[x].domain;
    ghost var V0 := Values(S0);
    var i := 0;
    while i < |domain|
      invariant StatesOf(p.vars) == S0
      invariant SearchHistory(V0, V0, events, false, |unassigned|, write)
      invariant NoSolutionBelow(cs, S0, x, i)
      decreases |domain| - i
    {
      var sub;
      found, sub := TryIndex(p, x, i, write);
      LoopHistory(V0, Values(StatesOf(p.vars)), events, sub, found, |unassigned|, write);
      events := events + sub;
      if found {
        return;
      }
      FailedBranch(cs, S0, x, i);
      i := i + 1;
    }
    Exhausted(cs, S0, x);
    found := false;
  }

  /**
   * What one turn of the search loop leaves behind on the arena: a
   * completion giving x index i, or the entry state back with no
   * completion through index i.
   */
  ghost predicate TryOutcome(cs: seq<Constraint>, S0: seq<VarState>, x: nat, i: nat, S: seq<VarState>, found: bool)
    requires ConstraintsValid(cs, |S0|) && x < |S0|
  {
    AllWellFormed(S) && DomainsOf(S) == DomainsOf(S0) &&
    (found ==> IsCompletelyAssigned(S) && IsSolutionExtension(cs, S0, IndicesOf(S)) && IndicesOf(S)[x] == i) &&
    (!found ==> S == S0 && !HasSolution(cs, S0[x := VarState(S0[x].domain, Some(i))]))
  }

  lemma FoundTry(cs: seq<Constraint>, S0: seq<VarState>, x: nat, i: nat, S: seq<VarState>)
    requires ConstraintsValid(cs, |S0|) && x < |S0| && S0[x].index.None? && i < |S0[x].domain|
    requires AllWellFormed(S) && DomainsOf(S) == DomainsOf(S0) && IsCompletelyAssigned(S)
    requires IsSolutionExtension(cs, S0[x := VarState(S0[x].domain, Some(i))], IndicesOf(S))
    ensures TryOutcome(cs, S0, x, i, S, true)
  {
    FoundBranch(cs, S0, x, i, IndicesOf(S));
  }

  lemma FailedTry(cs: seq<Constraint>, S0: seq<VarState>, x: nat, i: nat, S: seq<VarState>)
    requires ConstraintsValid(cs, |S0|) && x < |S0| && S0[x].index.None? && AllWellFormed(S0)
    requires !HasSolution(cs, S0[x := VarState(S0[x].domain, Some(i))])
    requires S == S0[x := VarState(S0[x].domain, Some(i))][x := VarState(S0[x].domain, None)]
    ensures S == S0 && TryOutcome(cs, S0, x, i, S, false)
  {
    assert S == S0;
  }

  /**
   * One turn of the search loop: assign index i to x, search below, and
   * on failure unassign x again, recording the assign and unassign events.
   */
  method TryIndex(p: Problem, x: nat, i: nat, write: bool) returns (found: bool, events: seq<Event>)
    requires p.Valid() && AllWellFormed(StatesOf(p.vars)) && x < |p.vars|
    requires StatesOf(p.vars)[x].index.None? && i < |StatesOf(p.vars)[x].domain|
    modifies p.vars
    decreases |UnassignedVariables(StatesOf(p.vars))|, 0
    ensures TryOutcome(p.constraints, old(StatesOf(p.vars)), x, i, StatesOf(p.vars), found)
    ensures SearchHistory(Values(old(StatesOf(p.vars))), Values(StatesOf(p.vars)), events, found,
                          |UnassignedVariables(old(StatesOf(p.vars)))|, write)
  {
    ghost var S0 := StatesOf(p.vars);
    ghost var V0 := Values(S0);
    StatesOfAt(p.vars, x);
    var d := p.vars[x].domain[i];
    AssignInArena(p, x, i);
    ghost var S1 := StatesOf(p.vars);
    AssignShrinksUnassigned(S0, x, VarState(S0[x].domain, Some(i)));
    var sub;
    found, sub := Backtrack(p, write);
    ghost var S2 := StatesOf(p.vars);
    events := [];
    if found {
      FoundTry(p.constraints, S0, x, i, S2);
      FoundBranchHistory(V0, Values(S2), x, d, sub, |UnassignedVariables(S1)|, write);
      if write {
        events := [Event(x, Some(d))] + sub;
      }
      return;
    }
    UnassignInArena(p, x);
    FailedTry(p.constraints, S0, x, i, StatesOf(p.vars));
    FailedBranchHistory(V0, x, d, sub, |UnassignedVariables(S1)|, write);
    if write {
      events := [Event(x, Some(d))] + sub + [Event(x, None)];
    }
  }

  /**
   * backtrackingSolver: runs the search from an empty history and returns
   * the history (empty unless writing is asked for).
   */
  method Solve(p: Problem, write: bool) returns (hist: seq<Event>)
    requires p.Valid() && AllWellFormed(StatesOf(p.vars))
    modifies p.vars
    ensures DomainsOf(StatesOf(p.vars)) == DomainsOf(old(StatesOf(p.vars)))
    ensures HasSolution(p.constraints, old(StatesOf(p.vars))) ==>
              IsCompletelyConsistentlyAssigned(p.constraints, StatesOf(p.vars)) &&
              IsSolutionExtension(p.constraints, old(StatesOf(p.vars)), IndicesOf(StatesOf(p.vars)))
    ensures !HasSolution(p.constraints, old(StatesOf(p.vars))) ==> StatesOf(p.vars) == old(StatesOf(p.vars))
    ensures !write ==> hist == []
    ensures write ==> Replay(Values(old(StatesOf(p.vars))), hist) == Values(StatesOf(p.vars))
    ensures write ==> Bracketed(hist, HasSolution(p.constraints, old(StatesOf(p.vars))),
                                |UnassignedVariables(old(StatesOf(p.vars)))|)
    ensures HasSolution(p.constraints, old(StatesOf(p.vars))) ==>
              FirstAtBranch(p.constraints, old(StatesOf(p.vars)), IndicesOf(StatesOf(p.vars)))
  {
    ghost var S0 := StatesOf(p.vars);
    var found;
    found, hist := Backtrack(p, write);
    if found {
      CompletedArena(S0, StatesOf(p.vars));
    }
  }

  /**
   * A complete arena adds its own assignment indices to the solutions
   * when it is consistent: exactly its consistent completions.
   */
  function RecordIfConsistent(cs: seq<Constraint>, S: seq<VarState>, solutions: set<seq<nat>>): (r: set<seq<nat>>)
    requires ConstraintsValid(cs, |S|) && AllWellFormed(S) && IsCompletelyAssigned(S)
    ensures forall a :: a in r <==> a in solutions || IsSolutionExtension(cs, S, a)
  {
    CompleteSolutionUnique(cs, S);
    if IsConsistentlyAssigned(cs, Values(S)) then solutions + {IndicesOf(S)} else solutions
  }

  /** The solutions found in branch i join those of the earlier branches. */
  lemma BranchAccumulates(cs: seq<Constraint>, S0: seq<VarState>, x: nat, i: nat,
                          solutions: set<seq<nat>>, before: set<seq<nat>>, after: set<seq<nat>>)
    requires ConstraintsValid(cs, |S0|) && x < |S0| && S0[x].index.None? && i < |S0[x].domain|
    requires forall a :: a in before <==> a in solutions || (IsSolutionExtension(cs, S0, a) && a[x] < i)
    requires forall a :: a in after <==>
               (a in before || IsSolutionExtension(cs, S0[x := VarState(S0[x].domain, Some(i))], a))
    ensures forall a :: a in after <==> a in solutions || (IsSolutionExtension(cs, S0, a) && a[x] < i + 1)
  {
    forall a ensures a in after <==> a in solutions || (IsSolutionExtension(cs, S0, a) && a[x] < i + 1) {
      BranchSolutions(cs, S0, x, i, a);
    }
  }

  /**
   * __backtrackingSolver_findAllSolutions: adds to the solutions exactly
   * the consistent completions of the entry state, and leaves every
   * variable as it was on entry.
   */
  method FindAll(p: Problem, solutions: set<seq<nat>>) returns (sols: set<seq<nat>>)
    requires p.Valid() && AllWellFormed(StatesOf(p.vars))
    modifies p.vars
    decreases |UnassignedVariables(StatesOf(p.vars))|
    ensures StatesOf(p.vars) == old(StatesOf(p.vars))
    ensures forall a :: a in sols <==> a in solutions || IsSolutionExtension(p.constraints, old(StatesOf(p.vars)), a)
  {
    ghost var S0 := StatesOf(p.vars);
    var cs := p.constraints;
    sols := solutions;
    if IsCompletelyAssigned(StatesOf(p.vars)) {
      // a complete arena has no unassigned variable to branch on
      sols := RecordIfConsistent(cs, StatesOf(p.vars), sols);
      return;
    }
    var unassigned := UnassignedVariables(StatesOf(p.vars));
    LastUnassigned(S0);
    var x := unassigned[|unassigned| - 1];
    StatesOfAt(p.vars, x);
    var domain := p.vars[x].domain;
    var i := 0;
    while i < |domain|
      invariant StatesOf(p.vars) == S0
      invariant forall a :: a in sols <==> a in solutions || (IsSolutionExtension(cs, S0, a) && a[x] < i)
      decreases |domain| - i
    {
      AssignInArena(p, x, i);
      ghost var before := sols;
      sols := FindAll(p, sols);
      BranchAccumulates(cs, S0, x, i, solutions, before, sols);
      UnassignInArena(p, x);
      i := i + 1;
    }
  }

  /** backtrackingSolver_findAllSolutions: the set of all consistent completions. */
  method FindAllSolutions(p: Problem) returns (sols: set<seq<nat>>)
    requires p.Valid() && AllWellFormed(StatesOf(p.vars))
    modifies p.vars
    ensures StatesOf(p.vars) == old(StatesOf(p.vars))
    ensures forall a :: a in sols <==> IsSolutionExtension(p.constraints, StatesOf(p.vars), a)
  {
    sols := FindAll(p, {});
  }
}
