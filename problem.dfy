/**
 * The constraint problem the solvers work on. Variables live in an arena
 * (a sequence of distinct Variable objects) and are referred to by their
 * position in it; the arena order stands for the order in which the
 * problem lists its variables. A constraint names the positions of its
 * variables (its scope) and judges the values of those of them that are
 * assigned, in scope order.
 */
module Problem {
  import opened Wrappers
  import opened Errors
  import opened Domain
  import opened Variables

  /** A constraint; `id` is its identity (constraints compare by identity). */
  datatype Constraint = Constraint(id: nat, scope: seq<nat>, pred: seq<int> -> bool)

  /** Building a constraint rejects a scope that lists a variable twice. */
  function NewConstraint(id: nat, scope: seq<nat>, pred: seq<int> -> bool): (r: Result<Constraint, CspError>)
    ensures r.Ok? <==> Distinct(scope)
    ensures r.Err? ==> r.error == DuplicateVariable
    ensures r.Ok? ==> r.value.id == id && r.value.scope == scope && r.value.pred == pred
  {
    match FirstRepeated(scope)
    case None => Ok(Constraint(id, scope, pred))
    case Some(_) => Err(DuplicateVariable)
  }

  /** A scope that lists a variable a second time is rejected, whatever the predicate. */
  lemma DuplicateVariableRejected(pred: seq<int> -> bool)
    ensures NewConstraint(1, [0, 1, 2, 0], pred) == Err(DuplicateVariable)
    ensures NewConstraint(1, [0, 1, 2], pred) == Ok(Constraint(1, [0, 1, 2], pred))
  {
    assert [0, 1, 2, 0][0] == [0, 1, 2, 0][3];
    assert !Distinct([0, 1, 2, 0]);
  }

  /** The value of every arena variable, in arena order. */
  function Values(S: seq<VarState>): (r: seq<Option<int>>)
    ensures |r| == |S|
    ensures forall i :: 0 <= i < |S| ==> r[i] == ValueOf(S[i])
  {
    seq(|S|, i requires 0 <= i < |S| => ValueOf(S[i]))
  }

  predicate ScopeIn(scope: seq<nat>, n: nat) {
    forall k :: 0 <= k < |scope| ==> scope[k] < n
  }

  /** The values of the assigned variables of a scope, in scope order. */
  function AssignedValues(scope: seq<nat>, vals: seq<Option<int>>): (r: seq<int>)
    requires ScopeIn(scope, |vals|)
    ensures |r| <= |scope|
  {
    if scope == [] then []
    else
      var rest := AssignedValues(scope[1..], vals);
      if vals[scope[0]].Some? then [vals[scope[0]].value] + rest else rest
  }

  /** A completely assigned scope sees the values of all its variables, in scope order. */
  lemma {:induction false} AssignedValuesAll(scope: seq<nat>, vals: seq<Option<int>>)
    requires ScopeIn(scope, |vals|)
    requires forall k :: 0 <= k < |scope| ==> vals[scope[k]].Some?
    ensures |AssignedValues(scope, vals)| == |scope|
    ensures forall k :: 0 <= k < |scope| ==> AssignedValues(scope, vals)[k] == vals[scope[k]].value
  {
    if scope != [] {
      assert forall k :: 0 <= k < |scope[1..]| ==> scope[1..][k] == scope[k + 1];
      AssignedValuesAll(scope[1..], vals);
    }
  }

  /** A completely unassigned scope sees no values. */
  lemma {:induction false} AssignedValuesNone(scope: seq<nat>, vals: seq<Option<int>>)
    requires ScopeIn(scope, |vals|)
    requires forall k :: 0 <= k < |scope| ==> vals[scope[k]].None?
    ensures AssignedValues(scope, vals) == []
  {
    if scope != [] {
      assert forall k :: 0 <= k < |scope[1..]| ==> scope[1..][k] == scope[k + 1];
      AssignedValuesNone(scope[1..], vals);
    }
  }

  /** Consistency: the predicate accepts the values assigned so far. */
  predicate IsConsistent(c: Constraint, vals: seq<Option<int>>)
    requires ScopeIn(c.scope, |vals|)
  {
    c.pred(AssignedValues(c.scope, vals))
  }

  predicate ScopeAssigned(scope: seq<nat>, vals: seq<Option<int>>)
    requires ScopeIn(scope, |vals|)
  {
    forall k :: 0 <= k < |scope| ==> vals[scope[k]].Some?
  }

  /** Satisfaction: every variable of the scope is assigned and the predicate accepts the values. */
  predicate IsSatisfied(c: Constraint, vals: seq<Option<int>>)
    requires ScopeIn(c.scope, |vals|)
  {
    ScopeAssigned(c.scope, vals) && c.pred(AssignedValues(c.scope, vals))
  }

  /** Satisfaction is consistency of a completely assigned scope. */
  lemma SatisfiedIffConsistentAndAssigned(c: Constraint, vals: seq<Option<int>>)
    requires ScopeIn(c.scope, |vals|)
    ensures IsSatisfied(c, vals) <==> ScopeAssigned(c.scope, vals) && IsConsistent(c, vals)
  {
  }

  /** The values a scope sees depend only on the values of its own variables. */
  lemma {:induction false} AssignedValuesFrame(scope: seq<nat>, v1: seq<Option<int>>, v2: seq<Option<int>>)
    requires ScopeIn(scope, |v1|) && ScopeIn(scope, |v2|)
    requires forall k :: 0 <= k < |scope| ==> v1[scope[k]] == v2[scope[k]]
    ensures AssignedValues(scope, v1) == AssignedValues(scope, v2)
  {
    if scope != [] {
      assert forall k :: 0 <= k < |scope[1..]| ==> scope[1..][k] == scope[k + 1];
      AssignedValuesFrame(scope[1..], v1, v2);
    }
  }

  /** Consistency of a constraint is decided by the values of its scope alone. */
  lemma ConsistencyFrame(c: Constraint, v1: seq<Option<int>>, v2: seq<Option<int>>)
    requires ScopeIn(c.scope, |v1|) && ScopeIn(c.scope, |v2|)
    requires forall k :: 0 <= k < |c.scope| ==> v1[c.scope[k]] == v2[c.scope[k]]
    ensures IsConsistent(c, v1) == IsConsistent(c, v2)
    ensures IsSatisfied(c, v1) == IsSatisfied(c, v2)
  {
    AssignedValuesFrame(c.scope, v1, v2);
  }

  function Ids(cs: seq<Constraint>): (r: seq<nat>)
    ensures |r| == |cs| && forall k :: 0 <= k < |cs| ==> r[k] == cs[k].id
  {
    seq(|cs|, k requires 0 <= k < |cs| => cs[k].id)
  }

  /** Well-formed constraints over an arena of n variables. */
  predicate ConstraintsValid(cs: seq<Constraint>, n: nat) {
    (forall k :: 0 <= k < |cs| ==> ScopeIn(cs[k].scope, n) && Distinct(cs[k].scope)) &&
    Distinct(Ids(cs))
  }

  /** A problem: its arena of variables and its list of constraints. */
  datatype Problem = Problem(vars: seq<Variable>, constraints: seq<Constraint>)
  {
    predicate Valid() {
      (forall i, j :: 0 <= i < j < |vars| ==> vars[i] != vars[j]) &&
      ConstraintsValid(constraints, |vars|)
    }
  }

  /** The first id that occurs twice, scanning from the front. */
  function FirstRepeated(ids: seq<nat>): (r: Option<nat>)
    ensures r.None? <==> Distinct(ids)
    ensures r.Some? ==> exists i, j :: 0 <= i < j < |ids| && ids[i] == r.value && ids[j] == r.value
  {
    if ids == [] then None
    else if ids[0] in ids[1..] then
      assert ids[0] == ids[1..][IndexIn(ids[1..], ids[0])];
      Some(ids[0])
    else
      var r := FirstRepeated(ids[1..]);
      assert forall k :: 0 <= k < |ids[1..]| ==> ids[1..][k] == ids[k + 1];
      if r.None? then
        assert Distinct(ids) by {
          forall i, j | 0 <= i < j < |ids| ensures ids[i] != ids[j] {
            if i == 0 { assert ids[j] == ids[1..][j - 1]; }
          }
        }
        r
      else
        r
  }

  function IndexIn(s: seq<nat>, x: nat): (k: nat)
    requires x in s
    ensures k < |s| && s[k] == x
  {
    if s[0] == x then 0 else 1 + IndexIn(s[1..], x)
  }

  /**
   * Building a problem rejects a constraint list that holds one constraint
   * twice, naming it.
   */
  function NewProblem(vars: seq<Variable>, cs: seq<Constraint>): (r: Result<Problem, CspError>)
    ensures r.Ok? <==> Distinct(Ids(cs))
    ensures r.Ok? ==> r.value.vars == vars && |r.value.constraints| == |cs|
    ensures r.Ok? ==> forall k :: 0 <= k < |cs| ==> r.value.constraints[k] == cs[k]
    ensures r.Err? ==> r.error.DuplicateConstraint?
    ensures r.Err? ==> exists i, j :: 0 <= i < j < |cs| && cs[i].id == r.error.id && cs[j].id == r.error.id
  {
    match FirstRepeated(Ids(cs))
    case None => Ok(Problem(vars, cs))
    case Some(id) => Err(DuplicateConstraint(id))
  }

  /** Every constraint is consistent with the current values. */
  predicate IsConsistentlyAssigned(cs: seq<Constraint>, vals: seq<Option<int>>)
    requires ConstraintsValid(cs, |vals|)
  {
    forall k :: 0 <= k < |cs| ==> IsConsistent(cs[k], vals)
  }

  predicate IsCompletelyAssigned(S: seq<VarState>) {
    forall i :: 0 <= i < |S| ==> S[i].index.Some?
  }

  predicate IsCompletelyUnassigned(S: seq<VarState>) {
    forall i :: 0 <= i < |S| ==> S[i].index.None?
  }

  predicate IsCompletelyConsistentlyAssigned(cs: seq<Constraint>, S: seq<VarState>)
    requires ConstraintsValid(cs, |S|)
  {
    IsCompletelyAssigned(S) && IsConsistentlyAssigned(cs, Values(S))
  }

  /** With nothing assigned, consistency is the predicates' verdict on empty value lists. */
  lemma UnassignedConsistency(cs: seq<Constraint>, S: seq<VarState>)
    requires ConstraintsValid(cs, |S|) && IsCompletelyUnassigned(S)
    ensures IsConsistentlyAssigned(cs, Values(S)) <==> forall k :: 0 <= k < |cs| ==> cs[k].pred([])
  {
    forall k | 0 <= k < |cs| ensures AssignedValues(cs[k].scope, Values(S)) == [] {
      var sc := cs[k].scope;
      assert forall j :: 0 <= j < |sc| ==> Values(S)[sc[j]].None?;
      AssignedValuesNone(sc, Values(S));
    }
  }

  /** The positions of the unassigned variables, in arena order. */
  function UnassignedVariables(S: seq<VarState>): seq<nat> {
    UnassignedFrom(S, 0)
  }

  function UnassignedFrom(S: seq<VarState>, k: nat): seq<nat>
    requires k <= |S|
    decreases |S| - k
  {
    if k == |S| then [] else (if S[k].index.None? then [k] else []) + UnassignedFrom(S, k + 1)
  }

  /**
   * The list from position k on holds exactly the unassigned variables
   * from k on, in increasing arena order.
   */
  lemma {:induction false} UnassignedFromComplete(S: seq<VarState>, k: nat)
    requires k <= |S|
    ensures forall m :: 0 <= m < |UnassignedFrom(S, k)| ==>
              k <= UnassignedFrom(S, k)[m] < |S| && S[UnassignedFrom(S, k)[m]].index.None?
    ensures forall i :: k <= i < |S| && S[i].index.None? ==> i in UnassignedFrom(S, k)
    ensures forall m, l :: 0 <= m < l < |UnassignedFrom(S, k)| ==>
              UnassignedFrom(S, k)[m] < UnassignedFrom(S, k)[l]
    decreases |S| - k
  {
    if k < |S| {
      UnassignedFromComplete(S, k + 1);
    }
  }

  lemma UnassignedVariablesComplete(S: seq<VarState>)
    ensures forall m :: 0 <= m < |UnassignedVariables(S)| ==>
              UnassignedVariables(S)[m] < |S| && S[UnassignedVariables(S)[m]].index.None?
    ensures forall i :: 0 <= i < |S| && S[i].index.None? ==> i in UnassignedVariables(S)
    ensures forall m, l :: 0 <= m < l < |UnassignedVariables(S)| ==>
              UnassignedVariables(S)[m] < UnassignedVariables(S)[l]
  {
    UnassignedFromComplete(S, 0);
  }

  /** An arena that is not completely assigned has a last unassigned variable. */
  lemma LastUnassigned(S: seq<VarState>)
    requires !IsCompletelyAssigned(S)
    ensures UnassignedVariables(S) != []
    ensures var u := UnassignedVariables(S); u[|u| - 1] < |S| && S[u[|u| - 1]].index.None?
  {
    CompletelyAssignedIffNoneUnassigned(S);
    UnassignedVariablesComplete(S);
  }

  lemma CompletelyAssignedIffNoneUnassigned(S: seq<VarState>)
    ensures IsCompletelyAssigned(S) <==> UnassignedVariables(S) == []
  {
    UnassignedVariablesComplete(S);
    var u := UnassignedVariables(S);
    if u != [] {
      assert S[u[0]].index.None?;
    }
    if !IsCompletelyAssigned(S) {
      var i :| 0 <= i < |S| && S[i].index.None?;
      assert i in UnassignedVariables(S);
    }
  }

  /** Every domain is non-empty. */
  predicate IsPotentiallySolvable(S: seq<VarState>) {
    forall i :: 0 <= i < |S| ==> |S[i].domain| > 0
  }

  predicate InScope(c: Constraint, x: nat) {
    x in c.scope
  }

  /** Two variables are neighbours when some constraint has both in its scope. */
  predicate AreNeighbors(cs: seq<Constraint>, x: nat, y: nat) {
    x != y && exists k :: 0 <= k < |cs| && InScope(cs[k], x) && InScope(cs[k], y)
  }

  /** The other variables of c's scope when x is in it, and none otherwise. */
  function ScopeNeighbors(c: Constraint, x: nat): set<nat> {
    if x in c.scope then set y | y in c.scope && y != x else {}
  }

  /** The neighbours of x, gathered constraint by constraint. */
  function Neighbors(cs: seq<Constraint>, x: nat): set<nat>
    decreases |cs|
  {
    if cs == [] then {} else Neighbors(cs[..|cs| - 1], x) + ScopeNeighbors(cs[|cs| - 1], x)
  }

  /** The neighbours of x are exactly the variables other than x that share a constraint with it. */
  lemma {:induction false} NeighborsShareConstraint(cs: seq<Constraint>, x: nat)
    ensures forall y: nat :: y in Neighbors(cs, x) <==> AreNeighbors(cs, x, y)
    decreases |cs|
  {
    if cs != [] {
      var init := cs[..|cs| - 1];
      NeighborsShareConstraint(init, x);
      assert forall k :: 0 <= k < |init| ==> init[k] == cs[k];
      forall y: nat ensures y in Neighbors(cs, x) <==> AreNeighbors(cs, x, y) {
        if AreNeighbors(cs, x, y) {
          var k :| 0 <= k < |cs| && InScope(cs[k], x) && InScope(cs[k], y);
          if k < |init| {
            assert AreNeighbors(init, x, y);
          }
        }
      }
    }
  }

  /** Sharing a constraint is symmetric, and no variable is its own neighbour. */
  lemma NeighborsSymmetric(cs: seq<Constraint>, x: nat, y: nat)
    ensures y in Neighbors(cs, x) <==> x in Neighbors(cs, y)
    ensures x !in Neighbors(cs, x)
  {
    NeighborsShareConstraint(cs, x);
    NeighborsShareConstraint(cs, y);
    if y in Neighbors(cs, x) {
      var k :| 0 <= k < |cs| && InScope(cs[k], x) && InScope(cs[k], y);
      assert AreNeighbors(cs, y, x);
    }
    if x in Neighbors(cs, y) {
      var k :| 0 <= k < |cs| && InScope(cs[k], y) && InScope(cs[k], x);
      assert AreNeighbors(cs, x, y);
    }
  }

  /** The neighbours of x in the arena S that are not assigned. */
  function UnassignedNeighbors(cs: seq<Constraint>, S: seq<VarState>, x: nat): (r: set<nat>)
    ensures forall y: nat :: y in r <==> y < |S| && AreNeighbors(cs, x, y) && S[y].index.None?
    ensures r <= Neighbors(cs, x)
  {
    NeighborsShareConstraint(cs, x);
    set y | y in Neighbors(cs, x) && y < |S| && S[y].index.None?
  }

  /**
   * The map colouring of Australia: nt, q, nsw, v, t, sa and wa are arena
   * positions 0 to 6, with one constraint per border and one over t alone.
   */
  function AustraliaMap(pred: seq<int> -> bool): (cs: seq<Constraint>)
    ensures ConstraintsValid(cs, 7)
  {
    var cs := [Constraint(1, [5, 6], pred), Constraint(2, [5, 0], pred), Constraint(3, [5, 1], pred),
               Constraint(4, [5, 2], pred), Constraint(5, [5, 3], pred), Constraint(6, [6, 0], pred),
               Constraint(7, [0, 1], pred), Constraint(8, [1, 2], pred), Constraint(9, [2, 3], pred),
               Constraint(10, [4], pred)];
    assert Ids(cs) == [1, 2, 3, 4, 5, 6, 7, 8, 9, 10];
    cs
  }

  /** The neighbours of x among the first m + 1 constraints. */
  lemma NeighborsStep(cs: seq<Constraint>, m: nat, x: nat)
    requires m < |cs|
    ensures Neighbors(cs[..m + 1], x) == Neighbors(cs[..m], x) + ScopeNeighbors(cs[m], x)
  {
    assert cs[..m + 1][..m] == cs[..m];
  }

  /** A binary constraint over x and y makes each the other's only neighbour in it. */
  lemma PairNeighbors(c: Constraint, x: nat)
    requires |c.scope| == 2 && c.scope[0] != c.scope[1]
    ensures ScopeNeighbors(c, x) ==
              if x == c.scope[0] then {c.scope[1]} else if x == c.scope[1] then {c.scope[0]} else {}
  {
  }

  /** The map's neighbour sets, border by border. */
  lemma AustraliaUnion(pred: seq<int> -> bool, x: nat)
    ensures var cs := AustraliaMap(pred);
            Neighbors(cs, x) ==
              ScopeNeighbors(cs[0], x) + ScopeNeighbors(cs[1], x) + ScopeNeighbors(cs[2], x) +
              ScopeNeighbors(cs[3], x) + ScopeNeighbors(cs[4], x) + ScopeNeighbors(cs[5], x) +
              ScopeNeighbors(cs[6], x) + ScopeNeighbors(cs[7], x) + ScopeNeighbors(cs[8], x) +
              ScopeNeighbors(cs[9], x)
  {
    var cs := AustraliaMap(pred);
    assert cs[..0] == [] && cs[..10] == cs;
    NeighborsStep(cs, 0, x);
    NeighborsStep(cs, 1, x);
    NeighborsStep(cs, 2, x);
    NeighborsStep(cs, 3, x);
    NeighborsStep(cs, 4, x);
    NeighborsStep(cs, 5, x);
    NeighborsStep(cs, 6, x);
    NeighborsStep(cs, 7, x);
    NeighborsStep(cs, 8, x);
    NeighborsStep(cs, 9, x);
  }

  /** The neighbours of x on the map follow from its borders alone. */
  lemma AustraliaBorders(pred: seq<int> -> bool, x: nat)
    ensures var cs := AustraliaMap(pred);
            Neighbors(cs, x) ==
              (if x == 5 then {6, 0, 1, 2, 3} else {}) + (if x == 6 then {5, 0} else {}) +
              (if x == 0 then {5, 6, 1} else {}) + (if x == 1 then {5, 0, 2} else {}) +
              (if x == 2 then {5, 1, 3} else {}) + (if x == 3 then {5, 2} else {})
  {
    var cs := AustraliaMap(pred);
    AustraliaUnion(pred, x);
    PairNeighbors(cs[0], x);
    PairNeighbors(cs[1], x);
    PairNeighbors(cs[2], x);
    PairNeighbors(cs[3], x);
    PairNeighbors(cs[4], x);
    PairNeighbors(cs[5], x);
    PairNeighbors(cs[6], x);
    PairNeighbors(cs[7], x);
    PairNeighbors(cs[8], x);
    assert ScopeNeighbors(cs[9], x) == {};
  }

  /** sa borders nt, q, nsw, v and wa; v borders sa and nsw. */
  lemma AustraliaNeighbors(pred: seq<int> -> bool)
    ensures Neighbors(AustraliaMap(pred), 5) == {0, 1, 2, 3, 6}
    ensures Neighbors(AustraliaMap(pred), 3) == {5, 2}
  {
    AustraliaBorders(pred, 5);
    AustraliaBorders(pred, 3);
  }

  /** With wa and q assigned, the unassigned neighbours of sa are nt, nsw and v. */
  lemma AustraliaUnassignedNeighbors(pred: seq<int> -> bool, S: seq<VarState>)
    requires |S| == 7 && S[6].index.Some? && S[1].index.Some?
    requires S[0].index.None? && S[2].index.None? && S[3].index.None?
    ensures UnassignedNeighbors(AustraliaMap(pred), S, 5) == {0, 2, 3}
  {
    AustraliaNeighbors(pred);
  }

  /** Giving x the value d keeps every constraint over x consistent. */
  predicate ConsistentWith(cs: seq<Constraint>, vals: seq<Option<int>>, x: nat, d: int)
    requires ConstraintsValid(cs, |vals|) && x < |vals|
  {
    forall k :: 0 <= k < |cs| && InScope(cs[k], x) ==> IsConsistent(cs[k], vals[x := Some(d)])
  }

  /**
   * The consistent domain of x: the entries of its domain, in domain
   * order, that keep every constraint over x consistent.
   */
  function ConsistentDomain(cs: seq<Constraint>, vals: seq<Option<int>>, x: nat, dom: seq<int>): (r: seq<int>)
    requires ConstraintsValid(cs, |vals|) && x < |vals|
    ensures |r| <= |dom|
  {
    if dom == [] then []
    else if ConsistentWith(cs, vals, x, dom[0]) then [dom[0]] + ConsistentDomain(cs, vals, x, dom[1..])
    else ConsistentDomain(cs, vals, x, dom[1..])
  }

  /** A value is in the consistent domain exactly when it is in the domain and consistent. */
  lemma {:induction false} ConsistentDomainMembers(cs: seq<Constraint>, vals: seq<Option<int>>, x: nat, dom: seq<int>)
    requires ConstraintsValid(cs, |vals|) && x < |vals|
    ensures forall d :: d in ConsistentDomain(cs, vals, x, dom) <==> d in dom && ConsistentWith(cs, vals, x, d)
  {
    if dom != [] {
      ConsistentDomainMembers(cs, vals, x, dom[1..]);
      assert forall d :: d in dom <==> d == dom[0] || d in dom[1..];
    }
  }

  /** Filtering keeps the domain order: a sorted domain has a sorted consistent domain. */
  lemma {:induction false} ConsistentDomainSorted(cs: seq<Constraint>, vals: seq<Option<int>>, x: nat, dom: seq<int>)
    requires ConstraintsValid(cs, |vals|) && x < |vals| && Sorted(dom)
    ensures Sorted(ConsistentDomain(cs, vals, x, dom))
  {
    if dom != [] {
      var tail := dom[1..];
      assert Sorted(tail) by {
        forall i, j | 0 <= i < j < |tail| ensures tail[i] <= tail[j] { assert tail[i] == dom[i + 1] && tail[j] == dom[j + 1]; }
      }
      ConsistentDomainSorted(cs, vals, x, tail);
      ConsistentDomainMembers(cs, vals, x, tail);
      var rest := ConsistentDomain(cs, vals, x, tail);
      forall k | 0 <= k < |rest| ensures dom[0] <= rest[k] {
        assert rest[k] in rest;
        var j :| 0 <= j < |tail| && tail[j] == rest[k];
        assert dom[0] <= dom[j + 1];
      }
    }
  }

  /**
   * A value of the consistent domain can be given to an unassigned
   * variable without breaking the consistency of the problem.
   */
  lemma ConsistentDomainKeepsConsistency(cs: seq<Constraint>, vals: seq<Option<int>>, x: nat, dom: seq<int>, d: int)
    requires ConstraintsValid(cs, |vals|) && x < |vals|
    requires IsConsistentlyAssigned(cs, vals)
    requires d in ConsistentDomain(cs, vals, x, dom)
    ensures IsConsistentlyAssigned(cs, vals[x := Some(d)])
  {
    ConsistentDomainMembers(cs, vals, x, dom);
    assert ConsistentWith(cs, vals, x, d);
    forall k | 0 <= k < |cs| ensures IsConsistent(cs[k], vals[x := Some(d)]) {
      if !InScope(cs[k], x) {
        ConsistencyFrame(cs[k], vals, vals[x := Some(d)]);
      }
    }
  }

  /** Every assignment index of the arena points into its domain. */
  predicate AllWellFormed(S: seq<VarState>) {
    forall i :: 0 <= i < |S| ==> WellFormed(S[i])
  }

  /** Giving an unassigned variable a value shortens the list of unassigned variables by one. */
  lemma AssignShrinksUnassigned(S: seq<VarState>, x: nat, st: VarState)
    requires x < |S| && S[x].index.None? && st.index.Some?
    ensures |UnassignedVariables(S[x := st])| + 1 == |UnassignedVariables(S)|
  {
    AssignShrinksFrom(S, x, st, 0);
  }

  lemma {:induction false} AssignShrinksFrom(S: seq<VarState>, x: nat, st: VarState, k: nat)
    requires x < |S| && S[x].index.None? && st.index.Some? && k <= |S|
    ensures |UnassignedFrom(S[x := st], k)| + (if k <= x then 1 else 0) == |UnassignedFrom(S, k)|
    decreases |S| - k
  {
    if k < |S| {
      AssignShrinksFrom(S, x, st, k + 1);
    }
  }

  /** Replacing one state by a well-formed one keeps the arena well formed. */
  lemma UpdateKeepsWellFormed(S: seq<VarState>, x: nat, st: VarState)
    requires x < |S| && AllWellFormed(S) && WellFormed(st)
    ensures AllWellFormed(S[x := st])
  {
  }

  /** The domains of an arena, in arena order. */
  function DomainsOf(S: seq<VarState>): (r: seq<seq<int>>)
    ensures |r| == |S|
  {
    if S == [] then [] else [S[0].domain] + DomainsOf(S[1..])
  }

  lemma {:induction false} DomainsOfAt(S: seq<VarState>, i: nat)
    requires i < |S|
    ensures DomainsOf(S)[i] == S[i].domain
  {
    if i > 0 {
      DomainsOfAt(S[1..], i - 1);
    }
  }

  /** Changing only an assignment leaves the domains as they were. */
  lemma {:induction false} DomainsOfUpdate(S: seq<VarState>, x: nat, st: VarState)
    requires x < |S| && st.domain == S[x].domain
    ensures DomainsOf(S[x := st]) == DomainsOf(S)
  {
    if x > 0 {
      assert S[x := st][1..] == S[1..][x - 1 := st];
      DomainsOfUpdate(S[1..], x - 1, st);
    }
  }

  /** Changing one state changes one value. */
  lemma ValuesUpdate(S: seq<VarState>, x: nat, st: VarState)
    requires x < |S|
    ensures Values(S[x := st]) == Values(S)[x := ValueOf(st)]
  {
  }

  /**
   * Assigns index i to the unassigned arena variable x; the other
   * variables are untouched, so the arena stays well formed and has one
   * unassigned variable fewer.
   */
  method AssignInArena(p: Problem, x: nat, i: nat)
    requires p.Valid() && x < |p.vars| && AllWellFormed(StatesOf(p.vars))
    requires StatesOf(p.vars)[x].index.None? && i < |StatesOf(p.vars)[x].domain|
    modifies p.vars[x]
    ensures StatesOf(p.vars) == old(StatesOf(p.vars))[x := VarState(old(StatesOf(p.vars))[x].domain, Some(i))]
    ensures DomainsOf(StatesOf(p.vars)) == DomainsOf(old(StatesOf(p.vars)))
    ensures AllWellFormed(StatesOf(p.vars))
    ensures Values(StatesOf(p.vars)) == Values(old(StatesOf(p.vars)))[x := Some(old(StatesOf(p.vars))[x].domain[i])]
    ensures |UnassignedVariables(StatesOf(p.vars))| < |UnassignedVariables(old(StatesOf(p.vars)))|
  {
    ghost var S0 := StatesOf(p.vars);
    StatesOfPointwise(p.vars);
    ghost var st := VarState(p.vars[x].domain, Some(i));
    var outcome := p.vars[x].AssignByIdx(i);
    assert forall j :: 0 <= j < |p.vars| && j != x ==> p.vars[j] != p.vars[x];
    StatesOfPointwise(p.vars);
    assert StatesOf(p.vars) == S0[x := st];
    UpdateKeepsWellFormed(S0, x, st);
    DomainsOfUpdate(S0, x, st);
    ValuesUpdate(S0, x, st);
    AssignShrinksUnassigned(S0, x, st);
  }

  /** Unassigns arena variable x; the other variables are untouched. */
  method UnassignInArena(p: Problem, x: nat)
    requires p.Valid() && x < |p.vars| && AllWellFormed(StatesOf(p.vars))
    modifies p.vars[x]
    ensures StatesOf(p.vars) == old(StatesOf(p.vars))[x := VarState(old(StatesOf(p.vars))[x].domain, None)]
    ensures DomainsOf(StatesOf(p.vars)) == DomainsOf(old(StatesOf(p.vars)))
    ensures AllWellFormed(StatesOf(p.vars))
  {
    ghost var S0 := StatesOf(p.vars);
    StatesOfPointwise(p.vars);
    ghost var st := VarState(p.vars[x].domain, None);
    p.vars[x].Unassign();
    assert forall j :: 0 <= j < |p.vars| && j != x ==> p.vars[j] != p.vars[x];
    StatesOfPointwise(p.vars);
    assert StatesOf(p.vars) == S0[x := st];
    UpdateKeepsWellFormed(S0, x, st);
    DomainsOfUpdate(S0, x, st);
  }

  /** The assignment indices of an arena, in arena order. */
  function IndexesOf(S: seq<VarState>): (r: seq<Option<nat>>)
    ensures |r| == |S|
  {
    if S == [] then [] else [S[0].index] + IndexesOf(S[1..])
  }

  lemma {:induction false} IndexesOfAt(S: seq<VarState>, i: nat)
    requires i < |S|
    ensures IndexesOf(S)[i] == S[i].index
  {
    if i > 0 {
      IndexesOfAt(S[1..], i - 1);
    }
  }

  /** Changing only a domain leaves the assignment indices as they were. */
  lemma {:induction false} IndexesOfUpdate(S: seq<VarState>, x: nat, st: VarState)
    requires x < |S| && st.index == S[x].index
    ensures IndexesOf(S[x := st]) == IndexesOf(S)
  {
    if x > 0 {
      assert S[x := st][1..] == S[1..][x - 1 := st];
      IndexesOfUpdate(S[1..], x - 1, st);
    }
  }

  /** Changing one state changes one domain. */
  lemma {:induction false} DomainsOfSet(S: seq<VarState>, x: nat, st: VarState)
    requires x < |S|
    ensures DomainsOf(S[x := st]) == DomainsOf(S)[x := st.domain]
  {
    if x > 0 {
      assert S[x := st][1..] == S[1..][x - 1 := st];
      DomainsOfSet(S[1..], x - 1, st);
    } else {
      assert S[x := st][1..] == S[1..];
    }
  }

  /** Arenas with the same assignment indices are unassigned together. */
  lemma SameIndexesUnassigned(S: seq<VarState>, T: seq<VarState>)
    requires IndexesOf(S) == IndexesOf(T)
    ensures IsCompletelyUnassigned(S) <==> IsCompletelyUnassigned(T)
  {
    forall i | 0 <= i < |S| ensures S[i].index == T[i].index {
      IndexesOfAt(S, i);
      IndexesOfAt(T, i);
    }
  }

  /**
   * Removes entry i from the domain of arena variable x; an assigned
   * variable refuses and nothing changes.
   */
  method RemoveInArena(p: Problem, x: nat, i: nat) returns (r: Outcome<CspError>)
    requires p.Valid() && x < |p.vars| && AllWellFormed(StatesOf(p.vars))
    requires StatesOf(p.vars)[x].index.Some? || i < |StatesOf(p.vars)[x].domain|
    modifies p.vars[x]
    ensures old(StatesOf(p.vars))[x].index.Some? ==> r == Fail(DomainAlteration) && StatesOf(p.vars) == old(StatesOf(p.vars))
    ensures old(StatesOf(p.vars))[x].index.None? ==>
              r == Pass &&
              StatesOf(p.vars) == old(StatesOf(p.vars))[x := VarState(old(StatesOf(p.vars))[x].domain[..i] + old(StatesOf(p.vars))[x].domain[i + 1..], None)]
    ensures AllWellFormed(StatesOf(p.vars))
    ensures IndexesOf(StatesOf(p.vars)) == IndexesOf(old(StatesOf(p.vars)))
  {
    ghost var S0 := StatesOf(p.vars);
    StatesOfPointwise(p.vars);
    r := p.vars[x].RemoveFromDomainByIdx(i);
    ghost var st := p.vars[x].State();
    assert forall j :: 0 <= j < |p.vars| && j != x ==> p.vars[j] != p.vars[x];
    StatesOfPointwise(p.vars);
    assert StatesOf(p.vars) == S0[x := st];
    UpdateKeepsWellFormed(S0, x, st);
    IndexesOfUpdate(S0, x, st);
  }

  /** Putting back the state a variable had before an update restores the arena. */
  lemma RestoreState(S: seq<VarState>, x: nat, st: VarState)
    requires x < |S| && S[x] == VarState(st.domain, None)
    ensures S[x := st][x := VarState(st.domain, None)] == S
  {
  }
}
