/**
 * A CSP variable: an ordered domain of values and an optional assignment
 * index into it. Values are integers; the engine's comparator is the
 * usual order on them.
 */
module Variables {
  import opened Wrappers
  import opened Errors
  import opened Domain

  /** A snapshot of a variable's two fields. */
  datatype VarState = VarState(domain: seq<int>, index: Option<nat>)

  /** The assignment, if any, points into the domain. */
  predicate WellFormed(s: VarState) {
    s.index.Some? ==> s.index.value < |s.domain|
  }

  /** The value a variable holds: the domain entry its index selects. */
  function ValueOf(s: VarState): Option<int> {
    if s.index.Some? && s.index.value < |s.domain| then Some(s.domain[s.index.value]) else None
  }

  class Variable {
    /** Whether the domain is kept sorted (the C++ comparator is present). */
    const ordered: bool
    var domain: seq<int>
    var index: Option<nat>

    function State(): VarState
      reads this
    {
      VarState(domain, index)
    }

    /**
     * Whether the variable holds an index: a well-formed variable is
     * assigned exactly when it has a value, and getValue refuses exactly
     * an unassigned one.
     */
    function IsAssigned(): (r: bool)
      reads this
      ensures WellFormed(State()) ==> (r <==> ValueOf(State()).Some?)
      ensures !r <==> GetValue() == Err(UnassignedValueExtraction)
    {
      index.Some?
    }

    /**
     * Builds the variable from an unordered set of initial values: the
     * set is listed in some iteration order and then sorted.
     */
    constructor (initial: set<int>)
      ensures ordered && index == None
      ensures StrictlySorted(domain) && Elements(domain) == initial
    {
      var listed := SetToSeq(initial);
      var sorted := SortSeq(listed);
      PermutationKeepsDistinct(listed, sorted);
      assert forall x :: x in sorted <==> x in multiset(sorted);
      assert forall x :: x in listed <==> x in multiset(listed);
      assert Elements(sorted) == Elements(listed);
      ordered := true;
      domain := sorted;
      index := None;
    }

    /** The assigned value; an unassigned variable has none. */
    function GetValue(): (r: Result<int, CspError>)
      reads this
      ensures r.Ok? <==> ValueOf(State()).Some?
      ensures r.Ok? ==> ValueOf(State()) == Some(r.value)
      ensures index.None? ==> r == Err(UnassignedValueExtraction)
      ensures WellFormed(State()) && index.Some? ==> r.Ok?
    {
      if index.None? then Err(UnassignedValueExtraction)
      else if index.value < |domain| then Ok(domain[index.value])
      else Err(StaleIndex)
    }

    method Unassign()
      modifies this
      ensures index == None && domain == old(domain)
    {
      index := None;
    }

    /** The range check comes before the over-assignment check. */
    method AssignByIdx(i: nat) returns (r: Outcome<CspError>)
      modifies this
      ensures domain == old(domain)
      ensures i >= |domain| ==> r == Fail(AssignmentIndexOutOfRange) && index == old(index)
      ensures i < |domain| && old(index).Some? ==> r == Fail(OverAssignment) && index == old(index)
      ensures i < |domain| && old(index).None? ==> r == Pass && index == Some(i)
    {
      if |domain| <= i {
        return Fail(AssignmentIndexOutOfRange);
      }
      if index.Some? {
        return Fail(OverAssignment);
      }
      index := Some(i);
      r := Pass;
    }

    /**
     * The position of a value in the domain. The sorted path is a binary
     * search (std::lower_bound); a position past the end, which the C++
     * code would dereference, is reported as an uncontained value. The
     * unsorted path scans from the front.
     */
    method GetAssignmentIdxOfValue(v: int) returns (r: Result<nat, CspError>)
      ensures r.Ok? ==> r.value < |domain| && domain[r.value] == v
      ensures r.Err? ==> r.error == UncontainedValue
      ensures (ordered ==> Sorted(domain)) ==> (r.Ok? <==> v in domain)
      ensures !ordered && r.Ok? ==> v !in domain[..r.value]
    {
      if ordered {
        var k := LowerBound(domain, v);
        if k == |domain| || domain[k] != v {
          return Err(UncontainedValue);
        }
        return Ok(k);
      } else {
        var k := FirstIndexOf(domain, v);
        if k == |domain| {
          return Err(UncontainedValue);
        }
        return Ok(k);
      }
    }

    /** Over-assignment is checked before the value is looked up. */
    method AssignByValue(v: int) returns (r: Outcome<CspError>)
      modifies this
      ensures domain == old(domain)
      ensures old(index).Some? ==> r == Fail(OverAssignment) && index == old(index)
      ensures old(index).None? && r.Pass? ==> index.Some? && index.value < |domain| && domain[index.value] == v
      ensures old(index).None? && r.Fail? ==> r.error == UncontainedValue && index == None
      ensures old(index).None? && (ordered ==> Sorted(domain)) ==> (r.Pass? <==> v in domain)
    {
      if index.Some? {
        return Fail(OverAssignment);
      }
      var k := GetAssignmentIdxOfValue(v);
      if k.Err? {
        return Fail(k.error);
      }
      index := Some(k.value);
      r := Pass;
    }

    /**
     * Replaces the domain; with the uniqueness check, only when the new
     * entries are pairwise distinct. Neither mode looks at or clears the
     * assignment index.
     */
    method SetDomain(d: seq<int>, checkUniqueness: bool)
      modifies this
      ensures index == old(index)
      ensures domain == (if !checkUniqueness || Distinct(d) then d else old(domain))
    {
      if !checkUniqueness {
        domain := d;
      } else {
        DistinctIffNoCollapse(d);
        if |Elements(d)| == |d| {
          domain := d;
        }
      }
    }

    /**
     * Shrinks the domain to a subset of it. The sorted path first sorts
     * an argument not flagged as sorted and accepts it when it is an
     * ordered sub-multiset of the domain (std::includes); the unsorted
     * path accepts a strictly shorter argument whose entries all occur in
     * the domain. Acceptance clears the assignment.
     */
    method SetSubsetDomain(sub: seq<int>, subIsSorted: bool) returns (r: Result<bool, CspError>)
      modifies this
      ensures old(index).Some? ==> r == Err(DomainAlteration) && domain == old(domain) && index == old(index)
      ensures old(index).None? ==> r.Ok?
      ensures r == Ok(false) ==> domain == old(domain) && index == old(index)
      ensures r == Ok(true) ==> index == None
      ensures ordered && r == Ok(true) ==> domain == (if subIsSorted then sub else SortSeq(sub))
      ensures ordered && old(index).None? && Sorted(old(domain)) && (subIsSorted ==> Sorted(sub)) ==>
                (r == Ok(true) <==> IsSubseq(if subIsSorted then sub else SortSeq(sub), old(domain)))
      ensures !ordered && r == Ok(true) ==> domain == sub
      ensures !ordered && old(index).None? ==>
                (r == Ok(true) <==> |sub| < |old(domain)| && forall k :: 0 <= k < |sub| ==> sub[k] in old(domain))
    {
      if index.Some? {
        return Err(DomainAlteration);
      }
      var shortened := false;
      if ordered {
        var candidate := if subIsSorted then sub else SortSeq(sub);
        var included := Includes(domain, candidate);
        if included {
          domain := candidate;
          shortened := true;
        }
      } else {
        if |sub| < |domain| {
          var contained := AllContained(sub, domain);
          if contained {
            domain := sub;
            shortened := true;
          }
        }
      }
      if shortened {
        index := None;
      }
      r := Ok(shortened);
    }

    /** Erases the entry at i; the index must be in range (the C++ erase is unchecked). */
    method RemoveFromDomainByIdx(i: nat) returns (r: Outcome<CspError>)
      requires index.Some? || i < |domain|
      modifies this
      ensures old(index).Some? ==> r == Fail(DomainAlteration) && domain == old(domain) && index == old(index)
      ensures old(index).None? ==> r == Pass && index == None && domain == old(domain)[..i] + old(domain)[i + 1..]
    {
      if index.Some? {
        return Fail(DomainAlteration);
      }
      domain := domain[..i] + domain[i + 1..];
      index := None;
      r := Pass;
    }

    /** Erases the first occurrence of v; v must occur (the C++ erase of the end iterator is undefined). */
    method RemoveFromDomainByValue(v: int) returns (r: Outcome<CspError>)
      requires index.Some? || v in domain
      modifies this
      ensures old(index).Some? ==> r == Fail(DomainAlteration) && domain == old(domain) && index == old(index)
      ensures old(index).None? ==> r == Pass && index == None
      ensures old(index).None? ==>
                (exists k :: 0 <= k < |old(domain)| && old(domain)[k] == v &&
                   v !in old(domain)[..k] && domain == old(domain)[..k] + old(domain)[k + 1..])
    {
      if index.Some? {
        return Fail(DomainAlteration);
      }
      var k := FirstIndexOf(domain, v);
      assert v !in domain[..k];
      domain := domain[..k] + domain[k + 1..];
      index := None;
      r := Pass;
    }
  }

  /**
   * Variables compare by identity: two variables built from the same set
   * hold equal state and are still different variables.
   */
  method TwinVariables(initial: set<int>) returns (a: Variable, b: Variable)
    ensures a.State() == b.State() && a != b
  {
    a := new Variable(initial);
    b := new Variable(initial);
    StrictlySortedUnique(a.domain, b.domain);
  }

  /**
   * The snapshot of every variable of an arena, in arena order; reading
   * it is how solvers observe the shared pool.
   */
  function StatesOf(vs: seq<Variable>): (r: seq<VarState>)
    reads vs
    ensures |r| == |vs|
  {
    if vs == [] then [] else [vs[0].State()] + StatesOf(vs[1..])
  }

  /** The snapshot at position i is the state of the variable at position i. */
  lemma {:induction false} StatesOfAt(vs: seq<Variable>, i: nat)
    requires i < |vs|
    ensures StatesOf(vs)[i] == vs[i].State()
  {
    if i > 0 {
      StatesOfAt(vs[1..], i - 1);
    }
  }

  lemma StatesOfPointwise(vs: seq<Variable>)
    ensures forall i :: 0 <= i < |vs| ==> StatesOf(vs)[i] == vs[i].State()
  {
    forall i | 0 <= i < |vs| ensures StatesOf(vs)[i] == vs[i].State() {
      StatesOfAt(vs, i);
    }
  }
}
