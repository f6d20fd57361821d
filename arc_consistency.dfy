/**
 * Arc consistency 4: support counting over the first two variables of
 * every constraint, then propagation of removed (variable, value) pairs
 * through a first-in first-out queue.
 */
module ArcConsistency {
  import opened Wrappers
  import opened Errors
  import opened Domain
  import opened Variables
  import opened Problem

  /** A variable with one of its values. */
  type Pair = (nat, int)

  /** A variable, one of its values and a neighbour: the key of a support counter. */
  type Triplet = (nat, int, nat)

  /** A counter read through the map's index operator: a missing key reads as zero. */
  function Get(counter: map<Triplet, int>, t: Triplet): int {
    if t in counter then counter[t] else 0
  }

  function SupportersOf(sb: map<Pair, set<Pair>>, q: Pair): set<Pair> {
    if q in sb then sb[q] else {}
  }

  /**
   * Raises the counter of t by k; the key is created only when k > 0, as
   * try_emplace creates it only for a consistent pair.
   */
  function Bump(counter: map<Triplet, int>, t: Triplet, k: nat): (r: map<Triplet, int>)
    ensures forall t' :: Get(r, t') == Get(counter, t') + (if t' == t then k else 0)
  {
    if k == 0 then counter else counter[t := Get(counter, t) + k]
  }

  /** One more increment of a counter already raised k times. */
  lemma BumpStep(counter: map<Triplet, int>, c: map<Triplet, int>, t: Triplet, bs: seq<int>, d: int)
    requires c == Bump(counter, t, |bs|)
    ensures c[t := Get(c, t) + 1] == Bump(counter, t, |bs + [d]|)
  {
  }

  /** Records m as supported by (y, b) for every b of bs, in order. */
  function AddSupporter(sb: map<Pair, set<Pair>>, y: nat, bs: seq<int>, m: Pair): map<Pair, set<Pair>>
    decreases |bs|
  {
    if bs == [] then sb
    else
      var s := AddSupporter(sb, y, bs[..|bs| - 1], m);
      s[(y, bs[|bs| - 1]) := SupportersOf(s, (y, bs[|bs| - 1])) + {m}]
  }

  /** Recording adds m to the supporters of exactly the pairs (y, b) with b in bs. */
  lemma {:induction false} AddSupporterAt(sb: map<Pair, set<Pair>>, y: nat, bs: seq<int>, m: Pair, q: Pair)
    ensures SupportersOf(AddSupporter(sb, y, bs, m), q) == SupportersOf(sb, q) + (if q.0 == y && q.1 in bs then {m} else {})
    decreases |bs|
  {
    if bs != [] {
      var init := bs[..|bs| - 1];
      AddSupporterAt(sb, y, init, m, q);
      assert bs == init + [bs[|bs| - 1]];
      assert q.1 in bs <==> q.1 in init || q.1 == bs[|bs| - 1];
    }
  }

  function ConsumedOf(consumed: map<Triplet, set<Pair>>, t: Triplet): set<Pair> {
    if t in consumed then consumed[t] else {}
  }

  /** The pairs (y, b) for the entries b of bs. */
  function PairsOf(y: nat, bs: seq<int>): (r: set<Pair>)
    ensures forall q :: q in r <==> q.0 == y && q.1 in bs
    ensures |r| <= |bs|
  {
    if bs == [] then {}
    else
      var init := bs[..|bs| - 1];
      assert bs == init + [bs[|bs| - 1]];
      PairsOf(y, init) + {(y, bs[|bs| - 1])}
  }

  /**
   * Whether the constraint is consistent once y temporarily takes the
   * value d (an assigned y keeps its own value).
   */
  predicate ConsistentFor(c: Constraint, V: seq<Option<int>>, y: nat, yAssigned: bool, d: int)
    requires ScopeIn(c.scope, |V|) && y < |V|
  {
    if yAssigned then IsConsistent(c, V) else IsConsistent(c, V[y := Some(d)])
  }

  /** The first n entries of y's domain, in order, for which the constraint is consistent. */
  function SupportValues(c: Constraint, V: seq<Option<int>>, y: nat, yAssigned: bool, dom: seq<int>, n: nat): seq<int>
    requires ScopeIn(c.scope, |V|) && y < |V| && n <= |dom|
  {
    if n == 0 then []
    else SupportValues(c, V, y, yAssigned, dom, n - 1) + (if ConsistentFor(c, V, y, yAssigned, dom[n - 1]) then [dom[n - 1]] else [])
  }

  /** The supporting values are the consistent entries among the first n of the domain. */
  lemma {:induction false} SupportValuesMembers(c: Constraint, V: seq<Option<int>>, y: nat, yAssigned: bool, dom: seq<int>, n: nat)
    requires ScopeIn(c.scope, |V|) && y < |V| && n <= |dom|
    ensures forall d :: d in SupportValues(c, V, y, yAssigned, dom, n) <==> d in dom[..n] && ConsistentFor(c, V, y, yAssigned, d)
  {
    if n > 0 {
      SupportValuesMembers(c, V, y, yAssigned, dom, n - 1);
      assert dom[..n] == dom[..n - 1] + [dom[n - 1]];
    }
  }

  // ---------------------------------------------------------------------
  // Domains: total size (the propagation measure) and shrinking
  // ---------------------------------------------------------------------

  /** The domain without its entry i (removeFromDomainByIdx). */
  function Removed(d: seq<int>, i: nat): seq<int>
    requires i < |d|
  {
    d[..i] + d[i + 1..]
  }

  /** Removing an entry keeps the others and, in a duplicate-free domain, drops exactly that value. */
  lemma RemovedFacts(d: seq<int>, i: nat)
    requires i < |d|
    ensures |Removed(d, i)| + 1 == |d|
    ensures multiset(Removed(d, i)) + multiset{d[i]} == multiset(d)
    ensures forall v :: v in d && v != d[i] ==> v in Removed(d, i)
    ensures Distinct(d) ==> Distinct(Removed(d, i)) && d[i] !in Removed(d, i)
  {
    var r := Removed(d, i);
    assert d == d[..i] + [d[i]] + d[i + 1..];
    forall v | v in d && v != d[i] ensures v in r {
      var k :| 0 <= k < |d| && d[k] == v;
      if k < i { assert r[k] == v; } else { assert k > i && r[k - 1] == v; }
    }
    if Distinct(d) {
      forall a, b | 0 <= a < b < |r| ensures r[a] != r[b] {
        var a', b' := if a < i then a else a + 1, if b < i then b else b + 1;
        assert r[a] == d[a'] && r[b] == d[b'];
      }
      forall k | 0 <= k < |r| ensures r[k] != d[i] {
        var k' := if k < i then k else k + 1;
        assert r[k] == d[k'];
      }
    }
  }

  /** The total number of domain entries. */
  function Size(D: seq<seq<int>>): nat {
    if D == [] then 0 else |D[0]| + Size(D[1..])
  }

  /**
   * The queue q holds n entries beyond one per domain entry removed on the
   * way from S0 to S.
   */
  ghost predicate QueuedRemovals(S0: seq<VarState>, n: nat, S: seq<VarState>, q: seq<Pair>) {
    |q| + Size(DomainsOf(S)) == n + Size(DomainsOf(S0))
  }

  lemma QueuedTrans(S0: seq<VarState>, n: nat, S1: seq<VarState>, q1: seq<Pair>, S2: seq<VarState>, q2: seq<Pair>)
    requires QueuedRemovals(S0, n, S1, q1) && QueuedRemovals(S1, |q1|, S2, q2)
    ensures QueuedRemovals(S0, n, S2, q2)
  {
  }

  /**
   * The domains only shrank on the way from S0 to S, and every entry
   * removed is either still in the queue q or one of the d pairs already
   * taken from it, d of them, beyond the n the queue held at S0.
   */
  ghost predicate Dequeued(S0: seq<VarState>, n: nat, d: nat, S: seq<VarState>, q: seq<Pair>) {
    Tracked(S0, S) && |q| + d + Size(DomainsOf(S)) == n + Size(DomainsOf(S0))
  }

  /** Taking the front of the queue and processing it counts as one more dequeued entry. */
  lemma DequeuedPop(S0: seq<VarState>, n: nat, d: nat, S1: seq<VarState>, q1: seq<Pair>, S2: seq<VarState>, q2: seq<Pair>)
    requires Dequeued(S0, n, d, S1, q1) && q1 != [] && Tracked(S1, S2) && QueuedRemovals(S1, |q1| - 1, S2, q2)
    ensures Dequeued(S0, n, d + 1, S2, q2)
  {
    TrackedTrans(S0, S1, S2);
  }

  lemma {:induction false} SizeUpdate(D: seq<seq<int>>, x: nat, d: seq<int>)
    requires x < |D|
    ensures Size(D[x := d]) + |D[x]| == Size(D) + |d|
  {
    if x > 0 {
      assert D[x := d][1..] == D[1..][x - 1 := d];
      SizeUpdate(D[1..], x - 1, d);
    } else {
      assert D[x := d][1..] == D[1..];
    }
  }

  /** Every domain of D is a sub-multiset of the matching domain of D0. */
  ghost predicate Shrunk(D0: seq<seq<int>>, D: seq<seq<int>>) {
    |D0| == |D| && forall v :: 0 <= v < |D| ==> multiset(D[v]) <= multiset(D0[v])
  }

  lemma ShrunkRemove(D0: seq<seq<int>>, D: seq<seq<int>>, x: nat, i: nat)
    requires Shrunk(D0, D) && x < |D| && i < |D[x]|
    ensures Shrunk(D0, D[x := Removed(D[x], i)])
  {
    RemovedFacts(D[x], i);
  }

  // ---------------------------------------------------------------------
  // Soundness bookkeeping for a complete assignment sigma
  // ---------------------------------------------------------------------

  /** All-unassigned values with x and y set to a and b. */
  function PairValues(n: nat, x: nat, a: int, y: nat, b: int): seq<Option<int>>
    requires x < n && y < n
  {
    seq(n, _ => None)[x := Some(a)][y := Some(b)]
  }

  /** The constraint accepts sigma's values on its first two variables, the others unassigned. */
  predicate PairConsistent(c: Constraint, sigma: seq<int>)
    requires |c.scope| >= 2 && ScopeIn(c.scope, |sigma|)
  {
    IsConsistent(c, PairValues(|sigma|, c.scope[0], sigma[c.scope[0]], c.scope[1], sigma[c.scope[1]]))
  }

  /**
   * The premises of soundness: every variable is unassigned with a
   * duplicate-free domain holding sigma's value, and every constraint of
   * two or more variables accepts sigma on its first two.
   */
  ghost predicate Premises(sigma: seq<int>, cs: seq<Constraint>, S: seq<VarState>)
    requires ConstraintsValid(cs, |S|)
  {
    |sigma| == |S| && IsCompletelyUnassigned(S) && Keeps(sigma, S) &&
    forall k :: 0 <= k < |cs| && |cs[k].scope| >= 2 ==> PairConsistent(cs[k], sigma)
  }

  /**
   * Every domain holds sigma's value and has no duplicates. Soundness needs
   * both: with a repeated entry, the removal of one copy and the ++i step
   * of the initialisation can queue the same pair twice, and each pop then
   * takes one more from the counters it supports.
   */
  ghost predicate Keeps(sigma: seq<int>, S: seq<VarState>) {
    |sigma| == |S| && forall v :: 0 <= v < |S| ==> sigma[v] in S[v].domain && Distinct(S[v].domain)
  }

  /** sigma as a complete assignment. */
  function Full(sigma: seq<int>): (r: seq<Option<int>>)
    ensures |r| == |sigma| && forall i :: 0 <= i < |sigma| ==> r[i] == Some(sigma[i])
  {
    seq(|sigma|, i requires 0 <= i < |sigma| => Some(sigma[i]))
  }

  /**
   * Where every constraint is at most binary, a solution (every
   * constraint satisfied by sigma) meets the premise of soundness.
   */
  lemma BinarySolutionPairwiseConsistent(sigma: seq<int>, cs: seq<Constraint>)
    requires ConstraintsValid(cs, |sigma|)
    requires forall k :: 0 <= k < |cs| ==> |cs[k].scope| <= 2 && IsSatisfied(cs[k], Full(sigma))
    ensures forall k :: 0 <= k < |cs| && |cs[k].scope| >= 2 ==> PairConsistent(cs[k], sigma)
  {
    forall k | 0 <= k < |cs| && |cs[k].scope| >= 2 ensures PairConsistent(cs[k], sigma) {
      var c := cs[k];
      var x, y := c.scope[0], c.scope[1];
      var V := PairValues(|sigma|, x, sigma[x], y, sigma[y]);
      assert x != y;
      forall j | 0 <= j < |c.scope| ensures V[c.scope[j]] == Full(sigma)[c.scope[j]] {
        assert j == 0 || j == 1;
      }
      ConsistencyFrame(c, V, Full(sigma));
    }
  }

  /**
   * The support log: for each triplet (x, a, y), the pairs (y, b) that
   * were recorded as supporting (x, a). A ghost companion of the
   * supported-by map, indexed the other way round.
   */
  function LogOf(log: map<Triplet, set<Pair>>, t: Triplet): set<Pair> {
    if t in log then log[t] else {}
  }

  /** Every supporter recorded in the map is in the log. */
  ghost predicate Linked(sb: map<Pair, set<Pair>>, log: map<Triplet, set<Pair>>) {
    forall q, m :: m in SupportersOf(sb, q) ==> q in LogOf(log, (m.0, m.1, q.0))
  }

  /** The counter of (x, sigma[x], y) is at least the number of its logged supports not yet consumed. */
  ghost predicate CountsAt(sigma: seq<int>, counter: map<Triplet, int>, log: map<Triplet, set<Pair>>,
                           consumed: map<Triplet, set<Pair>>, x: nat, y: nat)
    requires x < |sigma|
  {
    Get(counter, (x, sigma[x], y)) >= |LogOf(log, (x, sigma[x], y)) - ConsumedOf(consumed, (x, sigma[x], y))|
  }

  ghost predicate Counts(sigma: seq<int>, counter: map<Triplet, int>, log: map<Triplet, set<Pair>>, consumed: map<Triplet, set<Pair>>) {
    forall x: nat, y: nat :: x < |sigma| && y < |sigma| ==> CountsAt(sigma, counter, log, consumed, x, y)
  }

  /** A value of sigma supported by anything towards y is supported by sigma's value of y. */
  ghost predicate ClosedAt(sigma: seq<int>, log: map<Triplet, set<Pair>>, x: nat, y: nat)
    requires x < |sigma| && y < |sigma|
  {
    LogOf(log, (x, sigma[x], y)) != {} ==> (y, sigma[y]) in LogOf(log, (x, sigma[x], y))
  }

  ghost predicate Closed(sigma: seq<int>, log: map<Triplet, set<Pair>>) {
    forall x: nat, y: nat :: x < |sigma| && y < |sigma| ==> ClosedAt(sigma, log, x, y)
  }

  /** Queued pairs are distinct, name arena variables and have left their domains. */
  ghost predicate QueueOut(S: seq<VarState>, queue: seq<Pair>) {
    Distinct(queue) && forall k :: 0 <= k < |queue| ==> queue[k].0 < |S| && queue[k].1 !in S[queue[k].0].domain
  }

  /** Consumed supports have left their domains and are no longer queued. */
  ghost predicate ConsumedOut(S: seq<VarState>, consumed: map<Triplet, set<Pair>>, queue: seq<Pair>) {
    forall t, q :: t in consumed && q in consumed[t] ==> q.0 < |S| && q.1 !in S[q.0].domain && q !in queue
  }

  lemma CardUnionMinus(A: set<Pair>, B: set<Pair>, C: set<Pair>)
    ensures |(A + B) - C| <= |A - C| + |B|
  {
    var X := (A + B) - C;
    assert X <= (A - C) + B;
    SubsetCard(X, (A - C) + B);
  }

  lemma {:induction false} SubsetCard(X: set<Pair>, Y: set<Pair>)
    requires X <= Y
    ensures |X| <= |Y|
    decreases |Y|
  {
    if X != {} {
      var e :| e in X;
      SubsetCard(X - {e}, Y - {e});
    }
  }

  /** Logging the supports bs of (x, a) towards y. */
  function AddLog(log: map<Triplet, set<Pair>>, x: nat, a: int, y: nat, bs: seq<int>): map<Triplet, set<Pair>> {
    log[(x, a, y) := LogOf(log, (x, a, y)) + PairsOf(y, bs)]
  }

  /** Recording the same supports in the map and in the log keeps them linked. */
  lemma AddSupporterLinked(sb: map<Pair, set<Pair>>, log: map<Triplet, set<Pair>>, x: nat, a: int, y: nat, bs: seq<int>)
    requires Linked(sb, log)
    ensures Linked(AddSupporter(sb, y, bs, (x, a)), AddLog(log, x, a, y, bs))
  {
    var sb', log' := AddSupporter(sb, y, bs, (x, a)), AddLog(log, x, a, y, bs);
    forall q, m | m in SupportersOf(sb', q) ensures q in LogOf(log', (m.0, m.1, q.0)) {
      AddSupporterAt(sb, y, bs, (x, a), q);
      if m !in SupportersOf(sb, q) {
        assert m == (x, a) && q.0 == y && q.1 in bs;
      }
    }
  }

  /**
   * Counting the supports bs of (x, a) towards y, with sigma's value of y
   * among them whenever a is sigma's value of x, keeps the counters and
   * the log in step with sigma.
   */
  lemma CountStepKeeps(sigma: seq<int>, counter: map<Triplet, int>, log: map<Triplet, set<Pair>>,
                       consumed: map<Triplet, set<Pair>>, x: nat, a: int, y: nat, bs: seq<int>)
    requires Counts(sigma, counter, log, consumed) && Closed(sigma, log)
    requires x < |sigma| && y < |sigma|
    requires a == sigma[x] ==> sigma[y] in bs
    ensures Counts(sigma, Bump(counter, (x, a, y), |bs|), AddLog(log, x, a, y, bs), consumed)
    ensures Closed(sigma, AddLog(log, x, a, y, bs))
  {
    var c', log' := Bump(counter, (x, a, y), |bs|), AddLog(log, x, a, y, bs);
    forall x': nat, y': nat | x' < |sigma| && y' < |sigma|
      ensures CountsAt(sigma, c', log', consumed, x', y') && ClosedAt(sigma, log', x', y')
    {
      assert CountsAt(sigma, counter, log, consumed, x', y') && ClosedAt(sigma, log, x', y');
      CountStepAt(counter, log, ConsumedOf(consumed, (x', sigma[x'], y')), x, a, y, bs, (x', sigma[x'], y'), (y', sigma[y']));
    }
  }

  /** CountStepKeeps for one triplet t, whose sigma-support is s. */
  lemma CountStepAt(counter: map<Triplet, int>, log: map<Triplet, set<Pair>>, used: set<Pair>,
                    x: nat, a: int, y: nat, bs: seq<int>, t: Triplet, s: Pair)
    requires Get(counter, t) >= |LogOf(log, t) - used|
    requires LogOf(log, t) != {} ==> s in LogOf(log, t)
    requires t == (x, a, y) ==> s.0 == y && s.1 in bs
    ensures Get(Bump(counter, (x, a, y), |bs|), t) >= |LogOf(AddLog(log, x, a, y, bs), t) - used|
    ensures LogOf(AddLog(log, x, a, y, bs), t) != {} ==> s in LogOf(AddLog(log, x, a, y, bs), t)
  {
    if t == (x, a, y) {
      CardUnionMinus(LogOf(log, t), PairsOf(y, bs), used);
    }
  }

  /**
   * Removing a value other than sigma's from x's domain and queueing it
   * keeps sigma's values, the queue and the consumed supports in order.
   */
  lemma RemoveStepKeeps(sigma: seq<int>, S: seq<VarState>, consumed: map<Triplet, set<Pair>>, queue: seq<Pair>,
                        x: nat, i: nat, st: VarState)
    requires Keeps(sigma, S) && QueueOut(S, queue) && ConsumedOut(S, consumed, queue)
    requires x < |S| && i < |S[x].domain| && S[x].domain[i] != sigma[x]
    requires st.domain == Removed(S[x].domain, i)
    ensures Keeps(sigma, S[x := st])
    ensures QueueOut(S[x := st], queue + [(x, S[x].domain[i])])
    ensures ConsumedOut(S[x := st], consumed, queue + [(x, S[x].domain[i])])
    ensures forall v, d :: 0 <= v < |S| && d !in S[v].domain ==> d !in S[x := st][v].domain
  {
    var d := S[x].domain;
    RemovedFacts(d, i);
    var q := queue + [(x, d[i])];
    assert (x, d[i]) !in queue;
    assert Distinct(q) by {
      forall a, b | 0 <= a < b < |q| ensures q[a] != q[b] {
        if b == |queue| { assert q[a] == queue[a]; }
      }
    }
  }

  /** With every variable unassigned, a constraint over x and y accepts sigma's pair exactly when sigma supports it. */
  lemma PairSupport(sigma: seq<int>, c: Constraint, S: seq<VarState>, x: nat, y: nat)
    requires ScopeIn(c.scope, |S|) && |c.scope| >= 2 && Keeps(sigma, S) && IsCompletelyUnassigned(S)
    requires PairConsistent(c, sigma)
    requires x < |S| && y < |S| && x != y
    requires (x == c.scope[0] && y == c.scope[1]) || (x == c.scope[1] && y == c.scope[0])
    ensures sigma[y] in SupportValues(c, Values(S)[x := Some(sigma[x])], y, false, S[y].domain, |S[y].domain|)
  {
    var V := Values(S)[x := Some(sigma[x])];
    SupportValuesMembers(c, V, y, false, S[y].domain, |S[y].domain|);
    assert S[y].domain[..|S[y].domain|] == S[y].domain;
    assert V[y := Some(sigma[y])] == PairValues(|sigma|, c.scope[0], sigma[c.scope[0]], c.scope[1], sigma[c.scope[1]]);
  }

  lemma DecrementAt(counter: map<Triplet, int>, log: map<Triplet, set<Pair>>, used: set<Pair>,
                    t: Triplet, cur: Pair, s: Pair)
    requires Get(counter, t) >= |LogOf(log, t) - used|
    requires cur in LogOf(log, t) && cur !in used
    requires s in LogOf(log, t) && s !in used && s != cur
    ensures Get(counter[t := Get(counter, t) - 1], t) >= 1
    ensures Get(counter[t := Get(counter, t) - 1], t) >= |LogOf(log, t) - (used + {cur})|
  {
    var L := LogOf(log, t) - used;
    SubsetCard({cur, s}, L);
    assert LogOf(log, t) - (used + {cur}) == L - {cur};
  }

  /**
   * Consuming the support cur of m = (x, a) towards y (a still in x's
   * domain, cur already out of y's) keeps every counter of sigma at or
   * above its unconsumed supports.
   */
  lemma DecrementCounts(sigma: seq<int>, S: seq<VarState>, counter: map<Triplet, int>, log: map<Triplet, set<Pair>>,
                        consumed: map<Triplet, set<Pair>>, cur: Pair, m: Pair)
    requires Counts(sigma, counter, log, consumed) && Closed(sigma, log)
    requires |sigma| == |S| && cur.0 < |S| && sigma[cur.0] in S[cur.0].domain && cur.1 !in S[cur.0].domain
    requires (cur.0, sigma[cur.0]) !in ConsumedOf(consumed, (m.0, m.1, cur.0))
    requires cur in LogOf(log, (m.0, m.1, cur.0)) && cur !in ConsumedOf(consumed, (m.0, m.1, cur.0))
    ensures Counts(sigma, counter[(m.0, m.1, cur.0) := Get(counter, (m.0, m.1, cur.0)) - 1], log,
                   consumed[(m.0, m.1, cur.0) := ConsumedOf(consumed, (m.0, m.1, cur.0)) + {cur}])
  {
    var t := (m.0, m.1, cur.0);
    var counter' := counter[t := Get(counter, t) - 1];
    var consumed' := consumed[t := ConsumedOf(consumed, t) + {cur}];
    forall x: nat, y: nat | x < |sigma| && y < |sigma| ensures CountsAt(sigma, counter', log, consumed', x, y) {
      if (x, sigma[x], y) == t {
        assert CountsAt(sigma, counter, log, consumed, x, y) && ClosedAt(sigma, log, x, y);
        DecrementAt(counter, log, ConsumedOf(consumed, t), t, cur, (cur.0, sigma[cur.0]));
      } else {
        DecrementElsewhere(sigma, counter, log, consumed, t, cur, x, y);
      }
    }
  }

  /** The counter of sigma's own value never drops to zero on consuming another support. */
  lemma DecrementPositive(sigma: seq<int>, S: seq<VarState>, counter: map<Triplet, int>, log: map<Triplet, set<Pair>>,
                          consumed: map<Triplet, set<Pair>>, cur: Pair, m: Pair)
    requires Counts(sigma, counter, log, consumed) && Closed(sigma, log)
    requires |sigma| == |S| && cur.0 < |S| && sigma[cur.0] in S[cur.0].domain && cur.1 !in S[cur.0].domain
    requires m.0 < |S| && m.1 == sigma[m.0]
    requires (cur.0, sigma[cur.0]) !in ConsumedOf(consumed, (m.0, m.1, cur.0))
    requires cur in LogOf(log, (m.0, m.1, cur.0)) && cur !in ConsumedOf(consumed, (m.0, m.1, cur.0))
    ensures Get(counter, (m.0, m.1, cur.0)) - 1 >= 1
  {
    var t := (m.0, m.1, cur.0);
    assert CountsAt(sigma, counter, log, consumed, m.0, cur.0) && ClosedAt(sigma, log, m.0, cur.0);
    DecrementAt(counter, log, ConsumedOf(consumed, t), t, cur, (cur.0, sigma[cur.0]));
  }

  /** Consuming a support that has left its domain and is not queued keeps the consumed supports out. */
  lemma ConsumeKeepsOut(S: seq<VarState>, consumed: map<Triplet, set<Pair>>, queue: seq<Pair>, t: Triplet, cur: Pair)
    requires ConsumedOut(S, consumed, queue)
    requires cur.0 < |S| && cur.1 !in S[cur.0].domain && cur !in queue
    ensures ConsumedOut(S, consumed[t := ConsumedOf(consumed, t) + {cur}], queue)
  {
  }

  /** A value still in its domain has none of its supports consumed. */
  lemma InDomainNotConsumed(S: seq<VarState>, consumed: map<Triplet, set<Pair>>, queue: seq<Pair>, t: Triplet, q: Pair)
    requires ConsumedOut(S, consumed, queue)
    requires q.0 < |S| && q.1 in S[q.0].domain
    ensures q !in ConsumedOf(consumed, t)
  {
  }

  lemma DecrementElsewhere(sigma: seq<int>, counter: map<Triplet, int>, log: map<Triplet, set<Pair>>,
                           consumed: map<Triplet, set<Pair>>, t: Triplet, cur: Pair, x: nat, y: nat)
    requires x < |sigma| && (x, sigma[x], y) != t
    requires CountsAt(sigma, counter, log, consumed, x, y)
    ensures CountsAt(sigma, counter[t := Get(counter, t) - 1], log, consumed[t := ConsumedOf(consumed, t) + {cur}], x, y)
  {
  }

  /** Every supporter recorded in the map names an arena variable. */
  ghost predicate SupportersIn(sb: map<Pair, set<Pair>>, n: nat) {
    forall q, m :: m in SupportersOf(sb, q) ==> m.0 < n
  }

  lemma AddSupporterIn(sb: map<Pair, set<Pair>>, n: nat, y: nat, bs: seq<int>, m: Pair)
    requires SupportersIn(sb, n) && m.0 < n
    ensures SupportersIn(AddSupporter(sb, y, bs, m), n)
  {
    forall q, m' | m' in SupportersOf(AddSupporter(sb, y, bs, m), q) ensures m'.0 < n {
      AddSupporterAt(sb, y, bs, m, q);
    }
  }

  lemma AddSupporterSnoc(sb: map<Pair, set<Pair>>, s: map<Pair, set<Pair>>, y: nat, bs: seq<int>, d: int, m: Pair)
    requires s == AddSupporter(sb, y, bs, m)
    ensures s[(y, d) := SupportersOf(s, (y, d)) + {m}] == AddSupporter(sb, y, bs + [d], m)
  {
    assert (bs + [d])[..|bs|] == bs;
  }

  lemma SupportValuesSnoc(c: Constraint, V: seq<Option<int>>, y: nat, yAssigned: bool, dom: seq<int>, j: nat)
    requires ScopeIn(c.scope, |V|) && y < |V| && j < |dom|
    ensures ConsistentFor(c, V, y, yAssigned, dom[j]) ==>
              SupportValues(c, V, y, yAssigned, dom, j + 1) == SupportValues(c, V, y, yAssigned, dom, j) + [dom[j]]
    ensures !ConsistentFor(c, V, y, yAssigned, dom[j]) ==>
              SupportValues(c, V, y, yAssigned, dom, j + 1) == SupportValues(c, V, y, yAssigned, dom, j)
  {
    assert SupportValues(c, V, y, yAssigned, dom, j) + [] == SupportValues(c, V, y, yAssigned, dom, j);
  }

  // ---------------------------------------------------------------------
  // Initialisation (__initialize_ac4)
  // ---------------------------------------------------------------------

  /**
   * Whether the constraint is consistent while y holds entry j of its
   * domain: an unassigned y is assigned for the test and unassigned
   * afterwards, an assigned y keeps its value.
   */
  method ConsistentAt(p: Problem, c: Constraint, y: nat, yWasAssigned: bool, j: nat) returns (consistent: bool)
    requires p.Valid() && ScopeIn(c.scope, |p.vars|) && y < |p.vars| && AllWellFormed(StatesOf(p.vars))
    requires yWasAssigned == StatesOf(p.vars)[y].index.Some? && j < |StatesOf(p.vars)[y].domain|
    modifies p.vars[y]
    ensures StatesOf(p.vars) == old(StatesOf(p.vars))
    ensures consistent == ConsistentFor(c, Values(old(StatesOf(p.vars))), y, yWasAssigned, old(StatesOf(p.vars))[y].domain[j])
  {
    ghost var S := StatesOf(p.vars);
    if !yWasAssigned {
      AssignInArena(p, y, j);
    }
    consistent := IsConsistent(c, Values(StatesOf(p.vars)));
    if !yWasAssigned {
      UnassignInArena(p, y);
      assert StatesOf(p.vars) == S;
    }
  }

  /**
   * The effect of one entry d of y: when the constraint is consistent with
   * y holding d, the counter of t goes up by one and (t.0, t.1) is recorded
   * as supported by (y, d); otherwise nothing changes.
   */
  ghost predicate CountedOne(c: Constraint, V: seq<Option<int>>, y: nat, yAssigned: bool, d: int, t: Triplet,
                             counter: map<Triplet, int>, sb: map<Pair, set<Pair>>,
                             counter': map<Triplet, int>, sb': map<Pair, set<Pair>>)
    requires ScopeIn(c.scope, |V|) && y < |V|
  {
    if ConsistentFor(c, V, y, yAssigned, d)
    then counter' == counter[t := Get(counter, t) + 1] && sb' == sb[(y, d) := SupportersOf(sb, (y, d)) + {(t.0, t.1)}]
    else counter' == counter && sb' == sb
  }

  /**
   * One step of the inner loop of the initialisation: y takes entry j of
   * its domain and, when the constraint is then consistent, the counter of
   * (x, a, y) goes up and (x, a) is recorded as supported by (y, entry).
   */
  method CountOne(p: Problem, c: Constraint, x: nat, a: int, y: nat, yWasAssigned: bool, j: nat,
                  counter: map<Triplet, int>, sb: map<Pair, set<Pair>>)
    returns (counter': map<Triplet, int>, sb': map<Pair, set<Pair>>)
    requires p.Valid() && ScopeIn(c.scope, |p.vars|) && y < |p.vars| && AllWellFormed(StatesOf(p.vars))
    requires yWasAssigned == StatesOf(p.vars)[y].index.Some? && j < |StatesOf(p.vars)[y].domain|
    modifies p.vars[y]
    ensures StatesOf(p.vars) == old(StatesOf(p.vars))
    ensures var S := old(StatesOf(p.vars));
            CountedOne(c, Values(S), y, yWasAssigned, S[y].domain[j], (x, a, y), counter, sb, counter', sb')
  {
    ghost var S := StatesOf(p.vars);
    StatesOfAt(p.vars, y);
    var consistent := ConsistentAt(p, c, y, yWasAssigned, j);
    StatesOfAt(p.vars, y);
    counter', sb' := counter, sb;
    if consistent {
      counter' := counter'[(x, a, y) := Get(counter', (x, a, y)) + 1];
      var secondPair := (y, p.vars[y].domain[j]);
      sb' := sb'[secondPair := SupportersOf(sb', secondPair) + {(x, a)}];
    }
  }

  /**
   * After the first j entries of y's domain: bs holds the entries among
   * them that support (x, a), the counter of (x, a, y) went up once per
   * entry of bs, and (x, a) is recorded as supported by each of them.
   */
  ghost predicate CountedSoFar(c: Constraint, V: seq<Option<int>>, y: nat, yAssigned: bool, dom: seq<int>, j: nat,
                               t: Triplet, counter: map<Triplet, int>, sb: map<Pair, set<Pair>>,
                               bs: seq<int>, counter': map<Triplet, int>, sb': map<Pair, set<Pair>>)
    requires ScopeIn(c.scope, |V|) && y < |V|
  {
    j <= |dom| && bs == SupportValues(c, V, y, yAssigned, dom, j) &&
    counter' == Bump(counter, t, |bs|) && sb' == AddSupporter(sb, y, bs, (t.0, t.1))
  }

  lemma CountedStep(c: Constraint, V: seq<Option<int>>, y: nat, yAssigned: bool, dom: seq<int>, j: nat,
                    t: Triplet, counter: map<Triplet, int>, sb: map<Pair, set<Pair>>,
                    bs: seq<int>, counter': map<Triplet, int>, sb': map<Pair, set<Pair>>,
                    counter'': map<Triplet, int>, sb'': map<Pair, set<Pair>>)
    requires ScopeIn(c.scope, |V|) && y < |V| && j < |dom| && t.2 == y
    requires CountedSoFar(c, V, y, yAssigned, dom, j, t, counter, sb, bs, counter', sb')
    requires CountedOne(c, V, y, yAssigned, dom[j], t, counter', sb', counter'', sb'')
    ensures CountedSoFar(c, V, y, yAssigned, dom, j + 1, t, counter, sb,
                         if ConsistentFor(c, V, y, yAssigned, dom[j]) then bs + [dom[j]] else bs, counter'', sb'')
  {
    SupportValuesSnoc(c, V, y, yAssigned, dom, j);
    BumpStep(counter, counter', t, bs, dom[j]);
    AddSupporterSnoc(sb, sb', y, bs, dom[j], (t.0, t.1));
  }

  /**
   * The inner loop of the initialisation: y takes each entry of its
   * domain in turn and, whenever the constraint is consistent, the counter
   * of (x, a, y) goes up and (x, a) is recorded as supported by
   * (y, entry).
   */
  method CountSupports(p: Problem, c: Constraint, x: nat, a: int, y: nat,
                       counter: map<Triplet, int>, sb: map<Pair, set<Pair>>)
    returns (counter': map<Triplet, int>, sb': map<Pair, set<Pair>>)
    requires p.Valid() && ScopeIn(c.scope, |p.vars|) && y < |p.vars| && AllWellFormed(StatesOf(p.vars))
    modifies p.vars[y]
    ensures StatesOf(p.vars) == old(StatesOf(p.vars))
    ensures var S := old(StatesOf(p.vars));
            var bs := SupportValues(c, Values(S), y, S[y].index.Some?, S[y].domain, |S[y].domain|);
            counter' == Bump(counter, (x, a, y), |bs|) && sb' == AddSupporter(sb, y, bs, (x, a))
  {
    ghost var S := StatesOf(p.vars);
    ghost var V := Values(S);
    StatesOfAt(p.vars, y);
    var yWasAssigned := p.vars[y].IsAssigned();
    ghost var dom := p.vars[y].domain;
    ghost var bs: seq<int> := [];
    counter', sb' := counter, sb;
    var j := 0;
    while j < |p.vars[y].domain|
      invariant StatesOf(p.vars) == S && p.vars[y].domain == dom
      invariant CountedSoFar(c, V, y, yWasAssigned, dom, j, (x, a, y), counter, sb, bs, counter', sb')
      decreases |dom| - j
    {
      ghost var counter0, sb0 := counter', sb';
      counter', sb' := CountOne(p, c, x, a, y, yWasAssigned, j, counter', sb');
      assert S[y].domain[j] == dom[j];
      CountedStep(c, V, y, yWasAssigned, dom, j, (x, a, y), counter, sb, bs, counter0, sb0, counter', sb');
      StatesOfAt(p.vars, y);
      if ConsistentFor(c, V, y, yWasAssigned, dom[j]) {
        bs := bs + [dom[j]];
      }
      j := j + 1;
    }
  }

  /** The values the constraint sees while x holds entry i of its domain. */
  function ProbeValues(S: seq<VarState>, x: nat, i: nat, xWasAssigned: bool): seq<Option<int>>
    requires x < |S| && i < |S[x].domain|
  {
    if xWasAssigned then Values(S) else Values(S)[x := Some(S[x].domain[i])]
  }

  /** The supports of entry i of x towards y: the entries of y's domain the constraint accepts while x holds entry i. */
  function Supports(c: Constraint, S: seq<VarState>, x: nat, i: nat, xWasAssigned: bool, y: nat): seq<int>
    requires ScopeIn(c.scope, |S|) && x < |S| && y < |S| && i < |S[x].domain|
  {
    SupportValues(c, ProbeValues(S, x, i, xWasAssigned), y, S[y].index.Some?, S[y].domain, |S[y].domain|)
  }

  /**
   * Lines 72-108 of the initialisation for one entry i of x: x takes
   * entry a (unless it was assigned already), the supports of (x, a)
   * towards y are counted and recorded, and x is released again.
   */
  method Probe(p: Problem, c: Constraint, x: nat, i: nat, y: nat, xWasAssigned: bool,
               counter: map<Triplet, int>, sb: map<Pair, set<Pair>>)
    returns (a: int, counter': map<Triplet, int>, sb': map<Pair, set<Pair>>)
    requires p.Valid() && ScopeIn(c.scope, |p.vars|) && x < |p.vars| && y < |p.vars| && x != y
    requires AllWellFormed(StatesOf(p.vars))
    requires xWasAssigned == StatesOf(p.vars)[x].index.Some? && i < |StatesOf(p.vars)[x].domain|
    modifies p.vars[x], p.vars[y]
    ensures StatesOf(p.vars) == old(StatesOf(p.vars))
    ensures a == old(StatesOf(p.vars))[x].domain[i]
    ensures var bs := Supports(c, old(StatesOf(p.vars)), x, i, xWasAssigned, y);
            counter' == Bump(counter, (x, a, y), |bs|) && sb' == AddSupporter(sb, y, bs, (x, a))
  {
    ghost var S := StatesOf(p.vars);
    if !xWasAssigned {
      AssignInArena(p, x, i);
    }
    ghost var S1 := StatesOf(p.vars);
    StatesOfAt(p.vars, x);
    a := p.vars[x].domain[i];
    assert Values(S1) == ProbeValues(S, x, i, xWasAssigned);
    assert S1[y] == S[y];
    counter', sb' := CountSupports(p, c, x, a, y, counter, sb);
    if !xWasAssigned {
      UnassignInArena(p, x);
      RestoreState(S, x, VarState(S[x].domain, Some(i)));
    }
  }

  /**
   * Lines 72-113 for one entry i of x: the probe, then removal of the
   * entry and its queueing when no support towards y was ever counted for
   * it. Removing from an assigned x is the domain-alteration error.
   */
  method InitStep(p: Problem, c: Constraint, x: nat, i: nat, y: nat, xWasAssigned: bool,
                  counter: map<Triplet, int>, sb: map<Pair, set<Pair>>, queue: seq<Pair>,
                  ghost log: map<Triplet, set<Pair>>)
    returns (counter': map<Triplet, int>, sb': map<Pair, set<Pair>>, queue': seq<Pair>,
             ghost log': map<Triplet, set<Pair>>, removed: bool, r: Outcome<CspError>)
    requires p.Valid() && ScopeIn(c.scope, |p.vars|) && x < |p.vars| && y < |p.vars| && x != y
    requires AllWellFormed(StatesOf(p.vars))
    requires xWasAssigned == StatesOf(p.vars)[x].index.Some? && i < |StatesOf(p.vars)[x].domain|
    modifies p.vars[x], p.vars[y]
    ensures var S := old(StatesOf(p.vars));
            var a := S[x].domain[i];
            var bs := Supports(c, S, x, i, xWasAssigned, y);
            counter' == Bump(counter, (x, a, y), |bs|) && sb' == AddSupporter(sb, y, bs, (x, a)) &&
            log' == AddLog(log, x, a, y, bs) && removed == (Get(counter', (x, a, y)) == 0)
    ensures var S := old(StatesOf(p.vars));
            if removed && !xWasAssigned
            then StatesOf(p.vars) == S[x := VarState(Removed(S[x].domain, i), None)] && queue' == queue + [(x, S[x].domain[i])]
            else StatesOf(p.vars) == S && queue' == queue
    ensures r == if removed && xWasAssigned then Fail(DomainAlteration) else Pass
  {
    ghost var S := StatesOf(p.vars);
    var a;
    a, counter', sb' := Probe(p, c, x, i, y, xWasAssigned, counter, sb);
    log' := AddLog(log, x, a, y, Supports(c, S, x, i, xWasAssigned, y));
    queue' := queue;
    r := Pass;
    removed := Get(counter', (x, a, y)) == 0;
    if removed {
      r := RemoveInArena(p, x, i);
      if r.Pass? {
        queue' := queue + [(x, a)];
      }
    }
  }

  /**
   * What the whole algorithm preserves for a complete assignment sigma:
   * sigma's values stay in their domains, every counter of sigma covers its
   * unconsumed logged supports, the support map and the log agree, and the
   * queue and the consumed supports hold only removed values.
   */
  ghost predicate Sound(sigma: seq<int>, S: seq<VarState>, counter: map<Triplet, int>, sb: map<Pair, set<Pair>>,
                        log: map<Triplet, set<Pair>>, consumed: map<Triplet, set<Pair>>, queue: seq<Pair>) {
    Keeps(sigma, S) && Counts(sigma, counter, log, consumed) && Closed(sigma, log) && Linked(sb, log) &&
    QueueOut(S, queue) && ConsumedOut(S, consumed, queue)
  }

  /** With nothing counted, logged or queued, soundness is sigma's values being in their domains. */
  lemma SoundInitially(sigma: seq<int>, S: seq<VarState>)
    requires Keeps(sigma, S)
    ensures Sound(sigma, S, map[], map[], map[], map[], [])
  {
    forall x: nat, y: nat | x < |sigma| && y < |sigma| ensures CountsAt(sigma, map[], map[], map[], x, y) {
      assert LogOf(map[], (x, sigma[x], y)) == {};
    }
  }

  /**
   * The arena keeps its length, its well-formedness and every variable's
   * assignment, and every domain only loses entries.
   */
  ghost predicate Tracked(S0: seq<VarState>, S: seq<VarState>) {
    |S| == |S0| && AllWellFormed(S) && IndexesOf(S) == IndexesOf(S0) && Shrunk(DomainsOf(S0), DomainsOf(S))
  }

  lemma TrackedRefl(S: seq<VarState>)
    requires AllWellFormed(S)
    ensures Tracked(S, S)
  {
  }

  /** Removing an entry of an unassigned variable keeps the arena tracked and shrinks the total size by one. */
  lemma TrackedRemove(S0: seq<VarState>, S: seq<VarState>, x: nat, i: nat)
    requires Tracked(S0, S) && x < |S| && i < |S[x].domain| && S[x].index.None?
    ensures Tracked(S0, S[x := VarState(Removed(S[x].domain, i), None)])
    ensures Size(DomainsOf(S[x := VarState(Removed(S[x].domain, i), None)])) + 1 == Size(DomainsOf(S))
  {
    var st := VarState(Removed(S[x].domain, i), None);
    DomainsOfSet(S, x, st);
    DomainsOfAt(S, x);
    ShrunkRemove(DomainsOf(S0), DomainsOf(S), x, i);
    IndexesOfUpdate(S, x, st);
    RemovedFacts(S[x].domain, i);
    SizeUpdate(DomainsOf(S), x, st.domain);
  }

  /** The supports of sigma's own value of x towards y include sigma's value of y. */
  lemma SigmaSupported(sigma: seq<int>, c: Constraint, S: seq<VarState>, x: nat, i: nat, y: nat)
    requires ScopeIn(c.scope, |S|) && |c.scope| >= 2 && Keeps(sigma, S) && IsCompletelyUnassigned(S)
    requires PairConsistent(c, sigma)
    requires x < |S| && y < |S| && x != y && i < |S[x].domain| && S[x].domain[i] == sigma[x]
    requires (x == c.scope[0] && y == c.scope[1]) || (x == c.scope[1] && y == c.scope[0])
    ensures sigma[y] in Supports(c, S, x, i, false, y)
  {
    PairSupport(sigma, c, S, x, y);
  }

  /**
   * One initialisation step keeps sigma sound: sigma's value of x is
   * supported towards y, so its counter stays positive, and any value
   * removed for lack of support is not sigma's.
   */
  lemma InitStepSound(sigma: seq<int>, c: Constraint, S: seq<VarState>, x: nat, i: nat, y: nat,
                      counter: map<Triplet, int>, sb: map<Pair, set<Pair>>, log: map<Triplet, set<Pair>>, queue: seq<Pair>)
    requires Sound(sigma, S, counter, sb, log, map[], queue) && IsCompletelyUnassigned(S)
    requires ScopeIn(c.scope, |S|) && |c.scope| >= 2 && PairConsistent(c, sigma)
    requires x < |S| && y < |S| && x != y && i < |S[x].domain|
    requires (x == c.scope[0] && y == c.scope[1]) || (x == c.scope[1] && y == c.scope[0])
    ensures var a := S[x].domain[i];
            var bs := Supports(c, S, x, i, false, y);
            var counter' := Bump(counter, (x, a, y), |bs|);
            var sb' := AddSupporter(sb, y, bs, (x, a));
            var log' := AddLog(log, x, a, y, bs);
            Sound(sigma, S, counter', sb', log', map[], queue) &&
            (Get(counter', (x, a, y)) == 0 ==>
               Sound(sigma, S[x := VarState(Removed(S[x].domain, i), None)], counter', sb', log', map[], queue + [(x, a)]))
  {
    var a := S[x].domain[i];
    var bs := Supports(c, S, x, i, false, y);
    var counter' := Bump(counter, (x, a, y), |bs|);
    var log' := AddLog(log, x, a, y, bs);
    if a == sigma[x] {
      SigmaSupported(sigma, c, S, x, i, y);
    }
    CountStepKeeps(sigma, counter, log, map[], x, a, y, bs);
    AddSupporterLinked(sb, log, x, a, y, bs);
    if a == sigma[x] {
      assert CountsAt(sigma, counter', log', map[], x, y);
      assert (y, sigma[y]) in LogOf(log', (x, a, y)) - ConsumedOf(map[], (x, a, y));
    }
    if Get(counter', (x, a, y)) == 0 {
      RemoveStepKeeps(sigma, S, map[], queue, x, i, VarState(Removed(S[x].domain, i), None));
    }
  }

  /** The premises of InitStepSound for the constraint c, its variables x and y and the arena S. */
  ghost predicate PassPremises(sigma: seq<int>, c: Constraint, S: seq<VarState>, x: nat, y: nat,
                               counter: map<Triplet, int>, sb: map<Pair, set<Pair>>, log: map<Triplet, set<Pair>>,
                               queue: seq<Pair>) {
    Sound(sigma, S, counter, sb, log, map[], queue) && IsCompletelyUnassigned(S) &&
    ScopeIn(c.scope, |S|) && |c.scope| >= 2 && PairConsistent(c, sigma) &&
    ((x == c.scope[0] && y == c.scope[1]) || (x == c.scope[1] && y == c.scope[0]))
  }

  /**
   * One pass of the initialisation over a constraint (lines 68-114): every
   * entry of x's domain in turn is probed towards y. The domain is read
   * live and the index moves on after a removal too, so the entry that
   * slides into a removed entry's place is not probed in this pass.
   */
  method InitPass(p: Problem, c: Constraint, x: nat, y: nat,
                  counter: map<Triplet, int>, sb: map<Pair, set<Pair>>, queue: seq<Pair>,
                  ghost log: map<Triplet, set<Pair>>, ghost sigma: seq<int>)
    returns (counter': map<Triplet, int>, sb': map<Pair, set<Pair>>, queue': seq<Pair>,
             ghost log': map<Triplet, set<Pair>>, r: Outcome<CspError>)
    requires p.Valid() && ScopeIn(c.scope, |p.vars|) && x < |p.vars| && y < |p.vars| && x != y
    requires AllWellFormed(StatesOf(p.vars)) && SupportersIn(sb, |p.vars|)
    modifies p.vars[x], p.vars[y]
    ensures Tracked(old(StatesOf(p.vars)), StatesOf(p.vars))
    ensures SupportersIn(sb', |p.vars|)
    ensures r.Fail? ==> r.error == DomainAlteration && old(StatesOf(p.vars))[x].index.Some?
    ensures r.Pass? ==> QueuedRemovals(old(StatesOf(p.vars)), |queue|, StatesOf(p.vars), queue')
    ensures PassPremises(sigma, c, old(StatesOf(p.vars)), x, y, counter, sb, log, queue) ==>
              r.Pass? && Sound(sigma, StatesOf(p.vars), counter', sb', log', map[], queue')
  {
    ghost var S0 := StatesOf(p.vars);
    ghost var hyp := PassPremises(sigma, c, S0, x, y, counter, sb, log, queue);
    StatesOfAt(p.vars, x);
    var xWasAssigned := p.vars[x].IsAssigned();
    counter', sb', queue', log' := counter, sb, queue, log;
    r := Pass;
    TrackedRefl(S0);
    var i := 0;
    while i < |p.vars[x].domain|
      invariant Tracked(S0, StatesOf(p.vars))
      invariant SupportersIn(sb', |p.vars|)
      invariant hyp ==> Sound(sigma, StatesOf(p.vars), counter', sb', log', map[], queue')
      invariant r == Pass
      invariant QueuedRemovals(S0, |queue|, StatesOf(p.vars), queue')
      decreases |p.vars[x].domain| - i
    {
      ghost var S := StatesOf(p.vars);
      ghost var counter0, sb0, queue0, log0 := counter', sb', queue', log';
      StatesOfAt(p.vars, x);
      IndexesOfAt(S, x);
      IndexesOfAt(S0, x);
      var removed;
      counter', sb', queue', log', removed, r := InitStep(p, c, x, i, y, xWasAssigned, counter', sb', queue', log');
      AddSupporterIn(sb0, |p.vars|, y, Supports(c, S, x, i, xWasAssigned, y), (x, S[x].domain[i]));
      if hyp {
        SameIndexesUnassigned(S0, S);
        InitStepSound(sigma, c, S, x, i, y, counter0, sb0, log0, queue0);
      }
      if r.Fail? {
        return;
      }
      if removed && !xWasAssigned {
        TrackedRemove(S0, S, x, i);
        RemovedFacts(S[x].domain, i);
      }
      StatesOfAt(p.vars, x);
      i := i + 1;
    }
  }

  lemma TrackedTrans(S0: seq<VarState>, S1: seq<VarState>, S2: seq<VarState>)
    requires Tracked(S0, S1) && Tracked(S1, S2)
    ensures Tracked(S0, S2)
  {
    var D0, D1, D2 := DomainsOf(S0), DomainsOf(S1), DomainsOf(S2);
    forall v | 0 <= v < |D2| ensures multiset(D2[v]) <= multiset(D0[v]) {
      assert multiset(D2[v]) <= multiset(D1[v]) <= multiset(D0[v]);
    }
  }

  /** Every constraint of two or more variables accepts sigma on its first two. */
  ghost predicate PairwiseConsistent(sigma: seq<int>, cs: seq<Constraint>)
    requires ConstraintsValid(cs, |sigma|)
  {
    forall k :: 0 <= k < |cs| && |cs[k].scope| >= 2 ==> PairConsistent(cs[k], sigma)
  }

  /**
   * The bookkeeping the initialisation keeps from S0 to S: domains only
   * shrink, the supporter sets name real variables, and the queue q holds
   * n entries plus one per removed domain entry.
   */
  ghost predicate InitTracked(S0: seq<VarState>, n: nat, S: seq<VarState>, q: seq<Pair>, sb: map<Pair, set<Pair>>, nv: nat) {
    Tracked(S0, S) && SupportersIn(sb, nv) && QueuedRemovals(S0, n, S, q)
  }

  lemma InitTrackedStep(S0: seq<VarState>, n: nat, S1: seq<VarState>, q1: seq<Pair>,
                        S2: seq<VarState>, q2: seq<Pair>, sb: map<Pair, set<Pair>>, sb2: map<Pair, set<Pair>>, nv: nat)
    requires InitTracked(S0, n, S1, q1, sb, nv) && Tracked(S1, S2) && SupportersIn(sb2, nv) && QueuedRemovals(S1, |q1|, S2, q2)
    ensures InitTracked(S0, n, S2, q2, sb2, nv)
  {
    TrackedTrans(S0, S1, S2);
  }

  /**
   * The body of the initialisation for one constraint (lines 58-117): a
   * constraint of one variable is skipped, any other gets two passes, the
   * second with its first two variables swapped.
   */
  method InitConstraint(p: Problem, c: Constraint, counter: map<Triplet, int>, sb: map<Pair, set<Pair>>,
                        queue: seq<Pair>, ghost log: map<Triplet, set<Pair>>, ghost sigma: seq<int>)
    returns (counter': map<Triplet, int>, sb': map<Pair, set<Pair>>, queue': seq<Pair>,
             ghost log': map<Triplet, set<Pair>>, r: Outcome<CspError>)
    requires p.Valid() && AllWellFormed(StatesOf(p.vars)) && SupportersIn(sb, |p.vars|)
    requires c in p.constraints && |c.scope| >= 1
    modifies p.vars
    ensures Tracked(old(StatesOf(p.vars)), StatesOf(p.vars))
    ensures SupportersIn(sb', |p.vars|)
    ensures r.Fail? ==> r.error == DomainAlteration && !IsCompletelyUnassigned(old(StatesOf(p.vars)))
    ensures r.Pass? ==> QueuedRemovals(old(StatesOf(p.vars)), |queue|, StatesOf(p.vars), queue')
    ensures (Sound(sigma, old(StatesOf(p.vars)), counter, sb, log, map[], queue) && IsCompletelyUnassigned(old(StatesOf(p.vars))) &&
             (|c.scope| >= 2 ==> PairConsistent(c, sigma))) ==>
              r.Pass? && Sound(sigma, StatesOf(p.vars), counter', sb', log', map[], queue')
  {
    ghost var S0 := StatesOf(p.vars);
    ghost var hyp := Sound(sigma, S0, counter, sb, log, map[], queue) && IsCompletelyUnassigned(S0) &&
                     (|c.scope| >= 2 ==> PairConsistent(c, sigma));
    counter', sb', queue', log' := counter, sb, queue, log;
    r := Pass;
    TrackedRefl(S0);
    if |c.scope| == 1 {
      return;
    }
    var first, second := c.scope[0], c.scope[1];
    assert ScopeIn(c.scope, |p.vars|);
    var pass := 0;
    while pass < 2
      invariant (first == c.scope[0] && second == c.scope[1]) || (first == c.scope[1] && second == c.scope[0])
      invariant InitTracked(S0, |queue|, StatesOf(p.vars), queue', sb', |p.vars|)
      invariant hyp ==> Sound(sigma, StatesOf(p.vars), counter', sb', log', map[], queue')
      invariant r == Pass
    {
      ghost var S := StatesOf(p.vars);
      SameIndexesUnassigned(S0, S);
      assert hyp ==> PassPremises(sigma, c, S, first, second, counter', sb', log', queue');
      counter', sb', queue', log', r := InitDirection(p, c, first, second, counter', sb', queue', log', sigma, S0, |queue|, hyp);
      if r.Fail? {
        return;
      }
      first, second := second, first;
      pass := pass + 1;
    }
  }

  /**
   * One of the two passes over a constraint, accounted from the state S0
   * before the constraint was started: the removals stay balanced by the
   * queue, an error needs an assigned variable, and from sound premises
   * the pass succeeds and stays sound.
   */
  method InitDirection(p: Problem, c: Constraint, x: nat, y: nat,
                       counter: map<Triplet, int>, sb: map<Pair, set<Pair>>, queue: seq<Pair>,
                       ghost log: map<Triplet, set<Pair>>, ghost sigma: seq<int>,
                       ghost S0: seq<VarState>, ghost n: nat, ghost hyp: bool)
    returns (counter': map<Triplet, int>, sb': map<Pair, set<Pair>>, queue': seq<Pair>,
             ghost log': map<Triplet, set<Pair>>, r: Outcome<CspError>)
    requires p.Valid() && ScopeIn(c.scope, |p.vars|) && x < |p.vars| && y < |p.vars| && x != y
    requires InitTracked(S0, n, StatesOf(p.vars), queue, sb, |p.vars|)
    requires hyp ==> PassPremises(sigma, c, StatesOf(p.vars), x, y, counter, sb, log, queue)
    modifies p.vars[x], p.vars[y]
    ensures Tracked(S0, StatesOf(p.vars)) && SupportersIn(sb', |p.vars|)
    ensures r.Fail? ==> r.error == DomainAlteration && !IsCompletelyUnassigned(S0)
    ensures r.Pass? ==> InitTracked(S0, n, StatesOf(p.vars), queue', sb', |p.vars|)
    ensures hyp ==> r.Pass? && Sound(sigma, StatesOf(p.vars), counter', sb', log', map[], queue')
  {
    ghost var S := StatesOf(p.vars);
    counter', sb', queue', log', r := InitPass(p, c, x, y, counter, sb, queue, log, sigma);
    TrackedTrans(S0, S, StatesOf(p.vars));
    if r.Fail? {
      SameIndexesUnassigned(S0, S);
      return;
    }
    InitTrackedStep(S0, n, S, queue, StatesOf(p.vars), queue', sb, sb', |p.vars|);
  }

  /**
   * __initialize_ac4 (lines 51-119): every constraint in turn, with the
   * support counters, the supported-by map and the queue shared by all.
   * On an unassigned problem whose domains repeat no entry, a pairwise
   * consistent sigma keeps all its values.
   */
  method InitializeAc4(p: Problem, ghost sigma: seq<int>)
    returns (counter: map<Triplet, int>, sb: map<Pair, set<Pair>>, queue: seq<Pair>,
             ghost log: map<Triplet, set<Pair>>, r: Outcome<CspError>)
    requires p.Valid() && AllWellFormed(StatesOf(p.vars))
    requires forall k :: 0 <= k < |p.constraints| ==> |p.constraints[k].scope| >= 1
    modifies p.vars
    ensures Tracked(old(StatesOf(p.vars)), StatesOf(p.vars))
    ensures SupportersIn(sb, |p.vars|)
    ensures r.Fail? ==> r.error == DomainAlteration && !IsCompletelyUnassigned(old(StatesOf(p.vars)))
    ensures r.Pass? ==> QueuedRemovals(old(StatesOf(p.vars)), 0, StatesOf(p.vars), queue)
    ensures (|sigma| == |p.vars| && Keeps(sigma, old(StatesOf(p.vars))) && IsCompletelyUnassigned(old(StatesOf(p.vars))) &&
             PairwiseConsistent(sigma, p.constraints)) ==>
              r.Pass? && Sound(sigma, StatesOf(p.vars), counter, sb, log, map[], queue)
  {
    ghost var S0 := StatesOf(p.vars);
    ghost var hyp := |sigma| == |p.vars| && Keeps(sigma, S0) && IsCompletelyUnassigned(S0) &&
                     PairwiseConsistent(sigma, p.constraints);
    counter, sb, queue, log := map[], map[], [], map[];
    r := Pass;
    TrackedRefl(S0);
    if hyp {
      SoundInitially(sigma, S0);
    }
    for k := 0 to |p.constraints|
      invariant Tracked(S0, StatesOf(p.vars))
      invariant SupportersIn(sb, |p.vars|)
      invariant hyp ==> Sound(sigma, StatesOf(p.vars), counter, sb, log, map[], queue)
      invariant r == Pass
      invariant QueuedRemovals(S0, 0, StatesOf(p.vars), queue)
    {
      ghost var S := StatesOf(p.vars);
      SameIndexesUnassigned(S0, S);
      ghost var queue0 := queue;
      counter, sb, queue, log, r := InitConstraint(p, p.constraints[k], counter, sb, queue, log, sigma);
      TrackedTrans(S0, S, StatesOf(p.vars));
      if r.Fail? {
        return;
      }
      QueuedTrans(S0, 0, S, queue0, StatesOf(p.vars), queue);
    }
  }

  // ---------------------------------------------------------------------
  // Propagation (ac4)
  // ---------------------------------------------------------------------

  /** The position std::find reports: the first occurrence of v, or |s| when v does not occur. */
  function FindIndex(s: seq<int>, v: int): (k: nat)
    ensures k <= |s| && (k < |s| <==> v in s)
    ensures k < |s| ==> s[k] == v
    ensures forall j :: 0 <= j < k ==> s[j] != v
  {
    if s == [] then 0
    else if s[0] == v then 0
    else
      var k := FindIndex(s[1..], v);
      assert forall j :: 0 <= j < |s[1..]| ==> s[1..][j] == s[j + 1];
      assert v in s <==> v in s[1..];
      1 + k
  }

  /**
   * Lines 135-150 for one supporter m of the removed pair cur: when m's
   * value is still in its variable's domain, the counter of (m, cur's
   * variable) goes down; at zero the value is removed and queued.
   */
  method Retract(p: Problem, cur: Pair, m: Pair, counter: map<Triplet, int>, queue: seq<Pair>,
                 ghost consumed: map<Triplet, set<Pair>>)
    returns (counter': map<Triplet, int>, queue': seq<Pair>, ghost consumed': map<Triplet, set<Pair>>,
             r: Outcome<CspError>)
    requires p.Valid() && AllWellFormed(StatesOf(p.vars)) && m.0 < |p.vars|
    modifies p.vars[m.0]
    ensures var S := old(StatesOf(p.vars));
            var dom := S[m.0].domain;
            var t := (m.0, m.1, cur.0);
            if m.1 !in dom
            then counter' == counter && consumed' == consumed && queue' == queue && r == Pass && StatesOf(p.vars) == S
            else
              counter' == counter[t := Get(counter, t) - 1] && consumed' == consumed[t := ConsumedOf(consumed, t) + {cur}] &&
              if Get(counter', t) != 0 then queue' == queue && r == Pass && StatesOf(p.vars) == S
              else if S[m.0].index.Some? then queue' == queue && r == Fail(DomainAlteration) && StatesOf(p.vars) == S
              else queue' == queue + [m] && r == Pass &&
                   StatesOf(p.vars) == S[m.0 := VarState(Removed(dom, FindIndex(dom, m.1)), None)]
    ensures AllWellFormed(StatesOf(p.vars))
  {
    ghost var S := StatesOf(p.vars);
    StatesOfAt(p.vars, m.0);
    var k := FirstIndexOf(p.vars[m.0].domain, m.1);
    assert k == FindIndex(S[m.0].domain, m.1);
    counter', queue', consumed', r := counter, queue, consumed, Pass;
    if k < |p.vars[m.0].domain| {
      var t := (m.0, m.1, cur.0);
      counter' := counter[t := Get(counter, t) - 1];
      consumed' := consumed[t := ConsumedOf(consumed, t) + {cur}];
      if Get(counter', t) == 0 {
        r := RemoveInArena(p, m.0, k);
        if r.Pass? {
          queue' := queue + [m];
        }
      }
    }
  }

  /**
   * Soundness while the supporters of the popped pair cur are visited: as
   * Sound, and besides cur has left its domain, is no longer queued, and
   * is not yet consumed towards any supporter still to visit.
   */
  ghost predicate Popped(sigma: seq<int>, S: seq<VarState>, counter: map<Triplet, int>, sb: map<Pair, set<Pair>>,
                         log: map<Triplet, set<Pair>>, consumed: map<Triplet, set<Pair>>, queue: seq<Pair>,
                         cur: Pair, todo: set<Pair>) {
    Sound(sigma, S, counter, sb, log, consumed, queue) &&
    cur.0 < |S| && cur.1 !in S[cur.0].domain && cur !in queue &&
    forall m :: m in todo ==> cur !in ConsumedOf(consumed, (m.0, m.1, cur.0))
  }

  /** Popping the front of a sound queue leaves it popped, with every supporter of the front still to visit. */
  lemma PopSound(sigma: seq<int>, S: seq<VarState>, counter: map<Triplet, int>, sb: map<Pair, set<Pair>>,
                 log: map<Triplet, set<Pair>>, consumed: map<Triplet, set<Pair>>, cur: Pair, queue: seq<Pair>)
    requires Sound(sigma, S, counter, sb, log, consumed, [cur] + queue)
    ensures Popped(sigma, S, counter, sb, log, consumed, queue, cur, SupportersOf(sb, cur))
  {
    var q := [cur] + queue;
    assert q[0] == cur;
    assert forall k :: 0 <= k < |queue| ==> queue[k] == q[k + 1];
    assert Distinct(queue) by {
      forall a, b | 0 <= a < b < |queue| ensures queue[a] != queue[b] {
        assert q[a + 1] != q[b + 1];
      }
    }
    forall t, e | t in consumed && e in consumed[t] ensures e !in queue {
      assert e !in q;
    }
  }

  /** Visiting one supporter m of cur keeps the popped state sound; a value it removes is not sigma's. */
  lemma RetractKeeps(sigma: seq<int>, S: seq<VarState>, counter: map<Triplet, int>, sb: map<Pair, set<Pair>>,
                     log: map<Triplet, set<Pair>>, consumed: map<Triplet, set<Pair>>, queue: seq<Pair>,
                     cur: Pair, todo: set<Pair>, m: Pair)
    requires Popped(sigma, S, counter, sb, log, consumed, queue, cur, todo)
    requires m in todo && todo <= SupportersOf(sb, cur) && m.0 < |S|
    ensures m.1 !in S[m.0].domain ==> Popped(sigma, S, counter, sb, log, consumed, queue, cur, todo - {m})
    ensures var t := (m.0, m.1, cur.0);
            var counter' := counter[t := Get(counter, t) - 1];
            var consumed' := consumed[t := ConsumedOf(consumed, t) + {cur}];
            var dom := S[m.0].domain;
            m.1 in dom ==>
              Popped(sigma, S, counter', sb, log, consumed', queue, cur, todo - {m}) &&
              (Get(counter', t) == 0 ==>
                 Popped(sigma, S[m.0 := VarState(Removed(dom, FindIndex(dom, m.1)), None)], counter', sb, log, consumed',
                        queue + [m], cur, todo - {m}))
  {
    var t := (m.0, m.1, cur.0);
    var dom := S[m.0].domain;
    if m.1 in dom {
      var counter' := counter[t := Get(counter, t) - 1];
      var consumed' := consumed[t := ConsumedOf(consumed, t) + {cur}];
      assert cur in LogOf(log, t);
      InDomainNotConsumed(S, consumed, queue, t, (cur.0, sigma[cur.0]));
      DecrementCounts(sigma, S, counter, log, consumed, cur, m);
      ConsumeKeepsOut(S, consumed, queue, t, cur);
      forall m' | m' in todo - {m} ensures cur !in ConsumedOf(consumed', (m'.0, m'.1, cur.0)) {
        assert (m'.0, m'.1, cur.0) != t;
      }
      if m.1 == sigma[m.0] {
        DecrementPositive(sigma, S, counter, log, consumed, cur, m);
      }
      if Get(counter', t) == 0 {
        var k := FindIndex(dom, m.1);
        RemoveStepKeeps(sigma, S, consumed', queue, m.0, k, VarState(Removed(dom, k), None));
        assert m != cur;
      }
    }
  }

  /** A non-empty set of pairs has a member (the witness for visiting one). */
  lemma NonEmptyPairs(s: set<Pair>)
    requires s != {}
    ensures exists m :: m in s
  {
    if forall m :: m !in s {
      assert false;
    }
  }

  /** One supporter m of cur (lines 134-151), with the soundness bookkeeping of RetractKeeps. */
  method VisitSupporter(p: Problem, cur: Pair, m: Pair, counter: map<Triplet, int>, sb: map<Pair, set<Pair>>,
                        queue: seq<Pair>, ghost log: map<Triplet, set<Pair>>, ghost consumed: map<Triplet, set<Pair>>,
                        ghost sigma: seq<int>, ghost todo: set<Pair>)
    returns (counter': map<Triplet, int>, queue': seq<Pair>, ghost consumed': map<Triplet, set<Pair>>,
             r: Outcome<CspError>)
    requires p.Valid() && AllWellFormed(StatesOf(p.vars)) && m.0 < |p.vars|
    modifies p.vars[m.0]
    ensures Tracked(old(StatesOf(p.vars)), StatesOf(p.vars))
    ensures r.Pass? ==> |queue'| + Size(DomainsOf(StatesOf(p.vars))) == |queue| + Size(DomainsOf(old(StatesOf(p.vars))))
    ensures r.Fail? ==> r.error == DomainAlteration && !IsCompletelyUnassigned(old(StatesOf(p.vars)))
    ensures Popped(sigma, old(StatesOf(p.vars)), counter, sb, log, consumed, queue, cur, todo) &&
            m in todo && todo <= SupportersOf(sb, cur) && r.Pass? ==>
              Popped(sigma, StatesOf(p.vars), counter', sb, log, consumed', queue', cur, todo - {m})
  {
    ghost var S := StatesOf(p.vars);
    ghost var dom := S[m.0].domain;
    TrackedRefl(S);
    if Popped(sigma, S, counter, sb, log, consumed, queue, cur, todo) && m in todo && todo <= SupportersOf(sb, cur) {
      RetractKeeps(sigma, S, counter, sb, log, consumed, queue, cur, todo, m);
    }
    counter', queue', consumed', r := Retract(p, cur, m, counter, queue, consumed);
    if r.Pass? && m.1 in dom && Get(counter', (m.0, m.1, cur.0)) == 0 {
      TrackedRemove(S, S, m.0, FindIndex(dom, m.1));
    }
  }

  /**
   * Lines 131-152 for the popped pair cur: every pair it supported is
   * visited, in the set's iteration order.
   */
  method ProcessPair(p: Problem, cur: Pair, counter: map<Triplet, int>, sb: map<Pair, set<Pair>>, queue: seq<Pair>,
                     ghost log: map<Triplet, set<Pair>>, ghost consumed: map<Triplet, set<Pair>>, ghost sigma: seq<int>)
    returns (counter': map<Triplet, int>, queue': seq<Pair>, ghost consumed': map<Triplet, set<Pair>>,
             r: Outcome<CspError>)
    requires p.Valid() && AllWellFormed(StatesOf(p.vars)) && SupportersIn(sb, |p.vars|)
    modifies p.vars
    ensures Tracked(old(StatesOf(p.vars)), StatesOf(p.vars))
    ensures r.Pass? ==> |queue'| + Size(DomainsOf(StatesOf(p.vars))) == |queue| + Size(DomainsOf(old(StatesOf(p.vars))))
    ensures r.Fail? ==> r.error == DomainAlteration && !IsCompletelyUnassigned(old(StatesOf(p.vars)))
    ensures Sound(sigma, old(StatesOf(p.vars)), counter, sb, log, consumed, [cur] + queue) && r.Pass? ==>
              Sound(sigma, StatesOf(p.vars), counter', sb, log, consumed', queue')
  {
    ghost var S0 := StatesOf(p.vars);
    ghost var hyp := Sound(sigma, S0, counter, sb, log, consumed, [cur] + queue);
    counter', queue', consumed', r := counter, queue, consumed, Pass;
    TrackedRefl(S0);
    var members := SupportersOf(sb, cur);
    if hyp {
      PopSound(sigma, S0, counter, sb, log, consumed, cur, queue);
    }
    while members != {}
      invariant members <= SupportersOf(sb, cur)
      invariant Tracked(S0, StatesOf(p.vars))
      invariant |queue'| + Size(DomainsOf(StatesOf(p.vars))) == |queue| + Size(DomainsOf(S0))
      invariant hyp ==> Popped(sigma, StatesOf(p.vars), counter', sb, log, consumed', queue', cur, members)
      invariant r == Pass
      decreases |members|
    {
      NonEmptyPairs(members);
      var m :| m in members;
      ghost var S := StatesOf(p.vars);
      counter', queue', consumed', r := VisitSupporter(p, cur, m, counter', sb, queue', log, consumed', sigma, members);
      TrackedTrans(S0, S, StatesOf(p.vars));
      if r.Fail? {
        SameIndexesUnassigned(S0, S);
        return;
      }
      members := members - {m};
    }
  }

  /** An arena whose domains all keep sigma's values has no empty domain. */
  lemma KeepsSolvable(sigma: seq<int>, S: seq<VarState>)
    requires Keeps(sigma, S)
    ensures IsPotentiallySolvable(S)
  {
    forall v | 0 <= v < |S| ensures |S[v].domain| > 0 {
      assert sigma[v] in S[v].domain;
    }
  }

  /**
   * The propagation loop of ac4 (lines 129-153): pairs are taken from the
   * front of the queue until it is empty, and each one is processed
   * against the pairs it supports. Each pair taken accounts for one entry
   * of the queue, so dequeues counts the queued pairs plus the entries
   * removed on the way.
   */
  method Propagate(p: Problem, counter: map<Triplet, int>, sb: map<Pair, set<Pair>>, queue: seq<Pair>,
                   ghost log: map<Triplet, set<Pair>>, ghost sigma: seq<int>)
    returns (r: Outcome<CspError>, ghost dequeues: nat)
    requires p.Valid() && AllWellFormed(StatesOf(p.vars)) && SupportersIn(sb, |p.vars|)
    modifies p.vars
    ensures Tracked(old(StatesOf(p.vars)), StatesOf(p.vars))
    ensures r.Pass? ==> dequeues + Size(DomainsOf(StatesOf(p.vars))) == |queue| + Size(DomainsOf(old(StatesOf(p.vars))))
    ensures r.Fail? ==> r.error == DomainAlteration && !IsCompletelyUnassigned(old(StatesOf(p.vars)))
    ensures Sound(sigma, old(StatesOf(p.vars)), counter, sb, log, map[], queue) ==>
              r.Fail? || Keeps(sigma, StatesOf(p.vars))
  {
    ghost var S0 := StatesOf(p.vars);
    ghost var hyp := Sound(sigma, S0, counter, sb, log, map[], queue);
    ghost var n := |queue|;
    dequeues := 0;
    r := Pass;
    TrackedRefl(S0);
    var counter', queue' := counter, queue;
    ghost var consumed: map<Triplet, set<Pair>> := map[];
    while queue' != []
      invariant hyp ==> Sound(sigma, StatesOf(p.vars), counter', sb, log, consumed, queue')
      invariant Dequeued(S0, n, dequeues, StatesOf(p.vars), queue')
      invariant r == Pass
      decreases n + Size(DomainsOf(S0)) - dequeues
    {
      ghost var queue0 := queue';
      var cur := queue'[0];
      ghost var S := StatesOf(p.vars);
      assert queue' == [cur] + queue'[1..];
      counter', queue', consumed, r := ProcessPair(p, cur, counter', sb, queue'[1..], log, consumed, sigma);
      if r.Fail? {
        TrackedTrans(S0, S, StatesOf(p.vars));
        SameIndexesUnassigned(S0, S);
        return;
      }
      DequeuedPop(S0, n, dequeues, S, queue0, StatesOf(p.vars), queue');
      dequeues := dequeues + 1;
    }
  }

  /**
   * ac4 (lines 121-156): the initialisation, then propagation until the
   * queue of removed pairs is empty; the answer is whether every domain
   * is still non-empty. Removing a value of an assigned variable is the
   * domain-alteration error, and the state stays as it was at that point.
   * On an unassigned problem whose domains repeat no entry, a pairwise
   * consistent sigma keeps all its values.
   */
  method Ac4(p: Problem, ghost sigma: seq<int>) returns (r: Result<bool, CspError>, ghost dequeues: nat)
    requires p.Valid() && AllWellFormed(StatesOf(p.vars))
    requires forall k :: 0 <= k < |p.constraints| ==> |p.constraints[k].scope| >= 1
    modifies p.vars
    ensures Tracked(old(StatesOf(p.vars)), StatesOf(p.vars))
    ensures r.Ok? ==> (r.value <==> IsPotentiallySolvable(StatesOf(p.vars)))
    ensures r.Ok? ==> dequeues + Size(DomainsOf(StatesOf(p.vars))) == Size(DomainsOf(old(StatesOf(p.vars))))
    ensures r.Err? ==> r.error == DomainAlteration && !IsCompletelyUnassigned(old(StatesOf(p.vars)))
    ensures (|sigma| == |p.vars| && Keeps(sigma, old(StatesOf(p.vars))) && IsCompletelyUnassigned(old(StatesOf(p.vars))) &&
             PairwiseConsistent(sigma, p.constraints)) ==>
              Keeps(sigma, StatesOf(p.vars)) && r == Ok(true)
  {
    ghost var S0 := StatesOf(p.vars);
    dequeues := 0;
    var counter, sb, queue, log, init := InitializeAc4(p, sigma);
    if init.Fail? {
      return Err(init.error), dequeues;
    }
    ghost var S1 := StatesOf(p.vars);
    SameIndexesUnassigned(S0, S1);
    var res;
    res, dequeues := Propagate(p, counter, sb, queue, log, sigma);
    TrackedTrans(S0, S1, StatesOf(p.vars));
    if res.Fail? {
      return Err(res.error), dequeues;
    }
    if |sigma| == |p.vars| && Keeps(sigma, S0) && IsCompletelyUnassigned(S0) && PairwiseConsistent(sigma, p.constraints) {
      KeepsSolvable(sigma, StatesOf(p.vars));
    }
    r := Ok(IsPotentiallySolvable(StatesOf(p.vars)));
  }

}
