/**
 * Algorithms over domain vectors that the engine takes from the C++
 * standard library: std::lower_bound, std::find, std::includes and std::sort.
 * The first three follow the library's algorithm; sort is an insertion
 * sort, which yields the same sorted permutation. Each is proved against
 * the property the engine relies on.
 */
module Domain {

  ghost predicate Sorted(s: seq<int>) {
    forall i, j :: 0 <= i < j < |s| ==> s[i] <= s[j]
  }

  ghost predicate StrictlySorted(s: seq<int>) {
    forall i, j :: 0 <= i < j < |s| ==> s[i] < s[j]
  }

  predicate Distinct<T(==)>(s: seq<T>) {
    forall i, j :: 0 <= i < j < |s| ==> s[i] != s[j]
  }

  /** The elements of a sequence, as a set. */
  function Elements<T>(s: seq<T>): set<T> {
    set x | x in s
  }

  /** The distinctness test of setDomain: building a set from the entries loses nothing. */
  lemma {:induction false} DistinctIffNoCollapse<T>(s: seq<T>)
    ensures Distinct(s) <==> |Elements(s)| == |s|
  {
    if s != [] {
      var t := s[1..];
      DistinctIffNoCollapse(t);
      assert Elements(s) == {s[0]} + Elements(t);
      if s[0] in t {
        assert !Distinct(s) by {
          var k :| 0 <= k < |t| && t[k] == s[0];
          assert s[0] == s[k + 1];
        }
        assert Elements(s) == Elements(t);
        assert |Elements(t)| <= |t| by { CardElementsBound(t); }
      } else {
        assert |Elements(s)| == |Elements(t)| + 1;
        assert Distinct(s) <==> Distinct(t) by {
          if Distinct(t) {
            forall i, j | 0 <= i < j < |s| ensures s[i] != s[j] {
              if i > 0 { assert s[i] == t[i - 1] && s[j] == t[j - 1]; }
              else { assert s[j] == t[j - 1]; }
            }
          }
          if Distinct(s) {
            forall i, j | 0 <= i < j < |t| ensures t[i] != t[j] {
              assert t[i] == s[i + 1] && t[j] == s[j + 1];
            }
          }
        }
      }
    }
  }

  lemma {:induction false} CardElementsBound<T>(s: seq<T>)
    ensures |Elements(s)| <= |s|
  {
    if s != [] {
      CardElementsBound(s[1..]);
      assert Elements(s) == {s[0]} + Elements(s[1..]);
    }
  }

  /**
   * std::lower_bound as libstdc++ writes it (halving the range). On a
   * sorted sequence the result splits it into the entries below v and
   * the entries at least v; on any sequence it stays within bounds.
   */
  method LowerBound(s: seq<int>, v: int) returns (k: nat)
    ensures k <= |s|
    ensures Sorted(s) ==> forall i :: 0 <= i < k ==> s[i] < v
    ensures Sorted(s) ==> forall i :: k <= i < |s| ==> v <= s[i]
  {
    var first: nat, len: nat := 0, |s|;
    while len > 0
      invariant first + len <= |s|
      invariant Sorted(s) ==> forall i :: 0 <= i < first ==> s[i] < v
      invariant Sorted(s) ==> forall i :: first + len <= i < |s| ==> v <= s[i]
    {
      var half := len / 2;
      var mid := first + half;
      if s[mid] < v {
        first := mid + 1;
        len := len - half - 1;
      } else {
        len := half;
      }
    }
    k := first;
  }

  /**
   * std::find, and the index-advancing loop of the unsorted lookup: the
   * index of the first occurrence of v, or |s| when v does not occur.
   */
  method FirstIndexOf<T(==)>(s: seq<T>, v: T) returns (k: nat)
    ensures k <= |s|
    ensures k < |s| ==> s[k] == v
    ensures forall i :: 0 <= i < k ==> s[i] != v
  {
    k := 0;
    while k < |s| && s[k] != v
      invariant k <= |s|
      invariant forall i :: 0 <= i < k ==> s[i] != v
    {
      k := k + 1;
    }
  }

  /**
   * b can be read off a, left to right, by matching each entry of b with
   * the next equal entry of a (greedy matching decides "b is a
   * subsequence of a").
   */
  predicate IsSubseq(b: seq<int>, a: seq<int>)
    decreases |a|
  {
    if b == [] then true
    else if a == [] then false
    else if b[0] == a[0] then IsSubseq(b[1..], a[1..])
    else IsSubseq(b, a[1..])
  }

  /** A value below every entry of a sorted a cannot be matched in a. */
  lemma {:induction false} NoMatchBelowSorted(b: seq<int>, a: seq<int>)
    requires b != [] && Sorted(a)
    requires forall i :: 0 <= i < |a| ==> b[0] < a[i]
    ensures !IsSubseq(b, a)
    decreases |a|
  {
    if a != [] {
      assert b[0] != a[0];
      assert forall i :: 0 <= i < |a[1..]| ==> a[1..][i] == a[i + 1];
      NoMatchBelowSorted(b, a[1..]);
    }
  }

  /**
   * std::includes as libstdc++ writes it (one merge-like walk). On sorted
   * inputs it answers whether b is a subsequence of a.
   */
  method Includes(a: seq<int>, b: seq<int>) returns (r: bool)
    ensures Sorted(a) && Sorted(b) ==> (r <==> IsSubseq(b, a))
  {
    var i, j := 0, 0;
    while i < |a| && j < |b|
      invariant i <= |a| && j <= |b|
      invariant Sorted(a) && Sorted(b) ==> (IsSubseq(b, a) <==> IsSubseq(b[j..], a[i..]))
    {
      if b[j] < a[i] {
        if Sorted(a) && Sorted(b) {
          forall k | 0 <= k < |a[i..]| ensures b[j..][0] < a[i..][k] {
            assert a[i..][k] == a[i + k];
          }
          NoMatchBelowSorted(b[j..], a[i..]);
        }
        return false;
      } else if a[i] < b[j] {
        assert a[i..][1..] == a[i + 1..];
        i := i + 1;
      } else {
        assert a[i..][1..] == a[i + 1..] && b[j..][1..] == b[j + 1..];
        i, j := i + 1, j + 1;
      }
    }
    r := j == |b|;
    assert b[j..] == [] <==> j == |b|;
  }

  /** Every entry of a subsequence is an entry of the sequence. */
  lemma {:induction false} SubseqElements(b: seq<int>, a: seq<int>)
    requires IsSubseq(b, a)
    ensures forall x :: x in b ==> x in a
    decreases |a|
  {
    if b != [] && a != [] {
      if b[0] == a[0] {
        SubseqElements(b[1..], a[1..]);
        assert forall x :: x in b ==> x == b[0] || x in b[1..];
      } else {
        SubseqElements(b, a[1..]);
      }
      assert forall x :: x in a[1..] ==> x in a;
    }
  }

  /** A subsequence of a sorted sequence is sorted. */
  lemma {:induction false} SubseqSorted(b: seq<int>, a: seq<int>)
    requires IsSubseq(b, a) && Sorted(a)
    ensures Sorted(b)
    decreases |a|
  {
    if b != [] && a != [] {
      assert Sorted(a[1..]) by {
        forall i, j | 0 <= i < j < |a[1..]| ensures a[1..][i] <= a[1..][j] {
          assert a[1..][i] == a[i + 1] && a[1..][j] == a[j + 1];
        }
      }
      if b[0] == a[0] {
        SubseqSorted(b[1..], a[1..]);
        SubseqElements(b[1..], a[1..]);
        forall i, j | 0 <= i < j < |b| ensures b[i] <= b[j] {
          assert b[j] == b[1..][j - 1];
          if i == 0 {
            assert b[j] in a[1..];
            var l :| 0 <= l < |a[1..]| && a[1..][l] == b[j];
            assert a[0] <= a[l + 1];
          } else {
            assert b[i] == b[1..][i - 1];
          }
        }
      } else {
        SubseqSorted(b, a[1..]);
      }
    }
  }

  /** Insert x into a sorted sequence, before the first larger-or-equal entry. */
  function Insert(s: seq<int>, x: int): (r: seq<int>)
    requires Sorted(s)
    ensures Sorted(r) && multiset(r) == multiset(s) + multiset{x}
  {
    if s == [] then [x]
    else if x <= s[0] then [x] + s
    else
      var t := Insert(s[1..], x);
      assert s == [s[0]] + s[1..];
      InsertedAbove(s, x, t);
      [s[0]] + t
  }

  /** What inserting x above the head of s gives holds no entry below that head. */
  lemma InsertedAbove(s: seq<int>, x: int, t: seq<int>)
    requires Sorted(s) && s != [] && s[0] < x
    requires multiset(t) == multiset(s[1..]) + multiset{x}
    ensures forall k :: 0 <= k < |t| ==> s[0] <= t[k]
  {
    forall k | 0 <= k < |t| ensures s[0] <= t[k] {
      assert t[k] in multiset(t);
      if t[k] != x {
        assert t[k] in s[1..];
        var i :| 0 <= i < |s[1..]| && s[1..][i] == t[k];
        assert s[i + 1] == t[k];
      }
    }
  }

  /** std::sort (here as insertion sort): the sorted permutation of s. */
  function SortSeq(s: seq<int>): (r: seq<int>)
    ensures Sorted(r) && multiset(r) == multiset(s)
  {
    if s == [] then []
    else
      assert s == [s[0]] + s[1..];
      Insert(SortSeq(s[1..]), s[0])
  }

  /** A non-empty set has a member (the witness for picking one). */
  lemma NonEmptyHasMember(s: set<int>)
    requires s != {}
    ensures exists x :: x in s
  {
    if forall x :: x !in s {
      assert false;
    }
  }

  /** The elements of an unordered set, in some iteration order. */
  method SetToSeq(s: set<int>) returns (r: seq<int>)
    ensures Distinct(r) && Elements(r) == s
  {
    r := [];
    var rest := s;
    while rest != {}
      invariant Distinct(r)
      invariant rest <= s
      invariant forall y :: y in s ==> (y in r <==> y !in rest)
      invariant forall y :: y in r ==> y in s
      decreases |rest|
    {
      NonEmptyHasMember(rest);
      var x :| x in rest;
      r := r + [x];
      rest := rest - {x};
    }
    assert forall y :: y in Elements(r) <==> y in s;
  }

  /** Whether every entry of b is an entry of a, scanned entry by entry. */
  method AllContained(b: seq<int>, a: seq<int>) returns (r: bool)
    ensures r <==> forall k :: 0 <= k < |b| ==> b[k] in a
  {
    for i := 0 to |b|
      invariant forall k :: 0 <= k < i ==> b[k] in a
    {
      if b[i] !in a {
        return false;
      }
    }
    return true;
  }

  lemma HeadInElements(s: seq<int>)
    ensures s != [] ==> s[0] in Elements(s)
  {
  }

  /** A finite set has exactly one strictly increasing listing. */
  lemma {:induction false} StrictlySortedUnique(s: seq<int>, t: seq<int>)
    requires StrictlySorted(s) && StrictlySorted(t) && Elements(s) == Elements(t)
    ensures s == t
    decreases |s|
  {
    HeadInElements(s);
    HeadInElements(t);
    if s != [] && t != [] {
      assert s[0] == t[0] by {
        assert s[0] in Elements(t) && t[0] in Elements(s);
        var i :| 0 <= i < |t| && t[i] == s[0];
        var j :| 0 <= j < |s| && s[j] == t[0];
        assert t[0] <= t[i] && s[0] <= s[j];
      }
      var s', t' := s[1..], t[1..];
      assert Elements(s') == Elements(s) - {s[0]} by {
        forall x | x in s' ensures x != s[0] { var k :| 0 <= k < |s'| && s'[k] == x; assert s[k + 1] == x; }
        assert s == [s[0]] + s';
      }
      assert Elements(t') == Elements(t) - {t[0]} by {
        forall x | x in t' ensures x != t[0] { var k :| 0 <= k < |t'| && t'[k] == x; assert t[k + 1] == x; }
        assert t == [t[0]] + t';
      }
      StrictlySortedUnique(s', t');
      assert s == [s[0]] + s' && t == [t[0]] + t';
    }
  }

  /** Permuting a duplicate-free sequence keeps it duplicate-free. */
  lemma {:induction false} PermutationKeepsDistinct(s: seq<int>, t: seq<int>)
    requires multiset(s) == multiset(t) && Distinct(s)
    ensures Distinct(t)
  {
    forall i, j | 0 <= i < j < |t| ensures t[i] != t[j] {
      if t[i] == t[j] {
        var x := t[i];
        assert t == t[..j] + [t[j]] + t[j + 1..];
        assert x in t[..j] by { assert t[..j][i] == x; }
        assert multiset(t)[x] >= 2 by {
          assert multiset(t) == multiset(t[..j]) + multiset{x} + multiset(t[j + 1..]);
        }
        MultiplicityAtMostOne(s, x);
        assert false;
      }
    }
  }

  lemma {:induction false} MultiplicityAtMostOne(s: seq<int>, x: int)
    requires Distinct(s)
    ensures multiset(s)[x] <= 1
  {
    if s != [] {
      var t := s[1..];
      assert s == [s[0]] + t;
      assert Distinct(t) by {
        forall i, j | 0 <= i < j < |t| ensures t[i] != t[j] { assert t[i] == s[i + 1] && t[j] == s[j + 1]; }
      }
      MultiplicityAtMostOne(t, x);
    }
  }
}
