/** Small shared vocabulary: an optional value (the C++ code uses a maximal
    integer as "no value"), index ranges and distinct sequences. */
module Common {

  /** `None` stands for the sentinel `infinity` of the C++ code. */
  datatype Option<T> = None | Some(value: T)

  /** The set {0, ..., n-1}. */
  function Range(n: nat): (s: set<nat>)
    ensures |s| == n
    ensures forall i: nat :: i in s <==> i < n
  {
    if n == 0 then {} else Range(n - 1) + {n - 1}
  }

  /** No element occurs twice. */
  predicate Distinct<T(==)>(s: seq<T>)
  {
    forall i, j | 0 <= i < j < |s| :: s[i] != s[j]
  }

  /** The elements of a sequence, as a set. */
  function Elems<T>(s: seq<T>): set<T>
  {
    set i | 0 <= i < |s| :: s[i]
  }

  /** A sequence without repetitions has as many elements as its set. */
  lemma {:induction false} DistinctCard<T>(s: seq<T>)
    requires Distinct(s)
    ensures |Elems(s)| == |s|
  {
    if |s| > 0 {
      var t := s[..|s| - 1];
      assert Distinct(t);
      DistinctCard(t);
      assert Elems(s) == Elems(t) + {s[|s| - 1]};
      assert s[|s| - 1] !in Elems(t);
    }
  }

  /** Pigeonhole: a sequence of distinct naturals below n has at most n entries. */
  lemma DistinctBelow(s: seq<nat>, n: nat)
    requires Distinct(s)
    requires forall i | 0 <= i < |s| :: s[i] < n
    ensures |s| <= n
  {
    DistinctCard(s);
    assert Elems(s) <= Range(n);
    SubsetCard(Elems(s), Range(n));
  }

  lemma SubsetCard<T>(a: set<T>, b: set<T>)
    requires a <= b
    ensures |a| <= |b|
  {
    assert b == a + (b - a);
  }

  /** Number of unmarked vertices. */
  function Unmarked(m: seq<bool>): nat
  {
    if |m| == 0 then 0 else (if m[0] then 0 else 1) + Unmarked(m[1..])
  }

  /** Marking more vertices never increases the count of unmarked ones, and
      marking a new one decreases it. */
  lemma {:induction false} UnmarkedLess(m: seq<bool>, m': seq<bool>)
    requires |m| == |m'| && forall i | 0 <= i < |m| :: m[i] ==> m'[i]
    ensures Unmarked(m') <= Unmarked(m)
    ensures (exists i | 0 <= i < |m| :: !m[i] && m'[i]) ==> Unmarked(m') < Unmarked(m)
  {
    if |m| > 0 {
      UnmarkedLess(m[1..], m'[1..]);
      if exists i | 0 <= i < |m| :: !m[i] && m'[i] {
        var i :| 0 <= i < |m| && !m[i] && m'[i];
        if i > 0 {
          assert !m[1..][i - 1] && m'[1..][i - 1];
        }
      }
    }
  }
}
