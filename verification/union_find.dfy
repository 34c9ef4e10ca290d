/** The union-find engine: five strategies over one state record.

    The state is the parent vector `ids`, the class counter `cnt` and, for the
    two weighted strategies, the size vector `cnts`.  Every strategy keeps the
    parent vector a forest whose roots are the fixed points `ids[r] == r`; the
    class of an element is the root its parent chain ends in.  The contracts
    are stated against that ghost forest. */
module UnionFind {
  import opened Common

  /** One tag per C++ class of the engine. */
  datatype Variant =
    | QuickFind
    | QuickUnion
    | QuickUnionPathCompression
    | WeightedQuickUnion
    | WeightedQuickUnionPathCompression

  /** Union by size decides which root survives a merge. */
  predicate Weighted(v: Variant)
  {
    v == WeightedQuickUnion || v == WeightedQuickUnionPathCompression
  }

  /** `find` halves the path it walks. */
  predicate Halving(v: Variant)
  {
    v == QuickUnionPathCompression || v == WeightedQuickUnionPathCompression
  }

  /** The label each strategy reports through `name()`. */
  function Name(v: Variant): string
  {
    match v
    case QuickFind => "quick find"
    case QuickUnion => "quick union"
    case QuickUnionPathCompression => "quick union with path compression"
    case WeightedQuickUnion => "weighted quick union"
    case WeightedQuickUnionPathCompression => "weighted quick union with path compression"
  }

  /** `cnts` is empty for the strategies that have no size vector. */
  datatype UF = UF(variant: Variant, ids: seq<nat>, cnts: seq<nat>, cnt: nat)

  // ---------------------------------------------------------------------
  // The ghost forest
  // ---------------------------------------------------------------------

  /** A rank that strictly decreases from every non-root to its parent:
      a witness that parent chains are finite. */
  ghost predicate Ranking(ids: seq<nat>, rank: seq<nat>)
  {
    && |rank| == |ids|
    && forall x | 0 <= x < |ids| :: ids[x] < |ids| && (ids[x] != x ==> rank[ids[x]] < rank[x])
  }

  /** The parent vector is an acyclic forest. */
  ghost predicate Forest(ids: seq<nat>)
  {
    exists rank :: Ranking(ids, rank)
  }

  ghost function RootBy(ids: seq<nat>, rank: seq<nat>, x: nat): (r: nat)
    requires Ranking(ids, rank) && x < |ids|
    ensures r < |ids| && ids[r] == r
    decreases rank[x]
  {
    if ids[x] == x then x else RootBy(ids, rank, ids[x])
  }

  /** The root in which x's parent chain ends. */
  ghost function Root(ids: seq<nat>, x: nat): (r: nat)
    requires Forest(ids) && x < |ids|
    ensures r < |ids| && ids[r] == r
  {
    var rank :| Ranking(ids, rank);
    RootBy(ids, rank, x)
  }

  lemma {:induction false} RootByIndependent(ids: seq<nat>, r1: seq<nat>, r2: seq<nat>, x: nat)
    requires Ranking(ids, r1) && Ranking(ids, r2) && x < |ids|
    ensures RootBy(ids, r1, x) == RootBy(ids, r2, x)
    decreases r1[x]
  {
    if ids[x] != x {
      RootByIndependent(ids, r1, r2, ids[x]);
    }
  }

  /** Any ranking computes the same roots. */
  lemma RootIsRootBy(ids: seq<nat>, rank: seq<nat>, x: nat)
    requires Ranking(ids, rank) && x < |ids|
    ensures Root(ids, x) == RootBy(ids, rank, x)
  {
    var r :| Ranking(ids, r) && Root(ids, x) == RootBy(ids, r, x);
    RootByIndependent(ids, r, rank, x);
  }

  /** A root is its own root, and a parent has the same root as its child. */
  lemma RootStep(ids: seq<nat>, x: nat)
    requires Forest(ids) && x < |ids|
    ensures ids[x] < |ids| && Root(ids, x) == Root(ids, ids[x])
    ensures ids[x] == x <==> Root(ids, x) == x
  {
    var rank :| Ranking(ids, rank);
    RootIsRootBy(ids, rank, x);
    RootIsRootBy(ids, rank, ids[x]);
  }

  /** The roots of the forest. */
  ghost function Roots(ids: seq<nat>): set<nat>
  {
    set r: nat | r < |ids| && ids[r] == r
  }

  /** The elements whose root is r. */
  ghost function Class(ids: seq<nat>, r: nat): set<nat>
    requires Forest(ids)
  {
    set x: nat | x < |ids| && Root(ids, x) == r
  }

  /** Quick-find's shape: every id is a root. */
  ghost predicate Flat(ids: seq<nat>)
  {
    forall x | 0 <= x < |ids| :: ids[x] < |ids| && ids[ids[x]] == ids[x]
  }

  /** In a flat vector the id of an element is its root. */
  lemma FlatRoot(ids: seq<nat>)
    requires Flat(ids)
    ensures Forest(ids)
    ensures forall x: nat | x < |ids| :: Root(ids, x) == ids[x]
  {
    var rank := seq(|ids|, i requires 0 <= i < |ids| => if ids[i] == i then 0 else 1);
    assert Ranking(ids, rank);
    forall x: nat | x < |ids|
      ensures Root(ids, x) == ids[x]
    {
      RootStep(ids, x);
      RootStep(ids, ids[x]);
    }
  }

  /** The invariant every strategy keeps. */
  ghost predicate Valid(u: UF)
  {
    && Forest(u.ids)
    && u.cnt == |Roots(u.ids)|
    && (u.variant == QuickFind ==> Flat(u.ids))
    && (if Weighted(u.variant) then
          && |u.cnts| == |u.ids|
          && forall r: nat | r < |u.ids| && u.ids[r] == r :: u.cnts[r] == |Class(u.ids, r)|
        else u.cnts == [])
  }

  /** p and q are in one class. */
  ghost predicate SameClass(u: UF, p: nat, q: nat)
    requires Forest(u.ids) && p < |u.ids| && q < |u.ids|
  {
    Root(u.ids, p) == Root(u.ids, q)
  }

  /** The relation obtained from u's classes by merging p's class with q's. */
  ghost predicate Joined(u: UF, p: nat, q: nat, x: nat, y: nat)
    requires Forest(u.ids) && p < |u.ids| && q < |u.ids| && x < |u.ids| && y < |u.ids|
  {
    || SameClass(u, x, y)
    || (SameClass(u, x, p) && SameClass(u, q, y))
    || (SameClass(u, x, q) && SameClass(u, p, y))
  }

  // ---------------------------------------------------------------------
  // Construction
  // ---------------------------------------------------------------------

  /** `union_find(N)`: N singletons, each its own id; the weighted
      strategies start every size at 1. */
  function Init(v: Variant, n: nat): (u: UF)
    ensures Valid(u) && u.variant == v && |u.ids| == n && u.cnt == n
    ensures forall i | 0 <= i < n :: u.ids[i] == i
    ensures forall x: nat, y: nat | x < n && y < n :: SameClass(u, x, y) <==> x == y
  {
    var ids := seq(n, i requires 0 <= i < n => i);
    InitValid(v, ids);
    UF(v, ids, if Weighted(v) then seq(n, i => 1) else [], n)
  }

  lemma InitValid(v: Variant, ids: seq<nat>)
    requires forall i | 0 <= i < |ids| :: ids[i] == i
    ensures Flat(ids) && Forest(ids)
    ensures forall x: nat | x < |ids| :: Root(ids, x) == x
    ensures Roots(ids) == Range(|ids|)
    ensures forall r: nat | r < |ids| :: Class(ids, r) == {r}
  {
    FlatRoot(ids);
    forall r: nat | r < |ids|
      ensures Class(ids, r) == {r}
    {
    }
  }

  // ---------------------------------------------------------------------
  // Linking two roots and halving a path
  // ---------------------------------------------------------------------

  /** Hanging root a under root b keeps a forest and sends exactly a's class to b. */
  lemma Link(ids: seq<nat>, a: nat, b: nat)
    requires Forest(ids) && a < |ids| && b < |ids| && ids[a] == a && ids[b] == b && a != b
    ensures Forest(ids[a := b])
    ensures forall x: nat | x < |ids| ::
      Root(ids[a := b], x) == if Root(ids, x) == a then b else Root(ids, x)
  {
    var ids' := ids[a := b];
    var rank :| Ranking(ids, rank);
    var rank' := seq(|ids|, i requires 0 <= i < |ids| =>
      if RootBy(ids, rank, i) == a then rank[i] + rank[b] + 1 else rank[i]);
    forall x | 0 <= x < |ids|
      ensures ids'[x] < |ids'| && (ids'[x] != x ==> rank'[ids'[x]] < rank'[x])
    {
      if x != a && ids[x] != x {
        assert RootBy(ids, rank, x) == RootBy(ids, rank, ids[x]);
      }
    }
    assert Ranking(ids', rank');
    forall x: nat | x < |ids|
      ensures Root(ids', x) == if Root(ids, x) == a then b else Root(ids, x)
    {
      LinkRootBy(ids, rank, rank', a, b, x);
      RootIsRootBy(ids, rank, x);
      RootIsRootBy(ids', rank', x);
    }
  }

  lemma {:induction false} LinkRootBy(ids: seq<nat>, rank: seq<nat>, rank': seq<nat>, a: nat, b: nat, x: nat)
    requires Ranking(ids, rank) && a < |ids| && b < |ids| && ids[a] == a && ids[b] == b && a != b
    requires Ranking(ids[a := b], rank') && x < |ids|
    ensures RootBy(ids[a := b], rank', x) == if RootBy(ids, rank, x) == a then b else RootBy(ids, rank, x)
    decreases rank[x]
  {
    var ids' := ids[a := b];
    if ids[x] != x {
      LinkRootBy(ids, rank, rank', a, b, ids[x]);
    } else if x == a {
      assert RootBy(ids', rank', x) == RootBy(ids', rank', b);
    }
  }

  /** After linking, a has left the roots and the classes of a and b are one. */
  lemma LinkCounts(ids: seq<nat>, a: nat, b: nat)
    requires Forest(ids) && a < |ids| && b < |ids| && ids[a] == a && ids[b] == b && a != b
    ensures Forest(ids[a := b])
    ensures Roots(ids[a := b]) == Roots(ids) - {a} && a in Roots(ids)
    ensures Class(ids[a := b], b) == Class(ids, a) + Class(ids, b)
    ensures Class(ids, a) !! Class(ids, b)
    ensures forall r: nat | r != a && r != b :: Class(ids[a := b], r) == Class(ids, r)
  {
    Link(ids, a, b);
    var ids' := ids[a := b];
    assert Roots(ids') == Roots(ids) - {a};
    forall r: nat | r != a && r != b
      ensures Class(ids', r) == Class(ids, r)
    {
    }
  }

  /** `ids[p] = ids[ids[p]]` changes no element's root. */
  lemma Halve(ids: seq<nat>, rank: seq<nat>, p: nat)
    requires Ranking(ids, rank) && p < |ids| && ids[p] != p
    ensures Ranking(ids[p := ids[ids[p]]], rank)
    ensures forall x: nat | x < |ids| :: RootBy(ids[p := ids[ids[p]]], rank, x) == RootBy(ids, rank, x)
    ensures forall x | 0 <= x < |ids| :: ids[p := ids[ids[p]]][x] == x <==> ids[x] == x
  {
    var ids' := ids[p := ids[ids[p]]];
    assert Ranking(ids', rank);
    forall x: nat | x < |ids|
      ensures RootBy(ids', rank, x) == RootBy(ids, rank, x)
    {
      HalveRootBy(ids, rank, p, x);
    }
  }

  lemma {:induction false} HalveRootBy(ids: seq<nat>, rank: seq<nat>, p: nat, x: nat)
    requires Ranking(ids, rank) && p < |ids| && ids[p] != p
    requires Ranking(ids[p := ids[ids[p]]], rank) && x < |ids|
    ensures RootBy(ids[p := ids[ids[p]]], rank, x) == RootBy(ids, rank, x)
    decreases rank[x]
  {
    var ids' := ids[p := ids[ids[p]]];
    if x == p {
      HalveRootBy(ids, rank, p, ids[ids[p]]);
      assert RootBy(ids, rank, ids[ids[p]]) == RootBy(ids, rank, ids[p]);
    } else if ids[x] != x {
      HalveRootBy(ids, rank, p, ids[x]);
    }
  }

  /** Two vectors with the same roots have the same classes and root sets. */
  lemma SameRootsSameClasses(ids: seq<nat>, ids': seq<nat>)
    requires Forest(ids) && Forest(ids') && |ids'| == |ids|
    requires forall x: nat | x < |ids| :: Root(ids', x) == Root(ids, x)
    ensures Roots(ids') == Roots(ids)
    ensures forall r: nat :: Class(ids', r) == Class(ids, r)
  {
    forall x: nat | x < |ids|
      ensures ids'[x] == x <==> ids[x] == x
    {
      RootStep(ids, x);
      RootStep(ids', x);
    }
    assert Roots(ids') == Roots(ids);
    forall r: nat
      ensures Class(ids', r) == Class(ids, r)
    {
    }
  }

  /** Re-pointing the class of a at b merges the classes of p and q when
      {a, b} are their roots. */
  lemma RelinkJoins(u: UF, u': UF, p: nat, q: nat, a: nat, b: nat)
    requires Forest(u.ids) && Forest(u'.ids) && |u'.ids| == |u.ids|
    requires p < |u.ids| && q < |u.ids|
    requires (a == Root(u.ids, p) && b == Root(u.ids, q)) || (a == Root(u.ids, q) && b == Root(u.ids, p))
    requires forall x: nat | x < |u.ids| :: Root(u'.ids, x) == if Root(u.ids, x) == a then b else Root(u.ids, x)
    ensures forall x: nat, y: nat | x < |u.ids| && y < |u.ids| :: SameClass(u', x, y) <==> Joined(u, p, q, x, y)
  {
  }

  // ---------------------------------------------------------------------
  // Operations
  // ---------------------------------------------------------------------

  /** `find(p)`: p's representative.  Quick-find reads `ids[p]`; the other
      strategies walk the parent chain, the halving ones pointing every visited
      node at its grandparent on the way.  No element changes root. */
  method Find(u: UF, p: nat) returns (r: nat, u': UF)
    requires Valid(u) && p < |u.ids|
    ensures r == Root(u.ids, p) && u.ids[r] == r
    ensures Valid(u') && u'.variant == u.variant && |u'.ids| == |u.ids|
    ensures u'.cnt == u.cnt && u'.cnts == u.cnts
    ensures forall x: nat | x < |u.ids| :: Root(u'.ids, x) == Root(u.ids, x)
    ensures !Halving(u.variant) ==> u' == u
  {
    if u.variant == QuickFind {
      FlatRoot(u.ids);
      return u.ids[p], u;
    }
    ghost var rank :| Ranking(u.ids, rank);
    var ids := u.ids;
    var x: nat := p;
    while x != ids[x]
      invariant Ranking(ids, rank) && |ids| == |u.ids| && x < |ids|
      invariant RootBy(ids, rank, x) == RootBy(u.ids, rank, p)
      invariant forall y: nat | y < |ids| :: RootBy(ids, rank, y) == RootBy(u.ids, rank, y)
      invariant !Halving(u.variant) ==> ids == u.ids
      decreases rank[x]
    {
      if Halving(u.variant) {
        Halve(ids, rank, x);
        ids := ids[x := ids[ids[x]]];
      }
      x := ids[x];
    }
    r := x;
    u' := u.(ids := ids);
    assert Forest(ids);
    RootIsRootBy(u.ids, rank, p);
    forall y: nat | y < |ids|
      ensures Root(ids, y) == Root(u.ids, y)
    {
      RootIsRootBy(ids, rank, y);
      RootIsRootBy(u.ids, rank, y);
    }
    SameRootsSameClasses(u.ids, ids);
    assert forall y | 0 <= y < |ids| :: ids[y] == y ==> y in Roots(ids) && y in Roots(u.ids);
  }

  /** `connected(p, q)`: whether p and q share a representative (the two
      finds may halve paths). */
  method Connected(u: UF, p: nat, q: nat) returns (b: bool, u': UF)
    requires Valid(u) && p < |u.ids| && q < |u.ids|
    ensures b <==> SameClass(u, p, q)
    ensures Valid(u') && u'.variant == u.variant && |u'.ids| == |u.ids|
    ensures u'.cnt == u.cnt && u'.cnts == u.cnts
    ensures forall x: nat | x < |u.ids| :: Root(u'.ids, x) == Root(u.ids, x)
  {
    var rp, u1 := Find(u, p);
    var rq, u2 := Find(u1, q);
    return rp == rq, u2;
  }

  /** What `connect(p, q)` promises about the state u' it leaves behind.  A
      pair already in one class leaves the classes and the count as they
      were; otherwise the two classes become one and the count drops by one.
      The strategies differ in which ids change. */
  ghost predicate ConnectsTo(u: UF, p: nat, q: nat, u': UF)
    requires Valid(u) && p < |u.ids| && q < |u.ids|
  {
    && Valid(u') && u'.variant == u.variant && |u'.ids| == |u.ids|
    && (forall x: nat, y: nat | x < |u.ids| && y < |u.ids| :: SameClass(u', x, y) <==> Joined(u, p, q, x, y))
    && u'.cnt == (if SameClass(u, p, q) then u.cnt else u.cnt - 1)
    && (SameClass(u, p, q) ==>
         forall x: nat, y: nat | x < |u.ids| && y < |u.ids| :: SameClass(u', x, y) == SameClass(u, x, y))
    // an already-joined pair writes no size, and no id unless the finds halve
    && (SameClass(u, p, q) ==> u'.cnts == u.cnts && (!Halving(u.variant) ==> u'.ids == u.ids))
    // quick-find relabels exactly the elements whose id was p's id
    && (u.variant == QuickFind ==>
         forall x | 0 <= x < |u.ids| :: u'.ids[x] == if u.ids[x] == u.ids[p] then u.ids[q] else u.ids[x])
    // the unweighted quick-unions hang p's root under q's root
    && (!SameClass(u, p, q) && u.variant in {QuickUnion, QuickUnionPathCompression} ==>
         u'.ids[Root(u.ids, p)] == Root(u.ids, q))
    && (!SameClass(u, p, q) && u.variant == QuickUnion ==>
         u'.ids == u.ids[Root(u.ids, p) := Root(u.ids, q)])
    // union by size: the smaller root goes under the larger, q's under p's on a
    // tie; only the surviving root's size changes, and without halving only
    // the linked root's id
    && (!SameClass(u, p, q) && Weighted(u.variant) ==>
         var a, b := Root(u.ids, p), Root(u.ids, q);
         if u.cnts[a] < u.cnts[b] then
           && u'.ids[a] == b && u'.cnts == u.cnts[b := u.cnts[a] + u.cnts[b]]
           && (u.variant == WeightedQuickUnion ==> u'.ids == u.ids[a := b])
         else
           && u'.ids[b] == a && u'.cnts == u.cnts[a := u.cnts[a] + u.cnts[b]]
           && (u.variant == WeightedQuickUnion ==> u'.ids == u.ids[b := a]))
  }

  /** `connect(p, q)`, dispatched on the strategy. */
  method Connect(u: UF, p: nat, q: nat) returns (u': UF)
    requires Valid(u) && p < |u.ids| && q < |u.ids|
    ensures ConnectsTo(u, p, q, u')
  {
    if u.variant == QuickFind {
      u' := ConnectQuickFind(u, p, q);
    } else if Weighted(u.variant) {
      u' := ConnectWeighted(u, p, q);
    } else {
      u' := ConnectQuickUnion(u, p, q);
    }
  }

  /** The outcome of an operation that reads `ids` through `at`: the
      `std::out_of_range` thrown for an id not below N, or the result. */
  datatype Checked<T> = OutOfRange | Ok(value: T)

  /** `find(p)` for any p: every strategy reads `ids.at(p)` first, so an id
      not below N throws before anything changes. */
  method FindAt(u: UF, p: nat) returns (r: Checked<(nat, UF)>)
    requires Valid(u)
    ensures r.OutOfRange? <==> p >= |u.ids|
    ensures r.Ok? ==>
      && p < |u.ids| && r.value.0 == Root(u.ids, p)
      && Valid(r.value.1) && |r.value.1.ids| == |u.ids| && r.value.1.cnt == u.cnt
      && forall x: nat | x < |u.ids| :: Root(r.value.1.ids, x) == Root(u.ids, x)
  {
    if p >= |u.ids| {
      return OutOfRange;
    }
    var x, u' := Find(u, p);
    return Ok((x, u'));
  }

  /** `connected(p, q)` for any p and q: throws when either id is not
      below N. */
  method ConnectedAt(u: UF, p: nat, q: nat) returns (r: Checked<(bool, UF)>)
    requires Valid(u)
    ensures r.OutOfRange? <==> p >= |u.ids| || q >= |u.ids|
    ensures r.Ok? ==>
      && p < |u.ids| && q < |u.ids| && (r.value.0 <==> SameClass(u, p, q))
      && Valid(r.value.1) && |r.value.1.ids| == |u.ids| && r.value.1.cnt == u.cnt
  {
    if p >= |u.ids| || q >= |u.ids| {
      return OutOfRange;
    }
    var b, u' := Connected(u, p, q);
    return Ok((b, u'));
  }

  /** `connect(p, q)` for any p and q: throws when either id is not below N,
      and otherwise merges the two classes. */
  method ConnectAt(u: UF, p: nat, q: nat) returns (r: Checked<UF>)
    requires Valid(u)
    ensures r.OutOfRange? <==> p >= |u.ids| || q >= |u.ids|
    ensures r.Ok? ==> p < |u.ids| && q < |u.ids| && ConnectsTo(u, p, q, r.value)
  {
    if p >= |u.ids| || q >= |u.ids| {
      return OutOfRange;
    }
    var u' := Connect(u, p, q);
    return Ok(u');
  }

  /** A `connect` whose two finds meet keeps the state it was given, up to
      the halving the finds did. */
  lemma NoOpConnects(u: UF, u2: UF, p: nat, q: nat)
    requires Valid(u) && p < |u.ids| && q < |u.ids| && SameClass(u, p, q)
    requires Valid(u2) && u2.variant == u.variant && |u2.ids| == |u.ids|
    requires u2.cnt == u.cnt && u2.cnts == u.cnts && (!Halving(u.variant) ==> u2 == u)
    requires forall x: nat | x < |u.ids| :: Root(u2.ids, x) == Root(u.ids, x)
    ensures ConnectsTo(u, p, q, u2)
  {
    if u.variant == QuickFind {
      FlatRoot(u.ids);
    }
  }

  /** A `connect` that links root a under root b, where the strategy's rule
      chose a and b, meets the contract. */
  lemma LinkConnects(u: UF, u': UF, p: nat, q: nat, a: nat, b: nat)
    requires Valid(u) && p < |u.ids| && q < |u.ids| && u.variant != QuickFind && !SameClass(u, p, q)
    requires (a, b) == if Weighted(u.variant) && u.cnts[Root(u.ids, p)] >= u.cnts[Root(u.ids, q)]
      then (Root(u.ids, q), Root(u.ids, p)) else (Root(u.ids, p), Root(u.ids, q))
    requires Valid(u') && u'.variant == u.variant && |u'.ids| == |u.ids| && u'.cnt == u.cnt - 1
    requires u'.ids[a] == b && (!Halving(u.variant) ==> u'.ids == u.ids[a := b])
    requires forall x: nat | x < |u.ids| :: Root(u'.ids, x) == if Root(u.ids, x) == a then b else Root(u.ids, x)
    requires Weighted(u.variant) ==> u'.cnts == u.cnts[b := u.cnts[a] + u.cnts[b]]
    ensures ConnectsTo(u, p, q, u')
  {
    RelinkJoins(u, u', p, q, a, b);
  }

  /** Quick-find's `connect`: relabel p's class with q's id. */
  method ConnectQuickFind(u: UF, p: nat, q: nat) returns (u': UF)
    requires Valid(u) && p < |u.ids| && q < |u.ids| && u.variant == QuickFind
    ensures ConnectsTo(u, p, q, u')
  {
    FlatRoot(u.ids);
    var idp, u1 := Find(u, p);
    var idq, u2 := Find(u1, q);
    if idp == idq {
      NoOpConnects(u, u2, p, q);
      return u2;
    }
    u' := Relabel(u, idp, idq);
    RelinkJoins(u, u', p, q, idp, idq);
  }

  /** The `connect` of quick-union and of quick-union with path halving:
      p's root goes under q's root. */
  method ConnectQuickUnion(u: UF, p: nat, q: nat) returns (u': UF)
    requires Valid(u) && p < |u.ids| && q < |u.ids|
    requires u.variant == QuickUnion || u.variant == QuickUnionPathCompression
    ensures ConnectsTo(u, p, q, u')
  {
    var idp, u1 := Find(u, p);
    var idq, u2 := Find(u1, q);
    if idp == idq {
      NoOpConnects(u, u2, p, q);
      return u2;
    }
    u' := LinkUnder(u, u2, idp, idq);
    LinkConnects(u, u', p, q, idp, idq);
  }

  /** The `connect` of the two weighted strategies: the root of the smaller
      tree goes under the other root, q's under p's on a tie. */
  method ConnectWeighted(u: UF, p: nat, q: nat) returns (u': UF)
    requires Valid(u) && p < |u.ids| && q < |u.ids| && Weighted(u.variant)
    ensures ConnectsTo(u, p, q, u')
  {
    var idp, u1 := Find(u, p);
    var idq, u2 := Find(u1, q);
    if idp == idq {
      NoOpConnects(u, u2, p, q);
      return u2;
    }
    if u2.cnts[idp] < u2.cnts[idq] {
      u' := LinkUnder(u, u2, idp, idq);
      LinkConnects(u, u', p, q, idp, idq);
    } else {
      u' := LinkUnder(u, u2, idq, idp);
      LinkConnects(u, u', p, q, idq, idp);
    }
  }

  /** Quick-find's merge: every id equal to a becomes b. */
  method Relabel(u: UF, a: nat, b: nat) returns (u': UF)
    requires Valid(u) && u.variant == QuickFind
    requires a < |u.ids| && b < |u.ids| && a != b && u.ids[a] == a && u.ids[b] == b
    ensures Valid(u') && u'.variant == u.variant && |u'.ids| == |u.ids| && u'.cnt == u.cnt - 1
    ensures forall x | 0 <= x < |u.ids| :: u'.ids[x] == if u.ids[x] == a then b else u.ids[x]
    ensures forall x: nat | x < |u.ids| :: Root(u'.ids, x) == if Root(u.ids, x) == a then b else Root(u.ids, x)
  {
    var ids := u.ids;
    var i := 0;
    while i < |ids|
      invariant |ids| == |u.ids| && i <= |ids|
      invariant forall j | 0 <= j < i :: ids[j] == if u.ids[j] == a then b else u.ids[j]
      invariant forall j | i <= j < |ids| :: ids[j] == u.ids[j]
    {
      if ids[i] == a {
        ids := ids[i := b];
      }
      i := i + 1;
    }
    QuickFindRelabel(u.ids, ids, a, b);
    u' := u.(ids := ids, cnt := u.cnt - 1);
  }

  /** Linking root a under root b keeps the state valid, with b's size
      growing by a's for the weighted strategies. */
  lemma LinkValid(u: UF, a: nat, b: nat)
    requires Valid(u) && u.variant != QuickFind
    requires a < |u.ids| && b < |u.ids| && a != b && u.ids[a] == a && u.ids[b] == b
    ensures u.cnt > 0 && Valid(UF(u.variant, u.ids[a := b],
      if Weighted(u.variant) then u.cnts[b := u.cnts[a] + u.cnts[b]] else u.cnts, u.cnt - 1))
  {
    LinkCounts(u.ids, a, b);
    var ids := u.ids[a := b];
    if Weighted(u.variant) {
      var cnts := u.cnts[b := u.cnts[a] + u.cnts[b]];
      forall r: nat | r < |ids| && ids[r] == r
        ensures cnts[r] == |Class(ids, r)|
      {
        if r == b {
          assert |Class(ids, b)| == |Class(u.ids, a)| + |Class(u.ids, b)|;
        }
      }
    }
  }

  /** `ids[a] = b` for two distinct roots of u2 (u2 having the roots of u),
      adding a's size to b's for the weighted strategies. */
  method LinkUnder(ghost u: UF, u2: UF, a: nat, b: nat) returns (u': UF)
    requires Valid(u) && Valid(u2) && u2.variant == u.variant && |u2.ids| == |u.ids|
    requires u2.cnt == u.cnt && u2.cnts == u.cnts && u.variant != QuickFind
    requires forall x: nat | x < |u.ids| :: Root(u2.ids, x) == Root(u.ids, x)
    requires a < |u.ids| && b < |u.ids| && a != b && u.ids[a] == a && u.ids[b] == b
    ensures Valid(u') && u'.variant == u.variant && |u'.ids| == |u.ids| && u'.cnt == u.cnt - 1
    ensures u'.ids == u2.ids[a := b]
    ensures forall x: nat | x < |u.ids| :: Root(u'.ids, x) == if Root(u.ids, x) == a then b else Root(u.ids, x)
    ensures Weighted(u.variant) ==> u'.cnts == u.cnts[b := u.cnts[a] + u.cnts[b]]
    ensures !Weighted(u.variant) ==> u'.cnts == []
  {
    RootStep(u.ids, a);
    RootStep(u.ids, b);
    RootStep(u2.ids, a);
    RootStep(u2.ids, b);
    Link(u2.ids, a, b);
    LinkValid(u2, a, b);
    var ids := u2.ids[a := b];
    if Weighted(u2.variant) {
      u' := UF(u2.variant, ids, u2.cnts[b := u2.cnts[a] + u2.cnts[b]], u2.cnt - 1);
    } else {
      u' := UF(u2.variant, ids, u2.cnts, u2.cnt - 1);
    }
  }

  /** Quick-find's relabelling keeps the vector flat and re-points a's class at b. */
  lemma QuickFindRelabel(ids: seq<nat>, ids': seq<nat>, a: nat, b: nat)
    requires Flat(ids) && a < |ids| && b < |ids| && ids[a] == a && ids[b] == b && a != b
    requires |ids'| == |ids|
    requires forall j | 0 <= j < |ids| :: ids'[j] == if ids[j] == a then b else ids[j]
    ensures Flat(ids') && Forest(ids) && Forest(ids')
    ensures forall x: nat | x < |ids| :: Root(ids', x) == if Root(ids, x) == a then b else Root(ids, x)
    ensures Roots(ids') == Roots(ids) - {a} && a in Roots(ids)
  {
    FlatRoot(ids);
    assert Flat(ids');
    FlatRoot(ids');
    assert Roots(ids') == Roots(ids) - {a};
  }

  /** `count()`: the number of classes, which is the number of roots. */
  function Count(u: UF): (c: nat)
    requires Valid(u)
    ensures c == |Roots(u.ids)|
  {
    u.cnt
  }

  // ---------------------------------------------------------------------
  // A strategy-independent reference semantics
  // ---------------------------------------------------------------------

  /** The equivalence generated by the pairs `ops`, built one merge at a
      time: x and y are related after the last pair (p, q) when they were
      already related, or one was related to p and the other to q. */
  ghost predicate SpecConnected(ops: seq<(nat, nat)>, x: nat, y: nat)
    decreases |ops|
  {
    if |ops| == 0 then x == y
    else
      var pre, p, q := ops[..|ops| - 1], ops[|ops| - 1].0, ops[|ops| - 1].1;
      || SpecConnected(pre, x, y)
      || (SpecConnected(pre, x, p) && SpecConnected(pre, q, y))
      || (SpecConnected(pre, x, q) && SpecConnected(pre, p, y))
  }

  /** N minus the number of pairs that merged two different classes. */
  ghost function SpecCount(n: nat, ops: seq<(nat, nat)>): int
    decreases |ops|
  {
    if |ops| == 0 then n
    else
      var pre, p, q := ops[..|ops| - 1], ops[|ops| - 1].0, ops[|ops| - 1].1;
      SpecCount(n, pre) - if SpecConnected(pre, p, q) then 0 else 1
  }

  ghost predicate OpsInRange(n: nat, ops: seq<(nat, nat)>)
  {
    forall i | 0 <= i < |ops| :: ops[i].0 < n && ops[i].1 < n
  }

  /** The reference relation is an equivalence after any sequence of pairs. */
  lemma {:induction false} SpecEquivalence(ops: seq<(nat, nat)>)
    ensures forall x: nat :: SpecConnected(ops, x, x)
    ensures forall x: nat, y: nat :: SpecConnected(ops, x, y) ==> SpecConnected(ops, y, x)
    ensures forall x: nat, y: nat, z: nat ::
      SpecConnected(ops, x, y) && SpecConnected(ops, y, z) ==> SpecConnected(ops, x, z)
    decreases |ops|
  {
    if |ops| > 0 {
      SpecEquivalence(ops[..|ops| - 1]);
    }
  }

  /** Appending pairs never separates two related elements, and a pair just
      appended is related. */
  lemma {:induction false} SpecGrows(ops: seq<(nat, nat)>, more: seq<(nat, nat)>, x: nat, y: nat)
    requires SpecConnected(ops, x, y)
    ensures SpecConnected(ops + more, x, y)
    decreases |more|
  {
    if |more| > 0 {
      var ops' := ops + more;
      assert ops'[..|ops'| - 1] == ops + more[..|more| - 1];
      SpecGrows(ops, more[..|more| - 1], x, y);
    } else {
      assert ops + more == ops;
    }
  }

  lemma SpecPairJoined(ops: seq<(nat, nat)>, p: nat, q: nat)
    ensures SpecConnected(ops + [(p, q)], p, q)
  {
    var ops' := ops + [(p, q)];
    assert ops'[..|ops'| - 1] == ops;
    SpecEquivalence(ops);
  }

  /** u's classes and count are those the reference gives for `ops`. */
  ghost predicate Tracks(u: UF, ops: seq<(nat, nat)>)
  {
    && Valid(u)
    && (forall x: nat, y: nat | x < |u.ids| && y < |u.ids| :: SameClass(u, x, y) <==> SpecConnected(ops, x, y))
    && u.cnt == SpecCount(|u.ids|, ops)
  }

  /** A `connect(p, q)` extends the tracked pairs by (p, q). */
  lemma TracksStep(u: UF, u': UF, ops: seq<(nat, nat)>, p: nat, q: nat)
    requires Tracks(u, ops) && p < |u.ids| && q < |u.ids|
    requires Valid(u') && |u'.ids| == |u.ids|
    requires forall x: nat, y: nat | x < |u.ids| && y < |u.ids| :: SameClass(u', x, y) <==> Joined(u, p, q, x, y)
    requires u'.cnt == if SameClass(u, p, q) then u.cnt else u.cnt - 1
    ensures Tracks(u', ops + [(p, q)])
  {
    var ops' := ops + [(p, q)];
    assert ops'[..|ops'| - 1] == ops;
  }

  /** `connect(p, q)` on an instance that tracks `ops` tracks `ops` followed
      by (p, q). */
  method ConnectTracked(u: UF, ghost ops: seq<(nat, nat)>, p: nat, q: nat) returns (u': UF)
    requires Tracks(u, ops) && p < |u.ids| && q < |u.ids|
    ensures Tracks(u', ops + [(p, q)]) && |u'.ids| == |u.ids| && u'.variant == u.variant
  {
    u' := Connect(u, p, q);
    TracksStep(u, u', ops, p, q);
  }

  /** Applies `connect` to each pair in turn, starting from N singletons.
      Whatever the strategy, the classes and the count are those of the
      reference semantics. */
  method Run(v: Variant, n: nat, ops: seq<(nat, nat)>) returns (u: UF)
    requires OpsInRange(n, ops)
    ensures Valid(u) && u.variant == v && |u.ids| == n
    ensures forall x: nat, y: nat | x < n && y < n :: SameClass(u, x, y) <==> SpecConnected(ops, x, y)
    ensures u.cnt == SpecCount(n, ops)
  {
    u := Init(v, n);
    assert Tracks(u, ops[..0]);
    for i := 0 to |ops|
      invariant Tracks(u, ops[..i]) && u.variant == v && |u.ids| == n
    {
      var u' := Connect(u, ops[i].0, ops[i].1);
      TracksStep(u, u', ops[..i], ops[i].0, ops[i].1);
      assert ops[..i] + [ops[i]] == ops[..i + 1];
      u := u';
    }
    assert ops[..|ops|] == ops;
  }

  /** Any two strategies, run on the same pairs, agree on every
      `connected` answer and on `count()`. */
  method RunAgree(v: Variant, w: Variant, n: nat, ops: seq<(nat, nat)>) returns (u: UF, u': UF)
    requires OpsInRange(n, ops)
    ensures u.variant == v && u'.variant == w && Valid(u) && Valid(u')
    ensures |u.ids| == n && |u'.ids| == n && u.cnt == u'.cnt
    ensures forall x: nat, y: nat | x < n && y < n :: SameClass(u, x, y) <==> SameClass(u', x, y)
  {
    u := Run(v, n, ops);
    u' := Run(w, n, ops);
  }
}
