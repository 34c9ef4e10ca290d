/** `connected_comps_t`: one depth-first search from every vertex not yet
    marked, each search stamping the vertices it marks with the number of
    searches begun before it. */
module Components {
  import opened Common
  import opened Graphs

  /** The marks, the component id of each vertex (None for the `infinity`
      the ids start as) and `ncc`, the number of searches begun. */
  datatype Comps = Comps(marked: seq<bool>, cc: seq<Option<nat>>, count: nat)

  predicate Sized(g: Graph, s: Comps)
  {
    |s.marked| == Vertices(g) && |s.cc| == Vertices(g)
  }

  /** Marks are only added, a marked vertex keeps its id, and the count is
      kept. */
  ghost predicate Grows(s: Comps, s': Comps)
  {
    && |s'.marked| == |s.marked| && |s'.cc| == |s.cc| && s'.count == s.count
    && forall x | 0 <= x < |s.marked| && x < |s.cc| :: s.marked[x] ==> s'.marked[x] && s'.cc[x] == s.cc[x]
  }

  /** Marks v and gives it the current id. */
  function Stamp(s: Comps, v: nat): Comps
    requires v < |s.marked| && v < |s.cc|
  {
    s.(marked := s.marked[v := true], cc := s.cc[v := Some(s.count)])
  }

  /** `dfs(v)` for an unmarked v. */
  function Visit(g: Graph, s: Comps, v: nat): (s': Comps)
    requires Valid(g) && Sized(g, s) && v < Vertices(g) && !s.marked[v]
    ensures Sized(g, s') && Grows(s, s') && s'.marked[v] && s'.cc[v] == Some(s.count)
    decreases Unmarked(s.marked), 0, 0
  {
    var s1 := Stamp(s, v);
    assert !s.marked[v] && s1.marked[v];
    UnmarkedLess(s.marked, s1.marked);
    Loop(g, s1, v, 0)
  }

  /** One iteration of the loop of `dfs(v)`: its i-th neighbour is visited
      unless already marked. */
  function Step(g: Graph, s: Comps, v: nat, i: nat): (s': Comps)
    requires Valid(g) && Sized(g, s) && v < Vertices(g) && s.marked[v] && i < |Adj(g, v)|
    ensures Sized(g, s') && Grows(s, s')
    ensures Adj(g, v)[i] < Vertices(g) && s'.marked[Adj(g, v)[i]]
    decreases Unmarked(s.marked), 1, 0
  {
    var w := Adj(g, v)[i];
    assert w in Adj(g, v);
    if s.marked[w] then s else Visit(g, s, w)
  }

  /** The loop of `dfs(v)` from the i-th neighbour on. */
  function Loop(g: Graph, s: Comps, v: nat, i: nat): (s': Comps)
    requires Valid(g) && Sized(g, s) && v < Vertices(g) && s.marked[v] && i <= |Adj(g, v)|
    ensures Sized(g, s') && Grows(s, s')
    decreases Unmarked(s.marked), 2, |Adj(g, v)| - i
  {
    if i == |Adj(g, v)| then s
    else
      var s1 := Step(g, s, v, i);
      UnmarkedLess(s.marked, s1.marked);
      Loop(g, s1, v, i + 1)
  }

  // ---------------------------------------------------------------------
  // What one search does
  // ---------------------------------------------------------------------

  /** Every vertex s' marks beyond s is reachable from root, carries the
      current id and has all its neighbours marked. */
  ghost predicate NewIn(g: Graph, s: Comps, s': Comps, root: nat)
    requires Sized(g, s) && Sized(g, s')
  {
    forall x | 0 <= x < Vertices(g) && !s.marked[x] && s'.marked[x] ::
      && Reachable(g, root, x) && s'.cc[x] == Some(s.count)
      && forall y | y in Adj(g, x) :: y < Vertices(g) && s'.marked[y]
  }

  lemma {:induction false} VisitFacts(g: Graph, s: Comps, v: nat, root: nat)
    requires Valid(g) && Sized(g, s) && v < Vertices(g) && !s.marked[v] && Reachable(g, root, v)
    ensures NewIn(g, s, Visit(g, s, v), root)
    decreases Unmarked(s.marked), 0, 0
  {
    var s1 := Stamp(s, v);
    assert !s.marked[v] && s1.marked[v];
    UnmarkedLess(s.marked, s1.marked);
    LoopFacts(g, s1, v, 0, root);
    VisitChain(g, s, s1, Visit(g, s, v), v, root);
  }

  lemma {:induction false} StepFacts(g: Graph, s: Comps, v: nat, i: nat, root: nat)
    requires Valid(g) && Sized(g, s) && v < Vertices(g) && s.marked[v] && i < |Adj(g, v)|
    requires Reachable(g, root, v)
    ensures NewIn(g, s, Step(g, s, v, i), root)
    decreases Unmarked(s.marked), 1, 0
  {
    var w := Adj(g, v)[i];
    assert w in Adj(g, v) && Edge(g, v, w);
    if !s.marked[w] {
      ReachStep(g, root, v, w);
      VisitFacts(g, s, w, root);
    }
  }

  /** The loop from the i-th neighbour on also marks every remaining
      neighbour. */
  lemma {:induction false} LoopFacts(g: Graph, s: Comps, v: nat, i: nat, root: nat)
    requires Valid(g) && Sized(g, s) && v < Vertices(g) && s.marked[v] && i <= |Adj(g, v)|
    requires Reachable(g, root, v)
    ensures var s' := Loop(g, s, v, i);
      && NewIn(g, s, s', root)
      && forall j | i <= j < |Adj(g, v)| :: Adj(g, v)[j] < Vertices(g) && s'.marked[Adj(g, v)[j]]
    decreases Unmarked(s.marked), 2, |Adj(g, v)| - i
  {
    if i < |Adj(g, v)| {
      var s1 := Step(g, s, v, i);
      StepFacts(g, s, v, i, root);
      UnmarkedLess(s.marked, s1.marked);
      LoopFacts(g, s1, v, i + 1, root);
      LoopChain(g, s, s1, Loop(g, s1, v, i + 1), v, i, root);
    }
  }

  /** Chains stamping v with the loop over v's neighbours. */
  lemma VisitChain(g: Graph, s: Comps, s1: Comps, s': Comps, v: nat, root: nat)
    requires Sized(g, s) && Sized(g, s') && v < Vertices(g) && !s.marked[v] && s1 == Stamp(s, v)
    requires Reachable(g, root, v) && Grows(s1, s') && NewIn(g, s1, s', root)
    requires forall j | 0 <= j < |Adj(g, v)| :: Adj(g, v)[j] < Vertices(g) && s'.marked[Adj(g, v)[j]]
    ensures NewIn(g, s, s', root)
  {
    assert s1.marked[v] && s1.cc[v] == Some(s.count);
    forall y | y in Adj(g, v)
      ensures y < Vertices(g) && s'.marked[y]
    {
      var j :| 0 <= j < |Adj(g, v)| && Adj(g, v)[j] == y;
    }
  }

  /** Chains one iteration with the rest of the loop. */
  lemma LoopChain(g: Graph, s: Comps, s1: Comps, s': Comps, v: nat, i: nat, root: nat)
    requires Sized(g, s) && Sized(g, s1) && Sized(g, s') && v < Vertices(g) && i < |Adj(g, v)|
    requires Grows(s, s1) && NewIn(g, s, s1, root) && Adj(g, v)[i] < Vertices(g) && s1.marked[Adj(g, v)[i]]
    requires Grows(s1, s') && NewIn(g, s1, s', root)
    requires forall j | i + 1 <= j < |Adj(g, v)| :: Adj(g, v)[j] < Vertices(g) && s'.marked[Adj(g, v)[j]]
    ensures NewIn(g, s, s', root)
    ensures forall j | i <= j < |Adj(g, v)| :: Adj(g, v)[j] < Vertices(g) && s'.marked[Adj(g, v)[j]]
  {
  }

  // ---------------------------------------------------------------------
  // The constructor
  // ---------------------------------------------------------------------

  /** Some marked vertex carries id k. */
  ghost predicate Used(g: Graph, s: Comps, k: nat)
    requires Sized(g, s)
  {
    exists x | 0 <= x < Vertices(g) :: s.marked[x] && s.cc[x] == Some(k)
  }

  /** What holds between searches: marked vertices carry ids below the
      count, every id below the count is used, marked vertices have their
      neighbours marked, and two marked vertices share an id exactly when
      they are connected. */
  ghost predicate Labelled(g: Graph, s: Comps)
  {
    && Sized(g, s)
    && (forall x | 0 <= x < Vertices(g) && s.marked[x] :: s.cc[x].Some? && s.cc[x].value < s.count)
    && (forall k | 0 <= k < s.count :: Used(g, s, k))
    && (forall x | 0 <= x < Vertices(g) && s.marked[x] ::
          forall y | y in Adj(g, x) :: y < Vertices(g) && s.marked[y])
    && (forall x, y | 0 <= x < Vertices(g) && 0 <= y < Vertices(g) && s.marked[x] && s.marked[y] ::
          s.cc[x] == s.cc[y] <==> Reachable(g, x, y))
  }

  /** Components are numbered in the order of their smallest vertices: the
      smallest vertex x of a component, if below v, carries the number of
      components whose smallest vertex is below x. */
  ghost predicate Ordered(g: Graph, s: Comps, v: nat)
    requires Sized(g, s)
  {
    forall x | 0 <= x < v && x < Vertices(g) && Leader(g, x) :: s.cc[x] == Some(Leaders(g, x))
  }

  /** The finished labelling: every vertex has an id below the count, every
      such id is used, and two vertices share an id exactly when they are
      connected; the count is the number of vertices that are the smallest
      of their component, that is, the number of components, and the ids
      follow the order of those smallest vertices. */
  ghost predicate Labelling(g: Graph, s: Comps)
  {
    && Labelled(g, s)
    && (forall x | 0 <= x < Vertices(g) :: s.marked[x])
    && s.count == Leaders(g, Vertices(g))
    && Ordered(g, s, Vertices(g))
  }

  /** `connected_comps_t(g)`. */
  method Compute(g: Graph) returns (s: Comps)
    requires Valid(g)
    ensures Labelling(g, s)
    ensures forall x | 0 <= x < Vertices(g) :: s.cc[x].Some? && s.cc[x].value < s.count
    ensures forall k | 0 <= k < s.count :: Used(g, s, k)
    ensures forall x, y | 0 <= x < Vertices(g) && 0 <= y < Vertices(g) ::
      s.cc[x] == s.cc[y] <==> Reachable(g, x, y)
    ensures s.count == Leaders(g, Vertices(g))
    ensures forall x | 0 <= x < Vertices(g) && Leader(g, x) :: s.cc[x] == Some(Leaders(g, x))
  {
    s := Comps(seq(Vertices(g), _ => false), seq(Vertices(g), _ => None), 0);
    for v := 0 to Vertices(g)
      invariant Labelled(g, s)
      invariant forall x | 0 <= x < Vertices(g) :: s.marked[x] <==> Covered(g, v, x)
      invariant s.count == Leaders(g, v)
      invariant Ordered(g, s, v)
    {
      s := Begin(g, s, v);
    }
    AllCovered(g, s);
  }

  /** Once every vertex is below the bound, every vertex is covered. */
  lemma AllCovered(g: Graph, s: Comps)
    requires Sized(g, s)
    requires forall x | 0 <= x < Vertices(g) :: s.marked[x] <==> Covered(g, Vertices(g), x)
    ensures forall x | 0 <= x < Vertices(g) :: s.marked[x]
  {
    forall x | 0 <= x < Vertices(g)
      ensures s.marked[x]
    {
      ReachRefl(g, x);
    }
  }

  // ---------------------------------------------------------------------
  // The count is the number of components
  // ---------------------------------------------------------------------

  /** x is the smallest vertex of its component. */
  ghost predicate Leader(g: Graph, x: nat)
  {
    forall y | 0 <= y < x :: !Reachable(g, y, x)
  }

  /** The number of leaders below v: one per component whose smallest
      vertex is below v. */
  ghost function Leaders(g: Graph, v: nat): nat
  {
    if v == 0 then 0 else Leaders(g, v - 1) + (if Leader(g, v - 1) then 1 else 0)
  }

  /** x is reachable from a vertex below v. */
  ghost predicate Covered(g: Graph, v: nat, x: nat)
  {
    exists y | 0 <= y < v :: Reachable(g, y, x)
  }

  /** A search from an unmarked v marks exactly what v reaches, so the
      marked vertices are those reachable from a vertex up to v. */
  lemma CoverSearch(g: Graph, s: Comps, v: nat, s1: Comps)
    requires Valid(g) && Sized(g, s) && v < Vertices(g) && !s.marked[v]
    requires forall x | 0 <= x < Vertices(g) :: s.marked[x] <==> Covered(g, v, x)
    requires Sized(g, s1) && Grows(s, s1) && s1.marked[v] && NewIn(g, s, s1, v)
    requires forall x | 0 <= x < Vertices(g) && s.marked[x] ::
      forall y | y in Adj(g, x) :: y < Vertices(g) && s.marked[y]
    ensures forall x | 0 <= x < Vertices(g) :: s1.marked[x] <==> Covered(g, v + 1, x)
    ensures Leader(g, v)
  {
    assert forall x | 0 <= x < Vertices(g) && s1.marked[x] ::
      forall y | y in Adj(g, x) :: y < Vertices(g) && s1.marked[y];
    ClosedEdges(g, s1.marked);
    forall x | 0 <= x < Vertices(g)
      ensures s1.marked[x] <==> Covered(g, v + 1, x)
    {
      if s1.marked[x] && !s.marked[x] {
        assert Reachable(g, v, x);
      }
      if Covered(g, v + 1, x) {
        var y :| 0 <= y < v + 1 && Reachable(g, y, x);
        if y == v {
          ClosedContainsReachable(g, s1.marked, v, x);
        } else {
          assert Covered(g, v, x);
        }
      }
    }
    forall y | 0 <= y < v
      ensures !Reachable(g, y, v)
    {
      if Reachable(g, y, v) {
        assert Covered(g, v, v);
      }
    }
  }

  /** A marked v is reached from a smaller vertex, which then reaches all
      v reaches. */
  lemma CoverSkip(g: Graph, s: Comps, v: nat)
    requires Sized(g, s) && v < Vertices(g) && s.marked[v]
    requires forall x | 0 <= x < Vertices(g) :: s.marked[x] <==> Covered(g, v, x)
    ensures forall x | 0 <= x < Vertices(g) :: s.marked[x] <==> Covered(g, v + 1, x)
    ensures !Leader(g, v)
  {
    assert Covered(g, v, v);
    var u :| 0 <= u < v && Reachable(g, u, v);
    forall x | 0 <= x < Vertices(g) && Covered(g, v + 1, x)
      ensures Covered(g, v, x)
    {
      var y :| 0 <= y < v + 1 && Reachable(g, y, x);
      if y == v {
        ReachTrans(g, u, v, x);
      }
    }
  }

  /** One iteration of the constructor's loop: `if(!marked[v]){ dfs(v);
      ncc++; }`.  A search starts exactly at the smallest vertex of each
      component. */
  method Begin(g: Graph, s: Comps, v: nat) returns (s': Comps)
    requires Valid(g) && Labelled(g, s) && v < Vertices(g)
    requires forall x | 0 <= x < Vertices(g) :: s.marked[x] <==> Covered(g, v, x)
    requires s.count == Leaders(g, v) && Ordered(g, s, v)
    ensures Labelled(g, s')
    ensures forall x | 0 <= x < Vertices(g) :: s'.marked[x] <==> Covered(g, v + 1, x)
    ensures s'.count == Leaders(g, v + 1)
    ensures Ordered(g, s', v + 1)
  {
    if !s.marked[v] {
      ReachRefl(g, v);
      VisitFacts(g, s, v, v);
      var s1 := Visit(g, s, v);
      s' := s1.(count := s1.count + 1);
      SearchKeeps(g, s, v, s1, s');
      CoverSearch(g, s, v, s1);
      forall x | 0 <= x < v && Leader(g, x)
        ensures s'.cc[x] == Some(Leaders(g, x))
      {
        ReachRefl(g, x);
        assert Covered(g, v, x);
      }
    } else {
      s' := s;
      CoverSkip(g, s, v);
    }
  }

  /** A search from an unmarked vertex followed by `ncc++` keeps the
      labelling. */
  lemma SearchKeeps(g: Graph, s: Comps, v: nat, s1: Comps, s2: Comps)
    requires Valid(g) && Labelled(g, s) && v < Vertices(g) && !s.marked[v]
    requires Sized(g, s1) && Grows(s, s1) && s1.marked[v] && s1.cc[v] == Some(s.count)
    requires NewIn(g, s, s1, v) && s2 == s1.(count := s1.count + 1)
    ensures Labelled(g, s2)
  {
    KeepIds(g, s, s1, s2, v);
    KeepClosed(g, s, s1, s2, v);
    KeepSame(g, s, s1, s2, v);
  }

  lemma KeepIds(g: Graph, s: Comps, s1: Comps, s2: Comps, v: nat)
    requires Labelled(g, s) && v < Vertices(g) && !s.marked[v]
    requires Sized(g, s1) && Grows(s, s1) && s1.marked[v] && s1.cc[v] == Some(s.count)
    requires NewIn(g, s, s1, v) && s2 == s1.(count := s1.count + 1)
    ensures forall x | 0 <= x < Vertices(g) && s2.marked[x] :: s2.cc[x].Some? && s2.cc[x].value < s2.count
    ensures forall k | 0 <= k < s2.count :: Used(g, s2, k)
  {
    forall k | 0 <= k < s2.count
      ensures Used(g, s2, k)
    {
      if k < s.count {
        assert Used(g, s, k);
        var x :| 0 <= x < Vertices(g) && s.marked[x] && s.cc[x] == Some(k);
        assert s2.marked[x] && s2.cc[x] == Some(k);
      } else {
        assert s2.marked[v] && s2.cc[v] == Some(k);
      }
    }
  }

  lemma KeepClosed(g: Graph, s: Comps, s1: Comps, s2: Comps, v: nat)
    requires Labelled(g, s) && v < Vertices(g)
    requires Sized(g, s1) && Grows(s, s1)
    requires NewIn(g, s, s1, v) && s2 == s1.(count := s1.count + 1)
    ensures forall x | 0 <= x < Vertices(g) && s2.marked[x] ::
      forall y | y in Adj(g, x) :: y < Vertices(g) && s2.marked[y]
  {
  }

  /** The vertices a search marks are connected to each other and to none
      marked before it. */
  lemma KeepSame(g: Graph, s: Comps, s1: Comps, s2: Comps, v: nat)
    requires Valid(g) && Labelled(g, s) && v < Vertices(g) && !s.marked[v]
    requires Sized(g, s1) && Grows(s, s1)
    requires NewIn(g, s, s1, v) && s2 == s1.(count := s1.count + 1)
    ensures forall x, y | 0 <= x < Vertices(g) && 0 <= y < Vertices(g) && s2.marked[x] && s2.marked[y] ::
      s2.cc[x] == s2.cc[y] <==> Reachable(g, x, y)
  {
    ClosedEdges(g, s.marked);
    forall x, y | 0 <= x < Vertices(g) && 0 <= y < Vertices(g) && s2.marked[x] && s2.marked[y]
      ensures s2.cc[x] == s2.cc[y] <==> Reachable(g, x, y)
    {
      if !s.marked[x] && !s.marked[y] {
        ReachSym(g, v, x);
        ReachTrans(g, x, v, y);
      } else if s.marked[x] && !s.marked[y] {
        if Reachable(g, x, y) {
          ClosedContainsReachable(g, s.marked, x, y);
        }
      } else if !s.marked[x] && s.marked[y] {
        if Reachable(g, x, y) {
          ReachSym(g, x, y);
          ClosedContainsReachable(g, s.marked, y, x);
        }
      }
    }
  }

  /** Closure under adjacency, stated edge by edge. */
  lemma ClosedEdges(g: Graph, m: seq<bool>)
    requires Valid(g) && |m| == Vertices(g)
    requires forall x | 0 <= x < Vertices(g) && m[x] :: forall y | y in Adj(g, x) :: y < Vertices(g) && m[y]
    ensures forall x: nat, y: nat | x < |m| && Edge(g, x, y) :: y < |m| && m[x] ==> m[y]
  {
    forall x: nat, y: nat | x < |m| && Edge(g, x, y)
      ensures y < |m| && m[x] ==> m[y]
    {
      assert y in Adj(g, x);
    }
  }

  // ---------------------------------------------------------------------
  // Queries
  // ---------------------------------------------------------------------

  /** `connected(v, w)`: on a finished labelling, whether v and w are
      connected. */
  function Connected(g: Graph, s: Comps, v: nat, w: nat): (b: bool)
    requires Sized(g, s) && v != w && v < Vertices(g) && w < Vertices(g)
    ensures Labelling(g, s) ==> (b <==> Reachable(g, v, w))
  {
    s.cc[v] == s.cc[w]
  }

  /** `id(v)`: on a finished labelling, an id below the count shared
      exactly by the vertices connected to v; it is the number of components
      whose smallest vertex is below that of v's component. */
  function Id(g: Graph, s: Comps, v: nat): (r: Option<nat>)
    requires Sized(g, s) && v < Vertices(g)
    ensures Labelling(g, s) ==> r.Some? && r.value < s.count
    ensures Labelling(g, s) ==> forall w | 0 <= w < Vertices(g) :: s.cc[w] == r <==> Reachable(g, v, w)
    ensures Labelling(g, s) ==>
      exists x | 0 <= x <= v :: Leader(g, x) && Reachable(g, x, v) && r == Some(Leaders(g, x))
  {
    LeaderOf(g, v, 0);
    s.cc[v]
  }

  /** Every vertex is reached from the smallest vertex of its component:
      searching upwards from y, where no vertex below y reaches v. */
  lemma {:induction false} LeaderOf(g: Graph, v: nat, y: nat)
    requires v < Vertices(g) && y <= v
    requires forall z | 0 <= z < y :: !Reachable(g, z, v)
    ensures exists x | y <= x <= v :: Leader(g, x) && Reachable(g, x, v)
    decreases v - y
  {
    ReachRefl(g, v);
    if Reachable(g, y, v) {
      forall z | 0 <= z < y
        ensures !Reachable(g, z, y)
      {
        if Reachable(g, z, y) {
          ReachTrans(g, z, y, v);
        }
      }
      assert Leader(g, y);
    } else {
      LeaderOf(g, v, y + 1);
    }
  }

  /** `count()`: on a finished labelling, the number of components. */
  function Count(g: Graph, s: Comps): (n: nat)
    ensures Labelling(g, s) ==> n == Leaders(g, Vertices(g))
    ensures Labelling(g, s) ==> forall k | 0 <= k < n :: Used(g, s, k)
  {
    s.count
  }
}
