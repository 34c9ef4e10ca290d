/** The generic path finder: the source is pushed into a container, and
    each vertex taken out pushes its unmarked neighbours, marking them as
    it pushes them.  With a stack it is a depth-first search, with a queue
    a breadth-first search, and the latter finds shortest distances. */
module GenericPaths {
  import opened Common
  import opened Graphs
  import opened Paths

  /** The container: a stack (last in, first out) or a queue (first in,
      first out).  Both push at the back. */
  datatype Discipline = Stack | Queue

  /** `peek(); pop()`: the vertex taken out and the rest of the container. */
  function Take(d: Discipline, c: seq<nat>): (t: (nat, seq<nat>))
    requires c != []
    ensures d == Stack ==> c == t.1 + [t.0]
    ensures d == Queue ==> c == [t.0] + t.1
  {
    match d
    case Stack => (c[|c| - 1], c[..|c| - 1])
    case Queue => (c[0], c[1..])
  }

  /** The distance of a marked vertex. */
  function Dist(r: Search, x: nat): nat
    requires x < |r.distTo| && r.distTo[x].Some?
  {
    r.distTo[x].value
  }

  /** In a tree every marked vertex has a distance. */
  lemma TreeDistanced(g: Graph, r: Search)
    requires Tree(g, r)
    ensures Distanced(g, r)
  {
    forall x | 0 <= x < Vertices(g) && r.marked[x]
      ensures r.distTo[x].Some?
    {
      assert ParentOk(g, r, x);
    }
  }

  /** What holds at the head of each iteration of the outer loop: the
      search is a tree, the container holds distinct marked vertices, the
      pushed vertices are exactly the marked ones, and a marked vertex no
      longer in the container has had all its neighbours marked. */
  ghost predicate Frontier(g: Graph, r: Search, c: seq<nat>, pushes: seq<nat>)
  {
    && Valid(g) && Tree(g, r) && Distanced(g, r)
    && Distinct(c) && (forall k | 0 <= k < |c| :: c[k] < Vertices(g) && r.marked[c[k]])
    && Distinct(pushes) && (forall k | 0 <= k < |pushes| :: pushes[k] < Vertices(g))
    && (forall x | 0 <= x < Vertices(g) :: r.marked[x] <==> x in pushes)
    && (forall x | 0 <= x < Vertices(g) && r.marked[x] && x !in c ::
          forall y | y in Adj(g, x) :: y < Vertices(g) && r.marked[y])
  }

  /** With a queue the search proceeds level by level: the queue holds
      vertices at level lvl followed by vertices at level lvl + 1, no marked
      vertex lies further, and every neighbour of a vertex already taken
      out is at most one step further than it. */
  ghost predicate Layered(g: Graph, r: Search, c: seq<nat>, lvl: nat)
    requires Distanced(g, r) && forall k | 0 <= k < |c| :: c[k] < Vertices(g) && r.marked[c[k]]
  {
    && (forall k | 0 <= k < |c| :: lvl <= Dist(r, c[k]) <= lvl + 1)
    && (forall k, l | 0 <= k < l < |c| :: Dist(r, c[k]) <= Dist(r, c[l]))
    && (forall x | 0 <= x < Vertices(g) && r.marked[x] :: Dist(r, x) <= lvl + 1)
    && (forall x | 0 <= x < Vertices(g) && r.marked[x] && x !in c ::
          forall y | y in Adj(g, x) :: y < Vertices(g) && r.marked[y] && Dist(r, y) <= Dist(r, x) + 1)
  }

  /** `mark_and_push(v, w)` for an unmarked neighbour w of a marked v keeps
      the tree, marks w and nothing else, and puts w one step beyond v. */
  lemma MarkChildOk(g: Graph, r: Search, v: nat, w: nat)
    requires Valid(g) && Tree(g, r) && Distanced(g, r)
    requires v < Vertices(g) && r.marked[v] && w in Adj(g, v) && !r.marked[w]
    ensures r.distTo[v].Some? && w < Vertices(g)
    ensures var r' := MarkWith(r, Some(v), w);
      && Tree(g, r') && Distanced(g, r') && Extends(r, r') && r'.marked == r.marked[w := true]
      && r'.distTo[w] == Some(Dist(r, v) + 1)
  {
    SetParentOk(g, r, v, w);
    var r2 := SetParent(r, v, w);
    MarkOk(g, r2, w);
    MarkChildRest(g, r, v, w);
  }

  lemma MarkChildRest(g: Graph, r: Search, v: nat, w: nat)
    requires Sized(g, r) && Untouched(g, r) && Distanced(g, r)
    requires v < Vertices(g) && r.marked[v] && w < Vertices(g) && !r.marked[w]
    ensures var r' := MarkWith(r, Some(v), w);
      && Untouched(g, r') && Distanced(g, r') && Extends(r, r') && r'.marked == r.marked[w := true]
      && r'.distTo[w] == Some(Dist(r, v) + 1)
  {
  }

  /** The facts the inner loop keeps about the vertices it has pushed. */
  ghost predicate Pushed(g: Graph, r: Search, r': Search, v: nat, added: seq<nat>)
    requires Sized(g, r) && Sized(g, r') && v < Vertices(g) && r.distTo[v].Some?
  {
    && Distinct(added)
    && (forall k | 0 <= k < |added| ::
          && added[k] < Vertices(g) && !r.marked[added[k]] && r'.marked[added[k]]
          && r'.distTo[added[k]] == Some(Dist(r, v) + 1))
    && (forall x | 0 <= x < Vertices(g) :: r'.marked[x] ==> r.marked[x] || x in added)
  }

  /** Pushing one more unmarked neighbour keeps those facts. */
  lemma PushedStep(g: Graph, r: Search, r1: Search, r2: Search, v: nat, w: nat, added: seq<nat>)
    requires Sized(g, r) && Sized(g, r1) && Sized(g, r2) && v < Vertices(g) && r.distTo[v].Some?
    requires Extends(r, r1) && Pushed(g, r, r1, v, added) && r1.distTo[v] == r.distTo[v]
    requires w < Vertices(g) && !r1.marked[w]
    requires r2.marked == r1.marked[w := true] && Extends(r1, r2)
    requires r2.distTo[w] == Some(Dist(r1, v) + 1)
    ensures Extends(r, r2) && Pushed(g, r, r2, v, added + [w])
  {
    var added' := added + [w];
    forall k | 0 <= k < |added|
      ensures added[k] != w
    {
      assert r1.marked[added[k]];
    }
    forall k | 0 <= k < |added'|
      ensures added'[k] < Vertices(g) && !r.marked[added'[k]] && r2.marked[added'[k]]
      ensures r2.distTo[added'[k]] == Some(Dist(r, v) + 1)
    {
      if k < |added| {
        assert added'[k] == added[k] && r1.marked[added[k]];
      }
    }
  }

  /** The inner loop: every unmarked neighbour of v, in adjacency order, is
      marked with parent v and pushed. */
  method Expand(g: Graph, r: Search, c: seq<nat>, v: nat) returns (r': Search, c': seq<nat>, ghost added: seq<nat>)
    requires Valid(g) && Tree(g, r) && Distanced(g, r) && v < Vertices(g) && r.marked[v]
    ensures r.distTo[v].Some?
    ensures Tree(g, r') && Distanced(g, r') && Extends(r, r')
    ensures c' == c + added && Pushed(g, r, r', v, added)
    ensures forall y | y in Adj(g, v) :: y < Vertices(g) && r'.marked[y]
  {
    r', c', added := r, c, [];
    var j := 0;
    while j < |Adj(g, v)|
      invariant 0 <= j <= |Adj(g, v)|
      invariant Tree(g, r') && Distanced(g, r') && Extends(r, r') && r'.marked[v] && r'.distTo[v] == r.distTo[v]
      invariant c' == c + added && Pushed(g, r, r', v, added)
      invariant forall l | 0 <= l < j :: Adj(g, v)[l] < Vertices(g) && r'.marked[Adj(g, v)[l]]
    {
      var w := Adj(g, v)[j];
      assert w in Adj(g, v);
      ghost var r1 := r';
      if !r'.marked[w] {
        MarkChildOk(g, r', v, w);
        var r2 := MarkWith(r', Some(v), w);
        PushedStep(g, r, r', r2, v, w, added);
        r' := r2;
        c' := c' + [w];
        added := added + [w];
      }
      MarkedPrefix(g, r1, r', v, j);
      j := j + 1;
    }
    forall y | y in Adj(g, v)
      ensures y < Vertices(g) && r'.marked[y]
    {
      var l :| 0 <= l < |Adj(g, v)| && Adj(g, v)[l] == y;
    }
  }

  /** Neighbours already handled stay marked once one more is. */
  lemma MarkedPrefix(g: Graph, r: Search, r': Search, v: nat, j: nat)
    requires Valid(g) && v < Vertices(g) && j < |Adj(g, v)| && Sized(g, r) && Extends(r, r')
    requires forall l | 0 <= l < j :: Adj(g, v)[l] < Vertices(g) && r.marked[Adj(g, v)[l]]
    requires Adj(g, v)[j] < Vertices(g) && r'.marked[Adj(g, v)[j]]
    ensures forall l | 0 <= l < j + 1 :: Adj(g, v)[l] < Vertices(g) && r'.marked[Adj(g, v)[l]]
  {
  }

  /** `generic_paths_t<ADT>(g, s)`: the stack gives `dfs_paths_t`, the queue
      `bfs_paths_t`.  The vertices pushed are recorded in `pushes`. */
  method Generic(g: Graph, s: nat, d: Discipline) returns (r: Search, ghost pushes: seq<nat>)
    requires Valid(g) && s < Vertices(g)
    ensures SearchResult(g, r) && r.source == s
    ensures Distinct(pushes) && |pushes| <= Vertices(g)
    ensures forall x | 0 <= x < Vertices(g) :: r.marked[x] <==> x in pushes
    ensures d == Queue ==> ShortestDistances(g, r)
  {
    var r0 := Start(g, s);
    r := MarkWith(r0, None, s);
    assert Tree(g, r) by {
      assert r == Mark(r0, s);
      MarkOk(g, r0, s);
    }
    TreeDistanced(g, r);
    var c := [s];
    pushes := [s];
    ghost var lvl := 0;
    while c != []
      invariant Frontier(g, r, c, pushes) && r.source == s
      invariant d == Queue ==> Layered(g, r, c, lvl)
      decreases Unmarked(r.marked), |c|
    {
      var (v, rest) := Take(d, c);
      ghost var r1, c1, p1, lvl1 := r, c, pushes, lvl;
      assert v in c;
      if d == Queue {
        lvl := Dist(r, v);
      }
      ghost var added;
      r, c, added := Expand(g, r, rest, v);
      pushes := pushes + added;
      FrontierStep(g, r1, c1, p1, v, rest, r, added, d);
      ProgressStep(g, r1, c1, v, rest, r, added);
      if d == Queue {
        LayeredStep(g, r1, c1, lvl1, v, rest, r, added);
      }
    }
    ClosedSearch(g, r);
    DistinctBelow(pushes, Vertices(g));
    if d == Queue {
      LipschitzShortest(g, r);
    }
  }

  /** One iteration of the outer loop keeps the frontier and makes
      progress. */
  lemma FrontierStep(g: Graph, r: Search, c: seq<nat>, pushes: seq<nat>, v: nat, rest: seq<nat>,
                     r': Search, added: seq<nat>, d: Discipline)
    requires Frontier(g, r, c, pushes)
    requires c != [] && (v, rest) == Take(d, c) && v < Vertices(g) && r.marked[v] && r.distTo[v].Some?
    requires Tree(g, r') && Distanced(g, r') && Extends(r, r') && Pushed(g, r, r', v, added)
    requires forall y | y in Adj(g, v) :: y < Vertices(g) && r'.marked[y]
    ensures Frontier(g, r', rest + added, pushes + added)
  {
    ContainerStep(g, r, c, v, rest, r', added, d);
    PushesStep(g, r, pushes, r', v, added);
    ClosureStep(g, r, c, v, rest, r', added, d);
  }

  /** Each iteration either marks a new vertex or shrinks the container. */
  lemma ProgressStep(g: Graph, r: Search, c: seq<nat>, v: nat, rest: seq<nat>, r': Search, added: seq<nat>)
    requires Sized(g, r) && Sized(g, r') && Extends(r, r') && v < Vertices(g) && r.distTo[v].Some?
    requires Pushed(g, r, r', v, added) && |c| == |rest| + 1
    ensures || Unmarked(r'.marked) < Unmarked(r.marked)
            || (Unmarked(r'.marked) == Unmarked(r.marked) && |rest + added| < |c|)
  {
    if |added| > 0 {
      assert !r.marked[added[0]] && r'.marked[added[0]];
      UnmarkedLess(r.marked, r'.marked);
    } else {
      assert r'.marked == r.marked;
    }
  }

  /** The container after the iteration holds distinct marked vertices. */
  lemma ContainerStep(g: Graph, r: Search, c: seq<nat>, v: nat, rest: seq<nat>, r': Search, added: seq<nat>, d: Discipline)
    requires Sized(g, r) && Sized(g, r') && Extends(r, r') && v < Vertices(g) && r.distTo[v].Some?
    requires Distinct(c) && (forall k | 0 <= k < |c| :: c[k] < Vertices(g) && r.marked[c[k]])
    requires c != [] && (v, rest) == Take(d, c) && Pushed(g, r, r', v, added)
    ensures var c' := rest + added;
      Distinct(c') && (forall k | 0 <= k < |c'| :: c'[k] < Vertices(g) && r'.marked[c'[k]])
  {
    var c' := rest + added;
    forall k | 0 <= k < |rest| ensures rest[k] in c && r.marked[rest[k]] && rest[k] < Vertices(g)
    {
      if d == Stack { assert rest[k] == c[k]; } else { assert rest[k] == c[k + 1]; }
    }
    assert Distinct(rest) by {
      if d == Stack {
        assert forall k | 0 <= k < |rest| :: rest[k] == c[k];
      } else {
        assert forall k | 0 <= k < |rest| :: rest[k] == c[k + 1];
      }
    }
    forall i, j | 0 <= i < j < |c'| ensures c'[i] != c'[j]
    {
      if i < |rest| && j >= |rest| {
        assert r.marked[c'[i]] && !r.marked[added[j - |rest|]];
      }
    }
  }

  /** The pushed vertices stay distinct and are exactly the marked ones. */
  lemma PushesStep(g: Graph, r: Search, pushes: seq<nat>, r': Search, v: nat, added: seq<nat>)
    requires Sized(g, r) && Sized(g, r') && Extends(r, r') && v < Vertices(g) && r.distTo[v].Some?
    requires Distinct(pushes) && (forall k | 0 <= k < |pushes| :: pushes[k] < Vertices(g))
    requires forall x | 0 <= x < Vertices(g) :: r.marked[x] <==> x in pushes
    requires Pushed(g, r, r', v, added)
    ensures var ps := pushes + added;
      && Distinct(ps) && (forall k | 0 <= k < |ps| :: ps[k] < Vertices(g))
      && forall x | 0 <= x < Vertices(g) :: r'.marked[x] <==> x in ps
  {
    var ps := pushes + added;
    forall i, j | 0 <= i < j < |ps| ensures ps[i] != ps[j]
    {
      if i < |pushes| && j >= |pushes| {
        assert ps[i] in pushes && r.marked[ps[i]] && !r.marked[added[j - |pushes|]];
      }
    }
    forall x | 0 <= x < Vertices(g) ensures r'.marked[x] <==> x in ps
    {
      if x in added {
        var k :| 0 <= k < |added| && added[k] == x;
      }
    }
  }

  /** Marked vertices outside the container keep all their neighbours
      marked: v has just had its neighbours marked. */
  lemma ClosureStep(g: Graph, r: Search, c: seq<nat>, v: nat, rest: seq<nat>, r': Search, added: seq<nat>, d: Discipline)
    requires Sized(g, r) && Sized(g, r') && Extends(r, r') && v < Vertices(g) && r.distTo[v].Some?
    requires c != [] && (v, rest) == Take(d, c) && Pushed(g, r, r', v, added)
    requires forall x | 0 <= x < Vertices(g) && r.marked[x] && x !in c ::
      forall y | y in Adj(g, x) :: y < Vertices(g) && r.marked[y]
    requires forall y | y in Adj(g, v) :: y < Vertices(g) && r'.marked[y]
    ensures forall x | 0 <= x < Vertices(g) && r'.marked[x] && x !in rest + added ::
      forall y | y in Adj(g, x) :: y < Vertices(g) && r'.marked[y]
  {
    forall x | 0 <= x < Vertices(g) && r'.marked[x] && x !in rest + added
      ensures forall y | y in Adj(g, x) :: y < Vertices(g) && r'.marked[y]
    {
      if x != v {
        assert r.marked[x];
        assert x !in c;
      }
    }
  }

  /** One iteration of the outer loop with a queue keeps the layers: v is
      at the front, so at the lowest level, and what it pushes lands one
      level further, at the back. */
  lemma LayeredStep(g: Graph, r: Search, c: seq<nat>, lvl: nat, v: nat, rest: seq<nat>,
                    r': Search, added: seq<nat>)
    requires Sized(g, r) && Distanced(g, r) && c != [] && c == [v] + rest
    requires v < Vertices(g) && r.marked[v] && r.distTo[v].Some?
    requires forall k | 0 <= k < |c| :: c[k] < Vertices(g) && r.marked[c[k]]
    requires Layered(g, r, c, lvl)
    requires Sized(g, r') && Distanced(g, r') && Extends(r, r') && Pushed(g, r, r', v, added)
    requires forall y | y in Adj(g, v) :: y < Vertices(g) && r'.marked[y]
    requires forall k | 0 <= k < |rest + added| :: (rest + added)[k] < Vertices(g) && r'.marked[(rest + added)[k]]
    ensures Layered(g, r', rest + added, Dist(r, v))
  {
    var c' := rest + added;
    var dv := Dist(r, v);
    assert v == c[0];
    LayersStep(g, r, c, lvl, v, rest, r', added);
    ReachedStep(g, r, c, lvl, v, rest, r', added);
  }

  /** The queue stays ordered and within two levels. */
  lemma LayersStep(g: Graph, r: Search, c: seq<nat>, lvl: nat, v: nat, rest: seq<nat>,
                   r': Search, added: seq<nat>)
    requires Sized(g, r) && Distanced(g, r) && c != [] && c == [v] + rest
    requires v < Vertices(g) && r.marked[v] && r.distTo[v].Some?
    requires forall k | 0 <= k < |c| :: c[k] < Vertices(g) && r.marked[c[k]]
    requires forall k | 0 <= k < |c| :: lvl <= Dist(r, c[k]) <= lvl + 1
    requires forall k, l | 0 <= k < l < |c| :: Dist(r, c[k]) <= Dist(r, c[l])
    requires Sized(g, r') && Distanced(g, r') && Extends(r, r') && Pushed(g, r, r', v, added)
    requires forall k | 0 <= k < |rest + added| :: (rest + added)[k] < Vertices(g) && r'.marked[(rest + added)[k]]
    ensures var c', dv := rest + added, Dist(r, v);
      && (forall k | 0 <= k < |c'| :: dv <= Dist(r', c'[k]) <= dv + 1)
      && (forall k, l | 0 <= k < l < |c'| :: Dist(r', c'[k]) <= Dist(r', c'[l]))
  {
    var c' := rest + added;
    var dv := Dist(r, v);
    forall k | 0 <= k < |c'|
      ensures dv <= Dist(r', c'[k]) <= dv + 1
    {
      if k < |rest| {
        assert rest[k] == c[k + 1];
        assert Dist(r, c[0]) <= Dist(r, c[k + 1]);
      }
    }
    forall k, l | 0 <= k < l < |c'|
      ensures Dist(r', c'[k]) <= Dist(r', c'[l])
    {
      if l < |rest| {
        assert rest[k] == c[k + 1] && rest[l] == c[l + 1];
      } else if k < |rest| {
        assert rest[k] == c[k + 1];
      }
    }
  }

  /** No marked vertex lies beyond the next level, and vertices taken out
      have every neighbour at most one step further. */
  lemma ReachedStep(g: Graph, r: Search, c: seq<nat>, lvl: nat, v: nat, rest: seq<nat>,
                    r': Search, added: seq<nat>)
    requires Sized(g, r) && Distanced(g, r) && c != [] && c == [v] + rest
    requires v < Vertices(g) && r.marked[v] && r.distTo[v].Some?
    requires forall k | 0 <= k < |c| :: c[k] < Vertices(g) && r.marked[c[k]]
    requires Layered(g, r, c, lvl)
    requires Sized(g, r') && Distanced(g, r') && Extends(r, r') && Pushed(g, r, r', v, added)
    requires forall y | y in Adj(g, v) :: y < Vertices(g) && r'.marked[y]
    ensures var c', dv := rest + added, Dist(r, v);
      && (forall x | 0 <= x < Vertices(g) && r'.marked[x] :: Dist(r', x) <= dv + 1)
      && (forall x | 0 <= x < Vertices(g) && r'.marked[x] && x !in c' ::
            forall y | y in Adj(g, x) :: y < Vertices(g) && r'.marked[y] && Dist(r', y) <= Dist(r', x) + 1)
  {
    var c' := rest + added;
    var dv := Dist(r, v);
    assert lvl <= dv by { assert c[0] == v; }
    forall x | 0 <= x < Vertices(g) && r'.marked[x]
      ensures Dist(r', x) <= dv + 1
    {
      if !r.marked[x] {
        var k :| 0 <= k < |added| && added[k] == x;
      }
    }
    forall x | 0 <= x < Vertices(g) && r'.marked[x] && x !in c'
      ensures forall y | y in Adj(g, x) :: y < Vertices(g) && r'.marked[y] && Dist(r', y) <= Dist(r', x) + 1
    {
      if x == v {
        forall y | y in Adj(g, v)
          ensures y < Vertices(g) && r'.marked[y] && Dist(r', y) <= Dist(r', v) + 1
        {
          if !r.marked[y] {
            var k :| 0 <= k < |added| && added[k] == y;
          }
        }
      } else {
        assert r.marked[x] && x !in c;
      }
    }
  }

  // ---------------------------------------------------------------------
  // Shortest distances
  // ---------------------------------------------------------------------

  /** Every marked vertex's distance is the number of edges of a shortest
      walk from the source: there is a walk of at most d edges exactly when
      the distance is at most d. */
  ghost predicate ShortestDistances(g: Graph, r: Search)
    requires Sized(g, r)
  {
    forall w: nat, d: nat | w < Vertices(g) && r.marked[w] ::
      WithinSteps(g, r.source, w, d) <==> r.distTo[w].Some? && r.distTo[w].value <= d
  }

  /** In a finished search where no edge leads more than one step further
      from the source, the distances are shortest. */
  lemma LipschitzShortest(g: Graph, r: Search)
    requires Valid(g) && Tree(g, r) && Closed(g, r)
    requires Distanced(g, r)
    requires forall x | 0 <= x < Vertices(g) && r.marked[x] ::
        forall y | y in Adj(g, x) :: y < Vertices(g) && r.marked[y] && Dist(r, y) <= Dist(r, x) + 1
    ensures ShortestDistances(g, r)
  {
    forall w: nat, d: nat | w < Vertices(g) && r.marked[w]
      ensures WithinSteps(g, r.source, w, d) <==> r.distTo[w].Some? && r.distTo[w].value <= d
    {
      if r.distTo[w].value <= d {
        var p := PathTo(g, r, w);
      }
      if WithinSteps(g, r.source, w, d) {
        var p :| WalkFrom(g, p, r.source, w) && |p| <= d + 1;
        WalkDistance(g, r, p);
      }
    }
  }

  /** Along a walk from the source, the k-th vertex is marked and at most k
      steps away. */
  lemma WalkDistance(g: Graph, r: Search, p: seq<nat>)
    requires Valid(g) && Tree(g, r) && Distanced(g, r)
    requires forall x | 0 <= x < Vertices(g) && r.marked[x] ::
      forall y | y in Adj(g, x) :: y < Vertices(g) && r.marked[y] && Dist(r, y) <= Dist(r, x) + 1
    requires IsWalk(g, p) && p[0] == r.source
    ensures r.marked[p[|p| - 1]] && Dist(r, p[|p| - 1]) <= |p| - 1
  {
    assert ParentOk(g, r, r.source);
    var k := 0;
    while k < |p| - 1
      invariant 0 <= k < |p| && r.marked[p[k]] && Dist(r, p[k]) <= k
    {
      assert Edge(g, p[k], p[k + 1]);
      k := k + 1;
    }
  }
}
