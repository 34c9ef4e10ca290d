/** Undirected graphs as adjacency sets.  Each adjacency is an ordered set
    of vertices, represented as a strictly increasing sequence so that
    iterating over it visits neighbours in increasing order. */
module Graphs {
  import opened Common

  /** Strictly increasing: an ordered set without repetitions. */
  predicate Increasing(s: seq<nat>)
  {
    forall i, j | 0 <= i < j < |s| :: s[i] < s[j]
  }

  datatype Graph = Graph(adjs: seq<seq<nat>>)

  /** `vertices()`. */
  function Vertices(g: Graph): nat
  {
    |g.adjs|
  }

  /** `adj(v)`, defined for v < `vertices()`. */
  function Adj(g: Graph, v: nat): seq<nat>
    requires v < Vertices(g)
  {
    g.adjs[v]
  }

  /** w is in v's adjacency set. */
  predicate Edge(g: Graph, v: nat, w: nat)
  {
    v < |g.adjs| && w in g.adjs[v]
  }

  /** What `add_edge` keeps: every adjacency is an ordered set of vertices,
      with no self-loop, and adjacency is symmetric. */
  ghost predicate Valid(g: Graph)
  {
    forall v | 0 <= v < |g.adjs| ::
      && Increasing(g.adjs[v])
      && forall w | w in g.adjs[v] :: w < |g.adjs| && w != v && v in g.adjs[w]
  }

  /** Every vertex in v's adjacency is a vertex. */
  lemma AdjInRange(g: Graph, v: nat)
    requires Valid(g) && v < Vertices(g)
    ensures forall i | 0 <= i < |Adj(g, v)| :: Adj(g, v)[i] < Vertices(g) && Adj(g, v)[i] != v
    ensures forall i | 0 <= i < |Adj(g, v)| :: Edge(g, Adj(g, v)[i], v)
  {
    assert forall i | 0 <= i < |g.adjs[v]| :: g.adjs[v][i] in g.adjs[v];
  }

  // ---------------------------------------------------------------------
  // Building a graph
  // ---------------------------------------------------------------------

  /** `std::set::insert`: the ordered set with x added. */
  function Insert(s: seq<nat>, x: nat): (r: seq<nat>)
    requires Increasing(s)
    ensures Increasing(r)
    ensures forall y :: y in r <==> y in s || y == x
    ensures x in s ==> r == s
    decreases |s|
  {
    if |s| == 0 then [x]
    else if x < s[0] then [x] + s
    else if x == s[0] then s
    else
      var rest := Insert(s[1..], x);
      forall y | y in rest
        ensures s[0] < y
      {
        if y in s[1..] {
          var k :| 1 <= k < |s| && s[k] == y;
        }
      }
      ConsIncreasing(s[0], rest);
      [s[0]] + rest
  }

  /** Putting a value smaller than every element in front keeps a sequence
      strictly increasing. */
  lemma ConsIncreasing(a: nat, rest: seq<nat>)
    requires Increasing(rest) && forall y | y in rest :: a < y
    ensures Increasing([a] + rest)
  {
    var r := [a] + rest;
    forall i, j | 0 <= i < j < |r|
      ensures r[i] < r[j]
    {
      assert r[j] == rest[j - 1] && rest[j - 1] in rest;
      if i > 0 {
        assert r[i] == rest[i - 1];
      }
    }
  }

  /** `set_size(n)`: resizes the adjacency vector to n entries, keeping the
      entries that remain and adding empty ones. */
  function SetSize(g: Graph, n: nat): (r: Graph)
    ensures Vertices(r) == n
    ensures forall v: nat | v < n && v < Vertices(g) :: Adj(r, v) == Adj(g, v)
    ensures forall v: nat | Vertices(g) <= v < n :: Adj(r, v) == []
  {
    Graph(seq(n, i requires 0 <= i < n => if i < |g.adjs| then g.adjs[i] else []))
  }

  /** The graph the loader sizes: n vertices and no edges. */
  lemma SetSizeEmpty(n: nat)
    ensures Valid(SetSize(Graph([]), n)) && Vertices(SetSize(Graph([]), n)) == n
    ensures forall v: nat, w: nat :: !Edge(SetSize(Graph([]), n), v, w)
  {
  }

  /** `add_edge(v, w)`: w joins v's set and v joins w's set. */
  function AddEdge(g: Graph, v: nat, w: nat): (r: Graph)
    requires v != w && v < Vertices(g) && w < Vertices(g)
    requires Valid(g)
    ensures Valid(r) && Vertices(r) == Vertices(g)
    ensures forall x :: x in Adj(r, v) <==> x in Adj(g, v) || x == w
    ensures forall x :: x in Adj(r, w) <==> x in Adj(g, w) || x == v
    ensures forall u: nat | u < Vertices(g) && u != v && u != w :: Adj(r, u) == Adj(g, u)
    ensures forall a: nat, b: nat :: Edge(r, a, b) <==> Edge(g, a, b) || (a == v && b == w) || (a == w && b == v)
    ensures Edge(g, v, w) ==> r == g
  {
    var r := Graph(g.adjs[v := Insert(g.adjs[v], w)][w := Insert(g.adjs[w], v)]);
    AddEdgeEdges(g, v, w, r);
    AddEdgeValid(g, v, w, r);
    r
  }

  /** The adjacency sets after `add_edge(v, w)`: v's and w's gain each
      other, the rest are kept. */
  lemma AddEdgeEdges(g: Graph, v: nat, w: nat, r: Graph)
    requires v != w && v < Vertices(g) && w < Vertices(g) && Valid(g)
    requires r == Graph(g.adjs[v := Insert(g.adjs[v], w)][w := Insert(g.adjs[w], v)])
    ensures Vertices(r) == Vertices(g)
    ensures forall x :: x in Adj(r, v) <==> x in Adj(g, v) || x == w
    ensures forall x :: x in Adj(r, w) <==> x in Adj(g, w) || x == v
    ensures forall u: nat | u < Vertices(g) && u != v && u != w :: Adj(r, u) == Adj(g, u)
    ensures forall a: nat, b: nat :: Edge(r, a, b) <==> Edge(g, a, b) || (a == v && b == w) || (a == w && b == v)
    ensures Edge(g, v, w) ==> r == g
  {
    assert r.adjs[v] == Insert(g.adjs[v], w) && r.adjs[w] == Insert(g.adjs[w], v);
    assert forall u | 0 <= u < |r.adjs| :: u != v && u != w ==> r.adjs[u] == g.adjs[u];
    if Edge(g, v, w) {
      assert v in g.adjs[w];
      assert r.adjs == g.adjs;
    }
  }

  /** `add_edge(v, w)` keeps the graph valid. */
  lemma AddEdgeValid(g: Graph, v: nat, w: nat, r: Graph)
    requires v != w && v < Vertices(g) && w < Vertices(g) && Valid(g)
    requires Vertices(r) == Vertices(g)
    requires forall x :: x in Adj(r, v) <==> x in Adj(g, v) || x == w
    requires forall x :: x in Adj(r, w) <==> x in Adj(g, w) || x == v
    requires Increasing(Adj(r, v)) && Increasing(Adj(r, w))
    requires forall u: nat | u < Vertices(g) && u != v && u != w :: Adj(r, u) == Adj(g, u)
    ensures Valid(r)
  {
    forall u | 0 <= u < |r.adjs|
      ensures Increasing(r.adjs[u])
      ensures forall y | y in r.adjs[u] :: y < |r.adjs| && y != u && u in r.adjs[y]
    {
      assert Increasing(g.adjs[u]);
      assert r.adjs[u] == Adj(r, u);
      forall y | y in r.adjs[u]
        ensures y < |r.adjs| && y != u && u in r.adjs[y]
      {
        assert y in Adj(r, u);
        if y == v || y == w {
          assert u in Adj(r, y);
        } else {
          assert y in g.adjs[u] && u in g.adjs[y] && y < Vertices(g);
          assert Adj(r, y) == Adj(g, y);
        }
      }
    }
  }

  // ---------------------------------------------------------------------
  // The loader's edge count check
  // ---------------------------------------------------------------------

  /** Why loading fails: `add_edge` refuses the pair (a self-loop or an
      endpoint out of range), or the number of pairs read is not the
      declared edge count. */
  datatype LoadError = BadEdge(v: nat, w: nat) | CountMismatch(declared: nat, read: nat)

  datatype Loaded = Loaded(g: Graph) | Failed(err: LoadError)

  datatype EdgesRead = EdgesRead(g: Graph, count: nat) | EdgeRefused(v: nat, w: nat)

  /** The pairs (body[2k], body[2k+1]) of a token sequence; a trailing odd
      token is not a pair. */
  function Pairs(body: seq<nat>): (ps: seq<(nat, nat)>)
    ensures |ps| == |body| / 2
    ensures forall k | 0 <= k < |ps| :: ps[k] == (body[2 * k], body[2 * k + 1])
    decreases |body|
  {
    if |body| < 2 then [] else [(body[0], body[1])] + Pairs(body[2..])
  }

  /** A pair `add_edge` accepts in a graph with n vertices. */
  predicate Acceptable(n: nat, pr: (nat, nat))
  {
    pr.0 != pr.1 && pr.0 < n && pr.1 < n
  }

  /** The edge-reading loop: adds the pairs in order, counting them, and
      stops at the first pair `add_edge` refuses. */
  function ReadEdges(g: Graph, body: seq<nat>): EdgesRead
    requires Valid(g)
    decreases |body|
  {
    if |body| < 2 then EdgesRead(g, 0)
    else if !Acceptable(Vertices(g), (body[0], body[1])) then EdgeRefused(body[0], body[1])
    else
      match ReadEdges(AddEdge(g, body[0], body[1]), body[2..])
      case EdgesRead(g', c) => EdgesRead(g', c + 1)
      case EdgeRefused(v, w) => EdgeRefused(v, w)
  }

  /** Reading pairs into g succeeds exactly when every pair is acceptable;
      it then counts every pair, duplicates included, and the graph's edges
      are g's edges plus the pairs read. */
  lemma ReadEdgesSpec(g: Graph, body: seq<nat>)
    requires Valid(g)
    ensures var r := ReadEdges(g, body);
      && (r.EdgesRead? <==> forall k | 0 <= k < |Pairs(body)| :: Acceptable(Vertices(g), Pairs(body)[k]))
      && (r.EdgesRead? ==>
            && Valid(r.g) && Vertices(r.g) == Vertices(g) && r.count == |body| / 2
            && forall a: nat, b: nat :: Edge(r.g, a, b) <==>
                 || Edge(g, a, b)
                 || (a, b) in Pairs(body)
                 || (b, a) in Pairs(body))
  {
    ReadEdgesAccepts(g, body);
    ReadEdgesAdds(g, body);
  }

  /** The acceptance and count half of ReadEdgesSpec. */
  lemma {:induction false} ReadEdgesAccepts(g: Graph, body: seq<nat>)
    requires Valid(g)
    ensures var r := ReadEdges(g, body);
      && (r.EdgesRead? <==> forall k | 0 <= k < |Pairs(body)| :: Acceptable(Vertices(g), Pairs(body)[k]))
      && (r.EdgesRead? ==> Valid(r.g) && Vertices(r.g) == Vertices(g) && r.count == |body| / 2)
    decreases |body|
  {
    if |body| >= 2 && Acceptable(Vertices(g), (body[0], body[1])) {
      var g1 := AddEdge(g, body[0], body[1]);
      ReadEdgesAccepts(g1, body[2..]);
      var ps, rest := Pairs(body), Pairs(body[2..]);
      assert ps == [(body[0], body[1])] + rest;
      assert forall k | 0 <= k < |rest| :: rest[k] == ps[k + 1];
    } else if |body| >= 2 {
      assert Pairs(body)[0] == (body[0], body[1]);
    }
  }

  /** The edges half of ReadEdgesSpec. */
  lemma {:induction false} ReadEdgesAdds(g: Graph, body: seq<nat>)
    requires Valid(g)
    ensures var r := ReadEdges(g, body);
      r.EdgesRead? ==>
        forall a: nat, b: nat :: Edge(r.g, a, b) <==>
          || Edge(g, a, b)
          || (a, b) in Pairs(body)
          || (b, a) in Pairs(body)
    decreases |body|
  {
    if |body| >= 2 && Acceptable(Vertices(g), (body[0], body[1])) {
      var g1 := AddEdge(g, body[0], body[1]);
      ReadEdgesAdds(g1, body[2..]);
      assert Pairs(body) == [(body[0], body[1])] + Pairs(body[2..]);
    }
  }

  /** The graph loader: the vertex count and the declared edge count, then
      the pairs.  A header token that is missing reads as 0. */
  function Load(tokens: seq<nat>): Loaded
  {
    var n := if |tokens| > 0 then tokens[0] else 0;
    var e := if |tokens| > 1 then tokens[1] else 0;
    var body := if |tokens| > 2 then tokens[2..] else [];
    SetSizeEmpty(n);
    match ReadEdges(SetSize(Graph([]), n), body)
    case EdgeRefused(v, w) => Failed(BadEdge(v, w))
    case EdgesRead(g, c) => if c != e then Failed(CountMismatch(e, c)) else Loaded(g)
  }

  /** Loading succeeds exactly when every pair is a valid edge and the number
      of pairs is the declared count; the graph has the declared vertices
      and exactly the pairs read as edges.  A count mismatch reports both
      numbers. */
  lemma LoadSpec(tokens: seq<nat>)
    ensures var n := if |tokens| > 0 then tokens[0] else 0;
      var e := if |tokens| > 1 then tokens[1] else 0;
      var ps := Pairs(if |tokens| > 2 then tokens[2..] else []);
      var r := Load(tokens);
      && (r.Loaded? <==> (forall k | 0 <= k < |ps| :: Acceptable(n, ps[k])) && |ps| == e)
      && (r.Loaded? ==>
            && Valid(r.g) && Vertices(r.g) == n
            && forall a: nat, b: nat :: Edge(r.g, a, b) <==> (a, b) in ps || (b, a) in ps)
      && (r.Failed? && r.err.CountMismatch? ==> r.err.declared == e && r.err.read == |ps| && |ps| != e)
  {
    var n := if |tokens| > 0 then tokens[0] else 0;
    var body := if |tokens| > 2 then tokens[2..] else [];
    SetSizeEmpty(n);
    ReadEdgesSpec(SetSize(Graph([]), n), body);
  }

  // ---------------------------------------------------------------------
  // Walks and reachability
  // ---------------------------------------------------------------------

  /** A non-empty vertex sequence whose consecutive entries are adjacent. */
  ghost predicate IsWalk(g: Graph, p: seq<nat>)
  {
    && |p| >= 1
    && (forall i | 0 <= i < |p| :: p[i] < Vertices(g))
    && (forall i | 0 <= i < |p| - 1 :: Edge(g, p[i], p[i + 1]))
  }

  /** A walk from s to t. */
  ghost predicate WalkFrom(g: Graph, p: seq<nat>, s: nat, t: nat)
  {
    IsWalk(g, p) && p[0] == s && p[|p| - 1] == t
  }

  /** There is a walk from s to t. */
  ghost predicate Reachable(g: Graph, s: nat, t: nat)
  {
    exists p :: WalkFrom(g, p, s, t)
  }

  /** There is a walk from s to t with at most d edges. */
  ghost predicate WithinSteps(g: Graph, s: nat, t: nat, d: nat)
  {
    exists p :: WalkFrom(g, p, s, t) && |p| <= d + 1
  }

  lemma ReachRefl(g: Graph, s: nat)
    requires s < Vertices(g)
    ensures Reachable(g, s, s)
  {
    assert WalkFrom(g, [s], s, s);
  }

  /** A walk extended by one edge. */
  lemma WalkStep(g: Graph, p: seq<nat>, s: nat, t: nat, u: nat)
    requires Valid(g) && WalkFrom(g, p, s, t) && Edge(g, t, u)
    ensures WalkFrom(g, p + [u], s, u)
  {
    AdjInRange(g, t);
  }

  lemma ReachStep(g: Graph, s: nat, t: nat, u: nat)
    requires Valid(g) && Reachable(g, s, t) && Edge(g, t, u)
    ensures Reachable(g, s, u)
  {
    var p :| WalkFrom(g, p, s, t);
    WalkStep(g, p, s, t, u);
  }

  /** Walks can be reversed, since adjacency is symmetric. */
  lemma ReachSym(g: Graph, s: nat, t: nat)
    requires Valid(g) && Reachable(g, s, t)
    ensures Reachable(g, t, s)
  {
    var p :| WalkFrom(g, p, s, t);
    var q := seq(|p|, i requires 0 <= i < |p| => p[|p| - 1 - i]);
    forall i | 0 <= i < |q| - 1
      ensures Edge(g, q[i], q[i + 1])
    {
      var j := |p| - 2 - i;
      assert Edge(g, p[j], p[j + 1]);
    }
    assert WalkFrom(g, q, t, s);
  }

  lemma ReachTrans(g: Graph, s: nat, t: nat, u: nat)
    requires Reachable(g, s, t) && Reachable(g, t, u)
    ensures Reachable(g, s, u)
  {
    var p :| WalkFrom(g, p, s, t);
    var q :| WalkFrom(g, q, t, u);
    var r := p + q[1..];
    forall i | 0 <= i < |r| - 1
      ensures Edge(g, r[i], r[i + 1])
    {
      if i < |p| - 1 {
      } else {
        assert r[i] == q[i - |p| + 1] && r[i + 1] == q[i - |p| + 2];
      }
    }
    assert WalkFrom(g, r, s, u);
  }

  /** A set of vertices that contains s and every neighbour of each of its
      members contains everything reachable from s. */
  lemma {:induction false} ClosedContainsReachable(g: Graph, marked: seq<bool>, s: nat, t: nat)
    requires |marked| == Vertices(g) && s < |marked| && marked[s]
    requires forall x: nat, y: nat | x < |marked| && Edge(g, x, y) :: y < |marked| && marked[x] ==> marked[y]
    requires Reachable(g, s, t)
    ensures t < |marked| && marked[t]
  {
    var p :| WalkFrom(g, p, s, t);
    var k := 0;
    while k < |p| - 1
      invariant 0 <= k < |p| && marked[p[k]]
    {
      assert Edge(g, p[k], p[k + 1]);
      k := k + 1;
    }
  }
}
