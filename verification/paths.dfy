/** Single-source path finders: the recursive depth-first search, its
    iterative equivalent with per-vertex cursors, and the generic search
    whose container is a stack (depth-first) or a queue (breadth-first).
    All four fill the same record: which vertices are marked, and for each
    one its parent (`edge_to`) and its distance from the source
    (`dist_to`). */
module Paths {
  import opened Common
  import opened Graphs

  /** The state of a search.  `None` in `edgeTo` or `distTo` is the
      sentinel `infinity`. */
  datatype Search = Search(source: nat, marked: seq<bool>, edgeTo: seq<Option<nat>>, distTo: seq<Option<nat>>)

  predicate Sized(g: Graph, r: Search)
  {
    r.source < Vertices(g) && |r.marked| == Vertices(g) && |r.edgeTo| == Vertices(g) && |r.distTo| == Vertices(g)
  }

  /** The common constructor: nothing marked, no parents, distance 0 for
      the source only. */
  function Start(g: Graph, s: nat): (r: Search)
    requires s < Vertices(g)
    ensures Sized(g, r) && r.source == s
    ensures forall x | 0 <= x < Vertices(g) :: !r.marked[x] && r.edgeTo[x] == None
    ensures forall x | 0 <= x < Vertices(g) :: r.distTo[x] == if x == s then Some(0) else None
  {
    var n := Vertices(g);
    Search(s, seq(n, _ => false), seq(n, _ => None), seq(n, x => if x == s then Some(0) else None))
  }

  // ---------------------------------------------------------------------
  // What a finished search guarantees
  // ---------------------------------------------------------------------

  /** x's parent link: the source has none and distance 0; any other vertex
      has a marked neighbour as parent, one step further from the source. */
  ghost predicate ParentOk(g: Graph, r: Search, x: nat)
    requires Sized(g, r) && x < Vertices(g)
  {
    if x == r.source then r.edgeTo[x] == None && r.distTo[x] == Some(0)
    else
      && r.edgeTo[x].Some?
      && var p := r.edgeTo[x].value;
      && p < Vertices(g) && r.marked[p] && Edge(g, p, x)
      && r.distTo[p].Some? && r.distTo[x] == Some(r.distTo[p].value + 1)
  }

  /** Every marked vertex has a proper parent link. */
  ghost predicate TreeOk(g: Graph, r: Search)
    requires Sized(g, r)
  {
    forall x | 0 <= x < Vertices(g) && r.marked[x] :: ParentOk(g, r, x)
  }

  /** Unmarked vertices keep the sentinel in both vectors. */
  ghost predicate Untouched(g: Graph, r: Search)
    requires Sized(g, r)
  {
    forall x | 0 <= x < Vertices(g) && !r.marked[x] :: r.edgeTo[x] == None && r.distTo[x] == None
  }

  /** The parent links of the marked vertices form a tree rooted at the
      marked source. */
  ghost predicate Tree(g: Graph, r: Search)
  {
    Sized(g, r) && r.marked[r.source] && TreeOk(g, r) && Untouched(g, r)
  }

  /** Every neighbour of a marked vertex is marked. */
  ghost predicate Closed(g: Graph, r: Search)
    requires Sized(g, r)
  {
    forall x | 0 <= x < Vertices(g) && r.marked[x] :: forall y | y in Adj(g, x) :: y < Vertices(g) && r.marked[y]
  }

  /** A finished search: a tree of parent links whose marked vertices are
      exactly those reachable from the source. */
  ghost predicate SearchResult(g: Graph, r: Search)
  {
    Tree(g, r) && forall x | 0 <= x < Vertices(g) :: r.marked[x] <==> Reachable(g, r.source, x)
  }

  /** Following parent links gives a walk from the source. */
  lemma {:induction false} TreeReach(g: Graph, r: Search, x: nat)
    requires Valid(g) && Sized(g, r) && TreeOk(g, r) && x < Vertices(g) && r.marked[x]
    ensures Reachable(g, r.source, x)
    decreases r.distTo[x].value
  {
    if x == r.source {
      ReachRefl(g, x);
    } else {
      var p := r.edgeTo[x].value;
      TreeReach(g, r, p);
      ReachStep(g, r.source, p, x);
    }
  }

  /** A tree of parent links closed under adjacency is a finished search. */
  lemma ClosedSearch(g: Graph, r: Search)
    requires Valid(g) && Tree(g, r) && Closed(g, r)
    ensures SearchResult(g, r)
  {
    forall x | 0 <= x < Vertices(g)
      ensures r.marked[x] <==> Reachable(g, r.source, x)
    {
      if r.marked[x] {
        TreeReach(g, r, x);
      }
      if Reachable(g, r.source, x) {
        forall a: nat, b: nat | a < |r.marked| && Edge(g, a, b)
          ensures b < |r.marked| && (r.marked[a] ==> r.marked[b])
        {
        }
        ClosedContainsReachable(g, r.marked, r.source, x);
      }
    }
  }

  // ---------------------------------------------------------------------
  // Queries
  // ---------------------------------------------------------------------

  /** `connected_to(w)`: in a finished search, whether w is reachable. */
  function ConnectedTo(g: Graph, r: Search, w: nat): (b: bool)
    requires Sized(g, r) && w < Vertices(g)
    ensures SearchResult(g, r) ==> (b <==> Reachable(g, r.source, w))
  {
    r.marked[w]
  }

  /** `path_to(w)`: the parent links followed back from w to the source. */
  function PathTo(g: Graph, r: Search, w: nat): (p: seq<nat>)
    requires Valid(g) && Sized(g, r) && TreeOk(g, r)
    requires w < Vertices(g) && ConnectedTo(g, r, w)
    ensures WalkFrom(g, p, r.source, w) && |p| == r.distTo[w].value + 1
    decreases r.distTo[w].value
  {
    match r.edgeTo[w]
    case None => [w]
    case Some(x) =>
      var p := PathTo(g, r, x);
      WalkStep(g, p, r.source, x, w);
      p + [w]
  }

  /** `distance_to(w)`: a walk of that many edges leads from the source to w. */
  function DistanceTo(g: Graph, r: Search, w: nat): (d: nat)
    requires Valid(g) && Sized(g, r) && TreeOk(g, r)
    requires w < Vertices(g) && ConnectedTo(g, r, w)
    ensures WithinSteps(g, r.source, w, d)
    ensures Some(d) == r.distTo[w]
  {
    var p := PathTo(g, r, w);
    r.distTo[w].value
  }

  // ---------------------------------------------------------------------
  // The recursive depth-first search
  // ---------------------------------------------------------------------

  /** Marks are only added; sizes and source are kept. */
  ghost predicate Grows(r: Search, r': Search)
  {
    && r'.source == r.source
    && |r'.marked| == |r.marked| && |r'.edgeTo| == |r.edgeTo| && |r'.distTo| == |r.distTo|
    && forall x | 0 <= x < |r.marked| :: r.marked[x] ==> r'.marked[x]
  }

  /** Every marked vertex has a finite distance. */
  ghost predicate Distanced(g: Graph, r: Search)
  {
    Sized(g, r) && forall x | 0 <= x < Vertices(g) && r.marked[x] :: r.distTo[x].Some?
  }

  /** Marks v. */
  function Mark(r: Search, v: nat): Search
    requires v < |r.marked|
  {
    r.(marked := r.marked[v := true])
  }

  /** Records v as w's parent, one step further from the source. */
  function SetParent(r: Search, v: nat, w: nat): Search
    requires v < |r.distTo| && r.distTo[v].Some? && w < |r.edgeTo| && w < |r.distTo|
  {
    r.(edgeTo := r.edgeTo[w := Some(v)], distTo := r.distTo[w := Some(r.distTo[v].value + 1)])
  }

  /** `algo(v)` of the recursive search, v not yet marked and its parent
      link already set. */
  function Visit(g: Graph, r: Search, v: nat): (r': Search)
    requires Valid(g) && Distanced(g, r) && v < Vertices(g) && !r.marked[v] && r.distTo[v].Some?
    ensures Distanced(g, r') && Grows(r, r') && r'.marked[v]
    decreases Unmarked(r.marked), 0, 0
  {
    var r1 := Mark(r, v);
    assert !r.marked[v] && r1.marked[v];
    UnmarkedLess(r.marked, r1.marked);
    Loop(g, r1, v, 0)
  }

  /** One iteration of the loop of `algo(v)`: its i-th neighbour is visited,
      with v as parent, unless it is already marked. */
  function Step(g: Graph, r: Search, v: nat, i: nat): (r': Search)
    requires Valid(g) && Distanced(g, r) && v < Vertices(g) && r.marked[v] && i < |Adj(g, v)|
    ensures Distanced(g, r') && Grows(r, r')
    ensures Adj(g, v)[i] < Vertices(g) && r'.marked[Adj(g, v)[i]]
    decreases Unmarked(r.marked), 1, 0
  {
    var w := Adj(g, v)[i];
    assert w in Adj(g, v);
    if r.marked[w] then r else Visit(g, SetParent(r, v, w), w)
  }

  /** The loop of `algo(v)` from the i-th neighbour on. */
  function Loop(g: Graph, r: Search, v: nat, i: nat): (r': Search)
    requires Valid(g) && Distanced(g, r) && v < Vertices(g) && r.marked[v] && i <= |Adj(g, v)|
    ensures Distanced(g, r') && Grows(r, r')
    decreases Unmarked(r.marked), 2, |Adj(g, v)| - i
  {
    if i == |Adj(g, v)| then r
    else
      var r1 := Step(g, r, v, i);
      UnmarkedLess(r.marked, r1.marked);
      Loop(g, r1, v, i + 1)
  }

  /** `dfs_rec_paths_t(g, s)`. */
  function DfsRec(g: Graph, s: nat): (r: Search)
    requires Valid(g) && s < Vertices(g)
    ensures SearchResult(g, r) && r.source == s
  {
    var r0 := Start(g, s);
    var r := Visit(g, r0, s);
    VisitFacts(g, r0, s);
    ClosedSearch(g, r);
    r
  }

  // ---------------------------------------------------------------------
  // What one visit does
  // ---------------------------------------------------------------------

  /** r' continues r: same source, marks only added, and the entries of a
      vertex change only when it becomes marked. */
  ghost predicate Extends(r: Search, r': Search)
  {
    && r'.source == r.source
    && |r.marked| == |r.edgeTo| == |r.distTo|
    && |r'.marked| == |r.marked| && |r'.edgeTo| == |r.edgeTo| && |r'.distTo| == |r.distTo|
    && forall x | 0 <= x < |r.marked| ::
         && (r.marked[x] ==> r'.marked[x])
         && (r.marked[x] || !r'.marked[x] ==> r'.edgeTo[x] == r.edgeTo[x] && r'.distTo[x] == r.distTo[x])
  }

  /** Every vertex r' marks beyond r has all its neighbours marked. */
  ghost predicate ClosedNew(g: Graph, r: Search, r': Search)
    requires Sized(g, r) && Sized(g, r')
  {
    forall x | 0 <= x < Vertices(g) && !r.marked[x] && r'.marked[x] ::
      forall y | y in Adj(g, x) :: y < Vertices(g) && r'.marked[y]
  }

  /** Visiting v from a tree where v has its parent link set: only newly
      marked vertices change, the tree is kept, v's own link is kept, and
      every newly marked vertex has all its neighbours marked. */
  lemma {:induction false} VisitFacts(g: Graph, r: Search, v: nat)
    requires Valid(g) && Distanced(g, r) && v < Vertices(g) && !r.marked[v] && r.distTo[v].Some?
    requires TreeOk(g, r) && ParentOk(g, r, v) && (r.marked[r.source] || v == r.source)
    ensures var r' := Visit(g, r, v);
      && Extends(r, r') && TreeOk(g, r') && ClosedNew(g, r, r')
      && r'.edgeTo[v] == r.edgeTo[v] && r'.distTo[v] == r.distTo[v]
    decreases Unmarked(r.marked), 0, 0
  {
    var r1 := Mark(r, v);
    MarkOk(g, r, v);
    UnmarkedLess(r.marked, r1.marked);
    LoopFacts(g, r1, v, 0);
    VisitStep(g, r, r1, Visit(g, r, v), v);
  }

  lemma {:induction false} StepFacts(g: Graph, r: Search, v: nat, i: nat)
    requires Valid(g) && Distanced(g, r) && v < Vertices(g) && r.marked[v] && i < |Adj(g, v)|
    requires TreeOk(g, r) && r.marked[r.source]
    ensures var r' := Step(g, r, v, i);
      Extends(r, r') && TreeOk(g, r') && ClosedNew(g, r, r')
    ensures var r' := Step(g, r, v, i);
      r'.marked[v] && r'.marked[r'.source] && Unmarked(r'.marked) <= Unmarked(r.marked)
    decreases Unmarked(r.marked), 1, 0
  {
    UnmarkedLess(r.marked, Step(g, r, v, i).marked);
    var w := Adj(g, v)[i];
    assert w in Adj(g, v);
    if !r.marked[w] {
      SetParentOk(g, r, v, w);
      var r2 := SetParent(r, v, w);
      VisitFacts(g, r2, w);
      SetParentExtends(g, r, r2, Visit(g, r2, w), w);
    }
  }

  /** What the loop from the i-th neighbour on keeps: the tree extends,
      every newly marked vertex has its neighbours marked, and so has v
      from its i-th neighbour on. */
  ghost predicate LoopKept(g: Graph, r: Search, r': Search, v: nat, i: nat)
    requires Sized(g, r) && Sized(g, r') && v < Vertices(g)
  {
    && Extends(r, r') && TreeOk(g, r') && ClosedNew(g, r, r')
    && forall j | i <= j < |Adj(g, v)| :: Adj(g, v)[j] < Vertices(g) && r'.marked[Adj(g, v)[j]]
  }

  /** The loop from the i-th neighbour on also marks every remaining
      neighbour. */
  lemma {:induction false} LoopFacts(g: Graph, r: Search, v: nat, i: nat)
    requires Valid(g) && Distanced(g, r) && v < Vertices(g) && r.marked[v] && i <= |Adj(g, v)|
    requires TreeOk(g, r) && r.marked[r.source]
    ensures LoopKept(g, r, Loop(g, r, v, i), v, i)
    decreases Unmarked(r.marked), 2, |Adj(g, v)| - i, 1
  {
    if i < |Adj(g, v)| {
      StepFacts(g, r, v, i);
      LoopNext(g, r, Step(g, r, v, i), v, i);
    } else {
      LoopNone(g, r, v, i);
    }
  }

  /** The loop from the i-th neighbour on, once its first step is taken. */
  lemma {:induction false} LoopNext(g: Graph, r: Search, r1: Search, v: nat, i: nat)
    requires Valid(g) && Distanced(g, r) && v < Vertices(g) && r.marked[v] && i < |Adj(g, v)|
    requires r1 == Step(g, r, v, i) && Distanced(g, r1) && TreeOk(g, r1) && Extends(r, r1) && ClosedNew(g, r, r1)
    requires r1.marked[v] && r1.marked[r1.source] && Unmarked(r1.marked) <= Unmarked(r.marked)
    ensures LoopKept(g, r, Loop(g, r, v, i), v, i)
    decreases Unmarked(r.marked), 2, |Adj(g, v)| - i, 0
  {
    LoopFacts(g, r1, v, i + 1);
    var r' := Loop(g, r1, v, i + 1);
    LoopChain(g, r, r1, r', v, i);
    assert Loop(g, r, v, i) == r';
  }

  /** An empty rest of the loop keeps everything. */
  lemma LoopNone(g: Graph, r: Search, v: nat, i: nat)
    requires Sized(g, r) && v < Vertices(g) && i == |Adj(g, v)| && TreeOk(g, r)
    ensures LoopKept(g, r, r, v, i)
  {
  }

  /** Marking a vertex with a proper parent link keeps the tree. */
  lemma MarkOk(g: Graph, r: Search, v: nat)
    requires Sized(g, r) && v < Vertices(g) && !r.marked[v]
    requires TreeOk(g, r) && ParentOk(g, r, v) && (r.marked[r.source] || v == r.source)
    ensures var r1 := Mark(r, v);
      Sized(g, r1) && TreeOk(g, r1) && r1.marked[r1.source]
  {
    var r1 := Mark(r, v);
    forall x | 0 <= x < Vertices(g) && r1.marked[x]
      ensures ParentOk(g, r1, x)
    {
      if x != v {
        assert ParentOk(g, r, x);
      }
    }
  }

  /** Chains marking v with the loop over v's neighbours. */
  lemma VisitStep(g: Graph, r: Search, r1: Search, r': Search, v: nat)
    requires Sized(g, r) && Sized(g, r') && v < Vertices(g) && !r.marked[v] && r1 == Mark(r, v)
    requires Extends(r1, r') && ClosedNew(g, r1, r')
    requires forall j | 0 <= j < |Adj(g, v)| :: Adj(g, v)[j] < Vertices(g) && r'.marked[Adj(g, v)[j]]
    ensures Extends(r, r') && r'.marked[v] && ClosedNew(g, r, r')
    ensures r'.edgeTo[v] == r.edgeTo[v] && r'.distTo[v] == r.distTo[v]
  {
    assert r1.marked[v];
    forall y | y in Adj(g, v)
      ensures y < Vertices(g) && r'.marked[y]
    {
      var j :| 0 <= j < |Adj(g, v)| && Adj(g, v)[j] == y;
    }
  }

  /** Setting the parent of an unmarked neighbour of a marked vertex keeps
      the tree and gives that neighbour a proper parent link. */
  lemma SetParentOk(g: Graph, r: Search, v: nat, w: nat)
    requires Valid(g) && Distanced(g, r) && TreeOk(g, r)
    requires v < Vertices(g) && r.marked[v] && w in Adj(g, v) && !r.marked[w] && r.marked[r.source]
    ensures r.distTo[v].Some? && w < Vertices(g)
    ensures var r2 := SetParent(r, v, w);
      Distanced(g, r2) && TreeOk(g, r2) && ParentOk(g, r2, w) && r2.marked == r.marked
  {
    assert w < Vertices(g) && Edge(g, v, w);
    assert ParentOk(g, r, v);
    SetParentTree(g, r, v, w);
  }

  lemma SetParentTree(g: Graph, r: Search, v: nat, w: nat)
    requires Sized(g, r) && TreeOk(g, r)
    requires v < Vertices(g) && r.marked[v] && r.distTo[v].Some? && w < Vertices(g) && !r.marked[w]
    ensures Sized(g, SetParent(r, v, w)) && TreeOk(g, SetParent(r, v, w))
  {
    var r2 := SetParent(r, v, w);
    forall x | 0 <= x < Vertices(g) && r2.marked[x]
      ensures ParentOk(g, r2, x)
    {
      assert ParentOk(g, r, x);
      assert x != w;
    }
  }

  /** A visit after setting the parent extends the state before it. */
  lemma SetParentExtends(g: Graph, r: Search, r2: Search, r3: Search, w: nat)
    requires Sized(g, r) && Sized(g, r2) && Sized(g, r3) && w < Vertices(g) && !r.marked[w]
    requires r2.marked == r.marked && r2.source == r.source
    requires forall x | 0 <= x < Vertices(g) && x != w :: r2.edgeTo[x] == r.edgeTo[x] && r2.distTo[x] == r.distTo[x]
    requires Extends(r2, r3) && ClosedNew(g, r2, r3) && r3.marked[w]
    ensures Extends(r, r3) && ClosedNew(g, r, r3)
  {
  }

  /** Chains one iteration with the rest of the loop. */
  lemma LoopChain(g: Graph, r: Search, r1: Search, r': Search, v: nat, i: nat)
    requires Sized(g, r) && Sized(g, r1) && Sized(g, r') && v < Vertices(g) && i < |Adj(g, v)|
    requires Extends(r, r1) && ClosedNew(g, r, r1) && Adj(g, v)[i] < Vertices(g) && r1.marked[Adj(g, v)[i]]
    requires LoopKept(g, r1, r', v, i + 1)
    ensures LoopKept(g, r, r', v, i)
  {
  }

  // ---------------------------------------------------------------------
  // The iterative search that replaces the recursion by a stack
  // ---------------------------------------------------------------------

  /** `mark_and_push(v, w)` without the push: w is marked with parent v,
      or with no parent and distance 0 for the sentinel parent. */
  function MarkWith(r: Search, parent: Option<nat>, w: nat): Search
    requires w < |r.marked| && w < |r.edgeTo| && w < |r.distTo|
    requires parent.Some? ==> parent.value < |r.distTo| && r.distTo[parent.value].Some?
  {
    match parent
    case None => r.(marked := r.marked[w := true], edgeTo := r.edgeTo[w := None], distTo := r.distTo[w := Some(0)])
    case Some(v) => Mark(SetParent(r, v, w), w)
  }

  /** What the frames of the recursion still to finish need: every frame's
      vertex is marked and its cursor is within its adjacency. */
  ghost predicate ResumeOk(g: Graph, r: Search, stack: seq<nat>, its: seq<nat>)
  {
    && Valid(g) && Distanced(g, r)
    && |its| == Vertices(g)
    && (forall x | 0 <= x < Vertices(g) :: its[x] <= |Adj(g, x)|)
    && (forall k | 0 <= k < |stack| :: stack[k] < Vertices(g) && r.marked[stack[k]])
  }

  /** The outcome of finishing the pending frames, innermost first, each
      frame's loop resuming at its vertex's cursor. */
  function Resume(g: Graph, r: Search, stack: seq<nat>, its: seq<nat>): Search
    requires ResumeOk(g, r, stack, its)
    decreases |stack|
  {
    if stack == [] then r
    else
      var v := stack[|stack| - 1];
      var r' := Loop(g, r, v, its[v]);
      assert ResumeOk(g, r', stack[..|stack| - 1], its);
      Resume(g, r', stack[..|stack| - 1], its)
  }

  /** Only the cursors of the pending frames matter. */
  lemma {:induction false} ResumeIts(g: Graph, r: Search, stack: seq<nat>, its: seq<nat>, its': seq<nat>)
    requires ResumeOk(g, r, stack, its) && ResumeOk(g, r, stack, its')
    requires forall k | 0 <= k < |stack| :: its[stack[k]] == its'[stack[k]]
    ensures Resume(g, r, stack, its) == Resume(g, r, stack, its')
    decreases |stack|
  {
    if stack != [] {
      var v := stack[|stack| - 1];
      var r' := Loop(g, r, v, its[v]);
      assert ResumeOk(g, r', stack[..|stack| - 1], its);
      assert ResumeOk(g, r', stack[..|stack| - 1], its');
      ResumeIts(g, r', stack[..|stack| - 1], its, its');
    }
  }

  /** The top frame is v, whose cursor i points at its neighbour w. */
  ghost predicate AtCursor(g: Graph, stack: seq<nat>, its: seq<nat>, v: nat, i: nat, w: nat)
    requires |its| == Vertices(g)
  {
    && stack != [] && v == stack[|stack| - 1] && v < Vertices(g)
    && i == its[v] && i < |Adj(g, v)| && w == Adj(g, v)[i] && w < Vertices(g)
  }

  /** Advancing the top cursor past a marked neighbour changes nothing. */
  lemma AdvanceSkip(g: Graph, r: Search, stack: seq<nat>, its: seq<nat>, v: nat, i: nat, w: nat)
    requires ResumeOk(g, r, stack, its) && Distinct(stack) && AtCursor(g, stack, its, v, i, w)
    requires r.marked[w]
    ensures ResumeOk(g, r, stack, its[v := i + 1])
    ensures Resume(g, r, stack, its[v := i + 1]) == Resume(g, r, stack, its)
  {
    var its' := its[v := i + 1];
    var rest := stack[..|stack| - 1];
    assert Loop(g, r, v, i) == Loop(g, r, v, i + 1);
    var r' := Loop(g, r, v, i);
    assert ResumeOk(g, r', rest, its) && ResumeOk(g, r', rest, its');
    ResumeIts(g, r', rest, its, its');
  }

  /** Pushing an unmarked neighbour w of the top frame v, with v's cursor
      advanced past it, opens the frame the recursion would open; the
      pending frames then finish as before. */
  lemma PushResume(g: Graph, r: Search, stack: seq<nat>, its: seq<nat>, v: nat, i: nat, w: nat)
    requires ResumeOk(g, r, stack, its) && Distinct(stack) && AtCursor(g, stack, its, v, i, w)
    requires !r.marked[w] && its[w] == 0
    ensures r.distTo[v].Some?
    ensures ResumeOk(g, MarkWith(r, Some(v), w), stack + [w], its[v := i + 1])
    ensures Resume(g, MarkWith(r, Some(v), w), stack + [w], its[v := i + 1]) == Resume(g, r, stack, its)
  {
    var r' := MarkWith(r, Some(v), w);
    var its' := its[v := i + 1];
    PushOk(g, r, stack, its, v, i, w);
    var x := Loop(g, r', w, 0);
    PushLoop(g, r, v, i, w);
    assert (stack + [w])[..|stack|] == stack;
    ResumeTop(g, r', stack + [w], its');
    ResumeTop(g, x, stack, its');
    ResumeTop(g, r, stack, its);
    ResumeIts(g, Loop(g, x, v, i + 1), stack[..|stack| - 1], its, its');
  }

  /** The pushed frame meets what the pending frames need. */
  lemma PushOk(g: Graph, r: Search, stack: seq<nat>, its: seq<nat>, v: nat, i: nat, w: nat)
    requires ResumeOk(g, r, stack, its) && AtCursor(g, stack, its, v, i, w)
    ensures r.distTo[v].Some?
    ensures ResumeOk(g, MarkWith(r, Some(v), w), stack + [w], its[v := i + 1])
  {
    assert r.marked[v];
  }

  /** Running the pushed frame's loop and then v's loop from the next
      cursor is v's loop from the i-th neighbour on. */
  lemma PushLoop(g: Graph, r: Search, v: nat, i: nat, w: nat)
    requires Valid(g) && Distanced(g, r) && v < Vertices(g) && r.marked[v]
    requires i < |Adj(g, v)| && w == Adj(g, v)[i] && w < Vertices(g) && !r.marked[w]
    ensures r.distTo[v].Some?
    ensures var x := Loop(g, MarkWith(r, Some(v), w), w, 0);
      && Distanced(g, x) && x.marked[v]
      && Loop(g, x, v, i + 1) == Loop(g, r, v, i)
  {
    var x := Loop(g, MarkWith(r, Some(v), w), w, 0);
    assert x == Visit(g, SetParent(r, v, w), w) == Step(g, r, v, i);
  }

  /** Finishing the pending frames: the top frame's loop, then the rest. */
  lemma ResumeTop(g: Graph, r: Search, stack: seq<nat>, its: seq<nat>)
    requires ResumeOk(g, r, stack, its) && stack != []
    ensures var v := stack[|stack| - 1];
      && ResumeOk(g, Loop(g, r, v, its[v]), stack[..|stack| - 1], its)
      && Resume(g, r, stack, its) == Resume(g, Loop(g, r, v, its[v]), stack[..|stack| - 1], its)
  {
  }

  /** One iteration of the stack loop leads from (r, stack, its) to
      (r', stack', its'): the pending work is unchanged and the iteration
      made progress. */
  ghost predicate EqRecStepped(g: Graph, r: Search, stack: seq<nat>, its: seq<nat>,
                               r': Search, stack': seq<nat>, its': seq<nat>)
    requires ResumeOk(g, r, stack, its)
  {
    && ResumeOk(g, r', stack', its') && Distinct(stack') && r'.source == r.source
    && (forall x | 0 <= x < Vertices(g) && !r'.marked[x] :: its'[x] == 0)
    && Resume(g, r', stack', its') == Resume(g, r, stack, its)
    && (|| Unmarked(r'.marked) < Unmarked(r.marked)
        || (Unmarked(r'.marked) == Unmarked(r.marked) && Remaining(g, its', Vertices(g)) < Remaining(g, its, Vertices(g)))
        || (r'.marked == r.marked && its' == its && |stack'| < |stack|))
  }

  lemma PushStepped(g: Graph, r: Search, stack: seq<nat>, its: seq<nat>, v: nat, i: nat, w: nat)
    requires ResumeOk(g, r, stack, its) && Distinct(stack) && AtCursor(g, stack, its, v, i, w)
    requires forall x | 0 <= x < Vertices(g) && !r.marked[x] :: its[x] == 0
    requires !r.marked[w]
    ensures r.distTo[v].Some?
    ensures EqRecStepped(g, r, stack, its, MarkWith(r, Some(v), w), stack + [w], its[v := i + 1])
  {
    PushResume(g, r, stack, its, v, i, w);
    var r' := MarkWith(r, Some(v), w);
    assert !r.marked[w] && r'.marked[w];
    UnmarkedLess(r.marked, r'.marked);
    assert forall k | 0 <= k < |stack| :: stack[k] != w;
  }

  lemma SkipStepped(g: Graph, r: Search, stack: seq<nat>, its: seq<nat>, v: nat, i: nat, w: nat)
    requires ResumeOk(g, r, stack, its) && Distinct(stack) && AtCursor(g, stack, its, v, i, w)
    requires forall x | 0 <= x < Vertices(g) && !r.marked[x] :: its[x] == 0
    requires r.marked[w]
    ensures EqRecStepped(g, r, stack, its, r, stack, its[v := i + 1])
  {
    AdvanceSkip(g, r, stack, its, v, i, w);
    RemainingLess(g, its, v, Vertices(g));
  }

  lemma PopStepped(g: Graph, r: Search, stack: seq<nat>, its: seq<nat>)
    requires ResumeOk(g, r, stack, its) && Distinct(stack) && stack != []
    requires forall x | 0 <= x < Vertices(g) && !r.marked[x] :: its[x] == 0
    requires its[stack[|stack| - 1]] == |Adj(g, stack[|stack| - 1])|
    ensures EqRecStepped(g, r, stack, its, r, stack[..|stack| - 1], its)
  {
    var v := stack[|stack| - 1];
    assert Loop(g, r, v, its[v]) == r;
  }

  /** One iteration of the loop of `algo`: advance the top frame's cursor,
      pushing the neighbour if it is unmarked, or pop the finished frame. */
  method EqRecStep(g: Graph, r: Search, stack: seq<nat>, its: seq<nat>)
    returns (r': Search, stack': seq<nat>, its': seq<nat>)
    requires ResumeOk(g, r, stack, its) && Distinct(stack) && stack != []
    requires forall x | 0 <= x < Vertices(g) && !r.marked[x] :: its[x] == 0
    ensures EqRecStepped(g, r, stack, its, r', stack', its')
  {
    var v := stack[|stack| - 1];
    if its[v] < |Adj(g, v)| {
      var i := its[v];
      var w := Adj(g, v)[i];
      assert w in Adj(g, v);
      assert AtCursor(g, stack, its, v, i, w);
      if !r.marked[w] {
        PushStepped(g, r, stack, its, v, i, w);
        r', stack', its' := MarkWith(r, Some(v), w), stack + [w], its[v := i + 1];
      } else {
        SkipStepped(g, r, stack, its, v, i, w);
        r', stack', its' := r, stack, its[v := i + 1];
      }
    } else {
      PopStepped(g, r, stack, its);
      r', stack', its' := r, stack[..|stack| - 1], its;
    }
  }

  /** `dfs_eq_rec_paths_t(g, s)`: the recursion replaced by a stack of
      vertices and a cursor into each vertex's adjacency. */
  method DfsEqRec(g: Graph, s: nat) returns (r: Search)
    requires Valid(g) && s < Vertices(g)
    ensures r == DfsRec(g, s)
    ensures SearchResult(g, r)
  {
    ghost var final := DfsRec(g, s);
    var r0 := Start(g, s);
    var its: seq<nat> := seq(Vertices(g), _ => 0);
    r := MarkWith(r0, None, s);
    assert r == Mark(r0, s);
    var stack := [s];
    assert Resume(g, r, stack, its) == Loop(g, r, s, 0) == final;
    while stack != []
      invariant ResumeOk(g, r, stack, its) && r.source == s && Distinct(stack)
      invariant forall x | 0 <= x < Vertices(g) && !r.marked[x] :: its[x] == 0
      invariant Resume(g, r, stack, its) == final
      decreases Unmarked(r.marked), Remaining(g, its, Vertices(g)), |stack|
    {
      r, stack, its := EqRecStep(g, r, stack, its);
    }
  }

  /** Sum of the cursor distances to the end of each adjacency, over the
      first k vertices. */
  function Remaining(g: Graph, its: seq<nat>, k: nat): nat
    requires k <= Vertices(g) && |its| == Vertices(g)
    requires forall x | 0 <= x < Vertices(g) :: its[x] <= |Adj(g, x)|
  {
    if k == 0 then 0 else Remaining(g, its, k - 1) + (|Adj(g, k - 1)| - its[k - 1])
  }

  lemma {:induction false} RemainingLess(g: Graph, its: seq<nat>, v: nat, k: nat)
    requires k <= Vertices(g) && |its| == Vertices(g)
    requires forall x | 0 <= x < Vertices(g) :: its[x] <= |Adj(g, x)|
    requires v < Vertices(g) && its[v] < |Adj(g, v)|
    ensures var its' := its[v := its[v] + 1];
      && (forall x | 0 <= x < Vertices(g) :: its'[x] <= |Adj(g, x)|)
      && (v < k ==> Remaining(g, its', k) < Remaining(g, its, k))
      && (v >= k ==> Remaining(g, its', k) == Remaining(g, its, k))
  {
    if k > 0 {
      RemainingLess(g, its, v, k - 1);
    }
  }
}
