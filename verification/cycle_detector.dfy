/** `cycle_detector_t`: a depth-first search from every vertex not yet
    marked; the first time a vertex meets a marked neighbour other than the
    one it was reached from, the cycle through the two is read off the
    parent links and every pending frame stops. */
module Cycles {
  import opened Common
  import opened Graphs

  /** The marks, `edge_to` (None for `infinity`) and the cycle found so far,
      empty while none is. */
  datatype Detector = Detector(marked: seq<bool>, edgeTo: seq<Option<nat>>, cycle: seq<nat>)

  predicate Sized(g: Graph, d: Detector)
  {
    |d.marked| == Vertices(g) && |d.edgeTo| == Vertices(g)
  }

  /** Marks are only added, and a marked vertex keeps its parent link. */
  ghost predicate Grows(d: Detector, d': Detector)
  {
    && |d'.marked| == |d.marked| && |d'.edgeTo| == |d.edgeTo|
    && forall x | 0 <= x < |d.marked| && x < |d.edgeTo| ::
         d.marked[x] ==> d'.marked[x] && d'.edgeTo[x] == d.edgeTo[x]
  }

  function Mark(d: Detector, v: nat): Detector
    requires v < |d.marked|
  {
    d.(marked := d.marked[v := true])
  }

  function SetParent(d: Detector, v: nat, w: nat): Detector
    requires w < |d.edgeTo|
  {
    d.(edgeTo := d.edgeTo[w := Some(v)])
  }

  /** The vertices `build_path` pushes to the front while it follows
      `edge_to` from x until it meets w, in the order they end up: x last.
      The walk is cut at a vertex without a parent link or after `fuel`
      steps; BuildCycle shows neither happens when the search calls it. */
  function WalkUp(edgeTo: seq<Option<nat>>, x: nat, w: nat, fuel: nat): seq<nat>
    decreases fuel
  {
    if x == w then []
    else if fuel == 0 || x >= |edgeTo| || edgeTo[x].None? then [x]
    else WalkUp(edgeTo, edgeTo[x].value, w, fuel - 1) + [x]
  }

  /** `build_path(v, w)`: v, then w, then the parent links from w's child
      down to v, in front of what the cycle held. */
  function BuildPath(g: Graph, d: Detector, v: nat, w: nat): Detector
  {
    d.(cycle := [v, w] + WalkUp(d.edgeTo, v, w, Vertices(g)) + d.cycle)
  }

  /** `dfs(u, v)` for an unmarked v reached from u. */
  function Visit(g: Graph, d: Detector, u: nat, v: nat): (d': Detector)
    requires Valid(g) && Sized(g, d) && v < Vertices(g) && !d.marked[v]
    ensures Sized(g, d') && Grows(d, d') && d'.marked[v]
    ensures d.cycle != [] ==> d' == Mark(d, v)
    decreases Unmarked(d.marked), 0, 0
  {
    var d1 := Mark(d, v);
    assert !d.marked[v] && d1.marked[v];
    UnmarkedLess(d.marked, d1.marked);
    Loop(g, d1, u, v, 0)
  }

  /** The body of the loop of `dfs(u, v)` for its i-th neighbour w, once
      no cycle is recorded: visit w if unmarked, else record a cycle unless
      w is u. */
  function Step(g: Graph, d: Detector, u: nat, v: nat, i: nat): (d': Detector)
    requires Valid(g) && Sized(g, d) && v < Vertices(g) && d.marked[v] && i < |Adj(g, v)|
    ensures Sized(g, d') && Grows(d, d')
    ensures Adj(g, v)[i] < Vertices(g) && d'.marked[Adj(g, v)[i]]
    decreases Unmarked(d.marked), 1, 0
  {
    var w := Adj(g, v)[i];
    assert w in Adj(g, v);
    if !d.marked[w] then Visit(g, SetParent(d, v, w), v, w)
    else if w != u then BuildPath(g, d, v, w)
    else d
  }

  /** The loop of `dfs(u, v)` from the i-th neighbour on; each iteration
      first returns if a cycle is recorded. */
  function Loop(g: Graph, d: Detector, u: nat, v: nat, i: nat): (d': Detector)
    requires Valid(g) && Sized(g, d) && v < Vertices(g) && d.marked[v] && i <= |Adj(g, v)|
    ensures Sized(g, d') && Grows(d, d')
    ensures d.cycle != [] ==> d' == d
    decreases Unmarked(d.marked), 2, |Adj(g, v)| - i
  {
    if i == |Adj(g, v)| then d
    else if d.cycle != [] then d
    else
      var d1 := Step(g, d, u, v, i);
      UnmarkedLess(d.marked, d1.marked);
      Loop(g, d1, u, v, i + 1)
  }

  // ---------------------------------------------------------------------
  // Cycles
  // ---------------------------------------------------------------------

  /** A simple cycle: a closed walk through at least three distinct
      vertices, each listed once before the walk returns to the first. */
  ghost predicate IsCycle(g: Graph, c: seq<nat>)
  {
    && |c| >= 4 && IsWalk(g, c) && c[0] == c[|c| - 1]
    && Distinct(c[..|c| - 1])
  }

  ghost predicate HasCycle(g: Graph)
  {
    exists c :: IsCycle(g, c)
  }

  // ---------------------------------------------------------------------
  // The state of the search while no cycle is recorded
  // ---------------------------------------------------------------------

  /** Only marked vertices have a parent link, and it leads to a marked
      neighbour. */
  ghost predicate Tracked(g: Graph, d: Detector)
  {
    && Sized(g, d)
    && forall x | 0 <= x < Vertices(g) ::
         && (!d.marked[x] ==> d.edgeTo[x] == None)
         && (d.edgeTo[x].Some? ==>
               d.edgeTo[x].value < Vertices(g) && d.marked[d.edgeTo[x].value] && Edge(g, d.edgeTo[x].value, x))
  }

  /** A rank that grows from parent to child, so parent links cannot go
      round in a circle. */
  ghost predicate Ranked(g: Graph, d: Detector, rank: seq<nat>)
    requires Sized(g, d)
  {
    && |rank| == Vertices(g)
    && forall x | 0 <= x < Vertices(g) && d.edgeTo[x].Some? && d.edgeTo[x].value < Vertices(g) ::
         rank[d.edgeTo[x].value] < rank[x]
  }

  /** x and y are joined by a parent link, one way or the other. */
  predicate TreeEdge(d: Detector, x: nat, y: nat)
    requires x < |d.edgeTo| && y < |d.edgeTo|
  {
    d.edgeTo[y] == Some(x) || d.edgeTo[x] == Some(y)
  }

  /** x is finished: every neighbour is marked and joined to x by a parent
      link. */
  ghost predicate Done(g: Graph, d: Detector, x: nat)
    requires Sized(g, d) && x < Vertices(g)
  {
    forall y | y in Adj(g, x) :: y < Vertices(g) && d.marked[y] && TreeEdge(d, x, y)
  }

  /** The vertices of the pending frames, outermost first: a root without
      a parent link, then each vertex the child of the one before. */
  ghost predicate StackOk(g: Graph, d: Detector, st: seq<nat>)
    requires Sized(g, d)
  {
    && |st| >= 1 && Distinct(st)
    && (forall k | 0 <= k < |st| :: st[k] < Vertices(g) && d.marked[st[k]])
    && d.edgeTo[st[0]] == None
    && (forall k | 1 <= k < |st| :: d.edgeTo[st[k]] == Some(st[k - 1]))
  }

  /** The vertex the innermost frame was reached from (itself for a root). */
  function Parent(st: seq<nat>): nat
    requires |st| >= 1
  {
    if |st| == 1 then st[0] else st[|st| - 2]
  }

  /** Every marked vertex is pending or finished. */
  ghost predicate Covered(g: Graph, d: Detector, st: seq<nat>)
    requires Sized(g, d)
  {
    forall x | 0 <= x < Vertices(g) && d.marked[x] :: x in st || Done(g, d, x)
  }

  /** Before the i-th iteration of the loop of `dfs(u, v)`, no cycle being
      recorded: the pending frames are st, the children of v are among its
      first i neighbours, and those neighbours are joined to v. */
  ghost predicate LoopInv(g: Graph, d: Detector, u: nat, v: nat, i: nat, st: seq<nat>, rank: seq<nat>)
  {
    && Valid(g) && Tracked(g, d) && Ranked(g, d, rank) && d.cycle == []
    && StackOk(g, d, st) && v == st[|st| - 1] && u == Parent(st) && i <= |Adj(g, v)|
    && Covered(g, d, st)
    && (forall x | 0 <= x < Vertices(g) && d.edgeTo[x] == Some(v) :: x in Adj(g, v)[..i])
    && (forall j | 0 <= j < i :: Adj(g, v)[j] < Vertices(g) && d.marked[Adj(g, v)[j]] && TreeEdge(d, v, Adj(g, v)[j]))
  }

  /** After the loop of `dfs(u, v)`, no cycle being recorded: v is
      finished. */
  ghost predicate Finished(g: Graph, d: Detector, v: nat, st: seq<nat>, rank: seq<nat>)
  {
    && Valid(g) && Tracked(g, d) && Ranked(g, d, rank) && d.cycle == []
    && StackOk(g, d, st) && v == st[|st| - 1] && Covered(g, d, st) && Done(g, d, v)
  }

  /** Every vertex d' marks beyond d has a parent link, to v or to another
      vertex d' marks beyond d. */
  ghost predicate NewParents(g: Graph, d: Detector, d': Detector, v: nat)
    requires Sized(g, d) && Sized(g, d')
  {
    forall x | 0 <= x < Vertices(g) && !d.marked[x] && d'.marked[x] ::
      && d'.edgeTo[x].Some?
      && (d'.edgeTo[x].value == v || (d'.edgeTo[x].value < Vertices(g) && !d.marked[d'.edgeTo[x].value]))
  }

  // ---------------------------------------------------------------------
  // What one frame does
  // ---------------------------------------------------------------------

  /** One iteration either records a cycle through v or keeps the loop
      invariant one neighbour further on; rank' ranks the new parent
      links. */
  lemma {:induction false} StepFacts(g: Graph, d: Detector, u: nat, v: nat, i: nat, st: seq<nat>, rank: seq<nat>)
    returns (rank': seq<nat>)
    requires LoopInv(g, d, u, v, i, st, rank) && i < |Adj(g, v)|
    ensures var d' := Step(g, d, u, v, i);
      && Grows(d, d') && NewParents(g, d, d', v)
      && (d'.cycle != [] ==> IsCycle(g, d'.cycle))
      && (d'.cycle == [] ==> LoopInv(g, d', u, v, i + 1, st, rank'))
    decreases Unmarked(d.marked), 1, 0, 0
  {
    var w := Adj(g, v)[i];
    assert w in Adj(g, v);
    if !d.marked[w] {
      var d1 := SetParent(d, v, w);
      var d2 := Mark(d1, w);
      var rank2 := rank[w := rank[v] + 1];
      EnterChild(g, d, u, v, i, st, rank, w);
      assert !d.marked[w] && d2.marked[w];
      UnmarkedLess(d.marked, d2.marked);
      rank' := LoopFacts(g, d2, v, w, 0, st + [w], rank2);
      var d' := Loop(g, d2, v, w, 0);
      assert d' == Visit(g, d1, v, w);
      LeaveChild(g, d, u, v, i, st, rank, w, d2, d', rank');
    } else if w != u {
      var m := OnStack(g, d, u, v, i, st, rank, w);
      BuildCycle(g, d, st, m, v, w);
      rank' := rank;
    } else {
      ParentEdge(g, d, u, v, i, st, rank);
      rank' := rank;
    }
  }

  /** The loop of `dfs(u, v)` from the i-th neighbour on either records a
      cycle or finishes v. */
  lemma {:induction false} LoopFacts(g: Graph, d: Detector, u: nat, v: nat, i: nat, st: seq<nat>, rank: seq<nat>)
    returns (rank': seq<nat>)
    requires LoopInv(g, d, u, v, i, st, rank)
    ensures var d' := Loop(g, d, u, v, i);
      && Grows(d, d') && NewParents(g, d, d', v)
      && (d'.cycle != [] ==> IsCycle(g, d'.cycle))
      && (d'.cycle == [] ==> Finished(g, d', v, st, rank'))
    decreases Unmarked(d.marked), 2, |Adj(g, v)| - i, 1
  {
    if i == |Adj(g, v)| {
      rank' := rank;
      assert Loop(g, d, u, v, i) == d;
      AllHandled(g, d, u, v, st, rank);
    } else {
      rank' := LoopNext(g, d, u, v, i, st, rank);
    }
  }

  /** One iteration followed by the rest of the loop. */
  lemma {:induction false} LoopNext(g: Graph, d: Detector, u: nat, v: nat, i: nat, st: seq<nat>, rank: seq<nat>)
    returns (rank': seq<nat>)
    requires LoopInv(g, d, u, v, i, st, rank) && i < |Adj(g, v)|
    ensures var d' := Loop(g, d, u, v, i);
      && Grows(d, d') && NewParents(g, d, d', v)
      && (d'.cycle != [] ==> IsCycle(g, d'.cycle))
      && (d'.cycle == [] ==> Finished(g, d', v, st, rank'))
    decreases Unmarked(d.marked), 2, |Adj(g, v)| - i, 0
  {
    var d1 := Step(g, d, u, v, i);
    var rank1 := StepFacts(g, d, u, v, i, st, rank);
    UnmarkedLess(d.marked, d1.marked);
    var d' := Loop(g, d1, u, v, i + 1);
    assert Loop(g, d, u, v, i) == d';
    if d1.cycle == [] {
      rank' := LoopFacts(g, d1, u, v, i + 1, st, rank1);
      LoopChain(g, d, d1, d', v);
    } else {
      assert d' == d1;
      rank' := rank1;
    }
  }

  /** Entering the frame of an unmarked neighbour w of v, after w's parent
      link is set and w is marked. */
  lemma EnterChild(g: Graph, d: Detector, u: nat, v: nat, i: nat, st: seq<nat>, rank: seq<nat>, w: nat)
    requires LoopInv(g, d, u, v, i, st, rank) && i < |Adj(g, v)| && w == Adj(g, v)[i] && w < Vertices(g) && !d.marked[w]
    ensures w < Vertices(g)
    ensures LoopInv(g, Mark(SetParent(d, v, w), w), v, w, 0, st + [w], rank[w := rank[v] + 1])
  {
    assert w in Adj(g, v);
    var d2 := Mark(SetParent(d, v, w), w);
    var st' := st + [w];
    EnterTracked(g, d, v, w, rank);
    EnterStack(g, d, st, v, w);
    EnterCovered(g, d, st, v, w);
    forall x | 0 <= x < Vertices(g)
      ensures d2.edgeTo[x] != Some(w)
    {
      if x != w {
        assert d2.edgeTo[x] == d.edgeTo[x];
      }
    }
  }

  lemma EnterTracked(g: Graph, d: Detector, v: nat, w: nat, rank: seq<nat>)
    requires Valid(g) && Tracked(g, d) && Ranked(g, d, rank)
    requires v < Vertices(g) && d.marked[v] && w in Adj(g, v) && !d.marked[w]
    ensures w < Vertices(g)
    ensures var d2 := Mark(SetParent(d, v, w), w);
      Tracked(g, d2) && Ranked(g, d2, rank[w := rank[v] + 1])
  {
    assert Edge(g, v, w);
  }

  lemma EnterStack(g: Graph, d: Detector, st: seq<nat>, v: nat, w: nat)
    requires Tracked(g, d) && StackOk(g, d, st) && v == st[|st| - 1]
    requires w < Vertices(g) && !d.marked[w]
    ensures StackOk(g, Mark(SetParent(d, v, w), w), st + [w])
    ensures Parent(st + [w]) == v
  {
    var st' := st + [w];
    forall k | 0 <= k < |st| ensures st[k] != w
    {
      assert d.marked[st[k]];
    }
  }

  lemma EnterCovered(g: Graph, d: Detector, st: seq<nat>, v: nat, w: nat)
    requires Sized(g, d) && Covered(g, d, st) && w < Vertices(g) && !d.marked[w]
    ensures Covered(g, Mark(SetParent(d, v, w), w), st + [w])
  {
    var d2 := Mark(SetParent(d, v, w), w);
    forall x | 0 <= x < Vertices(g) && d2.marked[x] && x !in st + [w]
      ensures Done(g, d2, x)
    {
      assert x !in st && Done(g, d, x);
      forall y | y in Adj(g, x)
        ensures y < Vertices(g) && d2.marked[y] && TreeEdge(d2, x, y)
      {
        assert d.marked[y] && TreeEdge(d, x, y);
      }
    }
  }

  /** Back from the frame of w, which is now finished: the loop invariant
      holds one neighbour further on. */
  lemma LeaveChild(g: Graph, d: Detector, u: nat, v: nat, i: nat, st: seq<nat>, rank: seq<nat>, w: nat,
                   d2: Detector, d': Detector, rank': seq<nat>)
    requires LoopInv(g, d, u, v, i, st, rank) && i < |Adj(g, v)| && w == Adj(g, v)[i] && w < Vertices(g) && !d.marked[w]
    requires w < Vertices(g) && d2 == Mark(SetParent(d, v, w), w)
    requires Sized(g, d') && Grows(d2, d') && NewParents(g, d2, d', w)
    requires d'.cycle == [] ==> Finished(g, d', w, st + [w], rank')
    ensures Grows(d, d') && NewParents(g, d, d', v)
    ensures d'.cycle == [] ==> LoopInv(g, d', u, v, i + 1, st, rank')
  {
    LeaveParents(g, d, v, w, d2, d');
    if d'.cycle == [] {
      LeaveStack(g, d', st, w);
      LeaveChildren(g, d, v, i, w, d2, d');
      LeaveHandled(g, d, v, i, w, d2, d');
    }
  }

  /** The vertices the frame of w marked have parent links to w or to
      each other, and w's link is to v. */
  lemma LeaveParents(g: Graph, d: Detector, v: nat, w: nat, d2: Detector, d': Detector)
    requires Sized(g, d) && w < Vertices(g) && !d.marked[w] && d2 == Mark(SetParent(d, v, w), w)
    requires Sized(g, d') && Grows(d2, d') && NewParents(g, d2, d', w)
    ensures Grows(d, d') && NewParents(g, d, d', v)
  {
    assert d2.marked[w] && d2.edgeTo[w] == Some(v);
  }

  lemma LeaveStack(g: Graph, d': Detector, st: seq<nat>, w: nat)
    requires Sized(g, d') && StackOk(g, d', st + [w]) && |st| >= 1
    requires Covered(g, d', st + [w]) && w < Vertices(g) && Done(g, d', w)
    ensures StackOk(g, d', st) && Covered(g, d', st)
  {
    var st' := st + [w];
    assert forall k | 0 <= k < |st| :: st[k] == st'[k];
  }

  lemma LeaveChildren(g: Graph, d: Detector, v: nat, i: nat, w: nat, d2: Detector, d': Detector)
    requires Valid(g) && Tracked(g, d) && v < Vertices(g) && i < |Adj(g, v)| && w == Adj(g, v)[i] && w < Vertices(g) && !d.marked[w]
    requires d.marked[v] && w < Vertices(g) && d2 == Mark(SetParent(d, v, w), w) && w != v
    requires forall x | 0 <= x < Vertices(g) && d.edgeTo[x] == Some(v) :: x in Adj(g, v)[..i]
    requires Tracked(g, d') && Grows(d2, d') && NewParents(g, d2, d', w)
    ensures forall x | 0 <= x < Vertices(g) && d'.edgeTo[x] == Some(v) :: x in Adj(g, v)[..i + 1]
  {
    forall x | 0 <= x < Vertices(g) && d'.edgeTo[x] == Some(v)
      ensures x in Adj(g, v)[..i + 1]
    {
      if x == w {
        assert Adj(g, v)[..i + 1][i] == w;
      } else {
        assert d2.marked[x];
        assert x in Adj(g, v)[..i];
      }
    }
  }

  lemma LeaveHandled(g: Graph, d: Detector, v: nat, i: nat, w: nat, d2: Detector, d': Detector)
    requires Sized(g, d) && v < Vertices(g) && i < |Adj(g, v)| && w == Adj(g, v)[i] && w < Vertices(g) && !d.marked[w] && d.marked[v]
    requires w < Vertices(g) && d2 == Mark(SetParent(d, v, w), w)
    requires forall j | 0 <= j < i :: Adj(g, v)[j] < Vertices(g) && d.marked[Adj(g, v)[j]] && TreeEdge(d, v, Adj(g, v)[j])
    requires Sized(g, d') && Grows(d2, d')
    ensures forall j | 0 <= j < i + 1 :: Adj(g, v)[j] < Vertices(g) && d'.marked[Adj(g, v)[j]] && TreeEdge(d', v, Adj(g, v)[j])
  {
    assert d2.marked[w] && d2.edgeTo[w] == Some(v);
  }

  /** v's link to the vertex it was reached from is a parent link. */
  lemma ParentEdge(g: Graph, d: Detector, u: nat, v: nat, i: nat, st: seq<nat>, rank: seq<nat>)
    requires LoopInv(g, d, u, v, i, st, rank) && i < |Adj(g, v)| && Adj(g, v)[i] == u
    ensures LoopInv(g, d, u, v, i + 1, st, rank)
  {
    assert u in Adj(g, v);
    assert |st| >= 2;
    assert d.edgeTo[st[|st| - 1]] == Some(st[|st| - 2]);
    forall x | 0 <= x < Vertices(g) && d.edgeTo[x] == Some(v)
      ensures x in Adj(g, v)[..i + 1]
    {
      assert x in Adj(g, v)[..i];
    }
  }

  /** A marked neighbour w of v other than u is pending, at least two
      frames out from v: a finished w would be v's parent or a child v has
      already met. */
  lemma OnStack(g: Graph, d: Detector, u: nat, v: nat, i: nat, st: seq<nat>, rank: seq<nat>, w: nat)
    returns (m: nat)
    requires LoopInv(g, d, u, v, i, st, rank) && i < |Adj(g, v)| && w == Adj(g, v)[i]
    requires w < Vertices(g) && d.marked[w] && w != u
    ensures m + 3 <= |st| && st[m] == w
  {
    assert w in Adj(g, v) && v in Adj(g, w);
    assert d.edgeTo[v] == if |st| == 1 then None else Some(u);
    assert w !in Adj(g, v)[..i] by {
      forall j | 0 <= j < i ensures Adj(g, v)[j] != w
      {
        assert Adj(g, v)[j] < Adj(g, v)[i];
      }
    }
    assert !TreeEdge(d, w, v);
    assert !Done(g, d, w);
    m :| 0 <= m < |st| && st[m] == w;
    assert m != |st| - 1;
    if |st| >= 2 {
      assert m != |st| - 2;
    }
  }

  /** At the end of the loop every neighbour of v is joined to it. */
  lemma AllHandled(g: Graph, d: Detector, u: nat, v: nat, st: seq<nat>, rank: seq<nat>)
    requires v < Vertices(g) && LoopInv(g, d, u, v, |Adj(g, v)|, st, rank)
    ensures Finished(g, d, v, st, rank)
  {
    forall y | y in Adj(g, v)
      ensures y < Vertices(g) && d.marked[y] && TreeEdge(d, v, y)
    {
      var j :| 0 <= j < |Adj(g, v)| && Adj(g, v)[j] == y;
    }
  }

  /** Chains one iteration with the rest of the loop. */
  lemma LoopChain(g: Graph, d: Detector, d1: Detector, d': Detector, v: nat)
    requires Sized(g, d) && Sized(g, d1) && Sized(g, d')
    requires Grows(d, d1) && NewParents(g, d, d1, v) && Grows(d1, d') && NewParents(g, d1, d', v)
    ensures Grows(d, d') && NewParents(g, d, d', v)
  {
  }

  /** The cycle `build_path(v, w)` records for a pending w at least two
      frames out: v, w, then the frames from w's child to v. */
  lemma BuildCycle(g: Graph, d: Detector, st: seq<nat>, m: nat, v: nat, w: nat)
    requires Valid(g) && Tracked(g, d) && StackOk(g, d, st) && v == st[|st| - 1] && d.cycle == []
    requires w in Adj(g, v) && m + 3 <= |st| && st[m] == w
    ensures BuildPath(g, d, v, w).cycle == [v, w] + st[m + 1..]
    ensures IsCycle(g, BuildPath(g, d, v, w).cycle)
  {
    DistinctBelow(st, Vertices(g));
    WalkSpec(d.edgeTo, st, m, |st| - 1, Vertices(g));
    assert st[m + 1..|st|] == st[m + 1..];
    var c := [v, w] + st[m + 1..];
    CycleWalk(g, d, st, m, v, w);
    CycleDistinct(st, m, v, w);
  }

  lemma CycleWalk(g: Graph, d: Detector, st: seq<nat>, m: nat, v: nat, w: nat)
    requires Valid(g) && Tracked(g, d) && StackOk(g, d, st) && v == st[|st| - 1]
    requires w in Adj(g, v) && m + 3 <= |st| && st[m] == w
    ensures IsWalk(g, [v, w] + st[m + 1..])
  {
    var c := [v, w] + st[m + 1..];
    forall k | 0 <= k < |c| - 1
      ensures Edge(g, c[k], c[k + 1])
    {
      if k > 0 {
        assert c[k] == st[m + k - 1] && c[k + 1] == st[m + k];
        assert d.edgeTo[st[m + k]] == Some(st[m + k - 1]);
      }
    }
    forall k | 0 <= k < |c|
      ensures c[k] < Vertices(g)
    {
      if k > 0 {
        assert c[k] == st[m + k - 1];
      }
    }
  }

  lemma CycleDistinct(st: seq<nat>, m: nat, v: nat, w: nat)
    requires Distinct(st) && |st| >= 1 && v == st[|st| - 1] && m + 3 <= |st| && st[m] == w
    ensures var c := [v, w] + st[m + 1..];
      |c| >= 4 && c[0] == c[|c| - 1] && Distinct(c[..|c| - 1])
  {
    var c := [v, w] + st[m + 1..];
    var t := c[..|c| - 1];
    assert t == [v] + st[m..|st| - 1];
    forall a, b | 0 <= a < b < |t|
      ensures t[a] != t[b]
    {
      assert t[b] == st[m + b - 1];
      if a > 0 {
        assert t[a] == st[m + a - 1];
      }
    }
  }

  /** Following parent links from the j-th pending frame reaches the m-th
      and lists the frames in between. */
  lemma {:induction false} WalkSpec(edgeTo: seq<Option<nat>>, st: seq<nat>, m: nat, j: nat, fuel: nat)
    requires Distinct(st) && m <= j < |st| && j - m <= fuel
    requires forall k | m < k <= j :: st[k] < |edgeTo| && edgeTo[st[k]] == Some(st[k - 1])
    ensures WalkUp(edgeTo, st[j], st[m], fuel) == st[m + 1..j + 1]
    decreases j
  {
    if j > m {
      assert st[j] != st[m];
      WalkSpec(edgeTo, st, m, j - 1, fuel - 1);
      assert st[m + 1..j] + [st[j]] == st[m + 1..j + 1];
    }
  }

  // ---------------------------------------------------------------------
  // The constructor
  // ---------------------------------------------------------------------

  /** A search from an unmarked root while no cycle is recorded either
      records one or leaves every marked vertex finished. */
  lemma RootFacts(g: Graph, d: Detector, v: nat, rank: seq<nat>) returns (rank': seq<nat>)
    requires Valid(g) && Tracked(g, d) && Ranked(g, d, rank) && d.cycle == []
    requires forall x | 0 <= x < Vertices(g) && d.marked[x] :: Done(g, d, x)
    requires v < Vertices(g) && !d.marked[v]
    ensures var d' := Visit(g, d, v, v);
      && (d'.cycle != [] ==> IsCycle(g, d'.cycle))
      && (d'.cycle == [] ==>
            && Tracked(g, d') && Ranked(g, d', rank')
            && forall x | 0 <= x < Vertices(g) && d'.marked[x] :: Done(g, d', x))
  {
    var d1 := Mark(d, v);
    forall x | 0 <= x < Vertices(g) && d1.marked[x] && x != v
      ensures Done(g, d1, x)
    {
      assert Done(g, d, x);
    }
    assert LoopInv(g, d1, v, v, 0, [v], rank);
    rank' := LoopFacts(g, d1, v, v, 0, [v], rank);
  }

  /** A search begun once a cycle is recorded marks its root and stops:
      the first cycle recorded is kept. */
  lemma CycleKept(g: Graph, d: Detector, u: nat, v: nat)
    requires Valid(g) && Sized(g, d) && v < Vertices(g) && !d.marked[v] && d.cycle != []
    ensures Visit(g, d, u, v) == Mark(d, v)
  {
    assert Visit(g, d, u, v) == Loop(g, Mark(d, v), u, v, 0);
  }

  /** The finished search: every vertex is marked, and either a cycle is
      recorded or every edge is a parent link, ranked from parent to
      child. */
  ghost predicate Detected(g: Graph, d: Detector)
  {
    && Valid(g) && Sized(g, d)
    && (forall x | 0 <= x < Vertices(g) :: d.marked[x])
    && (d.cycle != [] ==> IsCycle(g, d.cycle))
    && (d.cycle == [] ==>
          && Tracked(g, d) && (exists rank :: Ranked(g, d, rank))
          && forall x | 0 <= x < Vertices(g) :: Done(g, d, x))
  }

  /** `cycle_detector_t(g)`: it records a cycle exactly when g has one. */
  method Detect(g: Graph) returns (d: Detector)
    requires Valid(g)
    ensures Detected(g, d)
    ensures d.cycle != [] <==> HasCycle(g)
  {
    d := Detector(seq(Vertices(g), _ => false), seq(Vertices(g), _ => None), []);
    ghost var rank: seq<nat> := seq(Vertices(g), _ => 0);
    for v := 0 to Vertices(g)
      invariant Sized(g, d) && forall x | 0 <= x < v :: d.marked[x]
      invariant d.cycle != [] ==> IsCycle(g, d.cycle)
      invariant d.cycle == [] ==>
        && Tracked(g, d) && Ranked(g, d, rank)
        && forall x | 0 <= x < Vertices(g) && d.marked[x] :: Done(g, d, x)
    {
      if !d.marked[v] {
        if d.cycle == [] {
          rank := RootFacts(g, d, v, rank);
        } else {
          CycleKept(g, d, v, v);
        }
        d := Visit(g, d, v, v);
      }
    }
    if d.cycle == [] {
      ForestAcyclic(g, d, rank);
    }
  }

  // ---------------------------------------------------------------------
  // A forest has no cycle
  // ---------------------------------------------------------------------

  /** When every edge is a parent link and ranks grow from parent to child,
      the graph has no cycle: on a cycle, the vertex of highest rank would
      need both its cycle neighbours as its parent. */
  lemma ForestAcyclic(g: Graph, d: Detector, rank: seq<nat>)
    requires Valid(g) && Tracked(g, d) && Ranked(g, d, rank)
    requires forall x | 0 <= x < Vertices(g) :: Done(g, d, x)
    ensures !HasCycle(g)
  {
    forall c
      ensures !IsCycle(g, c)
    {
      NoCycle(g, d, rank, c);
    }
  }

  /** A closed walk through at least three vertices repeats one before it
      returns: the highest-ranked vertex's neighbours on it are both its
      parent. */
  lemma NoCycle(g: Graph, d: Detector, rank: seq<nat>, c: seq<nat>)
    requires Valid(g) && Tracked(g, d) && Ranked(g, d, rank)
    requires forall x | 0 <= x < Vertices(g) :: Done(g, d, x)
    ensures !IsCycle(g, c)
  {
    if |c| >= 4 && IsWalk(g, c) && c[0] == c[|c| - 1] {
      var n := |c| - 1;
      var s := c[..n];
      var k := MaxRank(s, rank);
      var x := s[k];
      var kn := if k + 1 == n then 0 else k + 1;
      var kp := if k == 0 then n - 1 else k - 1;
      assert Edge(g, c[k], c[k + 1]) && c[k + 1] == s[kn];
      assert Edge(g, c[kp], c[kp + 1]) && c[kp + 1] == x && c[kp] == s[kp];
      ParentOfMax(g, d, rank, s, k, kn);
      assert x in Adj(g, s[kp]);
      ParentOfMax(g, d, rank, s, k, kp);
      assert s[kn] == s[kp] && kn != kp;
    }
  }

  /** A neighbour of the highest-ranked vertex of s that lies on s is its
      parent. */
  lemma ParentOfMax(g: Graph, d: Detector, rank: seq<nat>, s: seq<nat>, k: nat, j: nat)
    requires Valid(g) && Tracked(g, d) && Ranked(g, d, rank)
    requires forall x | 0 <= x < Vertices(g) :: Done(g, d, x)
    requires k < |s| && j < |s| && s[k] < Vertices(g)
    requires forall i | 0 <= i < |s| :: s[i] < |rank| && rank[s[i]] <= rank[s[k]]
    requires s[j] in Adj(g, s[k]) || s[k] in Adj(g, s[j])
    ensures d.edgeTo[s[k]] == Some(s[j])
  {
    if s[k] in Adj(g, s[j]) {
      assert Edge(g, s[j], s[k]);
    }
    assert s[j] in Adj(g, s[k]);
    assert Done(g, d, s[k]);
  }

  /** An index of s whose vertex has the highest rank. */
  lemma MaxRank(s: seq<nat>, rank: seq<nat>) returns (k: nat)
    requires |s| > 0 && forall i | 0 <= i < |s| :: s[i] < |rank|
    ensures k < |s| && forall i | 0 <= i < |s| :: rank[s[i]] <= rank[s[k]]
  {
    k := 0;
    var i := 1;
    while i < |s|
      invariant 1 <= i <= |s| && k < |s|
      invariant forall l | 0 <= l < i :: rank[s[l]] <= rank[s[k]]
    {
      if rank[s[i]] > rank[s[k]] {
        k := i;
      }
      i := i + 1;
    }
  }

  // ---------------------------------------------------------------------
  // Queries
  // ---------------------------------------------------------------------

  /** `positive()`: on a finished search, whether g has a cycle. */
  function Positive(g: Graph, d: Detector): (b: bool)
    ensures Detected(g, d) ==> (b <==> HasCycle(g))
  {
    PositiveSpec(g, d);
    d.cycle != []
  }

  lemma PositiveSpec(g: Graph, d: Detector)
    ensures Detected(g, d) ==> (d.cycle != [] <==> HasCycle(g))
  {
    if Detected(g, d) && d.cycle == [] {
      var rank :| Ranked(g, d, rank);
      ForestAcyclic(g, d, rank);
    }
  }

  /** `get_cycle()`, only once a cycle is recorded: on a finished search a
      closed walk through at least three distinct vertices. */
  function GetCycle(g: Graph, d: Detector): (c: seq<nat>)
    requires d.cycle != []
    ensures Detected(g, d) ==> IsCycle(g, c) && c[0] == c[|c| - 1]
  {
    d.cycle
  }
}
