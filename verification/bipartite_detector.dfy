/** `bipartite_detector_t`: a depth-first search from every vertex still
    unlabelled; a root is labelled neg and then inverted, a child gets the
    inverse of its parent's label, and the first edge found between two
    equal labels records neg, after which every pending frame stops. */
module Bipartite {
  import opened Common
  import opened Graphs

  /** `label_t`. */
  datatype Label = Unknown | Neg | Pos

  /** `inv`: swaps neg and pos.  The search only inverts labels it has set,
      so the value at Unknown is never used. */
  function Inv(l: Label): Label
  {
    match l
    case Neg => Pos
    case Pos => Neg
    case Unknown => Unknown
  }

  /** a is a label and b is the other one. */
  predicate Opposite(a: Label, b: Label)
  {
    a != Unknown && b == Inv(a)
  }

  /** `neg_or_pos` and `bipartite`. */
  datatype Detector = Detector(labels: seq<Label>, bipartite: Label)

  predicate Sized(g: Graph, d: Detector)
  {
    |d.labels| == Vertices(g)
  }

  /** Which vertices are labelled. */
  function Marks(l: seq<Label>): (m: seq<bool>)
    ensures |m| == |l| && forall i | 0 <= i < |l| :: m[i] == (l[i] != Unknown)
  {
    seq(|l|, i requires 0 <= i < |l| => l[i] != Unknown)
  }

  /** A labelled vertex keeps its label. */
  ghost predicate Keeps(l: seq<Label>, l': seq<Label>)
  {
    |l'| == |l| && forall x | 0 <= x < |l| && l[x] != Unknown :: l'[x] == l[x]
  }

  /** Labels are only added, and `bipartite` can only become neg. */
  ghost predicate Grows(d: Detector, d': Detector)
  {
    Keeps(d.labels, d'.labels) && (d'.bipartite == d.bipartite || d'.bipartite == Neg)
  }

  /** The first statement of `dfs(u, v)`: v gets the inverse of u's label. */
  function Enter(d: Detector, u: nat, v: nat): Detector
    requires u < |d.labels| && v < |d.labels|
  {
    d.(labels := d.labels[v := Inv(d.labels[u])])
  }

  /** `dfs(u, v)` for an unlabelled v reached from a labelled u. */
  function Dfs(g: Graph, d: Detector, u: nat, v: nat): (d': Detector)
    requires Valid(g) && Sized(g, d) && u < Vertices(g) && v < Vertices(g)
    requires d.labels[u] != Unknown && d.labels[v] == Unknown
    ensures Sized(g, d') && Grows(d, d') && d'.labels[v] == Inv(d.labels[u])
    decreases Unmarked(Marks(d.labels)), 0, 0
  {
    var d1 := Enter(d, u, v);
    assert Marks(d1.labels)[v] && !Marks(d.labels)[v];
    UnmarkedLess(Marks(d.labels), Marks(d1.labels));
    Loop(g, d1, v, 0)
  }

  /** The body of the loop of `dfs` at v for its i-th neighbour w, once
      neg is not recorded: search from w if unlabelled, else record neg if w
      carries v's label. */
  function Step(g: Graph, d: Detector, v: nat, i: nat): (d': Detector)
    requires Valid(g) && Sized(g, d) && v < Vertices(g) && d.labels[v] != Unknown && i < |Adj(g, v)|
    ensures Sized(g, d') && Grows(d, d')
    ensures Adj(g, v)[i] < Vertices(g) && d'.labels[Adj(g, v)[i]] != Unknown
    decreases Unmarked(Marks(d.labels)), 1, 0
  {
    var w := Adj(g, v)[i];
    assert w in Adj(g, v);
    if d.labels[w] == Unknown then Dfs(g, d, v, w)
    else if d.labels[w] == d.labels[v] then d.(bipartite := Neg)
    else d
  }

  /** The loop of `dfs` at v from the i-th neighbour on; each iteration
      first returns if neg is recorded, so a frame that finds neg recorded
      changes nothing. */
  function Loop(g: Graph, d: Detector, v: nat, i: nat): (d': Detector)
    requires Valid(g) && Sized(g, d) && v < Vertices(g) && d.labels[v] != Unknown && i <= |Adj(g, v)|
    ensures Sized(g, d') && Grows(d, d')
    ensures d.bipartite == Neg ==> d' == d
    decreases Unmarked(Marks(d.labels)), 2, |Adj(g, v)| - i
  {
    if i == |Adj(g, v)| then d
    else if d.bipartite == Neg then d
    else
      var d1 := Step(g, d, v, i);
      UnmarkedLess(Marks(d.labels), Marks(d1.labels));
      Loop(g, d1, v, i + 1)
  }

  /** The constructor's `neg_or_pos[v] = neg; dfs(v, v);` for an unlabelled
      v: the root is labelled neg and `dfs` inverts it, so it ends pos. */
  function Root(g: Graph, d: Detector, v: nat): (d': Detector)
    requires Valid(g) && Sized(g, d) && v < Vertices(g) && d.labels[v] == Unknown
    ensures Sized(g, d') && Grows(d, d') && d'.labels[v] == Pos
  {
    var d1 := d.(labels := d.labels[v := Neg]);
    Loop(g, Enter(d1, v, v), v, 0)
  }

  // ---------------------------------------------------------------------
  // 2-colourings
  // ---------------------------------------------------------------------

  /** col gives the two ends of every edge different colours. */
  ghost predicate Proper(g: Graph, col: seq<bool>)
  {
    && |col| == Vertices(g)
    && forall x: nat, y: nat | x < Vertices(g) && y < Vertices(g) && Edge(g, x, y) :: col[x] != col[y]
  }

  ghost predicate TwoColourable(g: Graph)
  {
    exists col :: Proper(g, col)
  }

  /** Every colour swapped. */
  function Flip(col: seq<bool>): (f: seq<bool>)
    ensures |f| == |col| && forall i | 0 <= i < |col| :: f[i] == !col[i]
  {
    seq(|col|, i requires 0 <= i < |col| => !col[i])
  }

  lemma FlipProper(g: Graph, col: seq<bool>)
    requires Proper(g, col)
    ensures Proper(g, Flip(col))
  {
  }

  // ---------------------------------------------------------------------
  // What one search labels when it records no clash
  // ---------------------------------------------------------------------

  /** Every neighbour of x is labelled opposite to x. */
  ghost predicate Done(g: Graph, d: Detector, x: nat)
    requires Sized(g, d) && x < Vertices(g)
  {
    forall y | y in Adj(g, x) :: y < Vertices(g) && Opposite(d.labels[x], d.labels[y])
  }

  /** Every vertex d' labels beyond d is done. */
  ghost predicate NewDone(g: Graph, d: Detector, d': Detector)
    requires Sized(g, d) && Sized(g, d')
  {
    forall x | 0 <= x < Vertices(g) && d.labels[x] == Unknown && d'.labels[x] != Unknown :: Done(g, d', x)
  }

  lemma DoneKept(g: Graph, d: Detector, d': Detector, x: nat)
    requires Sized(g, d) && Sized(g, d') && x < Vertices(g) && Keeps(d.labels, d'.labels)
    requires Done(g, d, x)
    ensures Done(g, d', x)
  {
  }

  lemma {:induction false} DfsDone(g: Graph, d: Detector, u: nat, v: nat)
    requires Valid(g) && Sized(g, d) && u < Vertices(g) && v < Vertices(g)
    requires d.labels[u] != Unknown && d.labels[v] == Unknown
    ensures var d' := Dfs(g, d, u, v); d'.bipartite == Unknown ==> NewDone(g, d, d')
    decreases Unmarked(Marks(d.labels)), 0, 0
  {
    var d1 := Enter(d, u, v);
    assert Marks(d1.labels)[v] && !Marks(d.labels)[v];
    UnmarkedLess(Marks(d.labels), Marks(d1.labels));
    LoopDone(g, d1, v, 0);
    EnterChain(g, d, d1, Loop(g, d1, v, 0), v);
  }

  lemma {:induction false} StepDone(g: Graph, d: Detector, v: nat, i: nat)
    requires Valid(g) && Sized(g, d) && v < Vertices(g) && d.labels[v] != Unknown && i < |Adj(g, v)|
    ensures var d' := Step(g, d, v, i);
      d'.bipartite == Unknown ==> NewDone(g, d, d') && Opposite(d'.labels[v], d'.labels[Adj(g, v)[i]])
    decreases Unmarked(Marks(d.labels)), 1, 0
  {
    var w := Adj(g, v)[i];
    assert w in Adj(g, v);
    if d.labels[w] == Unknown {
      DfsDone(g, d, v, w);
    }
  }

  /** The loop from the i-th neighbour on, when it records no clash, also
      labels every remaining neighbour opposite to v. */
  lemma {:induction false} LoopDone(g: Graph, d: Detector, v: nat, i: nat)
    requires Valid(g) && Sized(g, d) && v < Vertices(g) && d.labels[v] != Unknown && i <= |Adj(g, v)|
    ensures var d' := Loop(g, d, v, i);
      d'.bipartite == Unknown ==>
        && NewDone(g, d, d')
        && forall j | i <= j < |Adj(g, v)| :: Adj(g, v)[j] < Vertices(g) && Opposite(d'.labels[v], d'.labels[Adj(g, v)[j]])
    decreases Unmarked(Marks(d.labels)), 2, |Adj(g, v)| - i
  {
    if i < |Adj(g, v)| && d.bipartite != Neg {
      var d1 := Step(g, d, v, i);
      StepDone(g, d, v, i);
      UnmarkedLess(Marks(d.labels), Marks(d1.labels));
      LoopDone(g, d1, v, i + 1);
      var d' := Loop(g, d1, v, i + 1);
      assert Loop(g, d, v, i) == d';
      LoopChain(g, d, d1, d', v, i);
    }
  }

  /** Chains labelling v with the loop over v's neighbours. */
  lemma EnterChain(g: Graph, d: Detector, d1: Detector, d': Detector, v: nat)
    requires Sized(g, d) && Sized(g, d1) && Sized(g, d') && v < Vertices(g) && d.labels[v] == Unknown
    requires forall x | 0 <= x < Vertices(g) && x != v :: d1.labels[x] == d.labels[x]
    requires Grows(d1, d') && (d'.bipartite == Unknown ==> NewDone(g, d1, d'))
    requires d'.bipartite == Unknown ==>
      forall j | 0 <= j < |Adj(g, v)| :: Adj(g, v)[j] < Vertices(g) && Opposite(d'.labels[v], d'.labels[Adj(g, v)[j]])
    ensures d'.bipartite == Unknown ==> NewDone(g, d, d')
  {
    if d'.bipartite == Unknown {
      forall y | y in Adj(g, v)
        ensures y < Vertices(g) && Opposite(d'.labels[v], d'.labels[y])
      {
        var j :| 0 <= j < |Adj(g, v)| && Adj(g, v)[j] == y;
      }
    }
  }

  /** Chains one iteration with the rest of the loop. */
  lemma LoopChain(g: Graph, d: Detector, d1: Detector, d': Detector, v: nat, i: nat)
    requires Sized(g, d) && Sized(g, d1) && Sized(g, d') && v < Vertices(g) && i < |Adj(g, v)|
    requires Adj(g, v)[i] < Vertices(g) && Grows(d, d1) && Grows(d1, d')
    requires d1.bipartite == Unknown ==> NewDone(g, d, d1) && Opposite(d1.labels[v], d1.labels[Adj(g, v)[i]])
    requires d'.bipartite == Unknown ==>
      && NewDone(g, d1, d')
      && forall j | i + 1 <= j < |Adj(g, v)| :: Adj(g, v)[j] < Vertices(g) && Opposite(d'.labels[v], d'.labels[Adj(g, v)[j]])
    ensures d'.bipartite == Unknown ==>
      && NewDone(g, d, d')
      && forall j | i <= j < |Adj(g, v)| :: Adj(g, v)[j] < Vertices(g) && Opposite(d'.labels[v], d'.labels[Adj(g, v)[j]])
  {
    if d'.bipartite == Unknown {
      forall x | 0 <= x < Vertices(g) && d.labels[x] == Unknown && d'.labels[x] != Unknown
        ensures Done(g, d', x)
      {
        if d1.labels[x] != Unknown {
          DoneKept(g, d1, d', x);
        }
      }
    }
  }

  lemma RootDone(g: Graph, d: Detector, v: nat)
    requires Valid(g) && Sized(g, d) && v < Vertices(g) && d.labels[v] == Unknown
    ensures var d' := Root(g, d, v); d'.bipartite == Unknown ==> NewDone(g, d, d')
  {
    var d1 := Enter(d.(labels := d.labels[v := Neg]), v, v);
    LoopDone(g, d1, v, 0);
    EnterChain(g, d, d1, Loop(g, d1, v, 0), v);
  }

  // ---------------------------------------------------------------------
  // Why a recorded clash rules out every 2-colouring
  // ---------------------------------------------------------------------

  /** x is labelled pos exactly where col says true. */
  predicate Matches(col: seq<bool>, l: Label, x: nat)
    requires x < |col|
  {
    l != Unknown && (col[x] <==> l == Pos)
  }

  /** Every neighbour of a labelled vertex is labelled. */
  ghost predicate ClosedLabels(g: Graph, o: seq<Label>)
    requires |o| == Vertices(g)
  {
    forall x | 0 <= x < Vertices(g) && o[x] != Unknown :: forall y | y in Adj(g, x) :: y < Vertices(g) && o[y] != Unknown
  }

  /** During a search that began from labels o, which were closed, with col
      a 2-colouring: the labels of o are kept, every vertex labelled since
      matches col, and no clash is recorded. */
  ghost predicate Searching(g: Graph, o: seq<Label>, d: Detector, col: seq<bool>)
  {
    && Valid(g) && Proper(g, col) && |o| == Vertices(g) && Sized(g, d) && ClosedLabels(g, o)
    && Keeps(o, d.labels) && d.bipartite == Unknown
    && forall x | 0 <= x < Vertices(g) && o[x] == Unknown && d.labels[x] != Unknown :: Matches(col, d.labels[x], x)
  }

  lemma {:induction false} DfsMatch(g: Graph, o: seq<Label>, d: Detector, u: nat, v: nat, col: seq<bool>)
    requires Searching(g, o, d, col) && u < Vertices(g) && v < Vertices(g) && Edge(g, u, v)
    requires d.labels[u] != Unknown && o[u] == Unknown && d.labels[v] == Unknown
    ensures Searching(g, o, Dfs(g, d, u, v), col)
    decreases Unmarked(Marks(d.labels)), 0, 0
  {
    var d1 := Enter(d, u, v);
    assert Marks(d1.labels)[v] && !Marks(d.labels)[v];
    UnmarkedLess(Marks(d.labels), Marks(d1.labels));
    assert Matches(col, d1.labels[v], v);
    LoopMatch(g, o, d1, v, 0, col);
  }

  lemma {:induction false} StepMatch(g: Graph, o: seq<Label>, d: Detector, v: nat, i: nat, col: seq<bool>)
    requires Searching(g, o, d, col) && v < Vertices(g) && d.labels[v] != Unknown && o[v] == Unknown
    requires i < |Adj(g, v)|
    ensures Searching(g, o, Step(g, d, v, i), col)
    decreases Unmarked(Marks(d.labels)), 1, 0
  {
    var w := Adj(g, v)[i];
    assert w in Adj(g, v) && Edge(g, v, w);
    if d.labels[w] == Unknown {
      DfsMatch(g, o, d, v, w, col);
    } else {
      assert v in Adj(g, w);
      assert o[w] == Unknown;
      assert d.labels[w] != d.labels[v];
    }
  }

  lemma {:induction false} LoopMatch(g: Graph, o: seq<Label>, d: Detector, v: nat, i: nat, col: seq<bool>)
    requires Searching(g, o, d, col) && v < Vertices(g) && d.labels[v] != Unknown && o[v] == Unknown
    requires i <= |Adj(g, v)|
    ensures Searching(g, o, Loop(g, d, v, i), col)
    decreases Unmarked(Marks(d.labels)), 2, |Adj(g, v)| - i
  {
    if i < |Adj(g, v)| {
      var d1 := Step(g, d, v, i);
      StepMatch(g, o, d, v, i, col);
      UnmarkedLess(Marks(d.labels), Marks(d1.labels));
      LoopMatch(g, o, d1, v, i + 1, col);
      assert Loop(g, d, v, i) == Loop(g, d1, v, i + 1);
    }
  }

  /** A search from a root col colours true, begun from closed labels,
      records no clash. */
  lemma RootMatch(g: Graph, d: Detector, v: nat, col: seq<bool>)
    requires Valid(g) && Proper(g, col) && Sized(g, d) && v < Vertices(g) && d.labels[v] == Unknown && col[v]
    requires d.bipartite == Unknown && ClosedLabels(g, d.labels)
    ensures Root(g, d, v).bipartite == Unknown
  {
    var d1 := Enter(d.(labels := d.labels[v := Neg]), v, v);
    assert d1.labels[v] == Pos;
    assert Searching(g, d.labels, d1, col);
    LoopMatch(g, d.labels, d1, v, 0, col);
  }

  /** A search begun from closed labels that records a clash shows col is
      no 2-colouring. */
  lemma RootClash(g: Graph, d: Detector, v: nat, col: seq<bool>)
    requires Valid(g) && Sized(g, d) && v < Vertices(g) && d.labels[v] == Unknown
    requires d.bipartite == Unknown && ClosedLabels(g, d.labels)
    ensures Root(g, d, v).bipartite == Neg ==> !Proper(g, col)
  {
    if Proper(g, col) {
      if col[v] {
        RootMatch(g, d, v, col);
      } else {
        FlipProper(g, col);
        RootMatch(g, d, v, Flip(col));
      }
    }
  }

  // ---------------------------------------------------------------------
  // The constructor
  // ---------------------------------------------------------------------

  /** What holds before the search from v: the vertices before v are
      labelled; while no clash is recorded every labelled vertex is done,
      and a recorded clash means no 2-colouring exists. */
  ghost predicate Between(g: Graph, d: Detector, v: nat)
  {
    && Valid(g) && Sized(g, d) && v <= Vertices(g) && d.bipartite != Pos
    && (forall x | 0 <= x < v :: d.labels[x] != Unknown)
    && (d.bipartite == Unknown ==> forall x | 0 <= x < Vertices(g) && d.labels[x] != Unknown :: Done(g, d, x))
    && (d.bipartite == Neg ==> !TwoColourable(g))
  }

  /** One iteration of the constructor's loop. */
  method Begin(g: Graph, d: Detector, v: nat) returns (d': Detector)
    requires Between(g, d, v) && v < Vertices(g)
    ensures Between(g, d', v + 1)
  {
    if d.labels[v] == Unknown {
      d' := Root(g, d, v);
      if d.bipartite == Unknown {
        RootDone(g, d, v);
        if d'.bipartite == Unknown {
          forall x | 0 <= x < Vertices(g) && d'.labels[x] != Unknown
            ensures Done(g, d', x)
          {
            if d.labels[x] != Unknown {
              DoneKept(g, d, d', x);
            }
          }
        } else {
          forall col
            ensures !Proper(g, col)
          {
            RootClash(g, d, v, col);
          }
        }
      }
    } else {
      d' := d;
    }
  }

  /** The finished detector: every vertex labelled, and either pos with
      every edge joining opposite labels or neg with no 2-colouring. */
  ghost predicate Detected(g: Graph, d: Detector)
  {
    && Valid(g) && Sized(g, d)
    && (forall x | 0 <= x < Vertices(g) :: d.labels[x] != Unknown)
    && (d.bipartite == Pos || d.bipartite == Neg)
    && (d.bipartite == Pos ==>
          forall x: nat, y: nat | x < Vertices(g) && y < Vertices(g) && Edge(g, x, y) ::
            Opposite(d.labels[x], d.labels[y]))
    && (d.bipartite == Neg ==> !TwoColourable(g))
  }

  /** `bipartite_detector_t(g)`. */
  method Detect(g: Graph) returns (d: Detector)
    requires Valid(g)
    ensures Detected(g, d)
    ensures d.bipartite == Pos <==> TwoColourable(g)
  {
    d := Detector(seq(Vertices(g), _ => Unknown), Unknown);
    for v := 0 to Vertices(g)
      invariant Between(g, d, v)
    {
      d := Begin(g, d, v);
    }
    if d.bipartite == Unknown {
      d := d.(bipartite := Pos);
    }
    PositiveSpec(g, d);
  }

  /** The labels of a finished positive detector, read as colours, are a
      2-colouring. */
  lemma PositiveSpec(g: Graph, d: Detector)
    ensures Detected(g, d) ==> (d.bipartite == Pos <==> TwoColourable(g))
  {
    if Detected(g, d) && d.bipartite == Pos {
      var col := seq(Vertices(g), x requires 0 <= x < Vertices(g) => d.labels[x] == Pos);
      assert Proper(g, col);
    }
  }

  /** `positive()`. */
  function Positive(g: Graph, d: Detector): (b: bool)
    ensures Detected(g, d) ==> (b <==> TwoColourable(g))
  {
    PositiveSpec(g, d);
    d.bipartite == Pos
  }

  /** `get_labels()`, only once pos is recorded: on a finished detector
      every vertex is labelled and every edge joins opposite labels. */
  function GetLabels(g: Graph, d: Detector): (l: seq<Label>)
    requires d.bipartite == Pos
    ensures Detected(g, d) ==>
      && |l| == Vertices(g)
      && (forall x | 0 <= x < Vertices(g) :: l[x] != Unknown)
      && forall x: nat, y: nat | x < Vertices(g) && y < Vertices(g) && Edge(g, x, y) :: Opposite(l[x], l[y])
  {
    d.labels
  }
}
