/** The percolation simulation: an N x N grid of cells, opened one at a time
    in a given order, on top of a union-find of N*N + 2 elements.  Element
    N*N is the virtual top cell and N*N + 1 the virtual bottom cell; the run
    stops as soon as they are connected.  The shuffled opening order is an
    input permutation. */
module Percolation {
  import opened Common
  import opened UnionFind
  import Selector

  // ---------------------------------------------------------------------
  // Grid arithmetic
  // ---------------------------------------------------------------------

  function Row(n: nat, cell: nat): nat
    requires n > 0
  {
    cell / n
  }

  function Col(n: nat, cell: nat): nat
    requires n > 0
  {
    cell % n
  }

  lemma MulGe(a: int, n: int)
    requires a >= 1 && n >= 0
    ensures a * n >= n
  {
    assert a * n == (a - 1) * n + n;
  }

  lemma Distrib(a: int, b: int, n: int)
    ensures (a - b) * n == a * n - b * n
  {
  }

  /** Row l, column c is the cell l*n + c. */
  lemma RowCol(n: nat, l: nat, c: nat)
    requires c < n
    ensures (l * n + c) / n == l && (l * n + c) % n == c
  {
    var x := l * n + c;
    var q, r := x / n, x % n;
    assert x == q * n + r && 0 <= r < n;
    if q < l {
      Distrib(l, q, n);
      MulGe(l - q, n);
    } else if q > l {
      Distrib(q, l, n);
      MulGe(q - l, n);
    }
  }

  /** A cell in row l < n lies below n*n. */
  lemma InGrid(n: nat, l: nat, c: nat)
    requires c < n && l < n
    ensures l * n + c < n * n
  {
    MulGe(n - l, n);
    Distrib(n, l, n);
  }

  /** A grid cell's row and column. */
  lemma Split(n: nat, cell: nat)
    requires 0 < n && cell < n * n
    ensures cell == cell / n * n + cell % n && cell % n < n && cell / n < n
  {
  }
  /** The cell above, one row up in the same column. */
  lemma Up(n: nat, cell: nat)
    requires 0 < n && cell < n * n && cell / n > 0
    ensures (cell / n - 1) * n + cell % n == cell - n
    ensures (cell - n) / n == cell / n - 1 && (cell - n) % n == cell % n
  {
    var l, c := cell / n, cell % n;
    Split(n, cell);
    Distrib(l, 1, n);
    RowCol(n, l - 1, c);
  }
  /** The cell below. */
  lemma Down(n: nat, cell: nat)
    requires 0 < n && cell < n * n && cell / n < n - 1
    ensures (cell / n + 1) * n + cell % n == cell + n
    ensures cell + n < n * n
    ensures (cell + n) / n == cell / n + 1 && (cell + n) % n == cell % n
  {
    var l, c := cell / n, cell % n;
    Split(n, cell);
    Distrib(l + 1, 1, n);
    RowCol(n, l + 1, c);
    InGrid(n, l + 1, c);
  }
  /** The cell to the left, in the same row. */
  lemma Left(n: nat, cell: nat)
    requires 0 < n && cell < n * n && cell % n > 0
    ensures cell / n * n + (cell % n - 1) == cell - 1
    ensures (cell - 1) / n == cell / n && (cell - 1) % n == cell % n - 1
  {
    var l, c := cell / n, cell % n;
    Split(n, cell);
    RowCol(n, l, c - 1);
  }
  /** The cell to the right, in the same row. */
  lemma Right(n: nat, cell: nat)
    requires 0 < n && cell < n * n && cell % n < n - 1
    ensures cell / n * n + (cell % n + 1) == cell + 1
    ensures cell + 1 < n * n
    ensures (cell + 1) / n == cell / n && (cell + 1) % n == cell % n + 1
  {
    var l, c := cell / n, cell % n;
    Split(n, cell);
    RowCol(n, l, c + 1);
    InGrid(n, l, c + 1);
  }

  /** First neighbour: one row up, or the cell itself in row 0. */
  function UpOf(n: nat, cell: nat): (t: nat)
    requires 0 < n && cell < n * n
    ensures t < n * n
    ensures Row(n, cell) > 0 ==> Row(n, t) == Row(n, cell) - 1 && Col(n, t) == Col(n, cell)
    ensures Row(n, cell) == 0 ==> t == cell
  {
    var l, c := cell / n, cell % n;
    if l > 0 then Up(n, cell); (l - 1) * n + c else Split(n, cell); c
  }

  /** Second neighbour: one row down, or the cell itself in row N-1. */
  function DownOf(n: nat, cell: nat): (t: nat)
    requires 0 < n && cell < n * n
    ensures t < n * n
    ensures Row(n, cell) < n - 1 ==> Row(n, t) == Row(n, cell) + 1 && Col(n, t) == Col(n, cell)
    ensures Row(n, cell) == n - 1 ==> t == cell
  {
    var l, c := cell / n, cell % n;
    if l < n - 1 then Down(n, cell); (l + 1) * n + c else Split(n, cell); l * n + c
  }

  /** Third neighbour: one column left, or the cell itself in column 0. */
  function LeftOf(n: nat, cell: nat): (t: nat)
    requires 0 < n && cell < n * n
    ensures t < n * n
    ensures Col(n, cell) > 0 ==> Row(n, t) == Row(n, cell) && Col(n, t) == Col(n, cell) - 1
    ensures Col(n, cell) == 0 ==> t == cell
  {
    var l, c := cell / n, cell % n;
    if c > 0 then Left(n, cell); l * n + (c - 1) else Split(n, cell); l * n + c
  }

  /** Fourth neighbour: one column right, or the cell itself in column N-1. */
  function RightOf(n: nat, cell: nat): (t: nat)
    requires 0 < n && cell < n * n
    ensures t < n * n
    ensures Col(n, cell) < n - 1 ==> Row(n, t) == Row(n, cell) && Col(n, t) == Col(n, cell) + 1
    ensures Col(n, cell) == n - 1 ==> t == cell
  {
    var l, c := cell / n, cell % n;
    if c < n - 1 then Right(n, cell); l * n + (c + 1) else Split(n, cell); l * n + c
  }

  /** The four neighbour indices of a cell: up, down, left, right. */
  function Neighbours(n: nat, cell: nat): (nb: seq<nat>)
    requires 0 < n && cell < n * n
    ensures |nb| == 4
    ensures forall k | 0 <= k < 4 :: nb[k] < n * n
  {
    [UpOf(n, cell), DownOf(n, cell), LeftOf(n, cell), RightOf(n, cell)]
  }

  /** Each neighbour is the orthogonally adjacent cell or, at a border, the
      cell itself, so no index wraps around to the other side of the grid. */
  lemma NeighboursAdjacent(n: nat, cell: nat)
    requires 0 < n && cell < n * n
    ensures var nb := Neighbours(n, cell);
      && (Row(n, cell) > 0 ==> Row(n, nb[0]) == Row(n, cell) - 1 && Col(n, nb[0]) == Col(n, cell))
      && (Row(n, cell) == 0 ==> nb[0] == cell)
      && (Row(n, cell) < n - 1 ==> Row(n, nb[1]) == Row(n, cell) + 1 && Col(n, nb[1]) == Col(n, cell))
      && (Row(n, cell) == n - 1 ==> nb[1] == cell)
      && (Col(n, cell) > 0 ==> Row(n, nb[2]) == Row(n, cell) && Col(n, nb[2]) == Col(n, cell) - 1)
      && (Col(n, cell) == 0 ==> nb[2] == cell)
      && (Col(n, cell) < n - 1 ==> Row(n, nb[3]) == Row(n, cell) && Col(n, nb[3]) == Col(n, cell) + 1)
      && (Col(n, cell) == n - 1 ==> nb[3] == cell)
  {
  }

  // ---------------------------------------------------------------------
  // The unions one opening performs
  // ---------------------------------------------------------------------

  /** The pairs (cell, t) for the entries t of nb that are open, in order. */
  function OpenLinks(cell: nat, nb: seq<nat>, open: seq<bool>): seq<(nat, nat)>
    requires forall k | 0 <= k < |nb| :: nb[k] < |open|
  {
    if |nb| == 0 then []
    else
      var last := nb[|nb| - 1];
      OpenLinks(cell, nb[..|nb| - 1], open) + if open[last] then [(cell, last)] else []
  }

  /** The pairs of `OpenLinks` join the cell with exactly the open entries
      of nb. */
  lemma {:induction false} OpenLinksShape(cell: nat, nb: seq<nat>, open: seq<bool>)
    requires forall k | 0 <= k < |nb| :: nb[k] < |open|
    ensures forall pr | pr in OpenLinks(cell, nb, open) :: pr.0 == cell && pr.1 in nb && open[pr.1]
    ensures forall t | t in nb :: open[t] ==> (cell, t) in OpenLinks(cell, nb, open)
    decreases |nb|
  {
    if |nb| > 0 {
      var init, last := nb[..|nb| - 1], nb[|nb| - 1];
      assert forall k | 0 <= k < |init| :: init[k] == nb[k];
      assert nb == init + [last];
      OpenLinksShape(cell, init, open);
    }
  }

  /** The pairs joining a border-row cell with the virtual cells. */
  function BorderLinks(n: nat, cell: nat): seq<(nat, nat)>
    requires 0 < n
  {
    (if cell / n == 0 then [(cell, n * n)] else [])
      + (if cell / n == n - 1 then [(cell, n * n + 1)] else [])
  }

  /** The pairs of one opening: `OpenLinks` for the four neighbours, then
      `BorderLinks`. */
  function LinkOps(n: nat, open: seq<bool>, cell: nat): seq<(nat, nat)>
    requires 0 < n && cell < n * n && |open| == n * n
  {
    OpenLinks(cell, Neighbours(n, cell), open) + BorderLinks(n, cell)
  }

  /** The pairs of one opening join the cell with exactly its open
      neighbours, with top when in row 0 and with bottom when in row N-1. */
  lemma LinkOpsShape(n: nat, open: seq<bool>, cell: nat)
    requires 0 < n && cell < n * n && |open| == n * n
    ensures forall pr | pr in LinkOps(n, open, cell) ::
      && pr.0 == cell
      && (|| (pr.1 in Neighbours(n, cell) && pr.1 < n * n && open[pr.1])
          || (pr.1 == n * n && Row(n, cell) == 0)
          || (pr.1 == n * n + 1 && Row(n, cell) == n - 1))
    ensures forall t | t in Neighbours(n, cell) :: open[t] ==> (cell, t) in LinkOps(n, open, cell)
    ensures Row(n, cell) == 0 <==> (cell, n * n) in LinkOps(n, open, cell)
    ensures Row(n, cell) == n - 1 <==> (cell, n * n + 1) in LinkOps(n, open, cell)
  {
    var nb := Neighbours(n, cell);
    OpenLinksShape(cell, nb, open);
  }

  // ---------------------------------------------------------------------
  // The simulation state
  // ---------------------------------------------------------------------

  /** The cells are the grid indices in some order. */
  ghost predicate IsPermutation(cells: seq<nat>, m: nat)
  {
    |cells| == m && Distinct(cells) && forall i | 0 <= i < |cells| :: cells[i] < m
  }

  datatype Simulation = Simulation(n: nat, cells: seq<nat>, state: seq<bool>, top: nat, bottom: nat, uf: UF)

  ghost predicate SimValid(s: Simulation)
  {
    && IsPermutation(s.cells, s.n * s.n)
    && |s.state| == s.n * s.n
    && s.top == s.n * s.n && s.bottom == s.top + 1
    && Valid(s.uf) && |s.uf.ids| == s.n * s.n + 2
  }

  /** Replacing the union-find by a valid one of the same size keeps the
      simulation valid. */
  lemma SimValidWithUf(s: Simulation, uf: UF)
    requires SimValid(s) && Valid(uf) && |uf.ids| == |s.uf.ids|
    ensures SimValid(s.(uf := uf))
  {
  }

  /** The simulation for grid side n and opening order `cells`: all cells
      closed, and a fresh weighted quick-union with path compression over the
      n*n cells and the two virtual cells. */
  function NewSimulation(n: nat, cells: seq<nat>): (s: Simulation)
    requires IsPermutation(cells, n * n)
    ensures SimValid(s) && s.n == n && s.cells == cells
    ensures s.top == n * n && s.bottom == n * n + 1 && s.top !in cells && s.bottom !in cells
    ensures s.uf.variant == WeightedQuickUnionPathCompression
    ensures forall i | 0 <= i < n * n :: !s.state[i]
    ensures Tracks(s.uf, [])
  {
    var built := Selector.Build(n * n + 2, "wqupc");
    Simulation(n, cells, seq(n * n, i => false), n * n, n * n + 1, built.uf)
  }

  /** The loop of `connect_with_neighbors`: connects the cell with each
      entry of `nb` that is open, in order. */
  method ConnectOpen(uf: UF, ghost ops: seq<(nat, nat)>, cell: nat, nb: seq<nat>, open: seq<bool>)
    returns (uf': UF)
    requires Tracks(uf, ops) && cell < |uf.ids|
    requires forall k | 0 <= k < |nb| :: nb[k] < |open| && nb[k] < |uf.ids|
    ensures Tracks(uf', ops + OpenLinks(cell, nb, open))
    ensures |uf'.ids| == |uf.ids| && uf'.variant == uf.variant
  {
    uf' := uf;
    ghost var done := ops;
    assert done == ops + OpenLinks(cell, nb[..0], open);
    for k := 0 to |nb|
      invariant |uf'.ids| == |uf.ids| && uf'.variant == uf.variant
      invariant done == ops + OpenLinks(cell, nb[..k], open)
      invariant Tracks(uf', done)
    {
      assert nb[..k + 1][..k] == nb[..k];
      if open[nb[k]] {
        uf' := ConnectTracked(uf', done, cell, nb[k]);
        done := done + [(cell, nb[k])];
      }
    }
    assert nb[..|nb|] == nb;
  }

  /** The tail of `connect_with_neighbors`: a row-0 cell is connected with
      top, then a row-(N-1) cell with bottom. */
  method ConnectBorders(uf: UF, ghost ops: seq<(nat, nat)>, n: nat, cell: nat) returns (uf': UF)
    requires Tracks(uf, ops) && 0 < n && cell < n * n && |uf.ids| == n * n + 2
    ensures Tracks(uf', ops + BorderLinks(n, cell))
    ensures |uf'.ids| == |uf.ids| && uf'.variant == uf.variant
  {
    var l := cell / n;
    var top := n * n;
    var uf1 := ConnectIf(uf, ops, l == 0, cell, top);
    ghost var done := ops + (if l == 0 then [(cell, top)] else []);
    uf' := ConnectIf(uf1, done, l == n - 1, cell, top + 1);
    assert done + (if l == n - 1 then [(cell, top + 1)] else []) == ops + BorderLinks(n, cell);
  }

  /** `if (c) uf->connect(p, q);` */
  method ConnectIf(uf: UF, ghost ops: seq<(nat, nat)>, c: bool, p: nat, q: nat) returns (uf': UF)
    requires Tracks(uf, ops) && p < |uf.ids| && q < |uf.ids|
    ensures Tracks(uf', ops + if c then [(p, q)] else [])
    ensures |uf'.ids| == |uf.ids| && uf'.variant == uf.variant
  {
    if c {
      uf' := ConnectTracked(uf, ops, p, q);
    } else {
      assert ops + [] == ops;
      uf' := uf;
    }
  }

  /** `connect_with_neighbors(cell)`: connects the cell to each open
      neighbour and to the virtual cells of its border rows; the classes
      afterwards are the reference classes of the pairs connected so far
      followed by those of `LinkOps`. */
  method ConnectWithNeighbors(s: Simulation, cell: nat, ghost hist: seq<(nat, nat)>) returns (s': Simulation)
    requires SimValid(s) && 0 < s.n && cell < s.n * s.n && Tracks(s.uf, hist)
    ensures SimValid(s') && s' == s.(uf := s'.uf) && s'.uf.variant == s.uf.variant
    ensures Tracks(s'.uf, hist + LinkOps(s.n, s.state, cell))
  {
    var n := s.n;
    var nb := Neighbours(n, cell);
    var uf := ConnectOpen(s.uf, hist, cell, nb, s.state);
    uf := ConnectBorders(uf, hist + OpenLinks(cell, nb, s.state), n, cell);
    assert hist + OpenLinks(cell, nb, s.state) + BorderLinks(n, cell) == hist + LinkOps(n, s.state, cell);
    SimValidWithUf(s, uf);
    s' := s.(uf := uf);
  }

  // ---------------------------------------------------------------------
  // Reference description of a run
  // ---------------------------------------------------------------------

  /** The open/closed state once the first k cells of the order are open. */
  ghost function OpenAfter(n: nat, cells: seq<nat>, k: nat): (open: seq<bool>)
    requires k <= |cells|
    ensures |open| == n * n
  {
    seq(n * n, i => i in cells[..k])
  }

  /** All `connect` calls made while opening the first k cells. */
  ghost function Ops(n: nat, cells: seq<nat>, k: nat): seq<(nat, nat)>
    requires IsPermutation(cells, n * n) && k <= |cells|
  {
    if k == 0 then []
    else Ops(n, cells, k - 1) + LinkOps(n, OpenAfter(n, cells, k), cells[k - 1])
  }

  /** Top and bottom are connected once the first k cells are open. */
  ghost predicate Percolates(n: nat, cells: seq<nat>, k: nat)
    requires IsPermutation(cells, n * n) && k <= |cells|
  {
    SpecConnected(Ops(n, cells, k), n * n, n * n + 1)
  }

  /** The first k' >= k at which the grid percolates, or n*n when none. */
  ghost function FirstPercolation(n: nat, cells: seq<nat>, k: nat): (r: nat)
    requires IsPermutation(cells, n * n) && k <= n * n
    ensures k <= r <= n * n
    decreases n * n - k
  {
    if k == n * n || Percolates(n, cells, k) then k else FirstPercolation(n, cells, k + 1)
  }

  lemma {:induction false} FirstPercolationIs(n: nat, cells: seq<nat>, k: nat, pos: nat)
    requires IsPermutation(cells, n * n) && k <= pos <= n * n
    requires forall i | k <= i < pos :: !Percolates(n, cells, i)
    requires pos == n * n || Percolates(n, cells, pos)
    ensures FirstPercolation(n, cells, k) == pos
    decreases pos - k
  {
    if k < pos {
      assert !Percolates(n, cells, k) && k < n * n;
      FirstPercolationIs(n, cells, k + 1, pos);
    }
  }

  /** A query that only halves paths keeps the tracked classes. */
  lemma TracksSameRoots(u: UF, u': UF, ops: seq<(nat, nat)>)
    requires Tracks(u, ops) && Valid(u') && |u'.ids| == |u.ids| && u'.cnt == u.cnt
    requires forall x: nat | x < |u.ids| :: Root(u'.ids, x) == Root(u.ids, x)
    ensures Tracks(u', ops)
  {
  }

  /** The state of `run()` once the first pos cells of the order are open. */
  ghost predicate RunInv(s: Simulation, n: nat, cells: seq<nat>, pos: nat)
  {
    && SimValid(s) && s.n == n && s.cells == cells && pos <= |cells|
    && s.state == OpenAfter(n, cells, pos)
    && Tracks(s.uf, Ops(n, cells, pos))
  }

  /** One iteration of `run()`: stops when top and bottom are connected,
      otherwise marks `cells[pos]` open and connects it with its neighbours. */
  method Step(s: Simulation, pos: nat) returns (stop: bool, s': Simulation)
    requires RunInv(s, s.n, s.cells, pos) && pos < |s.cells|
    ensures stop ==> Percolates(s.n, s.cells, pos) && RunInv(s', s.n, s.cells, pos)
    ensures !stop ==> !Percolates(s.n, s.cells, pos) && RunInv(s', s.n, s.cells, pos + 1)
  {
    var n, cells := s.n, s.cells;
    ghost var hist := Ops(n, cells, pos);
    var b, uf := Connected(s.uf, s.top, s.bottom);
    TracksSameRoots(s.uf, uf, hist);
    SimValidWithUf(s, uf);
    if b {
      return true, s.(uf := uf);
    }
    var cell := cells[pos];
    OpenStep(n, cells, pos);
    var s1 := s.(uf := uf, state := s.state[cell := true]);
    s' := ConnectWithNeighbors(s1, cell, hist);
    stop := false;
  }

  /** Opening the next cell of the order: its state becomes open, and its
      `connect` calls follow those made so far. */
  lemma OpenStep(n: nat, cells: seq<nat>, pos: nat)
    requires IsPermutation(cells, n * n) && pos < |cells|
    ensures 0 < n && cells[pos] < n * n
    ensures OpenAfter(n, cells, pos)[cells[pos] := true] == OpenAfter(n, cells, pos + 1)
    ensures Ops(n, cells, pos + 1) == Ops(n, cells, pos) + LinkOps(n, OpenAfter(n, cells, pos + 1), cells[pos])
  {
    assert cells[..pos + 1] == cells[..pos] + [cells[pos]];
  }

  lemma NoneBeforeStep(n: nat, cells: seq<nat>, pos: nat)
    requires IsPermutation(cells, n * n) && pos < |cells|
    requires forall i | 0 <= i < pos :: !Percolates(n, cells, i)
    requires !Percolates(n, cells, pos)
    ensures forall i | 0 <= i < pos + 1 :: !Percolates(n, cells, i)
  {
  }

  /** `run()`: opens cells in the given order, checking before each opening
      whether top and bottom are connected.  The result is the number of
      cells opened: the first count at which the grid percolates, or N*N. */
  method Run(s: Simulation) returns (pos: nat, s': Simulation)
    requires SimValid(s) && Tracks(s.uf, [])
    requires forall i | 0 <= i < s.n * s.n :: !s.state[i]
    ensures pos <= s.n * s.n
    ensures SimValid(s') && s'.n == s.n && s'.cells == s.cells
    ensures s'.state == OpenAfter(s.n, s.cells, pos)
    ensures forall i | 0 <= i < s.n * s.n :: s'.state[i] <==> i in s.cells[..pos]
    ensures forall i | 0 <= i < pos :: !Percolates(s.n, s.cells, i)
    ensures pos < s.n * s.n ==> Percolates(s.n, s.cells, pos)
    ensures pos == FirstPercolation(s.n, s.cells, 0)
  {
    var n, cells := s.n, s.cells;
    s' := s;
    pos := 0;
    assert s'.state == OpenAfter(n, cells, 0);
    var done := false;
    while pos < |cells| && !done
      invariant RunInv(s', n, cells, pos)
      invariant forall i | 0 <= i < pos :: !Percolates(n, cells, i)
      invariant done ==> Percolates(n, cells, pos)
      decreases |cells| - pos, !done
    {
      var stop;
      stop, s' := Step(s', pos);
      if stop {
        done := true;
      } else {
        NoneBeforeStep(n, cells, pos);
        pos := pos + 1;
      }
    }
    FirstPercolationIs(n, cells, 0, pos);
  }

  /** A grid of side 1 percolates with its one cell: that cell is in the
      first and the last row, so it is connected to top and to bottom. */
  lemma SingleCellPercolates()
    ensures IsPermutation([0], 1)
    ensures !Percolates(1, [0], 0) && Percolates(1, [0], 1)
    ensures FirstPercolation(1, [0], 0) == 1
  {
    assert IsPermutation([0], 1);
    var pre := OpenLinks(0, Neighbours(1, 0), OpenAfter(1, [0], 1));
    assert BorderLinks(1, 0) == [(0, 1)] + [(0, 2)];
    assert Ops(1, [0], 1) == pre + [(0, 1)] + [(0, 2)];
    SpecPairJoined(pre, 0, 1);
    SpecGrows(pre + [(0, 1)], [(0, 2)], 0, 1);
    SpecPairJoined(pre + [(0, 1)], 0, 2);
    SpecEquivalence(pre + [(0, 1)] + [(0, 2)]);
    assert SpecConnected(Ops(1, [0], 1), 1, 2);
  }

  /** The sum of the first-percolation counts of the given orders. */
  ghost function TotalOpened(n: nat, perms: seq<seq<nat>>): nat
    requires forall i | 0 <= i < |perms| :: IsPermutation(perms[i], n * n)
  {
    if |perms| == 0 then 0
    else TotalOpened(n, perms[..|perms| - 1]) + FirstPercolation(n, perms[|perms| - 1], 0)
  }

  /** The integer part of `percolation_experiment::run`: one simulation per
      opening order, summing the counts returned.  The total is at most
      M * N * N for M orders. */
  method Experiment(n: nat, perms: seq<seq<nat>>) returns (total: nat)
    requires forall i | 0 <= i < |perms| :: IsPermutation(perms[i], n * n)
    ensures total == TotalOpened(n, perms)
    ensures total <= |perms| * (n * n)
  {
    total := 0;
    for i := 0 to |perms|
      invariant total == TotalOpened(n, perms[..i])
      invariant total <= i * (n * n)
    {
      assert perms[..i + 1][..i] == perms[..i];
      var pos, _ := Run(NewSimulation(n, perms[i]));
      total := total + pos;
      Distrib(i + 1, i, n * n);
    }
    assert perms[..|perms|] == perms;
  }
}
