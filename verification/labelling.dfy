/** Connected-component labelling of a boolean mask by flood fill. It stands
    for the scipy.ndimage.label call in field_to_objects
    (Utilities/Scripts/asnie_utils.py), with the 3x3 structuring element of
    connectivity 8 or the cross of connectivity 4. */
module Labelling {
  import opened Matrix

  datatype Connectivity = Four | Eight

  datatype Cell = Cell(row: int, col: int)

  predicate InGrid(c: Cell, h: nat, w: nat)
  {
    0 <= c.row < h && 0 <= c.col < w
  }

  /** q is one of p's neighbours: one step along an axis, or also one step
      diagonally under connectivity 8. */
  predicate Adjacent(conn: Connectivity, p: Cell, q: Cell)
  {
    var dr, dc := q.row - p.row, q.col - p.col;
    && p != q && -1 <= dr <= 1 && -1 <= dc <= 1
    && (conn == Eight || dr == 0 || dc == 0)
  }

  /** The non-centre entries of the structuring element, as (row, column) offsets. */
  function Offsets(conn: Connectivity): seq<(int, int)>
  {
    match conn
    case Eight => [(-1, -1), (-1, 0), (-1, 1), (0, -1), (0, 1), (1, -1), (1, 0), (1, 1)]
    case Four => [(-1, 0), (0, -1), (0, 1), (1, 0)]
  }

  function Shift(p: Cell, o: (int, int)): Cell
  {
    Cell(p.row + o.0, p.col + o.1)
  }

  lemma ShiftIsAdjacent(conn: Connectivity, p: Cell, k: nat)
    requires k < |Offsets(conn)|
    ensures Adjacent(conn, p, Shift(p, Offsets(conn)[k]))
  {
  }

  /** The position in Offsets of the step from p to an adjacent q. */
  function OffsetIndex(conn: Connectivity, p: Cell, q: Cell): (k: nat)
    requires Adjacent(conn, p, q)
    ensures k < |Offsets(conn)| && Shift(p, Offsets(conn)[k]) == q
  {
    var dr, dc := q.row - p.row, q.col - p.col;
    match conn
    case Eight => if dr == -1 then dc + 1 else if dr == 0 then (if dc == -1 then 3 else 4) else dc + 6
    case Four => if dr == -1 then 0 else if dr == 1 then 3 else if dc == -1 then 1 else 2
  }

  function Masked(mask: Matrix<bool>, h: nat, w: nat, c: Cell): bool
    requires IsMatrix(mask, h, w) && InGrid(c, h, w)
  {
    mask[c.row][c.col]
  }

  function LabelAt(lab: Matrix<nat>, h: nat, w: nat, c: Cell): nat
    requires IsMatrix(lab, h, w) && InGrid(c, h, w)
  {
    lab[c.row][c.col]
  }

  // ---------------------------------------------------------------------------
  // What a labelling must be

  /** A non-empty walk through mask cells, each step to an adjacent cell. */
  ghost predicate IsPath(mask: Matrix<bool>, h: nat, w: nat, conn: Connectivity, path: seq<Cell>)
    requires IsMatrix(mask, h, w)
  {
    && |path| > 0
    && (forall k :: 0 <= k < |path| ==> InGrid(path[k], h, w) && Masked(mask, h, w, path[k]))
    && (forall k :: 1 <= k < |path| ==> Adjacent(conn, path[k - 1], path[k]))
  }

  ghost predicate Connected(mask: Matrix<bool>, h: nat, w: nat, conn: Connectivity, p: Cell, q: Cell)
    requires IsMatrix(mask, h, w)
  {
    exists path :: IsPath(mask, h, w, conn, path) && path[0] == p && path[|path| - 1] == q
  }

  ghost predicate LabelUsed(h: nat, w: nat, lab: Matrix<nat>, k: nat)
    requires IsMatrix(lab, h, w)
  {
    exists c :: InGrid(c, h, w) && LabelAt(lab, h, w, c) == k
  }

  /** lab labels exactly the mask cells with 1..n, every label is used, and two
      mask cells share a label exactly when a path of mask cells joins them:
      the labels are the maximal connected components of the mask. */
  ghost predicate IsComponentLabelling(mask: Matrix<bool>, h: nat, w: nat, conn: Connectivity, lab: Matrix<nat>, n: nat)
    requires IsMatrix(mask, h, w)
  {
    && IsMatrix(lab, h, w)
    && (forall c :: InGrid(c, h, w) ==> (LabelAt(lab, h, w, c) > 0 <==> Masked(mask, h, w, c)) && LabelAt(lab, h, w, c) <= n)
    && (forall k {:trigger LabelUsed(h, w, lab, k)} :: 1 <= k <= n ==> LabelUsed(h, w, lab, k))
    && (forall p, q :: InGrid(p, h, w) && InGrid(q, h, w) && Masked(mask, h, w, p) && Masked(mask, h, w, q) ==>
          (LabelAt(lab, h, w, p) == LabelAt(lab, h, w, q) <==> Connected(mask, h, w, conn, p, q)))
  }

  /** c comes before d in a row-major scan. */
  predicate ScanBefore(c: Cell, d: Cell)
  {
    c.row < d.row || (c.row == d.row && c.col < d.col)
  }

  ghost predicate HasEarlierLabel(h: nat, w: nat, lab: Matrix<nat>, c: Cell)
    requires IsMatrix(lab, h, w) && InGrid(c, h, w)
  {
    exists d :: InGrid(d, h, w) && ScanBefore(d, c) && LabelAt(lab, h, w, d) == LabelAt(lab, h, w, c) - 1
  }

  /** Labels are numbered in the order a row-major scan first meets them: before
      any cell labelled k >= 2 some cell is labelled k - 1. */
  ghost predicate NumberedInScanOrder(h: nat, w: nat, lab: Matrix<nat>)
    requires IsMatrix(lab, h, w)
  {
    forall c {:trigger HasEarlierLabel(h, w, lab, c)} :: InGrid(c, h, w) && LabelAt(lab, h, w, c) >= 2 ==> HasEarlierLabel(h, w, lab, c)
  }

  // ---------------------------------------------------------------------------
  // Invariants of the flood fill

  /** Only mask cells carry a label, and no label exceeds n. */
  ghost predicate Sound(mask: Matrix<bool>, h: nat, w: nat, lab: Matrix<nat>, n: nat)
    requires IsMatrix(mask, h, w) && IsMatrix(lab, h, w)
  {
    forall c :: InGrid(c, h, w) ==> (LabelAt(lab, h, w, c) > 0 ==> Masked(mask, h, w, c)) && LabelAt(lab, h, w, c) <= n
  }

  /** Every labelled cell outside `pending` has all its mask neighbours labelled alike. */
  ghost predicate ClosedExcept(mask: Matrix<bool>, h: nat, w: nat, conn: Connectivity, lab: Matrix<nat>, pending: seq<Cell>)
    requires IsMatrix(mask, h, w) && IsMatrix(lab, h, w)
  {
    forall p, q :: InGrid(p, h, w) && InGrid(q, h, w) && Adjacent(conn, p, q)
      && LabelAt(lab, h, w, p) > 0 && p !in pending && Masked(mask, h, w, q)
      ==> LabelAt(lab, h, w, q) == LabelAt(lab, h, w, p)
  }

  /** A connectivity certificate: label k was started at seeds[k - 1], and every
      other labelled cell has an adjacent parent with the same label that was
      labelled earlier. */
  ghost predicate Certified(h: nat, w: nat, conn: Connectivity, lab: Matrix<nat>, n: nat,
                            seeds: seq<Cell>, parent: map<Cell, Cell>, order: map<Cell, nat>)
    requires IsMatrix(lab, h, w)
  {
    && |seeds| == n
    && (forall k :: 0 <= k < n ==> InGrid(seeds[k], h, w) && LabelAt(lab, h, w, seeds[k]) == k + 1)
    && (forall c :: InGrid(c, h, w) && LabelAt(lab, h, w, c) > 0 ==>
          && LabelAt(lab, h, w, c) <= n && c in order
          && (c == seeds[LabelAt(lab, h, w, c) - 1]
              || (&& c in parent && InGrid(parent[c], h, w) && Adjacent(conn, parent[c], c)
                  && LabelAt(lab, h, w, parent[c]) == LabelAt(lab, h, w, c)
                  && parent[c] in order && order[parent[c]] < order[c])))
  }

  ghost predicate ClockBound(order: map<Cell, nat>, clock: nat)
  {
    forall c :: c in order ==> order[c] < clock
  }

  function SetLabel(lab: Matrix<nat>, h: nat, w: nat, c: Cell, k: nat): (r: Matrix<nat>)
    requires IsMatrix(lab, h, w) && InGrid(c, h, w)
    ensures IsMatrix(r, h, w)
    ensures forall d :: InGrid(d, h, w) ==> LabelAt(r, h, w, d) == if d == c then k else LabelAt(lab, h, w, d)
  {
    var row: seq<nat> := lab[c.row][c.col := k];
    lab[c.row := row]
  }

  /** lab differs from lab0 only in cells that were unlabelled and now carry label n. */
  ghost predicate Grows(h: nat, w: nat, lab0: Matrix<nat>, lab: Matrix<nat>, n: nat)
    requires IsMatrix(lab0, h, w) && IsMatrix(lab, h, w)
  {
    forall c :: InGrid(c, h, w) ==>
      LabelAt(lab, h, w, c) == LabelAt(lab0, h, w, c) || (LabelAt(lab0, h, w, c) == 0 && LabelAt(lab, h, w, c) == n)
  }

  /** A mask cell q inside the grid carries label n. */
  ghost predicate Reached(mask: Matrix<bool>, h: nat, w: nat, lab: Matrix<nat>, n: nat, q: Cell)
    requires IsMatrix(mask, h, w) && IsMatrix(lab, h, w)
  {
    InGrid(q, h, w) && Masked(mask, h, w, q) ==> LabelAt(lab, h, w, q) == n
  }

  /** A cell that carries label n keeps it while labels only grow. */
  lemma StillReached(mask: Matrix<bool>, h: nat, w: nat, lab0: Matrix<nat>, lab: Matrix<nat>, n: nat, q: Cell)
    requires IsMatrix(mask, h, w) && IsMatrix(lab0, h, w) && IsMatrix(lab, h, w)
    requires n > 0 && Grows(h, w, lab0, lab, n) && Reached(mask, h, w, lab0, n, q)
    ensures Reached(mask, h, w, lab, n, q)
  {
  }

  /** Every unlabelled cell is among the unvisited ones: the fill's termination measure. */
  ghost predicate Covers(h: nat, w: nat, lab: Matrix<nat>, unvisited: set<Cell>)
    requires IsMatrix(lab, h, w)
  {
    forall c :: InGrid(c, h, w) && LabelAt(lab, h, w, c) == 0 ==> c in unvisited
  }

  ghost predicate OnStack(h: nat, w: nat, lab: Matrix<nat>, n: nat, stack: seq<Cell>)
    requires IsMatrix(lab, h, w)
  {
    forall c :: c in stack ==> InGrid(c, h, w) && LabelAt(lab, h, w, c) == n
  }

  // ---------------------------------------------------------------------------
  // The flood fill

  /** Looks at q, a neighbour of the cell p being expanded: an unlabelled mask
      cell gets label n, parent p, and goes on the stack. */
  method Visit(mask: Matrix<bool>, h: nat, w: nat, conn: Connectivity, lab0: Matrix<nat>, n: nat,
               p: Cell, q: Cell, stack0: seq<Cell>, ghost seeds: seq<Cell>, ghost parent0: map<Cell, Cell>,
               ghost order0: map<Cell, nat>, ghost clock0: nat, ghost unvisited0: set<Cell>)
    returns (lab: Matrix<nat>, stack: seq<Cell>, ghost parent: map<Cell, Cell>, ghost order: map<Cell, nat>,
             ghost clock: nat, ghost unvisited: set<Cell>)
    requires IsMatrix(mask, h, w) && IsMatrix(lab0, h, w)
    requires n > 0 && InGrid(p, h, w) && LabelAt(lab0, h, w, p) == n && Adjacent(conn, p, q)
    requires OnStack(h, w, lab0, n, stack0)
    requires Sound(mask, h, w, lab0, n) && ClosedExcept(mask, h, w, conn, lab0, [p] + stack0)
    requires Certified(h, w, conn, lab0, n, seeds, parent0, order0) && ClockBound(order0, clock0)
    requires Covers(h, w, lab0, unvisited0)
    ensures IsMatrix(lab, h, w) && LabelAt(lab, h, w, p) == n && OnStack(h, w, lab, n, stack)
    ensures Sound(mask, h, w, lab, n) && ClosedExcept(mask, h, w, conn, lab, [p] + stack)
    ensures Certified(h, w, conn, lab, n, seeds, parent, order) && ClockBound(order, clock)
    ensures Covers(h, w, lab, unvisited) && Grows(h, w, lab0, lab, n)
    ensures InGrid(q, h, w) && Masked(mask, h, w, q) ==> LabelAt(lab, h, w, q) == n
    ensures |unvisited| <= |unvisited0| && (|unvisited| == |unvisited0| ==> stack == stack0)
  {
    lab, stack, parent, order, clock, unvisited := lab0, stack0, parent0, order0, clock0, unvisited0;
    if InGrid(q, h, w) && mask[q.row][q.col] {
      if lab[q.row][q.col] == 0 {
        NewLabelKeepsClosed(mask, h, w, conn, lab, [p] + stack, q);
        CertifiedExtend(h, w, conn, lab, n, seeds, parent, order, clock, p, q);
        lab := SetLabel(lab, h, w, q, n);
        parent, order, clock := parent[q := p], order[q := clock], clock + 1;
        unvisited := unvisited - {q};
        assert [p] + stack + [q] == [p] + (stack + [q]);
        stack := stack + [q];
      } else if q !in [p] + stack {
        assert Adjacent(conn, q, p);
      }
    }
  }

  /** Labelling q with n, as a child of the adjacent n-labelled p, keeps the certificate. */
  lemma CertifiedExtend(h: nat, w: nat, conn: Connectivity, lab: Matrix<nat>, n: nat,
                        seeds: seq<Cell>, parent: map<Cell, Cell>, order: map<Cell, nat>, clock: nat, p: Cell, q: Cell)
    requires IsMatrix(lab, h, w) && InGrid(p, h, w) && InGrid(q, h, w) && Adjacent(conn, p, q)
    requires n > 0 && LabelAt(lab, h, w, p) == n && LabelAt(lab, h, w, q) == 0
    requires Certified(h, w, conn, lab, n, seeds, parent, order) && ClockBound(order, clock)
    ensures Certified(h, w, conn, SetLabel(lab, h, w, q, n), n, seeds, parent[q := p], order[q := clock])
    ensures ClockBound(order[q := clock], clock + 1)
  {
    var lab', parent', order' := SetLabel(lab, h, w, q, n), parent[q := p], order[q := clock];
    forall k | 0 <= k < n
      ensures InGrid(seeds[k], h, w) && LabelAt(lab', h, w, seeds[k]) == k + 1
    {
      assert InGrid(seeds[k], h, w) && LabelAt(lab, h, w, seeds[k]) == k + 1;
    }
    forall c | InGrid(c, h, w) && LabelAt(lab', h, w, c) > 0
      ensures && LabelAt(lab', h, w, c) <= n && c in order'
              && (c == seeds[LabelAt(lab', h, w, c) - 1]
                  || (&& c in parent' && InGrid(parent'[c], h, w) && Adjacent(conn, parent'[c], c)
                      && LabelAt(lab', h, w, parent'[c]) == LabelAt(lab', h, w, c)
                      && parent'[c] in order' && order'[parent'[c]] < order'[c]))
    {
      if c != q {
        var k := LabelAt(lab, h, w, c);
        assert LabelAt(lab', h, w, c) == k;
        if c != seeds[k - 1] {
          var pc := parent[c];
          assert LabelAt(lab, h, w, pc) == k;
          assert pc != q;
          assert parent'[c] == pc && order'[pc] == order[pc] && order'[c] == order[c];
        }
      } else {
        assert order[p] < clock;
      }
    }
  }

  /** Expands p: visits all its neighbours in the order of Offsets. */
  method VisitNeighbours(mask: Matrix<bool>, h: nat, w: nat, conn: Connectivity, lab0: Matrix<nat>, n: nat,
                         p: Cell, stack0: seq<Cell>, ghost seeds: seq<Cell>, ghost parent0: map<Cell, Cell>,
                         ghost order0: map<Cell, nat>, ghost clock0: nat, ghost unvisited0: set<Cell>)
    returns (lab: Matrix<nat>, stack: seq<Cell>, ghost parent: map<Cell, Cell>, ghost order: map<Cell, nat>,
             ghost clock: nat, ghost unvisited: set<Cell>)
    requires IsMatrix(mask, h, w) && IsMatrix(lab0, h, w)
    requires n > 0 && InGrid(p, h, w) && LabelAt(lab0, h, w, p) == n
    requires OnStack(h, w, lab0, n, stack0)
    requires Sound(mask, h, w, lab0, n) && ClosedExcept(mask, h, w, conn, lab0, [p] + stack0)
    requires Certified(h, w, conn, lab0, n, seeds, parent0, order0) && ClockBound(order0, clock0)
    requires Covers(h, w, lab0, unvisited0)
    ensures IsMatrix(lab, h, w) && OnStack(h, w, lab, n, stack)
    ensures Sound(mask, h, w, lab, n) && ClosedExcept(mask, h, w, conn, lab, stack)
    ensures Certified(h, w, conn, lab, n, seeds, parent, order) && ClockBound(order, clock)
    ensures Covers(h, w, lab, unvisited) && Grows(h, w, lab0, lab, n)
    ensures |unvisited| <= |unvisited0| && (|unvisited| == |unvisited0| ==> stack == stack0)
  {
    lab, stack, parent, order, clock, unvisited := lab0, stack0, parent0, order0, clock0, unvisited0;
    var offsets := Offsets(conn);
    for k := 0 to |offsets|
      invariant IsMatrix(lab, h, w) && LabelAt(lab, h, w, p) == n && OnStack(h, w, lab, n, stack)
      invariant Sound(mask, h, w, lab, n) && ClosedExcept(mask, h, w, conn, lab, [p] + stack)
      invariant Certified(h, w, conn, lab, n, seeds, parent, order) && ClockBound(order, clock)
      invariant Covers(h, w, lab, unvisited) && Grows(h, w, lab0, lab, n)
      invariant forall j :: 0 <= j < k ==> Reached(mask, h, w, lab, n, Shift(p, offsets[j]))
      invariant |unvisited| <= |unvisited0| && (|unvisited| == |unvisited0| ==> stack == stack0)
    {
      ShiftIsAdjacent(conn, p, k);
      ghost var before := lab;
      lab, stack, parent, order, clock, unvisited :=
        Visit(mask, h, w, conn, lab, n, p, Shift(p, offsets[k]), stack, seeds, parent, order, clock, unvisited);
      GrowsTwice(h, w, lab0, before, lab, n);
      assert Reached(mask, h, w, lab, n, Shift(p, offsets[k]));
      forall j | 0 <= j < k + 1 ensures Reached(mask, h, w, lab, n, Shift(p, offsets[j])) {
        if j < k {
          StillReached(mask, h, w, before, lab, n, Shift(p, offsets[j]));
        }
      }
    }
    forall q | InGrid(q, h, w) && Adjacent(conn, p, q) && Masked(mask, h, w, q)
      ensures LabelAt(lab, h, w, q) == LabelAt(lab, h, w, p)
    {
      var j := OffsetIndex(conn, p, q);
      assert Reached(mask, h, w, lab, n, Shift(p, offsets[j]));
    }
    ClosedAfterVisit(mask, h, w, conn, lab, stack, p);
  }

  /** Labels with n every unlabelled mask cell reachable from the cells on the
      stack, which all carry label n already. */
  method Fill(mask: Matrix<bool>, h: nat, w: nat, conn: Connectivity, lab0: Matrix<nat>, n: nat,
              stack0: seq<Cell>, ghost seeds: seq<Cell>, ghost parent0: map<Cell, Cell>,
              ghost order0: map<Cell, nat>, ghost clock0: nat)
    returns (lab: Matrix<nat>, ghost parent: map<Cell, Cell>, ghost order: map<Cell, nat>, ghost clock: nat)
    requires n > 0 && IsMatrix(mask, h, w) && IsMatrix(lab0, h, w) && OnStack(h, w, lab0, n, stack0)
    requires Sound(mask, h, w, lab0, n) && ClosedExcept(mask, h, w, conn, lab0, stack0)
    requires Certified(h, w, conn, lab0, n, seeds, parent0, order0) && ClockBound(order0, clock0)
    ensures IsMatrix(lab, h, w)
    ensures Sound(mask, h, w, lab, n) && ClosedExcept(mask, h, w, conn, lab, [])
    ensures Certified(h, w, conn, lab, n, seeds, parent, order) && ClockBound(order, clock)
    ensures Grows(h, w, lab0, lab, n)
  {
    lab, parent, order, clock := lab0, parent0, order0, clock0;
    var stack := stack0;
    ghost var unvisited := set i, j | 0 <= i < h && 0 <= j < w :: Cell(i, j);
    while stack != []
      invariant IsMatrix(lab, h, w) && OnStack(h, w, lab, n, stack)
      invariant Sound(mask, h, w, lab, n) && ClosedExcept(mask, h, w, conn, lab, stack)
      invariant Certified(h, w, conn, lab, n, seeds, parent, order) && ClockBound(order, clock)
      invariant Covers(h, w, lab, unvisited) && Grows(h, w, lab0, lab, n)
      decreases |unvisited|, |stack|
    {
      var p := stack[|stack| - 1];
      stack := stack[..|stack| - 1];
      ClosedSameMembers(mask, h, w, conn, lab, stack + [p], [p] + stack);
      ghost var before := lab;
      lab, stack, parent, order, clock, unvisited :=
        VisitNeighbours(mask, h, w, conn, lab, n, p, stack, seeds, parent, order, clock, unvisited);
      GrowsTwice(h, w, lab0, before, lab, n);
    }
  }

  lemma ClosedSameMembers(mask: Matrix<bool>, h: nat, w: nat, conn: Connectivity, lab: Matrix<nat>,
                          a: seq<Cell>, b: seq<Cell>)
    requires IsMatrix(mask, h, w) && IsMatrix(lab, h, w)
    requires ClosedExcept(mask, h, w, conn, lab, a)
    requires forall c :: c in b <==> c in a
    ensures ClosedExcept(mask, h, w, conn, lab, b)
  {
  }

  /** Labelling an unlabelled mask cell keeps every closed cell closed and
      puts the new cell among the pending ones. */
  lemma NewLabelKeepsClosed(mask: Matrix<bool>, h: nat, w: nat, conn: Connectivity, lab: Matrix<nat>,
                            pending: seq<Cell>, q: Cell)
    requires IsMatrix(mask, h, w) && IsMatrix(lab, h, w) && InGrid(q, h, w)
    requires ClosedExcept(mask, h, w, conn, lab, pending)
    requires Masked(mask, h, w, q) && LabelAt(lab, h, w, q) == 0
    ensures forall k: nat :: ClosedExcept(mask, h, w, conn, SetLabel(lab, h, w, q, k), pending + [q])
  {
    forall k: nat ensures ClosedExcept(mask, h, w, conn, SetLabel(lab, h, w, q, k), pending + [q]) {
      var lab' := SetLabel(lab, h, w, q, k);
      forall p, r | InGrid(p, h, w) && InGrid(r, h, w) && Adjacent(conn, p, r)
        && LabelAt(lab', h, w, p) > 0 && p !in pending + [q] && Masked(mask, h, w, r)
        ensures LabelAt(lab', h, w, r) == LabelAt(lab', h, w, p)
      {
        assert p !in pending;
      }
    }
  }

  /** Once all of p's mask neighbours carry p's label, p may leave the pending cells. */
  lemma ClosedAfterVisit(mask: Matrix<bool>, h: nat, w: nat, conn: Connectivity, lab: Matrix<nat>,
                         stack: seq<Cell>, p: Cell)
    requires IsMatrix(mask, h, w) && IsMatrix(lab, h, w) && InGrid(p, h, w)
    requires ClosedExcept(mask, h, w, conn, lab, stack + [p])
    requires forall q :: InGrid(q, h, w) && Adjacent(conn, p, q) && Masked(mask, h, w, q) ==>
      LabelAt(lab, h, w, q) == LabelAt(lab, h, w, p)
    ensures ClosedExcept(mask, h, w, conn, lab, stack)
  {
    forall x, q | InGrid(x, h, w) && InGrid(q, h, w) && Adjacent(conn, x, q)
      && LabelAt(lab, h, w, x) > 0 && x !in stack && Masked(mask, h, w, q)
      ensures LabelAt(lab, h, w, q) == LabelAt(lab, h, w, x)
    {
      if x != p {
        assert x !in stack + [p];
      }
    }
  }

  /** Starting label n + 1 at an unlabelled cell s keeps the certificate, with s as its seed. */
  lemma CertifiedSeed(h: nat, w: nat, conn: Connectivity, lab: Matrix<nat>, n: nat,
                      seeds: seq<Cell>, parent: map<Cell, Cell>, order: map<Cell, nat>, clock: nat, s: Cell)
    requires IsMatrix(lab, h, w) && InGrid(s, h, w) && LabelAt(lab, h, w, s) == 0
    requires Certified(h, w, conn, lab, n, seeds, parent, order) && ClockBound(order, clock)
    ensures Certified(h, w, conn, SetLabel(lab, h, w, s, n + 1), n + 1, seeds + [s], parent, order[s := clock])
    ensures ClockBound(order[s := clock], clock + 1)
  {
    SeedsStillLabelled(h, w, conn, lab, n, seeds, parent, order, s);
    var lab', seeds', order' := SetLabel(lab, h, w, s, n + 1), seeds + [s], order[s := clock];
    forall c | InGrid(c, h, w) && LabelAt(lab', h, w, c) > 0
      ensures && LabelAt(lab', h, w, c) <= n + 1 && c in order'
              && (c == seeds'[LabelAt(lab', h, w, c) - 1]
                  || (&& c in parent && InGrid(parent[c], h, w) && Adjacent(conn, parent[c], c)
                      && LabelAt(lab', h, w, parent[c]) == LabelAt(lab', h, w, c)
                      && parent[c] in order' && order'[parent[c]] < order'[c]))
    {
      if c != s {
        OldCellStillJustified(h, w, conn, lab, n, seeds, parent, order, clock, s, c);
      }
    }
  }

  /** A cell labelled before s keeps its justification when s starts label n + 1. */
  lemma OldCellStillJustified(h: nat, w: nat, conn: Connectivity, lab: Matrix<nat>, n: nat,
                              seeds: seq<Cell>, parent: map<Cell, Cell>, order: map<Cell, nat>, clock: nat, s: Cell, c: Cell)
    requires IsMatrix(lab, h, w) && InGrid(s, h, w) && LabelAt(lab, h, w, s) == 0
    requires Certified(h, w, conn, lab, n, seeds, parent, order) && ClockBound(order, clock)
    requires InGrid(c, h, w) && LabelAt(lab, h, w, c) > 0
    ensures var lab', seeds', order' := SetLabel(lab, h, w, s, n + 1), seeds + [s], order[s := clock];
            && LabelAt(lab', h, w, c) <= n + 1 && c in order'
            && (c == seeds'[LabelAt(lab', h, w, c) - 1]
                || (&& c in parent && InGrid(parent[c], h, w) && Adjacent(conn, parent[c], c)
                    && LabelAt(lab', h, w, parent[c]) == LabelAt(lab', h, w, c)
                    && parent[c] in order' && order'[parent[c]] < order'[c]))
  {
    var lab', seeds', order' := SetLabel(lab, h, w, s, n + 1), seeds + [s], order[s := clock];
    var k := LabelAt(lab, h, w, c);
    assert LabelAt(lab', h, w, c) == k && seeds'[k - 1] == seeds[k - 1];
    if c != seeds[k - 1] {
      var pc := parent[c];
      assert LabelAt(lab, h, w, pc) == k;
      assert order'[pc] == order[pc] && order'[c] == order[c];
    }
  }

  /** After s gets label n + 1, the old seeds keep their labels and s is the seed of n + 1. */
  lemma SeedsStillLabelled(h: nat, w: nat, conn: Connectivity, lab: Matrix<nat>, n: nat,
                           seeds: seq<Cell>, parent: map<Cell, Cell>, order: map<Cell, nat>, s: Cell)
    requires IsMatrix(lab, h, w) && InGrid(s, h, w) && LabelAt(lab, h, w, s) == 0
    requires Certified(h, w, conn, lab, n, seeds, parent, order)
    ensures forall k :: 0 <= k < n + 1 ==>
      InGrid((seeds + [s])[k], h, w) && LabelAt(SetLabel(lab, h, w, s, n + 1), h, w, (seeds + [s])[k]) == k + 1
  {
    var lab', seeds' := SetLabel(lab, h, w, s, n + 1), seeds + [s];
    forall k | 0 <= k < n + 1
      ensures InGrid(seeds'[k], h, w) && LabelAt(lab', h, w, seeds'[k]) == k + 1
    {
      if k < n {
        assert seeds'[k] == seeds[k] && LabelAt(lab, h, w, seeds[k]) == k + 1;
      }
    }
  }

  /** Gives the unlabelled mask cell s the next label and floods its component. */
  method StartComponent(mask: Matrix<bool>, h: nat, w: nat, conn: Connectivity, lab0: Matrix<nat>, n0: nat, s: Cell,
                        ghost seeds0: seq<Cell>, ghost parent0: map<Cell, Cell>, ghost order0: map<Cell, nat>,
                        ghost clock0: nat)
    returns (lab: Matrix<nat>, n: nat, ghost seeds: seq<Cell>, ghost parent: map<Cell, Cell>,
             ghost order: map<Cell, nat>, ghost clock: nat)
    requires IsMatrix(mask, h, w) && IsMatrix(lab0, h, w) && InGrid(s, h, w)
    requires Masked(mask, h, w, s) && LabelAt(lab0, h, w, s) == 0
    requires Sound(mask, h, w, lab0, n0) && ClosedExcept(mask, h, w, conn, lab0, [])
    requires Certified(h, w, conn, lab0, n0, seeds0, parent0, order0) && ClockBound(order0, clock0)
    ensures IsMatrix(lab, h, w) && Sound(mask, h, w, lab, n) && ClosedExcept(mask, h, w, conn, lab, [])
    ensures Certified(h, w, conn, lab, n, seeds, parent, order) && ClockBound(order, clock)
    requires SeedsInScanOrder(h, w, lab0, seeds0) && forall k :: 0 <= k < |seeds0| ==> ScanBefore(seeds0[k], s)
    requires forall c :: InGrid(c, h, w) && ScanBefore(c, s) && Masked(mask, h, w, c) ==> LabelAt(lab0, h, w, c) > 0
    ensures n == n0 + 1 && Grows(h, w, lab0, lab, n) && LabelAt(lab, h, w, s) == n
    ensures seeds == seeds0 + [s] && SeedsInScanOrder(h, w, lab, seeds)
  {
    NewLabelKeepsClosed(mask, h, w, conn, lab0, [], s);
    assert [] + [s] == [s];
    CertifiedSeed(h, w, conn, lab0, n0, seeds0, parent0, order0, clock0, s);
    lab := SetLabel(lab0, h, w, s, n0 + 1);
    n, seeds, order, clock := n0 + 1, seeds0 + [s], order0[s := clock0], clock0 + 1;
    ghost var seeded := lab;
    lab, parent, order, clock := Fill(mask, h, w, conn, lab, n, [s], seeds, parent0, order, clock);
    GrowsTwice(h, w, lab0, seeded, lab, n);
    ScanOrderKept(mask, h, w, lab0, lab, n0, seeds0, s);
  }

  lemma GrowsTwice(h: nat, w: nat, lab0: Matrix<nat>, lab1: Matrix<nat>, lab2: Matrix<nat>, n: nat)
    requires IsMatrix(lab0, h, w) && IsMatrix(lab1, h, w) && IsMatrix(lab2, h, w)
    requires Grows(h, w, lab0, lab1, n) && Grows(h, w, lab1, lab2, n)
    ensures Grows(h, w, lab0, lab2, n)
  {
  }

  /** Flooding a component from s, the first unlabelled mask cell in scan
      order, keeps the seeds in scan order. */
  lemma ScanOrderKept(mask: Matrix<bool>, h: nat, w: nat, lab0: Matrix<nat>, lab: Matrix<nat>, n0: nat,
                      seeds0: seq<Cell>, s: Cell)
    requires IsMatrix(mask, h, w) && IsMatrix(lab0, h, w) && IsMatrix(lab, h, w) && InGrid(s, h, w)
    requires Sound(mask, h, w, lab0, n0) && Sound(mask, h, w, lab, n0 + 1)
    requires |seeds0| == n0 && Grows(h, w, lab0, lab, n0 + 1)
    requires SeedsInScanOrder(h, w, lab0, seeds0) && forall k :: 0 <= k < |seeds0| ==> ScanBefore(seeds0[k], s)
    requires forall c :: InGrid(c, h, w) && ScanBefore(c, s) && Masked(mask, h, w, c) ==> LabelAt(lab0, h, w, c) > 0
    ensures SeedsInScanOrder(h, w, lab, seeds0 + [s])
  {
    var seeds := seeds0 + [s];
    forall c, k | InGrid(c, h, w) && 0 <= k < |seeds| && LabelAt(lab, h, w, c) == k + 1
      ensures !ScanBefore(c, seeds[k])
    {
      if LabelAt(lab0, h, w, c) == k + 1 {
        assert seeds[k] == seeds0[k];
      } else {
        assert k == n0 && seeds[k] == s && Masked(mask, h, w, c);
      }
    }
    forall i, j | 0 <= i < j < |seeds| ensures ScanBefore(seeds[i], seeds[j]) {
      assert seeds[i] == seeds0[i];
      if j < |seeds0| {
        assert seeds[j] == seeds0[j];
      }
    }
  }

  /** Each seed precedes the next in scan order, and no cell of a label comes
      before that label's seed. */
  ghost predicate SeedsInScanOrder(h: nat, w: nat, lab: Matrix<nat>, seeds: seq<Cell>)
    requires IsMatrix(lab, h, w)
  {
    && (forall i, j :: 0 <= i < j < |seeds| ==> ScanBefore(seeds[i], seeds[j]))
    && (forall c, k :: InGrid(c, h, w) && 0 <= k < |seeds| && LabelAt(lab, h, w, c) == k + 1 ==>
          !ScanBefore(c, seeds[k]))
  }

  /** Seed k carries label k + 1 and the seeds are in scan order, so labels
      are numbered in scan order. */
  lemma NumberingFromSeeds(h: nat, w: nat, lab: Matrix<nat>, seeds: seq<Cell>)
    requires IsMatrix(lab, h, w)
    requires forall k :: 0 <= k < |seeds| ==> InGrid(seeds[k], h, w) && LabelAt(lab, h, w, seeds[k]) == k + 1
    requires forall c :: InGrid(c, h, w) ==> LabelAt(lab, h, w, c) <= |seeds|
    requires SeedsInScanOrder(h, w, lab, seeds)
    ensures NumberedInScanOrder(h, w, lab)
  {
    forall c | InGrid(c, h, w) && LabelAt(lab, h, w, c) >= 2 ensures HasEarlierLabel(h, w, lab, c) {
      var k := LabelAt(lab, h, w, c);
      var d, e := seeds[k - 2], seeds[k - 1];
      ScanBetween(d, e, c);
      EarlierWitness(h, w, lab, c, d);
    }
  }

  lemma ScanBetween(d: Cell, e: Cell, c: Cell)
    requires ScanBefore(d, e) && !ScanBefore(c, e)
    ensures ScanBefore(d, c)
  {
  }

  lemma EarlierWitness(h: nat, w: nat, lab: Matrix<nat>, c: Cell, d: Cell)
    requires IsMatrix(lab, h, w) && InGrid(c, h, w) && InGrid(d, h, w)
    requires ScanBefore(d, c) && LabelAt(lab, h, w, d) == LabelAt(lab, h, w, c) - 1
    ensures HasEarlierLabel(h, w, lab, c)
  {
  }

  /** The state between two components: everything labelled so far is closed and certified. */
  ghost predicate Settled(mask: Matrix<bool>, h: nat, w: nat, conn: Connectivity, lab: Matrix<nat>, n: nat,
                          seeds: seq<Cell>, parent: map<Cell, Cell>, order: map<Cell, nat>, clock: nat)
    requires IsMatrix(mask, h, w)
  {
    && IsMatrix(lab, h, w) && Sound(mask, h, w, lab, n) && ClosedExcept(mask, h, w, conn, lab, [])
    && Certified(h, w, conn, lab, n, seeds, parent, order) && ClockBound(order, clock)
    && SeedsInScanOrder(h, w, lab, seeds)
  }

  /** Every mask cell before pos in scan order is labelled, and every seed comes before pos. */
  ghost predicate ScannedUpTo(mask: Matrix<bool>, h: nat, w: nat, lab: Matrix<nat>, seeds: seq<Cell>, pos: Cell)
    requires IsMatrix(mask, h, w) && IsMatrix(lab, h, w)
  {
    && (forall c :: InGrid(c, h, w) && ScanBefore(c, pos) && Masked(mask, h, w, c) ==> LabelAt(lab, h, w, c) > 0)
    && (forall k :: 0 <= k < |seeds| ==> ScanBefore(seeds[k], pos))
  }

  /** Scans row r left to right, starting a component at each unlabelled mask cell. */
  method ScanRow(mask: Matrix<bool>, h: nat, w: nat, conn: Connectivity, lab0: Matrix<nat>, n0: nat, r: nat,
                 ghost seeds0: seq<Cell>, ghost parent0: map<Cell, Cell>, ghost order0: map<Cell, nat>,
                 ghost clock0: nat)
    returns (lab: Matrix<nat>, n: nat, ghost seeds: seq<Cell>, ghost parent: map<Cell, Cell>,
             ghost order: map<Cell, nat>, ghost clock: nat)
    requires IsMatrix(mask, h, w) && r < h
    requires Settled(mask, h, w, conn, lab0, n0, seeds0, parent0, order0, clock0)
    requires ScannedUpTo(mask, h, w, lab0, seeds0, Cell(r, 0))
    ensures Settled(mask, h, w, conn, lab, n, seeds, parent, order, clock)
    ensures ScannedUpTo(mask, h, w, lab, seeds, Cell(r + 1, 0))
  {
    lab, n, seeds, parent, order, clock := lab0, n0, seeds0, parent0, order0, clock0;
    for col := 0 to w
      invariant Settled(mask, h, w, conn, lab, n, seeds, parent, order, clock)
      invariant ScannedUpTo(mask, h, w, lab, seeds, Cell(r, col))
    {
      if mask[r][col] && lab[r][col] == 0 {
        ghost var before := lab;
        lab, n, seeds, parent, order, clock :=
          StartComponent(mask, h, w, conn, lab, n, Cell(r, col), seeds, parent, order, clock);
        assert Grows(h, w, before, lab, n);
      }
    }
  }

  /** The connected-component labelling of mask: label 0 for cells outside the
      mask, and 1..n for its components, numbered in the order a row-major
      scan first meets them. */
  method Label(mask: Matrix<bool>, h: nat, w: nat, conn: Connectivity) returns (lab: Matrix<nat>, n: nat)
    requires IsMatrix(mask, h, w)
    ensures IsComponentLabelling(mask, h, w, conn, lab, n)
    ensures NumberedInScanOrder(h, w, lab)
  {
    lab := seq(h, i => seq(w, j => 0));
    n := 0;
    ghost var seeds: seq<Cell> := [];
    ghost var parent: map<Cell, Cell> := map[];
    ghost var order: map<Cell, nat> := map[];
    ghost var clock: nat := 0;
    for r := 0 to h
      invariant Settled(mask, h, w, conn, lab, n, seeds, parent, order, clock)
      invariant ScannedUpTo(mask, h, w, lab, seeds, Cell(r, 0))
    {
      lab, n, seeds, parent, order, clock := ScanRow(mask, h, w, conn, lab, n, r, seeds, parent, order, clock);
    }
    LabellingFromInvariants(mask, h, w, conn, lab, n, seeds, parent, order);
    NumberingFromSeeds(h, w, lab, seeds);
  }

  // ---------------------------------------------------------------------------
  // From the fill's invariants to components

  function Reverse<T>(s: seq<T>): (r: seq<T>)
    ensures |r| == |s| && forall k :: 0 <= k < |s| ==> r[k] == s[|s| - 1 - k]
  {
    if s == [] then [] else Reverse(s[1..]) + [s[0]]
  }

  lemma AdjacentSymmetric(conn: Connectivity, p: Cell, q: Cell)
    requires Adjacent(conn, p, q)
    ensures Adjacent(conn, q, p)
  {
  }

  lemma ReversedPath(mask: Matrix<bool>, h: nat, w: nat, conn: Connectivity, path: seq<Cell>)
    requires IsMatrix(mask, h, w) && IsPath(mask, h, w, conn, path)
    ensures IsPath(mask, h, w, conn, Reverse(path))
  {
    var r := Reverse(path);
    forall k | 1 <= k < |r| ensures Adjacent(conn, r[k - 1], r[k]) {
      var m := |path| - 1 - k;
      assert Adjacent(conn, path[m], path[m + 1]);
      AdjacentSymmetric(conn, path[m], path[m + 1]);
    }
  }

  /** Two paths meeting at a cell make one path. */
  lemma JoinedPath(mask: Matrix<bool>, h: nat, w: nat, conn: Connectivity, a: seq<Cell>, b: seq<Cell>)
    requires IsMatrix(mask, h, w) && IsPath(mask, h, w, conn, a) && IsPath(mask, h, w, conn, b)
    requires a[|a| - 1] == b[0]
    ensures IsPath(mask, h, w, conn, a + b[1..])
  {
    var j := a + b[1..];
    forall k | 1 <= k < |j| ensures Adjacent(conn, j[k - 1], j[k]) {
      if k >= |a| {
        assert j[k - 1] == b[k - |a|] && j[k] == b[k - |a| + 1];
      }
    }
  }

  /** Along a path of mask cells, a closed labelling keeps one label. */
  lemma {:induction false} PathKeepsLabel(mask: Matrix<bool>, h: nat, w: nat, conn: Connectivity, lab: Matrix<nat>,
                                          path: seq<Cell>)
    requires IsMatrix(mask, h, w) && IsMatrix(lab, h, w) && IsPath(mask, h, w, conn, path)
    requires forall c :: InGrid(c, h, w) && Masked(mask, h, w, c) ==> LabelAt(lab, h, w, c) > 0
    requires ClosedExcept(mask, h, w, conn, lab, [])
    ensures LabelAt(lab, h, w, path[|path| - 1]) == LabelAt(lab, h, w, path[0])
    decreases |path|
  {
    if |path| > 1 {
      var prefix := path[..|path| - 1];
      PathKeepsLabel(mask, h, w, conn, lab, prefix);
      assert Adjacent(conn, path[|path| - 2], path[|path| - 1]);
    }
  }

  /** Following parents from a labelled cell back to the seed of its label
      gives a path of mask cells. */
  lemma {:induction false} PathFromSeed(mask: Matrix<bool>, h: nat, w: nat, conn: Connectivity, lab: Matrix<nat>, n: nat,
                                        seeds: seq<Cell>, parent: map<Cell, Cell>, order: map<Cell, nat>, c: Cell)
    returns (path: seq<Cell>)
    requires IsMatrix(mask, h, w) && IsMatrix(lab, h, w) && Sound(mask, h, w, lab, n)
    requires Certified(h, w, conn, lab, n, seeds, parent, order)
    requires InGrid(c, h, w) && LabelAt(lab, h, w, c) > 0
    ensures IsPath(mask, h, w, conn, path) && path[0] == seeds[LabelAt(lab, h, w, c) - 1] && path[|path| - 1] == c
    decreases order[c]
  {
    if c == seeds[LabelAt(lab, h, w, c) - 1] {
      path := [c];
    } else {
      var prefix := PathFromSeed(mask, h, w, conn, lab, n, seeds, parent, order, parent[c]);
      path := prefix + [c];
    }
  }

  lemma SameLabelIffConnected(mask: Matrix<bool>, h: nat, w: nat, conn: Connectivity, lab: Matrix<nat>, n: nat,
                              seeds: seq<Cell>, parent: map<Cell, Cell>, order: map<Cell, nat>, p: Cell, q: Cell)
    requires IsMatrix(mask, h, w) && IsMatrix(lab, h, w) && Sound(mask, h, w, lab, n)
    requires ClosedExcept(mask, h, w, conn, lab, []) && Certified(h, w, conn, lab, n, seeds, parent, order)
    requires forall c :: InGrid(c, h, w) && Masked(mask, h, w, c) ==> LabelAt(lab, h, w, c) > 0
    requires InGrid(p, h, w) && InGrid(q, h, w) && Masked(mask, h, w, p) && Masked(mask, h, w, q)
    ensures LabelAt(lab, h, w, p) == LabelAt(lab, h, w, q) <==> Connected(mask, h, w, conn, p, q)
  {
    if LabelAt(lab, h, w, p) == LabelAt(lab, h, w, q) {
      var toP := PathFromSeed(mask, h, w, conn, lab, n, seeds, parent, order, p);
      var toQ := PathFromSeed(mask, h, w, conn, lab, n, seeds, parent, order, q);
      ReversedPath(mask, h, w, conn, toP);
      var back := Reverse(toP);
      JoinedPath(mask, h, w, conn, back, toQ);
      var path := back + toQ[1..];
      assert path[0] == p && path[|path| - 1] == q;
    }
    if Connected(mask, h, w, conn, p, q) {
      var path :| IsPath(mask, h, w, conn, path) && path[0] == p && path[|path| - 1] == q;
      PathKeepsLabel(mask, h, w, conn, lab, path);
    }
  }

  lemma LabellingFromInvariants(mask: Matrix<bool>, h: nat, w: nat, conn: Connectivity, lab: Matrix<nat>, n: nat,
                                seeds: seq<Cell>, parent: map<Cell, Cell>, order: map<Cell, nat>)
    requires IsMatrix(mask, h, w) && IsMatrix(lab, h, w) && Sound(mask, h, w, lab, n)
    requires ClosedExcept(mask, h, w, conn, lab, []) && Certified(h, w, conn, lab, n, seeds, parent, order)
    requires forall c :: InGrid(c, h, w) && Masked(mask, h, w, c) ==> LabelAt(lab, h, w, c) > 0
    ensures IsComponentLabelling(mask, h, w, conn, lab, n)
  {
    forall k | 1 <= k <= n ensures LabelUsed(h, w, lab, k) {
      assert InGrid(seeds[k - 1], h, w) && LabelAt(lab, h, w, seeds[k - 1]) == k;
    }
    forall p, q | InGrid(p, h, w) && InGrid(q, h, w) && Masked(mask, h, w, p) && Masked(mask, h, w, q)
      ensures LabelAt(lab, h, w, p) == LabelAt(lab, h, w, q) <==> Connected(mask, h, w, conn, p, q)
    {
      SameLabelIffConnected(mask, h, w, conn, lab, n, seeds, parent, order, p, q);
    }
  }

  // ---------------------------------------------------------------------------
  // The labelling is unique

  /** Numbering in scan order puts every smaller label before a labelled cell. */
  lemma {:induction false} SmallerLabelsEarlier(h: nat, w: nat, lab: Matrix<nat>, c: Cell, j: nat)
    requires IsMatrix(lab, h, w) && NumberedInScanOrder(h, w, lab) && InGrid(c, h, w)
    requires 1 <= j < LabelAt(lab, h, w, c)
    ensures exists d :: InGrid(d, h, w) && ScanBefore(d, c) && LabelAt(lab, h, w, d) == j
    decreases LabelAt(lab, h, w, c) - j
  {
    assert HasEarlierLabel(h, w, lab, c);
    var d :| InGrid(d, h, w) && ScanBefore(d, c) && LabelAt(lab, h, w, d) == LabelAt(lab, h, w, c) - 1;
    if LabelAt(lab, h, w, d) != j {
      SmallerLabelsEarlier(h, w, lab, d, j);
      var e :| InGrid(e, h, w) && ScanBefore(e, d) && LabelAt(lab, h, w, e) == j;
      assert ScanBefore(e, c);
    }
  }

  /** A mask cell whose label no earlier cell carries (the first cell of its
      component) has a label above every earlier one, and the label just below
      it, if any, occurs earlier. */
  lemma NewLabelIsNext(mask: Matrix<bool>, h: nat, w: nat, conn: Connectivity, lab: Matrix<nat>, n: nat, c: Cell)
    requires IsMatrix(mask, h, w) && IsComponentLabelling(mask, h, w, conn, lab, n) && NumberedInScanOrder(h, w, lab)
    requires InGrid(c, h, w) && Masked(mask, h, w, c)
    requires forall d :: InGrid(d, h, w) && ScanBefore(d, c) ==> LabelAt(lab, h, w, d) != LabelAt(lab, h, w, c)
    ensures forall d :: InGrid(d, h, w) && ScanBefore(d, c) ==> LabelAt(lab, h, w, d) < LabelAt(lab, h, w, c)
    ensures LabelAt(lab, h, w, c) == 1 ||
            exists d :: InGrid(d, h, w) && ScanBefore(d, c) && LabelAt(lab, h, w, d) == LabelAt(lab, h, w, c) - 1
  {
    var k := LabelAt(lab, h, w, c);
    forall d | InGrid(d, h, w) && ScanBefore(d, c) ensures LabelAt(lab, h, w, d) < k {
      if LabelAt(lab, h, w, d) > k {
        SmallerLabelsEarlier(h, w, lab, d, k);
      }
    }
    if k >= 2 {
      assert HasEarlierLabel(h, w, lab, c);
    }
  }

  /** Two component labellings of one mask put the same cells together. */
  lemma SameComponent(mask: Matrix<bool>, h: nat, w: nat, conn: Connectivity,
                      lab1: Matrix<nat>, n1: nat, lab2: Matrix<nat>, n2: nat, c: Cell)
    requires IsMatrix(mask, h, w)
    requires IsComponentLabelling(mask, h, w, conn, lab1, n1) && IsComponentLabelling(mask, h, w, conn, lab2, n2)
    requires InGrid(c, h, w) && Masked(mask, h, w, c)
    ensures forall d :: InGrid(d, h, w) && LabelAt(lab1, h, w, d) == LabelAt(lab1, h, w, c) ==>
              LabelAt(lab2, h, w, d) == LabelAt(lab2, h, w, c)
  {
    forall d | InGrid(d, h, w) && LabelAt(lab1, h, w, d) == LabelAt(lab1, h, w, c)
      ensures LabelAt(lab2, h, w, d) == LabelAt(lab2, h, w, c)
    {
      assert Masked(mask, h, w, d);
      assert Connected(mask, h, w, conn, d, c);
    }
  }

  /** Two component labellings of one mask, both numbered in scan order,
      that agree on every cell before c agree at c. */
  lemma AgreeAfterEarlier(mask: Matrix<bool>, h: nat, w: nat, conn: Connectivity,
                          lab1: Matrix<nat>, n1: nat, lab2: Matrix<nat>, n2: nat, c: Cell)
    requires IsMatrix(mask, h, w)
    requires IsComponentLabelling(mask, h, w, conn, lab1, n1) && NumberedInScanOrder(h, w, lab1)
    requires IsComponentLabelling(mask, h, w, conn, lab2, n2) && NumberedInScanOrder(h, w, lab2)
    requires InGrid(c, h, w)
    requires forall d :: InGrid(d, h, w) && ScanBefore(d, c) ==> LabelAt(lab1, h, w, d) == LabelAt(lab2, h, w, d)
    ensures LabelAt(lab1, h, w, c) == LabelAt(lab2, h, w, c)
  {
    if Masked(mask, h, w, c) {
      SameComponent(mask, h, w, conn, lab1, n1, lab2, n2, c);
      SameComponent(mask, h, w, conn, lab2, n2, lab1, n1, c);
      if !exists d :: InGrid(d, h, w) && ScanBefore(d, c) && LabelAt(lab1, h, w, d) == LabelAt(lab1, h, w, c) {
        NewLabelIsNext(mask, h, w, conn, lab1, n1, c);
        NewLabelIsNext(mask, h, w, conn, lab2, n2, c);
      }
    }
  }

  /** Two component labellings of one mask, both numbered in scan order,
      agree at every cell. */
  lemma {:induction false} AgreeAt(mask: Matrix<bool>, h: nat, w: nat, conn: Connectivity,
                                   lab1: Matrix<nat>, n1: nat, lab2: Matrix<nat>, n2: nat, c: Cell)
    requires IsMatrix(mask, h, w)
    requires IsComponentLabelling(mask, h, w, conn, lab1, n1) && NumberedInScanOrder(h, w, lab1)
    requires IsComponentLabelling(mask, h, w, conn, lab2, n2) && NumberedInScanOrder(h, w, lab2)
    requires InGrid(c, h, w)
    ensures LabelAt(lab1, h, w, c) == LabelAt(lab2, h, w, c)
    decreases c.row, c.col
  {
    forall d | InGrid(d, h, w) && ScanBefore(d, c) ensures LabelAt(lab1, h, w, d) == LabelAt(lab2, h, w, d) {
      AgreeAt(mask, h, w, conn, lab1, n1, lab2, n2, d);
    }
    AgreeAfterEarlier(mask, h, w, conn, lab1, n1, lab2, n2, c);
  }

  /** Every label is used, so the label count is at most any bound on the labels. */
  lemma CountBelowBound(mask: Matrix<bool>, h: nat, w: nat, conn: Connectivity, lab: Matrix<nat>, n: nat, m: nat)
    requires IsMatrix(mask, h, w) && IsComponentLabelling(mask, h, w, conn, lab, n)
    requires forall c :: InGrid(c, h, w) ==> LabelAt(lab, h, w, c) <= m
    ensures n <= m
  {
    if n > 0 {
      assert LabelUsed(h, w, lab, n);
    }
  }

  /** scipy.ndimage.label's result is determined by the mask: a component
      labelling numbered in scan order is unique. */
  lemma LabellingUnique(mask: Matrix<bool>, h: nat, w: nat, conn: Connectivity,
                        lab1: Matrix<nat>, n1: nat, lab2: Matrix<nat>, n2: nat)
    requires IsMatrix(mask, h, w)
    requires IsComponentLabelling(mask, h, w, conn, lab1, n1) && NumberedInScanOrder(h, w, lab1)
    requires IsComponentLabelling(mask, h, w, conn, lab2, n2) && NumberedInScanOrder(h, w, lab2)
    ensures lab1 == lab2 && n1 == n2
  {
    forall i | 0 <= i < h ensures lab1[i] == lab2[i] {
      forall j | 0 <= j < w ensures lab1[i][j] == lab2[i][j] {
        AgreeAt(mask, h, w, conn, lab1, n1, lab2, n2, Cell(i, j));
      }
    }
    CountBelowBound(mask, h, w, conn, lab1, n1, n2);
    CountBelowBound(mask, h, w, conn, lab2, n2, n1);
  }
}
