/** The constructors of chuffed/mdd/MDD.cpp that build diagrams from
    scratch (`mdd_vareq`, `mdd_varlt`, `mdd_vargt`, `tuple`, `mdd_case`)
    and `expand`, which rebuilds a diagram so that every path tests every
    variable from a given one on. */
module MddBuild {
  import opened Base
  import opened MddNodes
  import opened MddApply

  // ---------------------------------------------------------------------
  // One-variable diagrams

  /** `insert(var, low, start)` with the edges pushed since `start`, for
      every point at once. */
  lemma InsertMeansAll(t: Table, variable: nat, low: nat, es: seq<Edge>, expand: bool)
    requires Wf(t) && Fits(t, variable, low, es)
    ensures forall xs: Point :: var o := Insert(t, variable, low, es, expand);
      Eval(o.t, o.r, xs) == Eval(t, Follow(low, es, xs(variable)), xs)
  {
    forall xs: Point ensures var o := Insert(t, variable, low, es, expand);
      Eval(o.t, o.r, xs) == Eval(t, Follow(low, es, xs(variable)), xs)
    {
      InsertMeans(t, variable, low, es, expand, xs);
    }
  }

  /** The destination of a value over the two edges `[val, dest)`,
      `[val + 1, FALSE)` pushed above a FALSE low. */
  lemma GuardFollow(val: int, dest: nat, v: int)
    ensures Follow(MddFalse, [Edge(val, dest), Edge(val + 1, MddFalse)], v) == if v == val then dest else MddFalse
  {
    var es := [Edge(val, dest), Edge(val + 1, MddFalse)];
    FollowUnfold(MddFalse, es, v);
    FollowUnfold(dest, es[1..], v);
    FollowUnfold(MddFalse, es[2..], v);
  }

  /** The node `tuple` and `mdd_vareq` push: `variable` equals `val`, and
      then `dest` holds. */
  function Guard(t: Table, variable: nat, val: int, dest: nat): (o: Out)
    requires Wf(t) && variable < t.nvars && dest < Size(t) && Above(t, dest, variable)
    ensures Grows(t, o)
    ensures forall u: int :: u < variable ==> Above(o.t, o.r, u)
    ensures forall xs: Point :: Eval(o.t, o.r, xs) <==> xs(variable) == val && Eval(t, dest, xs)
  {
    var es := [Edge(val, dest), Edge(val + 1, MddFalse)];
    InsertMeansAll(t, variable, MddFalse, es, false);
    GuardMeans(t, val, dest);
    Insert(t, variable, MddFalse, es, false)
  }

  lemma GuardMeans(t: Table, val: int, dest: nat)
    requires Wf(t) && dest < Size(t)
    ensures forall xs: Point, variable: nat ::
      Eval(t, Follow(MddFalse, [Edge(val, dest), Edge(val + 1, MddFalse)], xs(variable)), xs) <==>
      xs(variable) == val && Eval(t, dest, xs)
  {
    forall xs: Point, variable: nat ensures
      Eval(t, Follow(MddFalse, [Edge(val, dest), Edge(val + 1, MddFalse)], xs(variable)), xs) <==>
      xs(variable) == val && Eval(t, dest, xs)
    {
      GuardFollow(val, dest, xs(variable));
    }
  }

  /** `mdd_vareq(var, val)`: the points where `var` is `val`. */
  function VarEq(t: Table, variable: nat, val: int): (o: Out)
    requires Wf(t) && variable < t.nvars
    ensures Grows(t, o)
    ensures forall u: int :: u < variable ==> Above(o.t, o.r, u)
    ensures forall xs: Point :: Eval(o.t, o.r, xs) <==> xs(variable) == val
  {
    Guard(t, variable, val, MddTrue)
  }

  /** `o` holds exactly where `variable` is below `val`. */
  ghost predicate HoldsBelow(o: Out, variable: nat, val: int)
    requires Wf(o.t) && o.r < Size(o.t)
  {
    forall xs: Point :: Eval(o.t, o.r, xs) <==> xs(variable) < val
  }

  /** `o` holds exactly where `variable` is above `val`. */
  ghost predicate HoldsAbove(o: Out, variable: nat, val: int)
    requires Wf(o.t) && o.r < Size(o.t)
  {
    forall xs: Point :: Eval(o.t, o.r, xs) <==> xs(variable) > val
  }

  /** `mdd_varlt(var, val)`: the points where `var` is below `val`. */
  function VarLt(t: Table, variable: nat, val: int): (o: Out)
    requires Wf(t) && variable < t.nvars
    ensures Grows(t, o)
    ensures forall u: int :: u < variable ==> Above(o.t, o.r, u)
    ensures HoldsBelow(o, variable, val)
  {
    VarLtMeans(t, variable, val);
    Insert(t, variable, MddTrue, [Edge(val, MddFalse)], false)
  }

  lemma VarLtMeans(t: Table, variable: nat, val: int)
    requires Wf(t) && variable < t.nvars
    ensures Fits(t, variable, MddTrue, [Edge(val, MddFalse)])
    ensures |Collapse(MddTrue, [Edge(val, MddFalse)])| > 0
    ensures HoldsBelow(Insert(t, variable, MddTrue, [Edge(val, MddFalse)], false), variable, val)
  {
    var es := [Edge(val, MddFalse)];
    assert Fits(t, variable, MddTrue, es);
    assert DropLow(MddTrue, es) == es;
    var o := Insert(t, variable, MddTrue, es, false);
    forall xs: Point ensures Eval(o.t, o.r, xs) <==> xs(variable) < val {
      OneEdgeAt(t, variable, MddTrue, val, MddFalse, xs);
    }
  }

  /** `mdd_vargt(var, val)`: the points where `var` is above `val`. */
  function VarGt(t: Table, variable: nat, val: int): (o: Out)
    requires Wf(t) && variable < t.nvars
    ensures Grows(t, o)
    ensures forall u: int :: u < variable ==> Above(o.t, o.r, u)
    ensures HoldsAbove(o, variable, val)
  {
    VarGtMeans(t, variable, val);
    Insert(t, variable, MddFalse, [Edge(val + 1, MddTrue)], false)
  }

  lemma VarGtMeans(t: Table, variable: nat, val: int)
    requires Wf(t) && variable < t.nvars
    ensures Fits(t, variable, MddFalse, [Edge(val + 1, MddTrue)])
    ensures |Collapse(MddFalse, [Edge(val + 1, MddTrue)])| > 0
    ensures HoldsAbove(Insert(t, variable, MddFalse, [Edge(val + 1, MddTrue)], false), variable, val)
  {
    var es := [Edge(val + 1, MddTrue)];
    assert Fits(t, variable, MddFalse, es);
    assert DropLow(MddFalse, es) == es;
    var o := Insert(t, variable, MddFalse, es, false);
    forall xs: Point ensures Eval(o.t, o.r, xs) <==> xs(variable) > val {
      OneEdgeAt(t, variable, MddFalse, val + 1, MddTrue, xs);
    }
  }

  /** A node with the single edge `[val, dest)` over a terminal low takes
      the low below `val` and `dest` from it on. */
  lemma OneEdgeAt(t: Table, variable: nat, low: nat, val: int, dest: nat, xs: Point)
    requires Wf(t) && variable < t.nvars && low < 2 && dest < 2
    ensures Fits(t, variable, low, [Edge(val, dest)])
    ensures var o := Insert(t, variable, low, [Edge(val, dest)], false);
      Eval(o.t, o.r, xs) <==> if xs(variable) < val then low == MddTrue else dest == MddTrue
  {
    var es := [Edge(val, dest)];
    assert Fits(t, variable, low, es);
    InsertMeans(t, variable, low, es, false, xs);
    FollowUnfold(low, es, xs(variable));
    FollowUnfold(dest, [], xs(variable));
  }

  // ---------------------------------------------------------------------
  // tuple

  /** `tuple(tpl)`: the single point `tpl` on variables `0..|tpl|-1`,
      built from the last variable up. */
  method Tuple(t: Table, tpl: seq<int>) returns (o: Out)
    requires Wf(t) && |tpl| <= t.nvars
    ensures Grows(t, o)
    ensures forall xs: Point :: Eval(o.t, o.r, xs) <==> forall k :: 0 <= k < |tpl| ==> xs(k) == tpl[k]
  {
    o := Out(t, MddTrue);
    var i := |tpl|;
    while i > 0
      invariant 0 <= i <= |tpl| && Grows(t, o) && forall u: int :: u < i ==> Above(o.t, o.r, u)
      invariant forall xs: Point :: Eval(o.t, o.r, xs) <==> forall k :: i <= k < |tpl| ==> xs(k) == tpl[k]
    {
      i := i - 1;
      var g := Guard(o.t, i, tpl[i], o.r);
      TupleStep(o, g, tpl, i);
      o := g;
    }
  }

  lemma TupleStep(o: Out, g: Out, tpl: seq<int>, i: nat)
    requires Wf(o.t) && o.r < Size(o.t) && i < |tpl| && Grows(o.t, g)
    requires forall xs: Point :: Eval(o.t, o.r, xs) <==> forall k :: i + 1 <= k < |tpl| ==> xs(k) == tpl[k]
    requires forall xs: Point :: Eval(g.t, g.r, xs) <==> xs(i) == tpl[i] && Eval(o.t, o.r, xs)
    ensures forall xs: Point :: Eval(g.t, g.r, xs) <==> forall k :: i <= k < |tpl| ==> xs(k) == tpl[k]
  {
    forall xs: Point ensures Eval(g.t, g.r, xs) <==> forall k :: i <= k < |tpl| ==> xs(k) == tpl[k] {
      if forall k :: i + 1 <= k < |tpl| ==> xs(k) == tpl[k] {
        assert (forall k :: i <= k < |tpl| ==> xs(k) == tpl[k]) <==> xs(i) == tpl[i];
      }
    }
  }

  // ---------------------------------------------------------------------
  // mdd_case

  /** `mdd_case(var, cases)`: the OR over the cases `(val, d)` of
      `var == val` AND `d`; no cases give FALSE. */
  method Case(t: Table, variable: nat, cases: seq<(int, nat)>) returns (o: Out)
    requires Wf(t) && (variable < t.nvars || |cases| == 0)
    requires forall k :: 0 <= k < |cases| ==> cases[k].1 < Size(t)
    ensures Grows(t, o)
    ensures forall xs: Point :: Eval(o.t, o.r, xs) <==>
      exists k :: 0 <= k < |cases| && xs(variable) == cases[k].0 && Eval(t, cases[k].1, xs)
  {
    o := Out(t, MddFalse);
    var i := 0;
    while i < |cases|
      invariant 0 <= i <= |cases| && Grows(t, o)
      invariant forall xs: Point :: Eval(o.t, o.r, xs) <==>
        exists k :: 0 <= k < i && xs(variable) == cases[k].0 && Eval(t, cases[k].1, xs)
    {
      var eq := VarEq(o.t, variable, cases[i].0);
      var both := Apply(eq.t, And, eq.r, cases[i].1);
      var next := Apply(both.t, Or, o.r, both.r);
      ExtendsTrans(t, o.t, eq.t);
      ExtendsTrans(o.t, eq.t, both.t);
      CaseStep(t, variable, cases, i, o, eq, both, next);
      o := next;
      i := i + 1;
    }
  }

  lemma CaseStep(t: Table, variable: nat, cases: seq<(int, nat)>, i: nat, o: Out, eq: Out, both: Out, next: Out)
    requires Wf(t) && i < |cases| && forall k :: 0 <= k < |cases| ==> cases[k].1 < Size(t)
    requires Grows(t, o) && Grows(o.t, eq) && Grows(eq.t, both) && Grows(both.t, next)
    requires cases[i].1 < Size(eq.t) && o.r < Size(both.t)
    requires forall xs: Point :: Eval(o.t, o.r, xs) <==>
      exists k :: 0 <= k < i && xs(variable) == cases[k].0 && Eval(t, cases[k].1, xs)
    requires forall xs: Point :: Eval(eq.t, eq.r, xs) <==> xs(variable) == cases[i].0
    requires forall xs: Point :: Eval(both.t, both.r, xs) == (Eval(eq.t, eq.r, xs) && Eval(eq.t, cases[i].1, xs))
    requires forall xs: Point :: Eval(next.t, next.r, xs) == (Eval(both.t, o.r, xs) || Eval(both.t, both.r, xs))
    ensures Grows(t, next)
    ensures forall xs: Point :: Eval(next.t, next.r, xs) <==>
      exists k :: 0 <= k < i + 1 && xs(variable) == cases[k].0 && Eval(t, cases[k].1, xs)
  {
    ExtendsTrans(t, o.t, eq.t);
    ExtendsTrans(t, eq.t, both.t);
    ExtendsTrans(t, both.t, next.t);
    ExtendsTrans(o.t, eq.t, both.t);
    forall xs: Point ensures Eval(next.t, next.r, xs) <==>
      exists k :: 0 <= k < i + 1 && xs(variable) == cases[k].0 && Eval(t, cases[k].1, xs)
    {
      EvalExtends(o.t, both.t, o.r, xs);
      EvalExtends(t, eq.t, cases[i].1, xs);
      if Eval(next.t, next.r, xs) && !Eval(o.t, o.r, xs) {
        assert xs(variable) == cases[i].0 && Eval(t, cases[i].1, xs);
      }
    }
  }

  // ---------------------------------------------------------------------
  // expand

  /** Every path from `r` tests each variable from `variable` up to the
      last one, in order; only FALSE may cut a path short. */
  predicate Layered(t: Table, r: nat, variable: nat)
    requires Wf(t) && r < Size(t)
    decreases r
  {
    if r < 2 then r == MddFalse || variable >= t.nvars
    else
      var n := Get(t, r);
      assert NodeOk(t, n, r);
      n.variable == variable && Layered(t, n.low, variable + 1) &&
      forall k :: 0 <= k < |n.edges| ==> Layered(t, n.edges[k].dest, variable + 1)
  }

  lemma {:induction false} LayeredExtends(t: Table, t2: Table, r: nat, variable: nat)
    requires Wf(t) && Wf(t2) && Extends(t, t2) && r < Size(t) && Layered(t, r, variable)
    ensures Layered(t2, r, variable)
    decreases r
  {
    if r >= 2 {
      var n := Get(t, r);
      assert NodeOk(t, n, r) && Get(t2, r) == n;
      LayeredExtends(t, t2, n.low, variable + 1);
      forall k | 0 <= k < |n.edges| ensures Layered(t2, n.edges[k].dest, variable + 1) {
        LayeredExtends(t, t2, n.edges[k].dest, variable + 1);
      }
    }
  }

  /** `expand(var, r)`: the same Boolean function, rebuilt so that it
      tests every variable from `var` on. `r` must not test any variable
      before `var`. */
  function Expand(t: Table, variable: nat, r: nat): (o: Out)
    requires Wf(t) && r < Size(t) && variable <= t.nvars && Above(t, r, variable - 1)
    ensures Grows(t, o)
    ensures Above(o.t, o.r, variable - 1) && Layered(o.t, o.r, variable)
    ensures forall xs: Point :: Eval(o.t, o.r, xs) == Eval(t, r, xs)
    decreases t.nvars - variable, 1, 0
  {
    if r == MddFalse || (r == MddTrue && variable == t.nvars) then Out(t, r)
    else if r >= 2 && Get(t, r).variable == variable then ExpandNode(t, variable, r)
    else
      assert r >= 2 ==> NodeOk(t, Get(t, r), r);
      ExpandSkip(t, variable, r)
  }

  /** `r` does not test `var`: a node on `var` whose every value leads to
      `r` expanded from the next variable. */
  function ExpandSkip(t: Table, variable: nat, r: nat): (o: Out)
    requires Wf(t) && r < Size(t) && variable < t.nvars && Above(t, r, variable)
    ensures Grows(t, o)
    ensures Above(o.t, o.r, variable - 1) && Layered(o.t, o.r, variable)
    ensures forall xs: Point :: Eval(o.t, o.r, xs) == Eval(t, r, xs)
    decreases t.nvars - variable, 0, 0
  {
    var lo := Expand(t, variable + 1, r);
    var o := Insert(lo.t, variable, lo.r, [], true);
    InsertMeansAll(lo.t, variable, lo.r, [], true);
    SkipFacts(t, variable, r, lo, o);
    o
  }

  lemma SkipFacts(t: Table, variable: nat, r: nat, lo: Out, o: Out)
    requires Wf(t) && r < Size(t) && variable < t.nvars
    requires Grows(t, lo) && Above(lo.t, lo.r, variable) && Layered(lo.t, lo.r, variable + 1)
    requires forall xs: Point :: Eval(lo.t, lo.r, xs) == Eval(t, r, xs)
    requires o == Insert(lo.t, variable, lo.r, [], true)
    requires forall xs: Point :: Eval(o.t, o.r, xs) == Eval(lo.t, Follow(lo.r, [], xs(variable)), xs)
    ensures Grows(t, o)
    ensures Above(o.t, o.r, variable - 1) && Layered(o.t, o.r, variable)
    ensures forall xs: Point :: Eval(o.t, o.r, xs) == Eval(t, r, xs)
  {
    ExtendsTrans(t, lo.t, o.t);
    LayeredExtends(lo.t, o.t, lo.r, variable + 1);
    assert Get(o.t, o.r) == Node(variable, lo.r, []);
    forall xs: Point ensures Eval(o.t, o.r, xs) == Eval(t, r, xs) {
      FollowUnfold(lo.r, [], xs(variable));
    }
  }

  /** `r` tests `var`: the same node, with its low child and every edge's
      child expanded from the next variable. */
  function ExpandNode(t: Table, variable: nat, r: nat): (o: Out)
    requires Wf(t) && 2 <= r < Size(t) && Get(t, r).variable == variable
    ensures Grows(t, o)
    ensures Above(o.t, o.r, variable - 1) && Layered(o.t, o.r, variable)
    ensures forall xs: Point :: Eval(o.t, o.r, xs) == Eval(t, r, xs)
    decreases t.nvars - variable, 0, |Get(t, r).edges| + 1
  {
    var n := Get(t, r);
    assert NodeOk(t, n, r);
    var lo := Expand(t, variable + 1, n.low);
    ExpandEdgesBelow(t, r, lo.t);
    var es := ExpandEdges(lo.t, variable + 1, n.edges);
    ExpandFits(t, r, variable, lo, es);
    ExpandNodeMeans(t, r, lo, es);
    Insert(es.t, variable, lo.r, es.es, true)
  }

  lemma ExpandEdgesBelow(t: Table, r: nat, t2: Table)
    requires Wf(t) && 2 <= r < Size(t) && Wf(t2) && Extends(t, t2)
    ensures Get(t, r).variable < t2.nvars
    ensures forall k :: 0 <= k < |Get(t, r).edges| ==>
      Get(t, r).edges[k].dest < Size(t2) && Above(t2, Get(t, r).edges[k].dest, Get(t, r).variable)
  {
    var n := Get(t, r);
    assert NodeOk(t, n, r);
    AboveExtends(t, t2);
  }

  /** The edges of one node, each child expanded from `variable`. */
  function ExpandEdges(t: Table, variable: nat, es: seq<Edge>): (o: Outs)
    requires Wf(t) && 1 <= variable <= t.nvars
    requires forall k :: 0 <= k < |es| ==> es[k].dest < Size(t) && Above(t, es[k].dest, variable - 1)
    ensures Wf(o.t) && Extends(t, o.t) && |o.es| == |es|
    ensures forall k :: 0 <= k < |es| ==> o.es[k].val == es[k].val && o.es[k].dest < Size(o.t)
    ensures forall k :: 0 <= k < |es| ==> Above(o.t, o.es[k].dest, variable - 1) && Layered(o.t, o.es[k].dest, variable)
    ensures forall xs: Point, k :: 0 <= k < |es| ==> Eval(o.t, o.es[k].dest, xs) == Eval(t, es[k].dest, xs)
    decreases t.nvars - variable + 1, 0, |es|
  {
    if |es| == 0 then Outs(t, [])
    else
      var h := Expand(t, variable, es[0].dest);
      AboveExtends(t, h.t);
      var rest := ExpandEdges(h.t, variable, es[1..]);
      var es2 := [Edge(es[0].val, h.r)] + rest.es;
      ExpandCons(t, variable, es, h, rest, es2);
      Outs(rest.t, es2)
  }

  lemma ExpandCons(t: Table, variable: nat, es: seq<Edge>, h: Out, rest: Outs, es2: seq<Edge>)
    requires Wf(t) && |es| > 0 && Grows(t, h) && forall k :: 0 <= k < |es| ==> es[k].dest < Size(t)
    requires Above(h.t, h.r, variable - 1) && Layered(h.t, h.r, variable)
    requires forall xs: Point :: Eval(h.t, h.r, xs) == Eval(t, es[0].dest, xs)
    requires Wf(rest.t) && Extends(h.t, rest.t) && |rest.es| == |es| - 1
    requires forall k :: 0 <= k < |rest.es| ==> rest.es[k].val == es[k + 1].val && rest.es[k].dest < Size(rest.t)
    requires forall k :: 0 <= k < |rest.es| ==>
      Above(rest.t, rest.es[k].dest, variable - 1) && Layered(rest.t, rest.es[k].dest, variable)
    requires forall xs: Point, k :: 0 <= k < |rest.es| ==>
      Eval(rest.t, rest.es[k].dest, xs) == Eval(h.t, es[1..][k].dest, xs)
    requires es2 == [Edge(es[0].val, h.r)] + rest.es
    ensures Extends(t, rest.t)
    ensures forall k :: 0 <= k < |es| ==> es2[k].val == es[k].val && es2[k].dest < Size(rest.t)
    ensures forall k :: 0 <= k < |es| ==> Above(rest.t, es2[k].dest, variable - 1) && Layered(rest.t, es2[k].dest, variable)
    ensures forall xs: Point, k :: 0 <= k < |es| ==> Eval(rest.t, es2[k].dest, xs) == Eval(t, es[k].dest, xs)
  {
    ExtendsTrans(t, h.t, rest.t);
    AboveExtends(h.t, rest.t);
    LayeredExtends(h.t, rest.t, h.r, variable);
    forall k | 0 <= k < |es| ensures es2[k].val == es[k].val && es2[k].dest < Size(rest.t) {
      if k > 0 {
        assert es2[k] == rest.es[k - 1];
      }
    }
    forall k | 0 <= k < |es| ensures Above(rest.t, es2[k].dest, variable - 1) && Layered(rest.t, es2[k].dest, variable) {
      if k > 0 {
        assert es2[k] == rest.es[k - 1];
      }
    }
    forall xs: Point, k | 0 <= k < |es| ensures Eval(rest.t, es2[k].dest, xs) == Eval(t, es[k].dest, xs) {
      if k == 0 {
        EvalExtends(h.t, rest.t, h.r, xs);
      } else {
        assert es2[k] == rest.es[k - 1] && es[1..][k - 1] == es[k];
        EvalExtends(t, h.t, es[k].dest, xs);
      }
    }
  }

  /** The expanded children may be stored under the node's variable, and
      the stored node is layered from it. */
  lemma ExpandFits(t: Table, r: nat, variable: nat, lo: Out, es: Outs)
    requires Wf(t) && 2 <= r < Size(t) && Get(t, r).variable == variable
    requires Grows(t, lo) && Above(lo.t, lo.r, variable) && Layered(lo.t, lo.r, variable + 1)
    requires Wf(es.t) && Extends(lo.t, es.t) && |es.es| == |Get(t, r).edges|
    requires forall k :: 0 <= k < |es.es| ==> es.es[k].val == Get(t, r).edges[k].val && es.es[k].dest < Size(es.t)
    requires forall k :: 0 <= k < |es.es| ==>
      Above(es.t, es.es[k].dest, variable) && Layered(es.t, es.es[k].dest, variable + 1)
    ensures Fits(es.t, variable, lo.r, es.es)
    ensures var o := Insert(es.t, variable, lo.r, es.es, true);
      Grows(t, o) && Above(o.t, o.r, variable - 1) && Layered(o.t, o.r, variable)
  {
    var n := Get(t, r);
    assert NodeOk(t, n, r);
    AboveExtends(lo.t, es.t);
    ExtendsTrans(t, lo.t, es.t);
    SameValsSorted(n.edges, es.es);
    var o := Insert(es.t, variable, lo.r, es.es, true);
    ExtendsTrans(t, es.t, o.t);
    ExtendsTrans(lo.t, es.t, o.t);
    StoredLayered(lo, es, variable, o);
  }

  /** Edges rebuilt in place keep their order. */
  lemma SameValsSorted(es: seq<Edge>, es2: seq<Edge>)
    requires Sorted(es) && |es2| == |es| && forall k :: 0 <= k < |es| ==> es2[k].val == es[k].val
    ensures Sorted(es2)
  {
  }

  /** A node stored on `variable` over children layered from the next
      variable is layered from `variable`. */
  lemma StoredLayered(lo: Out, es: Outs, variable: nat, o: Out)
    requires Wf(lo.t) && Grows(lo.t, o) && Wf(es.t) && Extends(lo.t, es.t) && Extends(es.t, o.t)
    requires lo.r < Size(lo.t) && Layered(lo.t, lo.r, variable + 1)
    requires forall k :: 0 <= k < |es.es| ==> es.es[k].dest < Size(es.t) && Layered(es.t, es.es[k].dest, variable + 1)
    requires 2 <= o.r && Get(o.t, o.r) == Node(variable, lo.r, Collapse(lo.r, es.es))
    ensures Layered(o.t, o.r, variable)
  {
    ChildrenLayered(lo, es, variable, o.t);
    LayeredNode(o.t, o.r, variable, lo.r, Collapse(lo.r, es.es));
  }

  lemma ChildrenLayered(lo: Out, es: Outs, variable: nat, t2: Table)
    requires Wf(lo.t) && Wf(es.t) && Wf(t2) && Extends(lo.t, es.t) && Extends(es.t, t2) && Extends(lo.t, t2)
    requires lo.r < Size(lo.t) && Layered(lo.t, lo.r, variable + 1)
    requires forall k :: 0 <= k < |es.es| ==> es.es[k].dest < Size(es.t) && Layered(es.t, es.es[k].dest, variable + 1)
    ensures lo.r < Size(t2) && Layered(t2, lo.r, variable + 1)
    ensures forall k :: 0 <= k < |Collapse(lo.r, es.es)| ==>
      Collapse(lo.r, es.es)[k].dest < Size(t2) && Layered(t2, Collapse(lo.r, es.es)[k].dest, variable + 1)
  {
    LayeredExtends(lo.t, t2, lo.r, variable + 1);
    CollapseIn(lo.r, es.es);
    KeptLayered(es, Collapse(lo.r, es.es), variable, t2);
  }

  lemma LayeredNode(t: Table, r: nat, variable: nat, low: nat, es: seq<Edge>)
    requires Wf(t) && 2 <= r < Size(t) && Get(t, r) == Node(variable, low, es)
    requires low < Size(t) && Layered(t, low, variable + 1)
    requires forall k :: 0 <= k < |es| ==> es[k].dest < Size(t) && Layered(t, es[k].dest, variable + 1)
    ensures Layered(t, r, variable)
  {
  }

  /** Edges drawn from `es` lead where some edge of `es` led. */
  lemma KeptLayered(es: Outs, kept: seq<Edge>, variable: nat, t2: Table)
    requires Wf(es.t) && Wf(t2) && Extends(es.t, t2)
    requires forall k :: 0 <= k < |es.es| ==> es.es[k].dest < Size(es.t) && Layered(es.t, es.es[k].dest, variable + 1)
    requires forall k :: 0 <= k < |kept| ==> kept[k] in es.es
    ensures forall k :: 0 <= k < |kept| ==> kept[k].dest < Size(t2) && Layered(t2, kept[k].dest, variable + 1)
  {
    forall k | 0 <= k < |kept| ensures kept[k].dest < Size(t2) && Layered(t2, kept[k].dest, variable + 1) {
      var j :| 0 <= j < |es.es| && es.es[j] == kept[k];
      LayeredExtends(es.t, t2, es.es[j].dest, variable + 1);
    }
  }

  lemma CollapseIn(low: nat, es: seq<Edge>)
    ensures forall k :: 0 <= k < |Collapse(low, es)| ==> Collapse(low, es)[k] in es
  {
    var kept := Collapse(low, es);
    forall k | 0 <= k < |kept| ensures kept[k] in es {
      assert kept[k] in DropLow(low, es);
    }
  }

  /** The rebuilt node means what the old one meant. */
  lemma ExpandNodeMeans(t: Table, r: nat, lo: Out, es: Outs)
    requires Wf(t) && 2 <= r < Size(t)
    requires Grows(t, lo) && Wf(es.t) && Extends(lo.t, es.t) && |es.es| == |Get(t, r).edges|
    requires forall k :: 0 <= k < |es.es| ==> es.es[k].val == Get(t, r).edges[k].val && es.es[k].dest < Size(es.t)
    requires forall k :: 0 <= k < |es.es| ==> Get(t, r).edges[k].dest < Size(lo.t)
    requires Fits(es.t, Get(t, r).variable, lo.r, es.es)
    requires forall xs: Point :: Eval(lo.t, lo.r, xs) == Eval(t, Get(t, r).low, xs)
    requires forall xs: Point, k :: 0 <= k < |es.es| ==>
      Eval(es.t, es.es[k].dest, xs) == Eval(lo.t, Get(t, r).edges[k].dest, xs)
    ensures forall xs: Point :: var o := Insert(es.t, Get(t, r).variable, lo.r, es.es, true);
      Eval(o.t, o.r, xs) == Eval(t, r, xs)
  {
    var n := Get(t, r);
    assert NodeOk(t, n, r);
    forall xs: Point ensures var o := Insert(es.t, n.variable, lo.r, es.es, true);
      Eval(o.t, o.r, xs) == Eval(t, r, xs)
    {
      InsertMeans(es.t, n.variable, lo.r, es.es, true, xs);
      StoredMeans(t, r, n, xs);
      EvalExtends(lo.t, es.t, lo.r, xs);
      var k := FollowMapped(n.low, n.edges, lo.r, es.es, xs(n.variable));
      if k >= 0 {
        EvalExtends(t, lo.t, n.edges[k].dest, xs);
      }
    }
  }

  /** `expand(0, TRUE)` over one variable stores a node on variable 0
      with no edges; `mdd_not` of that node rebuilds it with no edges
      pushed, which is the case `insert` mishandles. */
  lemma ExpandedTrueHasNoEdges()
    ensures var o := Expand(Table(1, []), 0, MddTrue);
      o.r == 2 && Get(o.t, o.r) == Node(0, MddTrue, []) &&
      InsertAsWritten(o.t, 0, MddFalse, [], false).Fatal?
  {
    var t := Table(1, []);
    var lo := Expand(t, 1, MddTrue);
    assert lo == Out(t, MddTrue);
    var o := Expand(t, 0, MddTrue);
    assert o == ExpandSkip(t, 0, MddTrue);
    assert Collapse(MddTrue, []) == [];
  }
}
