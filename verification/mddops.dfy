/** The one-argument operations of chuffed/mdd/MDD.cpp: `mdd_not` and
    `mdd_exist`, which rebuild a diagram node by node, and the OR fold
    `mdd_exist` uses at the quantified variable. Both rebuild a node the
    same way (the low child first, then each edge in order, then
    `insert`), so the model writes that walk once, as `Unary` over
    `UnOp`. */
module MddOps {
  import opened Base
  import opened MddNodes
  import opened MddApply

  /** `Exist(variable, fromLow)` is `mdd_exist(_, variable)`; with
      `fromLow` false it is the operation as written, whose fold at the
      quantified variable starts from FALSE instead of from the low
      child. */
  datatype UnOp = Not | Exist(variable: nat, fromLow: bool)

  // ---------------------------------------------------------------------
  // The OR fold

  function Dests(es: seq<Edge>): (ds: seq<nat>)
    ensures |ds| == |es| && forall k :: 0 <= k < |es| ==> ds[k] == es[k].dest
  {
    seq(|es|, k requires 0 <= k < |es| => es[k].dest)
  }

  predicate AllBelow(ds: seq<nat>, n: nat)
  {
    forall k :: 0 <= k < |ds| ==> ds[k] < n
  }

  /** `res = mdd_or(res, d)` for each `d` of `ds` in turn. */
  function OrAll(t: Table, acc: nat, ds: seq<nat>): (o: Out)
    requires Wf(t) && acc < Size(t) && AllBelow(ds, Size(t))
    ensures Grows(t, o)
    ensures forall xs: Point :: Eval(o.t, o.r, xs) <==>
      Eval(t, acc, xs) || exists k :: 0 <= k < |ds| && Eval(t, ds[k], xs)
    decreases |ds|
  {
    if |ds| == 0 then Out(t, acc)
    else
      var h := Apply(t, Or, acc, ds[0]);
      var o := OrAll(h.t, h.r, ds[1..]);
      OrStep(t, acc, ds, h, o);
      o
  }

  lemma OrStep(t: Table, acc: nat, ds: seq<nat>, h: Out, o: Out)
    requires Wf(t) && acc < Size(t) && |ds| > 0 && AllBelow(ds, Size(t)) && Grows(t, h) && Grows(h.t, o)
    requires forall xs: Point :: Eval(h.t, h.r, xs) == (Eval(t, acc, xs) || Eval(t, ds[0], xs))
    requires forall xs: Point :: Eval(o.t, o.r, xs) <==>
      Eval(h.t, h.r, xs) || exists k :: 0 <= k < |ds[1..]| && Eval(h.t, ds[1..][k], xs)
    ensures Grows(t, o)
    ensures forall xs: Point :: Eval(o.t, o.r, xs) <==>
      Eval(t, acc, xs) || exists k :: 0 <= k < |ds| && Eval(t, ds[k], xs)
  {
    forall xs: Point ensures Eval(o.t, o.r, xs) <==>
      Eval(t, acc, xs) || exists k :: 0 <= k < |ds| && Eval(t, ds[k], xs)
    {
      forall k | 0 <= k < |ds| - 1 ensures Eval(h.t, ds[1..][k], xs) == Eval(t, ds[k + 1], xs) {
        assert ds[1..][k] == ds[k + 1];
        EvalExtends(t, h.t, ds[k + 1], xs);
      }
      if Eval(o.t, o.r, xs) && !Eval(h.t, h.r, xs) {
        var k :| 0 <= k < |ds[1..]| && Eval(h.t, ds[1..][k], xs);
        assert Eval(t, ds[k + 1], xs);
      }
      if exists k :: 0 <= k < |ds| && Eval(t, ds[k], xs) {
        var k :| 0 <= k < |ds| && Eval(t, ds[k], xs);
        if k > 0 {
          assert Eval(h.t, ds[1..][k - 1], xs);
        }
      }
    }
  }

  /** The fold is above every variable all its inputs are above. */
  lemma {:induction false} OrAllAbove(t: Table, acc: nat, ds: seq<nat>, u: int)
    requires Wf(t) && acc < Size(t) && AllBelow(ds, Size(t))
    requires Above(t, acc, u) && forall k :: 0 <= k < |ds| ==> Above(t, ds[k], u)
    ensures var o := OrAll(t, acc, ds); Above(o.t, o.r, u)
    decreases |ds|
  {
    if |ds| > 0 {
      var h := Apply(t, Or, acc, ds[0]);
      AboveExtends(t, h.t);
      forall k | 0 <= k < |ds[1..]| ensures Above(h.t, ds[1..][k], u) {
        assert ds[1..][k] == ds[k + 1];
      }
      OrAllAbove(h.t, h.r, ds[1..], u);
    }
  }

  // ---------------------------------------------------------------------
  // What the operations mean

  /** The operation is the one the source intends: `mdd_not`, or
      `mdd_exist` with the fold from the low child. */
  predicate Honest(op: UnOp)
  {
    op.Not? || op.fromLow
  }

  /** The Boolean function `Unary(t, op, root)` should denote: the
      negation of `root`, or `root` with `variable` projected out. */
  ghost predicate Means(t: Table, op: UnOp, root: nat, xs: Point)
    requires Wf(t) && root < Size(t)
  {
    match op
    case Not => !Eval(t, root, xs)
    case Exist(variable, _) => exists v: int :: Eval(t, root, Set(xs, variable, v))
  }

  lemma MeansExtends(t: Table, t2: Table, op: UnOp, r: nat)
    requires Wf(t) && Wf(t2) && Extends(t, t2) && r < Size(t)
    ensures forall xs: Point :: Means(t2, op, r, xs) == Means(t, op, r, xs)
  {
    forall xs: Point ensures Means(t2, op, r, xs) == Means(t, op, r, xs) {
      EvalExtends(t, t2, r, xs);
      if op.Exist? {
        forall v: int ensures Eval(t2, r, Set(xs, op.variable, v)) == Eval(t, r, Set(xs, op.variable, v)) {
          EvalExtends(t, t2, r, Set(xs, op.variable, v));
        }
      }
    }
  }

  /** Projecting out a variable a diagram does not test changes nothing. */
  lemma ExistAbove(t: Table, r: nat, variable: nat)
    requires Wf(t) && r < Size(t) && Above(t, r, variable)
    ensures forall xs: Point :: Means(t, Exist(variable, true), r, xs) == Eval(t, r, xs)
    ensures forall xs: Point :: Means(t, Exist(variable, false), r, xs) == Eval(t, r, xs)
  {
    forall xs: Point, fromLow: bool ensures Means(t, Exist(variable, fromLow), r, xs) == Eval(t, r, xs) {
      EvalSet(t, r, variable, xs(variable), xs);
      forall v: int ensures Eval(t, r, Set(xs, variable, v)) == Eval(t, r, xs) {
        EvalSet(t, r, variable, v, xs);
      }
    }
  }

  /** On a node that does not test the projected variable, the meaning
      is that of the child the point selects. */
  lemma MeansStep(t: Table, op: UnOp, root: nat, xs: Point)
    requires Wf(t) && 2 <= root < Size(t) && (op.Exist? ==> Get(t, root).variable != op.variable)
    ensures var n := Get(t, root);
      Follow(n.low, n.edges, xs(n.variable)) < Size(t) &&
      Means(t, op, root, xs) == Means(t, op, Follow(n.low, n.edges, xs(n.variable)), xs)
  {
    var n := Get(t, root);
    assert NodeOk(t, n, root);
    var c := Follow(n.low, n.edges, xs(n.variable));
    if op.Exist? {
      forall v: int ensures Eval(t, root, Set(xs, op.variable, v)) == Eval(t, c, Set(xs, op.variable, v)) {
        assert Set(xs, op.variable, v)(n.variable) == xs(n.variable);
      }
    }
  }

  /** A diagram above `variable` ignores what value it takes. */
  lemma SetIgnored(t: Table, c: nat, variable: nat, xs: Point)
    requires Wf(t) && c < Size(t) && Above(t, c, variable)
    ensures forall v: int :: Eval(t, c, Set(xs, variable, v)) == Eval(t, c, xs)
  {
    forall v: int ensures Eval(t, c, Set(xs, variable, v)) == Eval(t, c, xs) {
      EvalSet(t, c, variable, v, xs);
    }
  }

  /** At the projected variable, some value makes the node true exactly
      when its low child or one of its edges' children is true. */
  lemma FoldMeans(t: Table, root: nat, variable: nat, xs: Point)
    requires Wf(t) && 2 <= root < Size(t) && Get(t, root).variable == variable
    ensures var n := Get(t, root);
      n.low < Size(t) && AllBelow(Dests(n.edges), Size(t)) &&
      (Means(t, Exist(variable, true), root, xs) <==>
        Eval(t, n.low, xs) || exists k :: 0 <= k < |Dests(n.edges)| && Eval(t, Dests(n.edges)[k], xs))
  {
    var n := Get(t, root);
    assert NodeOk(t, n, root);
    if Means(t, Exist(variable, true), root, xs) {
      FoldWitness(t, root, variable, xs);
    }
    if Eval(t, n.low, xs) {
      FoldLow(t, root, variable, xs);
    }
    if exists k :: 0 <= k < |Dests(n.edges)| && Eval(t, Dests(n.edges)[k], xs) {
      var k :| 0 <= k < |Dests(n.edges)| && Eval(t, Dests(n.edges)[k], xs);
      FoldEdge(t, root, variable, xs, k);
    }
  }

  lemma FoldWitness(t: Table, root: nat, variable: nat, xs: Point)
    requires Wf(t) && 2 <= root < Size(t) && Get(t, root).variable == variable
    requires Means(t, Exist(variable, true), root, xs)
    ensures var n := Get(t, root);
      n.low < Size(t) && AllBelow(Dests(n.edges), Size(t)) &&
      (Eval(t, n.low, xs) || exists k :: 0 <= k < |Dests(n.edges)| && Eval(t, Dests(n.edges)[k], xs))
  {
    var n := Get(t, root);
    assert NodeOk(t, n, root);
    var v: int :| Eval(t, root, Set(xs, variable, v));
    var c := Follow(n.low, n.edges, v);
    assert Set(xs, variable, v)(variable) == v;
    SetIgnored(t, c, variable, xs);
    if c != n.low {
      var k :| 0 <= k < |n.edges| && c == n.edges[k].dest;
      assert Eval(t, Dests(n.edges)[k], xs);
    }
  }

  lemma FoldLow(t: Table, root: nat, variable: nat, xs: Point)
    requires Wf(t) && 2 <= root < Size(t) && Get(t, root).variable == variable
    requires Get(t, root).low < Size(t) && Eval(t, Get(t, root).low, xs)
    ensures Means(t, Exist(variable, true), root, xs)
  {
    var n := Get(t, root);
    assert NodeOk(t, n, root);
    var v := if |n.edges| == 0 then 0 else n.edges[0].val - 1;
    FollowUnfold(n.low, n.edges, v);
    SetIgnored(t, n.low, variable, xs);
    assert Eval(t, root, Set(xs, variable, v));
  }

  lemma FoldEdge(t: Table, root: nat, variable: nat, xs: Point, k: nat)
    requires Wf(t) && 2 <= root < Size(t) && Get(t, root).variable == variable
    requires k < |Get(t, root).edges| && Get(t, root).edges[k].dest < Size(t)
    requires Eval(t, Get(t, root).edges[k].dest, xs)
    ensures Means(t, Exist(variable, true), root, xs)
  {
    var n := Get(t, root);
    assert NodeOk(t, n, root);
    FollowAt(n.low, n.edges, k);
    SetIgnored(t, n.edges[k].dest, variable, xs);
    assert Eval(t, root, Set(xs, variable, n.edges[k].val));
  }

  // ---------------------------------------------------------------------
  // The walk

  predicate EdgesBelow(t: Table, es: seq<Edge>, bound: nat)
  {
    forall k :: 0 <= k < |es| ==> es[k].dest < Size(t) && es[k].dest < bound
  }

  lemma EdgesBelowExtends(t: Table, t2: Table, es: seq<Edge>, bound: nat)
    requires Extends(t, t2) && EdgesBelow(t, es, bound)
    ensures EdgesBelow(t2, es, bound)
  {
  }

  /** `mdd_not(root)` and `mdd_exist(root, variable)`. */
  function Unary(t: Table, op: UnOp, root: nat): (o: Out)
    requires Wf(t) && root < Size(t)
    ensures Grows(t, o)
    ensures forall u: int :: Above(t, root, u) ==> Above(o.t, o.r, u)
    ensures Honest(op) ==> forall xs: Point :: Eval(o.t, o.r, xs) == Means(t, op, root, xs)
    decreases root, 1, 0
  {
    if root < 2 || (op.Exist? && Get(t, root).variable > op.variable) then Leaf(t, op, root)
    else if op.Exist? && Get(t, root).variable == op.variable then Fold(t, op, root)
    else UnaryNode(t, op, root)
  }

  /** A terminal, or a diagram below the quantified variable. */
  function Leaf(t: Table, op: UnOp, root: nat): (o: Out)
    requires Wf(t) && root < Size(t) && (root < 2 || (op.Exist? && Above(t, root, op.variable)))
    ensures Grows(t, o)
    ensures forall u: int :: Above(t, root, u) ==> Above(o.t, o.r, u)
    ensures Honest(op) ==> forall xs: Point :: Eval(o.t, o.r, xs) == Means(t, op, root, xs)
  {
    if op.Not? then Out(t, if root == MddTrue then MddFalse else MddTrue)
    else
      ExistAbove(t, root, op.variable);
      Out(t, root)
  }

  /** `mdd_exist` at the quantified variable: the OR of the children. */
  function Fold(t: Table, op: UnOp, root: nat): (o: Out)
    requires Wf(t) && 2 <= root < Size(t) && op.Exist? && Get(t, root).variable == op.variable
    ensures Grows(t, o)
    ensures forall u: int :: Above(t, root, u) ==> Above(o.t, o.r, u)
    ensures Honest(op) ==> forall xs: Point :: Eval(o.t, o.r, xs) == Means(t, op, root, xs)
  {
    var n := Get(t, root);
    assert NodeOk(t, n, root);
    var acc := if op.fromLow then n.low else MddFalse;
    var o := OrAll(t, acc, Dests(n.edges));
    OrAllAbove(t, acc, Dests(n.edges), n.variable);
    FoldMeansAll(t, root, op.variable);
    o
  }

  lemma FoldMeansAll(t: Table, root: nat, variable: nat)
    requires Wf(t) && 2 <= root < Size(t) && Get(t, root).variable == variable
    ensures var n := Get(t, root);
      n.low < Size(t) && AllBelow(Dests(n.edges), Size(t)) &&
      forall xs: Point :: (Means(t, Exist(variable, true), root, xs) <==>
        Eval(t, n.low, xs) || exists k :: 0 <= k < |Dests(n.edges)| && Eval(t, Dests(n.edges)[k], xs))
  {
    assert NodeOk(t, Get(t, root), root);
    forall xs: Point ensures var n := Get(t, root);
      (Means(t, Exist(variable, true), root, xs) <==>
        Eval(t, n.low, xs) || exists k :: 0 <= k < |Dests(n.edges)| && Eval(t, Dests(n.edges)[k], xs))
    {
      FoldMeans(t, root, variable, xs);
    }
  }

  /** A node rebuilt on its own variable from its rewritten children. */
  function UnaryNode(t: Table, op: UnOp, root: nat): (o: Out)
    requires Wf(t) && 2 <= root < Size(t) && (op.Exist? ==> Get(t, root).variable < op.variable)
    ensures Grows(t, o)
    ensures forall u: int :: Above(t, root, u) ==> Above(o.t, o.r, u)
    ensures Honest(op) ==> forall xs: Point :: Eval(o.t, o.r, xs) == Means(t, op, root, xs)
    decreases root, 0, |Get(t, root).edges| + 1
  {
    var n := Get(t, root);
    assert NodeOk(t, n, root);
    var lo := Unary(t, op, n.low);
    EdgesBelowExtends(t, lo.t, n.edges, root);
    var es := UnaryEdges(lo.t, op, n.edges, root);
    UnaryFits(t, root, lo, es);
    UnaryNodeMeans(t, op, root, lo, es);
    Insert(es.t, n.variable, lo.r, es.es, false)
  }

  /** The walk over the edges of one node, in order. */
  function UnaryEdges(t: Table, op: UnOp, es: seq<Edge>, bound: nat): (o: Outs)
    requires Wf(t) && EdgesBelow(t, es, bound)
    ensures Wf(o.t) && Extends(t, o.t) && |o.es| == |es|
    ensures forall k :: 0 <= k < |es| ==> o.es[k].val == es[k].val && o.es[k].dest < Size(o.t)
    ensures forall u: int, k :: 0 <= k < |es| && Above(t, es[k].dest, u) ==> Above(o.t, o.es[k].dest, u)
    ensures Honest(op) ==> forall xs: Point, k :: 0 <= k < |es| ==>
      Eval(o.t, o.es[k].dest, xs) == Means(t, op, es[k].dest, xs)
    decreases bound, 0, |es|
  {
    if |es| == 0 then Outs(t, [])
    else
      var h := Unary(t, op, es[0].dest);
      AboveExtends(t, h.t);
      EdgesBelowExtends(t, h.t, es[1..], bound);
      var rest := UnaryEdges(h.t, op, es[1..], bound);
      AboveExtends(h.t, rest.t);
      var es2 := [Edge(es[0].val, h.r)] + rest.es;
      UnaryConsMeans(t, op, es, bound, h, rest, es2);
      Outs(rest.t, es2)
  }

  lemma UnaryConsMeans(t: Table, op: UnOp, es: seq<Edge>, bound: nat, h: Out, rest: Outs, es2: seq<Edge>)
    requires Wf(t) && |es| > 0 && Grows(t, h) && EdgesBelow(t, es, bound) && EdgesBelow(h.t, es[1..], bound)
    requires Honest(op) ==> forall xs: Point :: Eval(h.t, h.r, xs) == Means(t, op, es[0].dest, xs)
    requires Wf(rest.t) && Extends(h.t, rest.t) && |rest.es| == |es| - 1
    requires forall k :: 0 <= k < |rest.es| ==> rest.es[k].dest < Size(rest.t)
    requires Honest(op) ==> forall xs: Point, k :: 0 <= k < |es[1..]| ==>
      Eval(rest.t, rest.es[k].dest, xs) == Means(h.t, op, es[1..][k].dest, xs)
    requires es2 == [Edge(es[0].val, h.r)] + rest.es
    ensures forall k :: 0 <= k < |es| ==> es2[k].dest < Size(rest.t)
    ensures Honest(op) ==> forall xs: Point, k :: 0 <= k < |es| ==>
      Eval(rest.t, es2[k].dest, xs) == Means(t, op, es[k].dest, xs)
  {
    forall k | 0 <= k < |es| ensures es2[k].dest < Size(rest.t) {
      if k > 0 {
        assert es2[k] == rest.es[k - 1];
      }
    }
    if Honest(op) {
      forall xs: Point, k | 0 <= k < |es|
        ensures Eval(rest.t, es2[k].dest, xs) == Means(t, op, es[k].dest, xs)
      {
        if k == 0 {
          EvalExtends(h.t, rest.t, h.r, xs);
        } else {
          assert es2[k] == rest.es[k - 1] && es[1..][k - 1] == es[k];
          MeansExtends(t, h.t, op, es[k].dest);
        }
      }
    }
  }

  /** The rebuilt low child and edges may be stored on the node's
      variable, and the result is above whatever the node was. */
  lemma UnaryFits(t: Table, root: nat, lo: Out, es: Outs)
    requires Wf(t) && 2 <= root < Size(t)
    requires Grows(t, lo) && forall u: int :: Above(t, Get(t, root).low, u) ==> Above(lo.t, lo.r, u)
    requires Wf(es.t) && Extends(lo.t, es.t) && |es.es| == |Get(t, root).edges|
    requires forall k :: 0 <= k < |es.es| ==>
      es.es[k].val == Get(t, root).edges[k].val && es.es[k].dest < Size(es.t)
    requires forall u: int, k :: 0 <= k < |es.es| && Above(lo.t, Get(t, root).edges[k].dest, u) ==>
      Above(es.t, es.es[k].dest, u)
    ensures Fits(es.t, Get(t, root).variable, lo.r, es.es)
    ensures Grows(t, Insert(es.t, Get(t, root).variable, lo.r, es.es, false))
    ensures forall u: int :: Above(t, root, u) ==>
      var o := Insert(es.t, Get(t, root).variable, lo.r, es.es, false); Above(o.t, o.r, u)
  {
    var n := Get(t, root);
    assert NodeOk(t, n, root);
    AboveExtends(t, lo.t);
    AboveExtends(lo.t, es.t);
    ExtendsTrans(t, lo.t, es.t);
    ExtendsTrans(t, es.t, Insert(es.t, n.variable, lo.r, es.es, false).t);
    forall u: int | Above(t, root, u)
      ensures var o := Insert(es.t, n.variable, lo.r, es.es, false); Above(o.t, o.r, u)
    {
      var o := Insert(es.t, n.variable, lo.r, es.es, false);
      AboveExtends(es.t, o.t);
    }
  }

  /** The rebuilt node means what the operation should make of the old
      one, given that the rebuilt children do. */
  lemma UnaryNodeMeans(t: Table, op: UnOp, root: nat, lo: Out, es: Outs)
    requires Wf(t) && 2 <= root < Size(t) && (op.Exist? ==> Get(t, root).variable < op.variable)
    requires Grows(t, lo) && Wf(es.t) && Extends(lo.t, es.t) && |es.es| == |Get(t, root).edges|
    requires forall k :: 0 <= k < |es.es| ==>
      es.es[k].val == Get(t, root).edges[k].val && es.es[k].dest < Size(es.t)
    requires forall k :: 0 <= k < |es.es| ==> Get(t, root).edges[k].dest < Size(lo.t)
    requires Fits(es.t, Get(t, root).variable, lo.r, es.es)
    requires Honest(op) ==> forall xs: Point :: Eval(lo.t, lo.r, xs) == Means(t, op, Get(t, root).low, xs)
    requires Honest(op) ==> forall xs: Point, k :: 0 <= k < |es.es| ==>
      Eval(es.t, es.es[k].dest, xs) == Means(lo.t, op, Get(t, root).edges[k].dest, xs)
    ensures Honest(op) ==> forall xs: Point :: var o := Insert(es.t, Get(t, root).variable, lo.r, es.es, false);
      Eval(o.t, o.r, xs) == Means(t, op, root, xs)
  {
    var n := Get(t, root);
    assert NodeOk(t, n, root);
    if Honest(op) {
      forall xs: Point ensures var o := Insert(es.t, n.variable, lo.r, es.es, false);
        Eval(o.t, o.r, xs) == Means(t, op, root, xs)
      {
        InsertMeans(es.t, n.variable, lo.r, es.es, false, xs);
        MeansStep(t, op, root, xs);
        EvalExtends(lo.t, es.t, lo.r, xs);
        var k := FollowMapped(n.low, n.edges, lo.r, es.es, xs(n.variable));
        if k >= 0 {
          MeansExtends(t, lo.t, op, n.edges[k].dest);
        }
      }
    }
  }

  /** `mdd_exist` as written folds the children of a node on the
      quantified variable from FALSE and so loses its low child: over
      `x0 < 5`, projecting out `x0` gives FALSE, though `x0 = 0` makes the
      diagram true. */
  lemma ExistAsWrittenDropsLow()
    ensures var t := Table(1, [Node(0, MddTrue, [Edge(5, MddFalse)])]);
      var xs: Point := (u: nat) => 0;
      Wf(t) && Means(t, Exist(0, true), 2, xs) &&
      Unary(t, Exist(0, false), 2).r == MddFalse && Unary(t, Exist(0, true), 2).r != MddFalse
  {
    var t := Table(1, [Node(0, MddTrue, [Edge(5, MddFalse)])]);
    var xs: Point := (u: nat) => 0;
    SmallWf();
    SmallHolds(xs);
    SmallFolds();
    var o := Unary(t, Exist(0, true), 2);
    assert Eval(o.t, o.r, xs);
  }

  lemma SmallWf()
    ensures Wf(Table(1, [Node(0, MddTrue, [Edge(5, MddFalse)])]))
  {
    var t := Table(1, [Node(0, MddTrue, [Edge(5, MddFalse)])]);
    assert NodeOk(t, t.inner[0], 2);
  }

  lemma SmallHolds(xs: Point)
    requires xs(0) == 0
    ensures var t := Table(1, [Node(0, MddTrue, [Edge(5, MddFalse)])]);
      Wf(t) && Means(t, Exist(0, true), 2, xs)
  {
    var t := Table(1, [Node(0, MddTrue, [Edge(5, MddFalse)])]);
    SmallWf();
    FollowUnfold(MddTrue, [Edge(5, MddFalse)], 0);
    assert Eval(t, 2, Set(xs, 0, 0));
  }

  lemma SmallFolds()
    ensures var t := Table(1, [Node(0, MddTrue, [Edge(5, MddFalse)])]);
      Wf(t) && Unary(t, Exist(0, false), 2).r == MddFalse
  {
    var t := Table(1, [Node(0, MddTrue, [Edge(5, MddFalse)])]);
    SmallWf();
    var h := Apply(t, Or, MddFalse, MddFalse);
    assert h == Out(t, MddFalse);
    assert Dests([Edge(5, MddFalse)]) == [MddFalse];
    assert OrAll(t, MddFalse, [MddFalse]) == OrAll(h.t, h.r, []);
    assert Unary(t, Exist(0, false), 2) == Fold(t, Exist(0, false), 2);
  }
}
