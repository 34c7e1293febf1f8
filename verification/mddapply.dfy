/** `mdd_and`, `mdd_or` and `mdd_leq` of chuffed/mdd/MDD.cpp. The two
    binary operations share their code in the source up to the operator,
    so the model writes them once, as `Apply` over `BinOp`. Their results
    are read back through the operation cache first; a cached result is
    one `Apply` computed earlier for the same key, so the model computes
    it afresh. */
module MddApply {
  import opened Base
  import opened MddNodes

  // Messages of the fatal errors below.
  const LeqMismatch := "mdd_leq: the nodes test different variables"

  datatype BinOp = And | Or

  /** FALSE for `mdd_and`, TRUE for `mdd_or`. */
  function Absorbing(op: BinOp): nat
  {
    if op == And then MddFalse else MddTrue
  }

  /** TRUE for `mdd_and`, FALSE for `mdd_or`. */
  function Identity(op: BinOp): nat
  {
    if op == And then MddTrue else MddFalse
  }

  predicate Op(op: BinOp, x: bool, y: bool)
  {
    if op == And then x && y else x || y
  }

  // ---------------------------------------------------------------------
  // Merging two edge lists

  /** One step of the merge: a breakpoint and the destinations in force
      on either side from it on. */
  datatype Pair = Pair(val: int, a: nat, b: nat)

  function PVals(ps: seq<Pair>): (vs: seq<int>)
    ensures |vs| == |ps|
  {
    seq(|ps|, k requires 0 <= k < |ps| => ps[k].val)
  }

  predicate PSorted(ps: seq<Pair>)
  {
    forall i, j :: 0 <= i < j < |ps| ==> ps[i].val < ps[j].val
  }

  /** The pair of destinations in force at value `v`. */
  function FollowP(ap: nat, bp: nat, ps: seq<Pair>, v: int): (nat, nat)
  {
    var n := Steps(PVals(ps), v);
    if n == 0 then (ap, bp) else (ps[n - 1].a, ps[n - 1].b)
  }

  lemma FollowPUnfold(ap: nat, bp: nat, ps: seq<Pair>, v: int)
    ensures FollowP(ap, bp, ps, v) ==
      if |ps| == 0 || ps[0].val > v then (ap, bp) else FollowP(ps[0].a, ps[0].b, ps[1..], v)
  {
    if |ps| > 0 {
      assert PVals(ps)[1..] == PVals(ps[1..]);
    }
  }

  /** The merge loops shared by `mdd_and`, `mdd_or` and `mdd_leq`: walk
      two sorted edge lists together, taking the smaller value (both when
      equal) and recording the destinations then in force on each side. */
  function Merge(ap: nat, bp: nat, ea: seq<Edge>, eb: seq<Edge>): (ps: seq<Pair>)
    decreases |ea| + |eb|
  {
    if |ea| == 0 && |eb| == 0 then []
    else if |eb| == 0 || (|ea| > 0 && ea[0].val < eb[0].val) then
      [Pair(ea[0].val, ea[0].dest, bp)] + Merge(ea[0].dest, bp, ea[1..], eb)
    else if |ea| == 0 || ea[0].val > eb[0].val then
      [Pair(eb[0].val, ap, eb[0].dest)] + Merge(ap, eb[0].dest, ea, eb[1..])
    else
      [Pair(ea[0].val, ea[0].dest, eb[0].dest)] + Merge(ea[0].dest, eb[0].dest, ea[1..], eb[1..])
  }

  /** At every value, the merged list is in force on both sides exactly
      as each list is on its own. */
  lemma {:induction false} MergeFollow(ap: nat, bp: nat, ea: seq<Edge>, eb: seq<Edge>, v: int)
    requires Sorted(ea) && Sorted(eb)
    ensures FollowP(ap, bp, Merge(ap, bp, ea, eb), v) == (Follow(ap, ea, v), Follow(bp, eb, v))
    decreases |ea| + |eb|
  {
    var ps := Merge(ap, bp, ea, eb);
    FollowPUnfold(ap, bp, ps, v);
    FollowUnfold(ap, ea, v);
    FollowUnfold(bp, eb, v);
    if |ea| == 0 && |eb| == 0 {
    } else if |eb| == 0 || (|ea| > 0 && ea[0].val < eb[0].val) {
      MergeFollow(ea[0].dest, bp, ea[1..], eb, v);
    } else if |ea| == 0 || ea[0].val > eb[0].val {
      MergeFollow(ap, eb[0].dest, ea, eb[1..], v);
    } else {
      MergeFollow(ea[0].dest, eb[0].dest, ea[1..], eb[1..], v);
    }
  }

  lemma {:induction false} MergeAbove(ap: nat, bp: nat, ea: seq<Edge>, eb: seq<Edge>, lo: int)
    requires forall k :: 0 <= k < |ea| ==> ea[k].val > lo
    requires forall k :: 0 <= k < |eb| ==> eb[k].val > lo
    ensures forall k :: 0 <= k < |Merge(ap, bp, ea, eb)| ==> Merge(ap, bp, ea, eb)[k].val > lo
    decreases |ea| + |eb|
  {
    if |ea| == 0 && |eb| == 0 {
    } else if |eb| == 0 || (|ea| > 0 && ea[0].val < eb[0].val) {
      MergeAbove(ea[0].dest, bp, ea[1..], eb, lo);
    } else if |ea| == 0 || ea[0].val > eb[0].val {
      MergeAbove(ap, eb[0].dest, ea, eb[1..], lo);
    } else {
      MergeAbove(ea[0].dest, eb[0].dest, ea[1..], eb[1..], lo);
    }
  }

  lemma {:induction false} MergeSorted(ap: nat, bp: nat, ea: seq<Edge>, eb: seq<Edge>)
    requires Sorted(ea) && Sorted(eb)
    ensures PSorted(Merge(ap, bp, ea, eb))
    decreases |ea| + |eb|
  {
    if |ea| == 0 && |eb| == 0 {
    } else if |eb| == 0 || (|ea| > 0 && ea[0].val < eb[0].val) {
      MergeSorted(ea[0].dest, bp, ea[1..], eb);
      MergeAbove(ea[0].dest, bp, ea[1..], eb, ea[0].val);
    } else if |ea| == 0 || ea[0].val > eb[0].val {
      MergeSorted(ap, eb[0].dest, ea, eb[1..]);
      MergeAbove(ap, eb[0].dest, ea, eb[1..], eb[0].val);
    } else {
      MergeSorted(ea[0].dest, eb[0].dest, ea[1..], eb[1..]);
      MergeAbove(ea[0].dest, eb[0].dest, ea[1..], eb[1..], ea[0].val);
    }
  }

  /** `x` is `p` or a destination in `es`. */
  predicate From(x: nat, p: nat, es: seq<Edge>)
  {
    x == p || exists i :: 0 <= i < |es| && es[i].dest == x
  }

  lemma FromTail(x: nat, p: nat, es: seq<Edge>)
    requires |es| > 0 && From(x, es[0].dest, es[1..])
    ensures From(x, p, es)
  {
    if x != es[0].dest {
      var i :| 0 <= i < |es[1..]| && es[1..][i].dest == x;
      assert es[i + 1].dest == x;
    }
  }

  /** Every merged destination comes from its own side. */
  lemma {:induction false} MergeSources(ap: nat, bp: nat, ea: seq<Edge>, eb: seq<Edge>)
    ensures forall k :: 0 <= k < |Merge(ap, bp, ea, eb)| ==>
      From(Merge(ap, bp, ea, eb)[k].a, ap, ea) && From(Merge(ap, bp, ea, eb)[k].b, bp, eb)
    decreases |ea| + |eb|
  {
    var ps := Merge(ap, bp, ea, eb);
    if |ea| == 0 && |eb| == 0 {
    } else if |eb| == 0 || (|ea| > 0 && ea[0].val < eb[0].val) {
      var tail := Merge(ea[0].dest, bp, ea[1..], eb);
      MergeSources(ea[0].dest, bp, ea[1..], eb);
      forall k | 0 <= k < |ps| ensures From(ps[k].a, ap, ea) && From(ps[k].b, bp, eb) {
        if k > 0 {
          assert ps[k] == tail[k - 1];
          FromTail(ps[k].a, ap, ea);
        }
      }
    } else if |ea| == 0 || ea[0].val > eb[0].val {
      var tail := Merge(ap, eb[0].dest, ea, eb[1..]);
      MergeSources(ap, eb[0].dest, ea, eb[1..]);
      forall k | 0 <= k < |ps| ensures From(ps[k].a, ap, ea) && From(ps[k].b, bp, eb) {
        if k > 0 {
          assert ps[k] == tail[k - 1];
          FromTail(ps[k].b, bp, eb);
        }
      }
    } else {
      var tail := Merge(ea[0].dest, eb[0].dest, ea[1..], eb[1..]);
      MergeSources(ea[0].dest, eb[0].dest, ea[1..], eb[1..]);
      forall k | 0 <= k < |ps| ensures From(ps[k].a, ap, ea) && From(ps[k].b, bp, eb) {
        if k > 0 {
          assert ps[k] == tail[k - 1];
          FromTail(ps[k].a, ap, ea);
          FromTail(ps[k].b, bp, eb);
        }
      }
    }
  }

  // ---------------------------------------------------------------------
  // Lining up two nodes

  /** The variable the result tests and the two sides merged: the node on
      the earlier variable is split while the other is carried along
      whole; on a shared variable both are split. */
  datatype Split = Split(variable: nat, ap: nat, bp: nat, ea: seq<Edge>, eb: seq<Edge>)

  function Align(t: Table, a: nat, b: nat): Split
    requires 2 <= a < Size(t) && 2 <= b < Size(t)
  {
    var na := Get(t, a);
    var nb := Get(t, b);
    if na.variable < nb.variable then Split(na.variable, na.low, b, na.edges, [])
    else if na.variable > nb.variable then Split(nb.variable, a, nb.low, [], nb.edges)
    else Split(na.variable, na.low, nb.low, na.edges, nb.edges)
  }

  /** Each merged pair: older ids than `(a, b)` together, on variables
      after the one tested. */
  predicate PairsOk(t: Table, ps: seq<Pair>, bound: nat)
  {
    forall k :: 0 <= k < |ps| ==> ps[k].a < Size(t) && ps[k].b < Size(t) && ps[k].a + ps[k].b < bound
  }

  predicate PairsAbove(t: Table, ps: seq<Pair>, u: int)
  {
    forall k :: 0 <= k < |ps| ==> Above(t, ps[k].a, u) && Above(t, ps[k].b, u)
  }

  lemma AlignFacts(t: Table, a: nat, b: nat)
    requires Wf(t) && 2 <= a < Size(t) && 2 <= b < Size(t)
    ensures var s := Align(t, a, b);
      var ps := Merge(s.ap, s.bp, s.ea, s.eb);
      s.variable < t.nvars && s.ap < Size(t) && s.bp < Size(t) && s.ap + s.bp < a + b &&
      Above(t, s.ap, s.variable) && Above(t, s.bp, s.variable) &&
      Sorted(s.ea) && Sorted(s.eb) && PSorted(ps) &&
      PairsOk(t, ps, a + b) && PairsAbove(t, ps, s.variable) &&
      (forall u: int :: Above(t, a, u) && Above(t, b, u) ==> u < s.variable)
  {
    var s := Align(t, a, b);
    var na := Get(t, a);
    var nb := Get(t, b);
    assert NodeOk(t, na, a) && NodeOk(t, nb, b);
    var ps := Merge(s.ap, s.bp, s.ea, s.eb);
    MergeSorted(s.ap, s.bp, s.ea, s.eb);
    MergeSources(s.ap, s.bp, s.ea, s.eb);
    forall k | 0 <= k < |ps|
      ensures ps[k].a < Size(t) && ps[k].b < Size(t) && ps[k].a + ps[k].b < a + b
      ensures Above(t, ps[k].a, s.variable) && Above(t, ps[k].b, s.variable)
    {
      assert From(ps[k].a, s.ap, s.ea) && From(ps[k].b, s.bp, s.eb);
    }
  }

  /** At every point the split sides are in force as `a` and `b` are. */
  lemma AlignMeans(t: Table, a: nat, b: nat, xs: Point)
    requires Wf(t) && 2 <= a < Size(t) && 2 <= b < Size(t)
    ensures var s := Align(t, a, b);
      Sorted(s.ea) && Sorted(s.eb) &&
      var pq := FollowP(s.ap, s.bp, Merge(s.ap, s.bp, s.ea, s.eb), xs(s.variable));
      pq.0 < Size(t) && pq.1 < Size(t) &&
      Eval(t, pq.0, xs) == Eval(t, a, xs) && Eval(t, pq.1, xs) == Eval(t, b, xs)
  {
    var s := Align(t, a, b);
    assert NodeOk(t, Get(t, a), a) && NodeOk(t, Get(t, b), b);
    MergeFollow(s.ap, s.bp, s.ea, s.eb, xs(s.variable));
  }

  // ---------------------------------------------------------------------
  // mdd_and / mdd_or

  /** `mdd_and(a, b)` (op `And`) or `mdd_or(a, b)` (op `Or`): terminal
      shortcuts, then the lows, then one edge per merged breakpoint, then
      `insert` on the earlier variable. */
  function Apply(t: Table, op: BinOp, a: nat, b: nat): (o: Out)
    requires Wf(t) && a < Size(t) && b < Size(t)
    ensures Grows(t, o)
    ensures forall u: int :: Above(t, a, u) && Above(t, b, u) ==> Above(o.t, o.r, u)
    ensures forall xs: Point :: Eval(o.t, o.r, xs) == Op(op, Eval(t, a, xs), Eval(t, b, xs))
    decreases a + b, 2, 0
  {
    if a == Absorbing(op) || b == Absorbing(op) then Out(t, Absorbing(op))
    else if a == Identity(op) then Out(t, b)
    else if b == Identity(op) then Out(t, a)
    else ApplyNode(t, op, a, b)
  }

  /** The inner case of `Apply`: both arguments are nodes. */
  function ApplyNode(t: Table, op: BinOp, a: nat, b: nat): (o: Out)
    requires Wf(t) && 2 <= a < Size(t) && 2 <= b < Size(t)
    ensures Grows(t, o)
    ensures forall u: int :: Above(t, a, u) && Above(t, b, u) ==> Above(o.t, o.r, u)
    ensures forall xs: Point :: Eval(o.t, o.r, xs) == Op(op, Eval(t, a, xs), Eval(t, b, xs))
    decreases a + b, 1, 0
  {
    AlignFacts(t, a, b);
    var s := Align(t, a, b);
    var ps := Merge(s.ap, s.bp, s.ea, s.eb);
    var lo := Apply(t, op, s.ap, s.bp);
    PairsOkExtends(t, lo.t, ps, a + b);
    var es := ApplyEdges(lo.t, op, ps, a + b);
    NodeFits(t, s, ps, lo, es);
    NodeMeansAll(t, op, a, b, s, ps, lo, es);
    Insert(es.t, s.variable, lo.r, es.es, false)
  }

  lemma ExtendsTrans(t: Table, t2: Table, t3: Table)
    requires Extends(t, t2) && Extends(t2, t3)
    ensures Extends(t, t3)
  {
  }

  lemma PairsOkExtends(t: Table, t2: Table, ps: seq<Pair>, bound: nat)
    requires Extends(t, t2) && PairsOk(t, ps, bound)
    ensures PairsOk(t2, ps, bound)
  {
  }

  /** The lows and the merged edges may be stored as a node on the
      variable tested, and the node is above whatever both sides were. */
  lemma NodeFits(t: Table, s: Split, ps: seq<Pair>, lo: Out, es: Outs)
    requires Wf(t) && s.variable < t.nvars && Above(t, s.ap, s.variable) && Above(t, s.bp, s.variable)
    requires PSorted(ps) && PairsAbove(t, ps, s.variable)
    requires Grows(t, lo) && forall u: int :: Above(t, s.ap, u) && Above(t, s.bp, u) ==> Above(lo.t, lo.r, u)
    requires Wf(es.t) && Extends(lo.t, es.t) && |es.es| == |ps|
    requires forall k :: 0 <= k < |ps| ==> es.es[k].val == ps[k].val && es.es[k].dest < Size(es.t)
    requires forall u: int, k :: 0 <= k < |ps| && Above(lo.t, ps[k].a, u) && Above(lo.t, ps[k].b, u) ==>
      Above(es.t, es.es[k].dest, u)
    ensures Fits(es.t, s.variable, lo.r, es.es)
    ensures Grows(t, Insert(es.t, s.variable, lo.r, es.es, false))
    ensures forall u: int :: u < s.variable ==>
      var o := Insert(es.t, s.variable, lo.r, es.es, false); Above(o.t, o.r, u)
  {
    AboveExtends(t, lo.t);
    AboveExtends(lo.t, es.t);
    ExtendsTrans(t, lo.t, es.t);
    ExtendsTrans(t, es.t, Insert(es.t, s.variable, lo.r, es.es, false).t);
    forall u: int | u < s.variable
      ensures var o := Insert(es.t, s.variable, lo.r, es.es, false); Above(o.t, o.r, u)
    {
      var o := Insert(es.t, s.variable, lo.r, es.es, false);
      AboveExtends(es.t, o.t);
      assert Above(t, s.ap, u) && Above(t, s.bp, u);
    }
  }

  /** The recursive calls on the merged pairs, in order. */
  function ApplyEdges(t: Table, op: BinOp, ps: seq<Pair>, bound: nat): (o: Outs)
    requires Wf(t) && PairsOk(t, ps, bound)
    ensures Wf(o.t) && Extends(t, o.t) && |o.es| == |ps|
    ensures forall k :: 0 <= k < |ps| ==> o.es[k].val == ps[k].val && o.es[k].dest < Size(o.t)
    ensures forall u: int, k :: 0 <= k < |ps| && Above(t, ps[k].a, u) && Above(t, ps[k].b, u) ==>
      Above(o.t, o.es[k].dest, u)
    ensures forall xs: Point, k :: 0 <= k < |ps| ==>
      Eval(o.t, o.es[k].dest, xs) == Op(op, Eval(t, ps[k].a, xs), Eval(t, ps[k].b, xs))
    decreases bound, 0, |ps|
  {
    if |ps| == 0 then Outs(t, [])
    else
      var h := Apply(t, op, ps[0].a, ps[0].b);
      PairsOkExtends(t, h.t, ps[1..], bound);
      var rest := ApplyEdges(h.t, op, ps[1..], bound);
      AboveExtends(t, h.t);
      AboveExtends(h.t, rest.t);
      var es := [Edge(ps[0].val, h.r)] + rest.es;
      ConsMeans(t, op, ps, h, rest, es);
      Outs(rest.t, es)
  }

  /** The first pair's result followed by the rest's results mean `op` of
      each pair. */
  lemma ConsMeans(t: Table, op: BinOp, ps: seq<Pair>, h: Out, rest: Outs, es: seq<Edge>)
    requires Wf(t) && |ps| > 0 && Grows(t, h)
    requires forall k :: 0 <= k < |ps| ==> ps[k].a < Size(t) && ps[k].b < Size(t)
    requires forall xs: Point :: Eval(h.t, h.r, xs) == Op(op, Eval(t, ps[0].a, xs), Eval(t, ps[0].b, xs))
    requires Wf(rest.t) && Extends(h.t, rest.t) && |rest.es| == |ps| - 1
    requires forall k :: 0 <= k < |rest.es| ==> rest.es[k].dest < Size(rest.t)
    requires forall xs: Point, k :: 0 <= k < |ps[1..]| ==>
      Eval(rest.t, rest.es[k].dest, xs) == Op(op, Eval(h.t, ps[1..][k].a, xs), Eval(h.t, ps[1..][k].b, xs))
    requires es == [Edge(ps[0].val, h.r)] + rest.es
    ensures forall k :: 0 <= k < |ps| ==> es[k].dest < Size(rest.t)
    ensures forall xs: Point, k :: 0 <= k < |ps| ==>
      Eval(rest.t, es[k].dest, xs) == Op(op, Eval(t, ps[k].a, xs), Eval(t, ps[k].b, xs))
  {
    forall k | 0 <= k < |ps| ensures es[k].dest < Size(rest.t) {
      if k > 0 {
        assert es[k] == rest.es[k - 1];
      }
    }
    forall xs: Point, k | 0 <= k < |ps|
      ensures Eval(rest.t, es[k].dest, xs) == Op(op, Eval(t, ps[k].a, xs), Eval(t, ps[k].b, xs))
    {
      if k == 0 {
        EvalExtends(h.t, rest.t, h.r, xs);
      } else {
        assert es[k] == rest.es[k - 1] && ps[1..][k - 1] == ps[k];
        EvalExtends(t, h.t, ps[k].a, xs);
        EvalExtends(t, h.t, ps[k].b, xs);
      }
    }
  }

  /** Edges computed pair by pair pick the same position as the pairs. */
  lemma FollowZip(lo: nat, es: seq<Edge>, ap: nat, bp: nat, ps: seq<Pair>, v: int) returns (k: int)
    requires |es| == |ps| && forall i :: 0 <= i < |ps| ==> es[i].val == ps[i].val
    ensures -1 <= k < |ps|
    ensures k == -1 ==> Follow(lo, es, v) == lo && FollowP(ap, bp, ps, v) == (ap, bp)
    ensures k >= 0 ==> Follow(lo, es, v) == es[k].dest && FollowP(ap, bp, ps, v) == (ps[k].a, ps[k].b)
  {
    assert Vals(es) == PVals(ps);
    k := Steps(Vals(es), v) - 1;
  }

  /** The node built from the recursive results means `op` of the two
      aligned sides at one point. */
  lemma NodeMeans(t: Table, op: BinOp, a: nat, b: nat, s: Split, ps: seq<Pair>, lo: Out, es: Outs, xs: Point)
    requires Wf(t) && 2 <= a < Size(t) && 2 <= b < Size(t)
    requires s == Align(t, a, b) && ps == Merge(s.ap, s.bp, s.ea, s.eb)
    requires s.ap < Size(t) && s.bp < Size(t) && PairsOk(t, ps, a + b)
    requires Grows(t, lo) && Wf(es.t) && Extends(lo.t, es.t) && |es.es| == |ps|
    requires forall k :: 0 <= k < |ps| ==> es.es[k].val == ps[k].val && es.es[k].dest < Size(es.t)
    requires Fits(es.t, s.variable, lo.r, es.es)
    requires Eval(es.t, lo.r, xs) == Op(op, Eval(t, s.ap, xs), Eval(t, s.bp, xs))
    requires forall k :: 0 <= k < |ps| ==>
      Eval(es.t, es.es[k].dest, xs) == Op(op, Eval(t, ps[k].a, xs), Eval(t, ps[k].b, xs))
    ensures var o := Insert(es.t, s.variable, lo.r, es.es, false);
      Eval(o.t, o.r, xs) == Op(op, Eval(t, a, xs), Eval(t, b, xs))
  {
    InsertMeans(es.t, s.variable, lo.r, es.es, false, xs);
    AlignMeans(t, a, b, xs);
    var k := FollowZip(lo.r, es.es, s.ap, s.bp, ps, xs(s.variable));
  }

  /** `NodeMeans` at every point, from what the recursive calls promise. */
  lemma NodeMeansAll(t: Table, op: BinOp, a: nat, b: nat, s: Split, ps: seq<Pair>, lo: Out, es: Outs)
    requires Wf(t) && 2 <= a < Size(t) && 2 <= b < Size(t)
    requires s == Align(t, a, b) && ps == Merge(s.ap, s.bp, s.ea, s.eb)
    requires s.ap < Size(t) && s.bp < Size(t) && PairsOk(t, ps, a + b)
    requires Grows(t, lo) && Wf(es.t) && Extends(lo.t, es.t) && |es.es| == |ps|
    requires forall k :: 0 <= k < |ps| ==> es.es[k].val == ps[k].val && es.es[k].dest < Size(es.t)
    requires Fits(es.t, s.variable, lo.r, es.es)
    requires forall xs: Point :: Eval(lo.t, lo.r, xs) == Op(op, Eval(t, s.ap, xs), Eval(t, s.bp, xs))
    requires forall xs: Point, k :: 0 <= k < |ps| ==>
      Eval(es.t, es.es[k].dest, xs) == Op(op, Eval(lo.t, ps[k].a, xs), Eval(lo.t, ps[k].b, xs))
    ensures forall xs: Point :: var o := Insert(es.t, s.variable, lo.r, es.es, false);
      Eval(o.t, o.r, xs) == Op(op, Eval(t, a, xs), Eval(t, b, xs))
  {
    forall xs: Point
      ensures var o := Insert(es.t, s.variable, lo.r, es.es, false);
        Eval(o.t, o.r, xs) == Op(op, Eval(t, a, xs), Eval(t, b, xs))
    {
      EvalExtends(lo.t, es.t, lo.r, xs);
      forall k | 0 <= k < |ps|
        ensures Eval(es.t, es.es[k].dest, xs) == Op(op, Eval(t, ps[k].a, xs), Eval(t, ps[k].b, xs))
      {
        EvalExtends(t, lo.t, ps[k].a, xs);
        EvalExtends(t, lo.t, ps[k].b, xs);
      }
      NodeMeans(t, op, a, b, s, ps, lo, es, xs);
    }
  }

  // ---------------------------------------------------------------------
  // mdd_leq

  /** `mdd_leq(a, b)`: the terminal cases, then (asserting both nodes test
      the same variable) the lows and every merged pair in turn, stopping
      at the first that fails. */
  function Leq(t: Table, a: nat, b: nat): (r: Res<bool>)
    requires Wf(t) && a < Size(t) && b < Size(t)
    ensures !r.Fail?
    ensures a == MddFalse || b == MddTrue ==> r == Ok(true)
    ensures a == MddTrue && b != MddTrue ==> r == Ok(false)
    ensures b == MddFalse && a != MddFalse ==> r == Ok(false)
    decreases a + b, 1, 0
  {
    if a == MddFalse || b == MddTrue then Ok(true)
    else if a == MddTrue || b == MddFalse then Ok(false)
    else if Get(t, a).variable != Get(t, b).variable then Fatal(LeqMismatch)
    else
      AlignFacts(t, a, b);
      var s := Align(t, a, b);
      LeqFrom(t, s.ap, s.bp, Merge(s.ap, s.bp, s.ea, s.eb), a + b)
  }

  function LeqFrom(t: Table, ap: nat, bp: nat, ps: seq<Pair>, bound: nat): (r: Res<bool>)
    requires Wf(t) && ap < Size(t) && bp < Size(t) && ap + bp < bound && PairsOk(t, ps, bound)
    ensures !r.Fail?
    decreases bound, 0, |ps|
  {
    var r := Leq(t, ap, bp);
    if r == Ok(true) && |ps| > 0 then LeqFrom(t, ps[0].a, ps[0].b, ps[1..], bound) else r
  }

  /** `LeqFrom` succeeds only if every pair it checks succeeds. */
  lemma {:induction false} LeqFromAll(t: Table, ap: nat, bp: nat, ps: seq<Pair>, bound: nat)
    requires Wf(t) && ap < Size(t) && bp < Size(t) && ap + bp < bound && PairsOk(t, ps, bound)
    requires LeqFrom(t, ap, bp, ps, bound) == Ok(true)
    ensures Leq(t, ap, bp) == Ok(true)
    ensures forall k :: 0 <= k < |ps| ==> Leq(t, ps[k].a, ps[k].b) == Ok(true)
    decreases |ps|
  {
    if |ps| > 0 {
      LeqFromAll(t, ps[0].a, ps[0].b, ps[1..], bound);
      forall k | 1 <= k < |ps| ensures Leq(t, ps[k].a, ps[k].b) == Ok(true) {
        assert ps[k] == ps[1..][k - 1];
      }
    }
  }

  /** A true `mdd_leq(a, b)` means `a` implies `b` at every point. */
  lemma {:induction false} LeqSound(t: Table, a: nat, b: nat, xs: Point)
    requires Wf(t) && a < Size(t) && b < Size(t) && Leq(t, a, b) == Ok(true)
    ensures Eval(t, a, xs) ==> Eval(t, b, xs)
    decreases a + b
  {
    if a != MddFalse && b != MddTrue {
      var c, d := LeqPick(t, a, b, xs);
      LeqSound(t, c, d, xs);
    }
  }

  /** Below two comparable nodes, the point selects a pair of children
      that compare as well and decide both nodes' values. */
  lemma LeqPick(t: Table, a: nat, b: nat, xs: Point) returns (c: nat, d: nat)
    requires Wf(t) && a < Size(t) && b < Size(t) && Leq(t, a, b) == Ok(true)
    requires a != MddFalse && b != MddTrue
    ensures c < Size(t) && d < Size(t) && c + d < a + b && Leq(t, c, d) == Ok(true)
    ensures Eval(t, c, xs) == Eval(t, a, xs) && Eval(t, d, xs) == Eval(t, b, xs)
  {
    AlignFacts(t, a, b);
    var s := Align(t, a, b);
    var ps := Merge(s.ap, s.bp, s.ea, s.eb);
    LeqFromAll(t, s.ap, s.bp, ps, a + b);
    AlignMeans(t, a, b, xs);
    var n := Steps(PVals(ps), xs(s.variable));
    if n == 0 {
      c, d := s.ap, s.bp;
    } else {
      c, d := ps[n - 1].a, ps[n - 1].b;
    }
  }

  /** `operator<=` on MDDs: a true answer is implication. */
  lemma LeqImplies(t: Table, a: nat, b: nat)
    requires Wf(t) && a < Size(t) && b < Size(t) && Leq(t, a, b) == Ok(true)
    ensures forall xs: Point :: Eval(t, a, xs) ==> Eval(t, b, xs)
  {
    forall xs: Point ensures Eval(t, a, xs) ==> Eval(t, b, xs) {
      LeqSound(t, a, b, xs);
    }
  }

  lemma {:induction false} MergeSame(p: nat, es: seq<Edge>)
    ensures forall k :: 0 <= k < |Merge(p, p, es, es)| ==> Merge(p, p, es, es)[k].a == Merge(p, p, es, es)[k].b
    decreases |es|
  {
    if |es| > 0 {
      MergeSame(es[0].dest, es[1..]);
    }
  }

  lemma {:induction false} LeqFromTrue(t: Table, ap: nat, bp: nat, ps: seq<Pair>, bound: nat)
    requires Wf(t) && ap < Size(t) && bp < Size(t) && ap + bp < bound && PairsOk(t, ps, bound)
    requires Leq(t, ap, bp) == Ok(true)
    requires forall k :: 0 <= k < |ps| ==> Leq(t, ps[k].a, ps[k].b) == Ok(true)
    ensures LeqFrom(t, ap, bp, ps, bound) == Ok(true)
    decreases |ps|
  {
    if |ps| > 0 {
      LeqFromTrue(t, ps[0].a, ps[0].b, ps[1..], bound);
    }
  }

  /** Every node is `mdd_leq` itself. */
  lemma {:induction false} LeqRefl(t: Table, a: nat)
    requires Wf(t) && a < Size(t)
    ensures Leq(t, a, a) == Ok(true)
    decreases a
  {
    if a >= 2 {
      AlignFacts(t, a, a);
      var s := Align(t, a, a);
      var ps := Merge(s.ap, s.bp, s.ea, s.eb);
      MergeSame(s.ap, s.ea);
      LeqRefl(t, s.ap);
      forall k | 0 <= k < |ps| ensures Leq(t, ps[k].a, ps[k].b) == Ok(true) {
        LeqRefl(t, ps[k].a);
      }
      LeqFromTrue(t, s.ap, s.bp, ps, a + a);
    }
  }
}
