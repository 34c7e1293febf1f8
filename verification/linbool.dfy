/** The cardinality decomposition of chuffed/globals/linear-bool-decomp.cpp:
    `sum x t k` over Boolean literals, normalised to `sum xs <= k`, is
    encoded as a memoised BDD whose node `(vv, cc)` stands for "the
    literals from `vv` on add at most `k - cc` more, and the terminal of the
    count reached holds". Each internal node gets a fresh SAT variable
    `ret` with the clauses `ret -> low` and `ret /\ xs[vv] -> high`; the
    root is enqueued. The SAT side is returned as data: the clauses added,
    with an enqueued literal written as a unit clause, and the fresh
    variables numbered upward from `base`. */
module LinBool {
  import opened Base
  import opened IntVars
  import Binary
  import Element

  // Messages of the fatal errors below.
  const NotSupported := "NOT_SUPPORTED"
  const NeverLin := "NEVER"

  // ---------------------------------------------------------------------
  // Semantics

  /** The number of literals of `xs[vv..]` that hold. */
  function CountFrom(a: Asg, xs: seq<Lit>, vv: nat): (r: nat)
    requires vv <= |xs|
    ensures r <= |xs| - vv
    decreases |xs| - vv
  {
    if vv == |xs| then 0 else (if Holds(a, xs[vv]) then 1 else 0) + CountFrom(a, xs, vv + 1)
  }

  function Count(a: Asg, xs: seq<Lit>): nat
  {
    CountFrom(a, xs, 0)
  }

  /** A literal over the variables below `base` only. */
  predicate Below(l: Lit, base: nat)
  {
    l.Atom? ==> l.v < base
  }

  predicate AllBelow(ls: seq<Lit>, base: nat)
  {
    forall i :: 0 <= i < |ls| ==> Below(ls[i], base)
  }

  /** `terminals` has one literal for each count `0..k`. */
  predicate TermsFor(terms: seq<Lit>, k: int)
  {
    |terms| == if k >= 0 then k + 1 else 0
  }

  /** The inputs of one decomposition: the literals, the terminals, the
      bound, and the first fresh variable. */
  datatype Ctx = Ctx(xs: seq<Lit>, terms: seq<Lit>, k: int, base: nat)

  predicate CtxOk(c: Ctx)
  {
    TermsFor(c.terms, c.k) && AllBelow(c.xs, c.base) && AllBelow(c.terms, c.base)
  }

  /** An assignment under which a higher terminal implies a lower one. */
  ghost predicate Respects(a: Asg, terms: seq<Lit>)
  {
    forall i :: 1 <= i < |terms| ==> Holds(a, terms[i]) ==> Holds(a, terms[i - 1])
  }

  /** The Boolean function of node `(vv, cc)`. */
  ghost predicate NodeFn(a: Asg, c: Ctx, vv: nat, cc: int)
    requires CtxOk(c) && vv <= |c.xs| && cc >= 0
  {
    var t := cc + CountFrom(a, c.xs, vv);
    t <= c.k && Holds(a, c.terms[t])
  }

  lemma NodeFnStep(a: Asg, c: Ctx, vv: nat, cc: int)
    requires CtxOk(c) && vv < |c.xs| && cc >= 0
    ensures NodeFn(a, c, vv, cc) == if Holds(a, c.xs[vv]) then NodeFn(a, c, vv + 1, cc + 1) else NodeFn(a, c, vv + 1, cc)
  {
  }

  /** A node asked for one more is stronger. */
  lemma NodeFnMono(a: Asg, c: Ctx, vv: nat, cc: int)
    requires CtxOk(c) && vv <= |c.xs| && cc >= 0 && Respects(a, c.terms)
    ensures NodeFn(a, c, vv, cc + 1) ==> NodeFn(a, c, vv, cc)
  {
    var t := cc + CountFrom(a, c.xs, vv);
    if NodeFn(a, c, vv, cc + 1) {
      assert Holds(a, c.terms[t + 1]);
    }
  }

  predicate AgreeBelow(a: Asg, b: Asg, base: nat)
  {
    forall v: nat :: v < base ==> a(v) == b(v)
  }

  lemma {:induction false} CountFrame(a: Asg, b: Asg, xs: seq<Lit>, base: nat, vv: nat)
    requires AgreeBelow(a, b, base) && AllBelow(xs, base) && vv <= |xs|
    ensures CountFrom(a, xs, vv) == CountFrom(b, xs, vv)
    decreases |xs| - vv
  {
    if vv < |xs| {
      CountFrame(a, b, xs, base, vv + 1);
      assert Below(xs[vv], base);
    }
  }

  /** Node functions read only the variables below `base`. */
  lemma NodeFnFrame(a: Asg, b: Asg, c: Ctx, vv: nat, cc: int)
    requires CtxOk(c) && AgreeBelow(a, b, c.base) && vv <= |c.xs| && cc >= 0
    ensures NodeFn(a, c, vv, cc) == NodeFn(b, c, vv, cc)
    ensures Respects(a, c.terms) == Respects(b, c.terms)
  {
    CountFrame(a, b, c.xs, c.base, vv);
    var t := cc + CountFrom(a, c.xs, vv);
    if t <= c.k {
      assert Below(c.terms[t], c.base);
    }
    forall i | 0 <= i < |c.terms| ensures Holds(a, c.terms[i]) == Holds(b, c.terms[i]) {
      assert Below(c.terms[i], c.base);
    }
  }

  // ---------------------------------------------------------------------
  // The memoised construction

  /** The slot of node `(vv, cc)` in the node cache. */
  function Key(k: int, vv: nat, cc: nat): int
  {
    vv * (k + 1) + cc
  }

  /** Keys of distinct nodes with `cc <= k` and `vv < n` are distinct and
      below the cache capacity `(k + 1) * n`. */
  lemma KeyInjective(k: int, n: nat, vv1: nat, cc1: nat, vv2: nat, cc2: nat)
    requires cc1 <= k && cc2 <= k && vv1 < n && vv2 < n
    ensures 0 <= Key(k, vv1, cc1) < (k + 1) * n
    ensures Key(k, vv1, cc1) == Key(k, vv2, cc2) <==> vv1 == vv2 && cc1 == cc2
  {
    KeyBelow(k, vv1, cc1, vv1 + 1);
    KeyBelow(k, vv1, cc1, n);
    if vv1 < vv2 {
      KeyBelow(k, vv1, cc1, vv2);
      MulMono(k + 1, vv2, vv2);
    } else if vv2 < vv1 {
      KeyBelow(k, vv2, cc2, vv1);
      MulMono(k + 1, vv1, vv1);
    }
  }

  lemma KeyBelow(k: int, vv: nat, cc: nat, m: nat)
    requires cc <= k && vv < m
    ensures 0 <= Key(k, vv, cc) < (k + 1) * m
  {
    MulMono(k + 1, vv, m - 1);
    assert (k + 1) * m == (k + 1) * (m - 1) + (k + 1);
  }

  lemma MulMono(p: nat, u: nat, w: nat)
    requires u <= w
    ensures 0 <= u * p <= w * p && u * p == p * u && w * p == p * w
  {
  }

  /** The cache (`elts` with `vs`), the fresh variables allocated so far,
      each with the node it stands for, and the clauses added. */
  datatype Memo = Memo(keys: map<int, Lit>, defs: seq<(nat, nat)>, clauses: seq<Clause>)

  /** `bool_linear_leq(elts, vs, terminals, xs, k, vv, cc)`: the literal of
      node `(vv, cc)`, reusing the cache and extending it. */
  function Node(c: Ctx, vv: nat, cc: nat, m: Memo): (Lit, Memo)
    requires CtxOk(c) && vv <= |c.xs|
    decreases |c.xs| - vv
  {
    if cc > c.k then (Const(false), m)
    else if vv == |c.xs| then (c.terms[cc], m)
    else if Key(c.k, vv, cc) in m.keys then (m.keys[Key(c.k, vv, cc)], m)
    else
      var (low, m1) := Node(c, vv + 1, cc, m);
      var (high, m2) := Node(c, vv + 1, cc + 1, m1);
      Combine(c, vv, cc, low, high, m2)
  }

  /** The node from its children: false when `low` is false, true when
      `high` is true, otherwise a fresh variable with its two clauses (the
      first left out when `low` is true); then cached under its key. */
  function Combine(c: Ctx, vv: nat, cc: nat, low: Lit, high: Lit, m2: Memo): (Lit, Memo)
    requires vv < |c.xs|
  {
    var (ret, m3) :=
      if low == Const(false) then (Const(false), m2)
      else if high == Const(true) then (Const(true), m2)
      else
        var ret := Atom(c.base + |m2.defs|, true);
        (ret, m2.(defs := m2.defs + [(vv, cc)], clauses := m2.clauses + NodeClauses(low, high, c.xs[vv], ret)));
    (ret, m3.(keys := m3.keys[Key(c.k, vv, cc) := ret]))
  }

  // ---------------------------------------------------------------------
  // Invariants of the cache

  predicate DefsOk(c: Ctx, defs: seq<(nat, nat)>)
  {
    forall i :: 0 <= i < |defs| ==> defs[i].0 <= |c.xs|
  }

  /** The canonical extension of `a0`: fresh variable `base + i` takes the
      value of the node it stands for. */
  ghost function Ext(c: Ctx, defs: seq<(nat, nat)>, a0: Asg): Asg
    requires CtxOk(c) && DefsOk(c, defs)
  {
    (v: nat) =>
      if v < c.base then a0(v)
      else if v - c.base < |defs| then NodeFn(a0, c, defs[v - c.base].0, defs[v - c.base].1)
      else false
  }

  predicate ClausesBelow(cs: seq<Clause>, bound: nat)
  {
    forall j, i :: 0 <= j < |cs| && 0 <= i < |cs[j]| ==> Below(cs[j][i], bound)
  }

  /** Clauses added and cached literals hold of any assignment only where the node function does. */
  ghost predicate Sound(c: Ctx, m: Memo, l: Lit, vv: nat, cc: nat)
    requires CtxOk(c) && vv <= |c.xs|
  {
    forall a: Asg :: Respects(a, c.terms) && AllHold(a, m.clauses) && Holds(a, l) ==> NodeFn(a, c, vv, cc)
  }

  /** Under the canonical extension the literal is the node function. */
  ghost predicate Exact(c: Ctx, m: Memo, l: Lit, vv: nat, cc: nat)
    requires CtxOk(c) && vv <= |c.xs| && DefsOk(c, m.defs)
  {
    forall a0: Asg :: Respects(a0, c.terms) ==> (Holds(Ext(c, m.defs, a0), l) <==> NodeFn(a0, c, vv, cc))
  }

  ghost predicate LitGood(c: Ctx, m: Memo, l: Lit, vv: nat, cc: nat)
    requires CtxOk(c) && vv <= |c.xs| && DefsOk(c, m.defs)
  {
    Below(l, c.base + |m.defs|) && Sound(c, m, l, vv, cc) && Exact(c, m, l, vv, cc)
  }

  /** The canonical extension satisfies every clause added. */
  ghost predicate ClausesExact(c: Ctx, m: Memo)
    requires CtxOk(c) && DefsOk(c, m.defs)
  {
    forall a0: Asg :: Respects(a0, c.terms) ==> AllHold(Ext(c, m.defs, a0), m.clauses)
  }

  ghost predicate MemoGood(c: Ctx, m: Memo)
    requires CtxOk(c)
  {
    DefsOk(c, m.defs) && ClausesBelow(m.clauses, c.base + |m.defs|) && ClausesExact(c, m) &&
    forall vv: nat, cc: nat :: vv < |c.xs| && cc <= c.k && Key(c.k, vv, cc) in m.keys ==>
      LitGood(c, m, m.keys[Key(c.k, vv, cc)], vv, cc)
  }

  /** `m2` extends `m1`: cache entries kept, fresh variables and clauses appended. */
  predicate Extends(m1: Memo, m2: Memo)
  {
    (forall key :: key in m1.keys ==> key in m2.keys && m2.keys[key] == m1.keys[key]) &&
    m1.defs <= m2.defs && m1.clauses <= m2.clauses
  }

  /** The canonical extensions of a longer definition list agree below the shorter one's end. */
  lemma ExtFrame(c: Ctx, d1: seq<(nat, nat)>, d2: seq<(nat, nat)>, a0: Asg, l: Lit)
    requires CtxOk(c) && DefsOk(c, d2) && d1 <= d2 && Below(l, c.base + |d1|)
    ensures DefsOk(c, d1)
    ensures Holds(Ext(c, d1, a0), l) == Holds(Ext(c, d2, a0), l)
  {
    assert forall i :: 0 <= i < |d1| ==> d1[i] == d2[i];
  }

  lemma AllHoldPrefix(a: Asg, cs: seq<Clause>, ds: seq<Clause>)
    requires cs <= ds && AllHold(a, ds)
    ensures AllHold(a, cs)
  {
    forall j | 0 <= j < |cs| ensures ClauseHolds(a, cs[j]) {
      assert cs[j] == ds[j];
    }
  }

  /** A good literal stays good as the cache grows. */
  lemma LitGoodMono(c: Ctx, m1: Memo, m2: Memo, l: Lit, vv: nat, cc: nat)
    requires CtxOk(c) && vv <= |c.xs| && DefsOk(c, m2.defs) && Extends(m1, m2)
    requires DefsOk(c, m1.defs) && LitGood(c, m1, l, vv, cc)
    ensures LitGood(c, m2, l, vv, cc)
  {
    forall a: Asg | Respects(a, c.terms) && AllHold(a, m2.clauses) && Holds(a, l)
      ensures NodeFn(a, c, vv, cc)
    {
      AllHoldPrefix(a, m1.clauses, m2.clauses);
    }
    forall a0: Asg | Respects(a0, c.terms)
      ensures Holds(Ext(c, m2.defs, a0), l) <==> NodeFn(a0, c, vv, cc)
    {
      ExtFrame(c, m1.defs, m2.defs, a0, l);
    }
  }

  /** A cache that is good stays good when extended by good clauses. */
  lemma MemoGoodMono(c: Ctx, m1: Memo, m2: Memo)
    requires CtxOk(c) && MemoGood(c, m1) && Extends(m1, m2) && m2.keys == m1.keys
    requires DefsOk(c, m2.defs) && ClausesBelow(m2.clauses, c.base + |m2.defs|) && ClausesExact(c, m2)
    ensures MemoGood(c, m2)
  {
    forall vv: nat, cc: nat | vv < |c.xs| && cc <= c.k && Key(c.k, vv, cc) in m2.keys
      ensures LitGood(c, m2, m2.keys[Key(c.k, vv, cc)], vv, cc)
    {
      LitGoodMono(c, m1, m2, m1.keys[Key(c.k, vv, cc)], vv, cc);
    }
  }

  /** A node whose `low` child is constantly false is constantly false. */
  lemma CombineFalse(c: Ctx, m: Memo, vv: nat, cc: nat, high: Lit)
    requires CtxOk(c) && vv < |c.xs| && DefsOk(c, m.defs)
    requires LitGood(c, m, Const(false), vv + 1, cc)
    ensures LitGood(c, m, Const(false), vv, cc)
  {
    forall a0: Asg | Respects(a0, c.terms) ensures !NodeFn(a0, c, vv, cc) {
      NodeFnMono(a0, c, vv + 1, cc);
      NodeFnStep(a0, c, vv, cc);
    }
  }

  /** A node whose `high` child is constantly true is constantly true. */
  lemma CombineTrue(c: Ctx, m: Memo, vv: nat, cc: nat)
    requires CtxOk(c) && vv < |c.xs| && DefsOk(c, m.defs)
    requires LitGood(c, m, Const(true), vv + 1, cc + 1)
    ensures LitGood(c, m, Const(true), vv, cc)
  {
    forall a: Asg | Respects(a, c.terms) && AllHold(a, m.clauses) ensures NodeFn(a, c, vv, cc) {
      assert Holds(a, Const(true));
      NodeFnMono(a, c, vv + 1, cc);
      NodeFnStep(a, c, vv, cc);
    }
    forall a0: Asg | Respects(a0, c.terms) ensures NodeFn(a0, c, vv, cc) {
      assert Holds(Ext(c, m.defs, a0), Const(true));
      NodeFnMono(a0, c, vv + 1, cc);
      NodeFnStep(a0, c, vv, cc);
    }
  }

  /** The clauses that define a fresh node variable `ret`. */
  function NodeClauses(low: Lit, high: Lit, x: Lit, ret: Lit): seq<Clause>
  {
    (if low != Const(true) then [[low, Neg(ret)]] else []) + [[high, Neg(x), Neg(ret)]]
  }

  /** Whoever satisfies the node's clauses and `ret` satisfies the children
      the literal `x` selects. */
  lemma NodeClausesMean(a: Asg, low: Lit, high: Lit, x: Lit, ret: Lit)
    requires AllHold(a, NodeClauses(low, high, x, ret)) && Holds(a, ret)
    ensures Holds(a, low)
    ensures Holds(a, x) ==> Holds(a, high)
  {
    var cs := NodeClauses(low, high, x, ret);
    var last := [high, Neg(x), Neg(ret)];
    assert cs[|cs| - 1] == last;
    assert ClauseHolds(a, last);
    if low != Const(true) {
      assert cs[0] == [low, Neg(ret)];
      assert ClauseHolds(a, cs[0]);
    }
  }

  /** The canonical extension satisfies the node's clauses when `ret` is
      the node function and the children are exact. */
  lemma NodeClausesHold(a: Asg, low: Lit, high: Lit, x: Lit, ret: Lit, lowV: bool, highV: bool)
    requires Holds(a, low) == lowV && Holds(a, high) == highV
    requires Holds(a, ret) ==> lowV && (Holds(a, x) ==> highV)
    ensures AllHold(a, NodeClauses(low, high, x, ret))
  {
    var cs := NodeClauses(low, high, x, ret);
    forall j | 0 <= j < |cs| ensures ClauseHolds(a, cs[j]) {
      var cl := cs[j];
      if Holds(a, ret) {
        if Holds(a, x) {
          assert cl[0] == high || cl[0] == low;
          assert Holds(a, cl[0]);
        } else {
          if cl == [high, Neg(x), Neg(ret)] {
            assert Holds(a, cl[1]);
          } else {
            assert Holds(a, cl[0]);
          }
        }
      } else {
        assert Holds(a, cl[|cl| - 1]);
      }
    }
  }

  /** A fresh variable for the node, defined by its clauses, is good. */
  lemma CombineFresh(c: Ctx, m: Memo, vv: nat, cc: nat, low: Lit, high: Lit)
    requires CtxOk(c) && vv < |c.xs| && MemoGood(c, m)
    requires LitGood(c, m, low, vv + 1, cc) && LitGood(c, m, high, vv + 1, cc + 1)
    ensures var ret := Atom(c.base + |m.defs|, true);
      var m3 := m.(defs := m.defs + [(vv, cc)], clauses := m.clauses + NodeClauses(low, high, c.xs[vv], ret));
      MemoGood(c, m3) && Extends(m, m3) && LitGood(c, m3, ret, vv, cc)
  {
    var ret := Atom(c.base + |m.defs|, true);
    var ncs := NodeClauses(low, high, c.xs[vv], ret);
    var m3 := m.(defs := m.defs + [(vv, cc)], clauses := m.clauses + ncs);
    assert DefsOk(c, m3.defs);
    assert Extends(m, m3);
    var bound := c.base + |m3.defs|;
    assert Below(c.xs[vv], c.base);
    forall j, i | 0 <= j < |m3.clauses| && 0 <= i < |m3.clauses[j]| ensures Below(m3.clauses[j][i], bound) {
      if j < |m.clauses| {
        assert m3.clauses[j] == m.clauses[j];
      } else {
        assert m3.clauses[j] == ncs[j - |m.clauses|];
      }
    }
    forall a0: Asg | Respects(a0, c.terms) ensures AllHold(Ext(c, m3.defs, a0), m3.clauses) {
      var e := Ext(c, m3.defs, a0);
      var e2 := Ext(c, m.defs, a0);
      ExtFrame(c, m.defs, m3.defs, a0, low);
      ExtFrame(c, m.defs, m3.defs, a0, high);
      ExtFrame(c, m.defs, m3.defs, a0, c.xs[vv]);
      assert AgreeBelow(a0, e, c.base);
      assert Holds(e, c.xs[vv]) == Holds(a0, c.xs[vv]);
      assert e(c.base + |m.defs|) == NodeFn(a0, c, vv, cc);
      NodeFnMono(a0, c, vv + 1, cc);
      NodeFnStep(a0, c, vv, cc);
      NodeClausesHold(e, low, high, c.xs[vv], ret, NodeFn(a0, c, vv + 1, cc), NodeFn(a0, c, vv + 1, cc + 1));
      forall j | 0 <= j < |m.clauses| ensures ClauseHolds(e, m.clauses[j]) {
        assert AllHold(e2, m.clauses);
        assert ClauseHolds(e2, m.clauses[j]);
        var i :| 0 <= i < |m.clauses[j]| && Holds(e2, m.clauses[j][i]);
        ExtFrame(c, m.defs, m3.defs, a0, m.clauses[j][i]);
      }
      AllHoldConcat(e, m.clauses, ncs);
    }
    MemoGoodMono(c, m, m3);
    forall a: Asg | Respects(a, c.terms) && AllHold(a, m3.clauses) && Holds(a, ret) ensures NodeFn(a, c, vv, cc) {
      AllHoldConcat(a, m.clauses, ncs);
      NodeClausesMean(a, low, high, c.xs[vv], ret);
      NodeFnStep(a, c, vv, cc);
    }
  }

  /** Recording the node's literal under its key keeps the cache good. */
  lemma InsertKey(c: Ctx, m: Memo, vv: nat, cc: nat, l: Lit)
    requires CtxOk(c) && vv < |c.xs| && cc <= c.k && MemoGood(c, m) && LitGood(c, m, l, vv, cc)
    requires Key(c.k, vv, cc) !in m.keys
    ensures MemoGood(c, m.(keys := m.keys[Key(c.k, vv, cc) := l]))
    ensures Extends(m, m.(keys := m.keys[Key(c.k, vv, cc) := l]))
  {
    var m4 := m.(keys := m.keys[Key(c.k, vv, cc) := l]);
    forall vv2: nat, cc2: nat | vv2 < |c.xs| && cc2 <= c.k && Key(c.k, vv2, cc2) in m4.keys
      ensures LitGood(c, m4, m4.keys[Key(c.k, vv2, cc2)], vv2, cc2)
    {
      KeyInjective(c.k, |c.xs|, vv, cc, vv2, cc2);
      if Key(c.k, vv2, cc2) != Key(c.k, vv, cc) {
        assert LitGood(c, m, m.keys[Key(c.k, vv2, cc2)], vv2, cc2);
      }
    }
  }

  /** Recording a good literal over a cache that extends `m2` by no keys
      gives a good cache extending `m2` by exactly that key. */
  lemma KeyedGood(c: Ctx, m2: Memo, m3: Memo, vv: nat, cc: nat, l: Lit)
    requires CtxOk(c) && vv < |c.xs| && cc <= c.k && MemoGood(c, m3) && LitGood(c, m3, l, vv, cc)
    requires Extends(m2, m3) && m3.keys == m2.keys && Key(c.k, vv, cc) !in m2.keys
    ensures var m4 := m3.(keys := m3.keys[Key(c.k, vv, cc) := l]);
      MemoGood(c, m4) && Extends(m2, m4) && LitGood(c, m4, l, vv, cc) &&
      m4.keys.Keys == m2.keys.Keys + {Key(c.k, vv, cc)}
  {
    var m4 := m3.(keys := m3.keys[Key(c.k, vv, cc) := l]);
    InsertKey(c, m3, vv, cc, l);
    LitGoodMono(c, m3, m4, l, vv, cc);
  }

  /** Combining good children gives a good node and a good cache. */
  lemma CombineGood(c: Ctx, vv: nat, cc: nat, low: Lit, high: Lit, m2: Memo)
    requires CtxOk(c) && vv < |c.xs| && cc <= c.k && MemoGood(c, m2) && Key(c.k, vv, cc) !in m2.keys
    requires LitGood(c, m2, low, vv + 1, cc) && LitGood(c, m2, high, vv + 1, cc + 1)
    ensures MemoGood(c, Combine(c, vv, cc, low, high, m2).1) && Extends(m2, Combine(c, vv, cc, low, high, m2).1)
    ensures LitGood(c, Combine(c, vv, cc, low, high, m2).1, Combine(c, vv, cc, low, high, m2).0, vv, cc)
    ensures Combine(c, vv, cc, low, high, m2).1.keys.Keys == m2.keys.Keys + {Key(c.k, vv, cc)}
  {
    if low == Const(false) {
      CombineFalse(c, m2, vv, cc, high);
      KeyedGood(c, m2, m2, vv, cc, Const(false));
      assert Combine(c, vv, cc, low, high, m2) == (Const(false), m2.(keys := m2.keys[Key(c.k, vv, cc) := Const(false)]));
    } else if high == Const(true) {
      CombineTrue(c, m2, vv, cc);
      KeyedGood(c, m2, m2, vv, cc, Const(true));
      assert Combine(c, vv, cc, low, high, m2) == (Const(true), m2.(keys := m2.keys[Key(c.k, vv, cc) := Const(true)]));
    } else {
      var ret := Atom(c.base + |m2.defs|, true);
      var m3 := m2.(defs := m2.defs + [(vv, cc)], clauses := m2.clauses + NodeClauses(low, high, c.xs[vv], ret));
      CombineFresh(c, m2, vv, cc, low, high);
      KeyedGood(c, m2, m3, vv, cc, ret);
      assert Combine(c, vv, cc, low, high, m2) == (ret, m3.(keys := m3.keys[Key(c.k, vv, cc) := ret]));
    }
  }

  /** What the construction of node `(vv, cc)` from cache `m` guarantees of
      its result `r`: the cache stays good and only grows, by keys of nodes
      from `vv` on, and the literal is sound and exact. */
  ghost predicate Built(c: Ctx, vv: nat, cc: nat, m: Memo, r: (Lit, Memo))
    requires CtxOk(c) && vv <= |c.xs|
  {
    MemoGood(c, r.1) && Extends(m, r.1) && LitGood(c, r.1, r.0, vv, cc) &&
    forall key :: key in r.1.keys && key !in m.keys ==> key >= Key(c.k, vv, 0)
  }

  /** A terminal node. */
  lemma LeafGood(c: Ctx, cc: nat, m: Memo)
    requires CtxOk(c) && cc <= c.k && MemoGood(c, m)
    ensures Built(c, |c.xs|, cc, m, (c.terms[cc], m))
  {
    var l := c.terms[cc];
    assert Below(l, c.base);
    forall a0: Asg | Respects(a0, c.terms) ensures Holds(Ext(c, m.defs, a0), l) <==> NodeFn(a0, c, |c.xs|, cc) {
      assert l.Atom? ==> Ext(c, m.defs, a0)(l.v) == a0(l.v);
    }
  }

  /** The literal of every node is sound and exact, and the cache stays good. */
  lemma {:induction false} NodeGood(c: Ctx, vv: nat, cc: nat, m: Memo)
    requires CtxOk(c) && vv <= |c.xs| && MemoGood(c, m)
    ensures Built(c, vv, cc, m, Node(c, vv, cc, m))
    decreases |c.xs| - vv, 1
  {
    if cc > c.k {
    } else if vv == |c.xs| {
      LeafGood(c, cc, m);
    } else if Key(c.k, vv, cc) in m.keys {
    } else {
      InnerGood(c, vv, cc, m);
    }
  }

  /** An internal node not yet cached. */
  lemma {:induction false} InnerGood(c: Ctx, vv: nat, cc: nat, m: Memo)
    requires CtxOk(c) && vv < |c.xs| && cc <= c.k && MemoGood(c, m) && Key(c.k, vv, cc) !in m.keys
    ensures Built(c, vv, cc, m, Node(c, vv, cc, m))
    decreases |c.xs| - vv, 0
  {
    NodeGood(c, vv + 1, cc, m);
    var (low, m1) := Node(c, vv + 1, cc, m);
    NodeGood(c, vv + 1, cc + 1, m1);
    var (high, m2) := Node(c, vv + 1, cc + 1, m1);
    LitGoodMono(c, m1, m2, low, vv + 1, cc);
    assert Key(c.k, vv + 1, 0) == Key(c.k, vv, 0) + c.k + 1 > Key(c.k, vv, cc) >= Key(c.k, vv, 0);
    CombineGood(c, vv, cc, low, high, m2);
    assert Node(c, vv, cc, m) == Combine(c, vv, cc, low, high, m2);
  }

  // ---------------------------------------------------------------------
  // The posting functions

  /** What a decomposition posts: the clauses added (an enqueued literal as
      a unit clause) and the number of fresh variables. */
  datatype LeqOut = LeqOut(clauses: seq<Clause>, nfresh: nat)

  /** Some values of the fresh variables, with `a0` on the others, satisfy
      every clause posted. */
  ghost predicate Encodes(c: Ctx, out: LeqOut, a0: Asg)
  {
    exists a: Asg :: AgreeBelow(a, a0, c.base) && AllHold(a, out.clauses)
  }

  function Negations(xs: seq<Lit>): (r: seq<Lit>)
    ensures |r| == |xs| && forall i :: 0 <= i < |xs| ==> r[i] == Neg(xs[i])
  {
    seq(|xs|, i requires 0 <= i < |xs| => Neg(xs[i]))
  }

  /** One enqueued literal each. */
  function Units(ls: seq<Lit>): (r: seq<Clause>)
    ensures |r| == |ls| && forall i :: 0 <= i < |ls| ==> r[i] == [ls[i]]
  {
    seq(|ls|, i requires 0 <= i < |ls| => [ls[i]])
  }

  /** The BDD from node `(0, 0)` with an empty cache, its root enqueued. */
  function RootPost(c: Ctx): LeqOut
    requires CtxOk(c)
  {
    var (r, m) := Node(c, 0, 0, Memo(map[], [], []));
    LeqOut(m.clauses + [[r]], |m.defs|)
  }

  /** `bool_linear_leq(terminals, xs, k)`: with `k = 0` every literal is
      enqueued false; with `k >= |xs|` nothing is posted; with
      `k = |xs| - 1` one clause of all negations; otherwise the BDD. */
  function BoolLinearLeq(c: Ctx): LeqOut
    requires CtxOk(c)
  {
    if c.k == 0 then LeqOut(Units(Negations(c.xs)), 0)
    else if c.k >= |c.xs| then LeqOut([], 0)
    else if c.k == |c.xs| - 1 then LeqOut([Negations(c.xs)], 0)
    else RootPost(c)
  }

  /** `bool_linear_leq_std(terminals, xs, k)`: only the `k = 0` special case. */
  function BoolLinearLeqStd(c: Ctx): LeqOut
    requires CtxOk(c)
  {
    if c.k == 0 then LeqOut(Units(Negations(c.xs)), 0) else RootPost(c)
  }

  // ---------------------------------------------------------------------
  // Meaning of the posted clauses

  lemma {:induction false} CountNone(a: Asg, xs: seq<Lit>, vv: nat)
    requires vv <= |xs|
    ensures CountFrom(a, xs, vv) == 0 <==> forall i :: vv <= i < |xs| ==> !Holds(a, xs[i])
    decreases |xs| - vv
  {
    if vv < |xs| {
      CountNone(a, xs, vv + 1);
    }
  }

  lemma {:induction false} CountAll(a: Asg, xs: seq<Lit>, vv: nat)
    requires vv <= |xs|
    ensures CountFrom(a, xs, vv) == |xs| - vv <==> forall i :: vv <= i < |xs| ==> Holds(a, xs[i])
    decreases |xs| - vv
  {
    if vv < |xs| {
      CountAll(a, xs, vv + 1);
    }
  }

  /** Negating every literal counts the complement. */
  lemma {:induction false} CountNegations(a: Asg, xs: seq<Lit>, vv: nat)
    requires vv <= |xs|
    ensures CountFrom(a, Negations(xs), vv) == |xs| - vv - CountFrom(a, xs, vv)
    decreases |xs| - vv
  {
    if vv < |xs| {
      CountNegations(a, xs, vv + 1);
    }
  }

  lemma ClausesFrame(a: Asg, b: Asg, cs: seq<Clause>, base: nat)
    requires AgreeBelow(a, b, base) && ClausesBelow(cs, base)
    ensures AllHold(a, cs) == AllHold(b, cs)
  {
    forall j, i | 0 <= j < |cs| && 0 <= i < |cs[j]| ensures Holds(a, cs[j][i]) == Holds(b, cs[j][i]) {
      assert Below(cs[j][i], base);
    }
    assert forall j :: 0 <= j < |cs| ==> ClauseHolds(a, cs[j]) == ClauseHolds(b, cs[j]);
  }

  /** Clauses over the given literals mean the same under `a0` as in the encoding. */
  lemma EncodesBelow(c: Ctx, out: LeqOut, a0: Asg)
    requires ClausesBelow(out.clauses, c.base)
    ensures Encodes(c, out, a0) <==> AllHold(a0, out.clauses)
  {
    if Encodes(c, out, a0) {
      var a: Asg :| AgreeBelow(a, a0, c.base) && AllHold(a, out.clauses);
      ClausesFrame(a, a0, out.clauses, c.base);
    }
    assert AllHold(a0, out.clauses) ==> AgreeBelow(a0, a0, c.base);
  }

  /** Every literal enqueued false: the sum is 0. */
  lemma UnitsMean(c: Ctx, a0: Asg)
    requires CtxOk(c)
    ensures Encodes(c, LeqOut(Units(Negations(c.xs)), 0), a0) <==> Count(a0, c.xs) == 0
  {
    var cs := Units(Negations(c.xs));
    assert ClausesBelow(cs, c.base) by {
      forall j, i | 0 <= j < |cs| && 0 <= i < |cs[j]| ensures Below(cs[j][i], c.base) {
        assert Below(c.xs[j], c.base);
      }
    }
    EncodesBelow(c, LeqOut(cs, 0), a0);
    CountNone(a0, c.xs, 0);
    if AllHold(a0, cs) {
      forall i | 0 <= i < |c.xs| ensures !Holds(a0, c.xs[i]) {
        assert ClauseHolds(a0, cs[i]);
      }
    }
    if Count(a0, c.xs) == 0 {
      forall j | 0 <= j < |cs| ensures ClauseHolds(a0, cs[j]) {
        assert Holds(a0, cs[j][0]);
      }
    }
  }

  /** One clause of all negations: some literal is false. */
  lemma NegClauseMeans(c: Ctx, a0: Asg)
    requires CtxOk(c)
    ensures Encodes(c, LeqOut([Negations(c.xs)], 0), a0) <==> Count(a0, c.xs) < |c.xs|
  {
    var cl := Negations(c.xs);
    var cs: seq<Clause> := [cl];
    assert ClausesBelow(cs, c.base) by {
      forall j, i | 0 <= j < |cs| && 0 <= i < |cs[j]| ensures Below(cs[j][i], c.base) {
        assert Below(c.xs[i], c.base);
      }
    }
    EncodesBelow(c, LeqOut([cl], 0), a0);
    CountAll(a0, c.xs, 0);
    assert AllHold(a0, [cl]) <==> ClauseHolds(a0, cl);
    if ClauseHolds(a0, cl) {
      var i :| 0 <= i < |cl| && Holds(a0, cl[i]);
      assert !Holds(a0, c.xs[i]);
    }
    if Count(a0, c.xs) < |c.xs| {
      var i :| 0 <= i < |c.xs| && !Holds(a0, c.xs[i]);
      assert Holds(a0, cl[i]);
    }
  }

  /** The construction from the empty cache. */
  lemma RootBuilt(c: Ctx)
    requires CtxOk(c)
    ensures Built(c, 0, 0, Memo(map[], [], []), Node(c, 0, 0, Memo(map[], [], [])))
    ensures RootPost(c).clauses == Node(c, 0, 0, Memo(map[], [], [])).1.clauses + [[Node(c, 0, 0, Memo(map[], [], [])).0]]
  {
    var m0 := Memo(map[], [], []);
    assert MemoGood(c, m0);
    NodeGood(c, 0, 0, m0);
  }

  /** Whatever satisfies the clauses and an enqueued sound root satisfies
      the root's node function. */
  lemma RootSound(c: Ctx, r: Lit, m: Memo, a0: Asg)
    requires CtxOk(c) && Respects(a0, c.terms) && DefsOk(c, m.defs) && Sound(c, m, r, 0, 0)
    ensures Encodes(c, LeqOut(m.clauses + [[r]], |m.defs|), a0) ==> NodeFn(a0, c, 0, 0)
  {
    if Encodes(c, LeqOut(m.clauses + [[r]], |m.defs|), a0) {
      var a: Asg :| AgreeBelow(a, a0, c.base) && AllHold(a, m.clauses + [[r]]);
      AllHoldConcat(a, m.clauses, [[r]]);
      var unit: seq<Clause> := [[r]];
      assert unit[0] == [r];
      assert ClauseHolds(a, [r]);
      NodeFnFrame(a, a0, c, 0, 0);
    }
  }

  /** The canonical extension satisfies the clauses and an enqueued exact
      root wherever the root's node function holds. */
  lemma RootComplete(c: Ctx, r: Lit, m: Memo, a0: Asg)
    requires CtxOk(c) && Respects(a0, c.terms) && DefsOk(c, m.defs)
    requires Exact(c, m, r, 0, 0) && ClausesExact(c, m)
    ensures NodeFn(a0, c, 0, 0) ==> Encodes(c, LeqOut(m.clauses + [[r]], |m.defs|), a0)
  {
    if NodeFn(a0, c, 0, 0) {
      var a := Ext(c, m.defs, a0);
      assert AgreeBelow(a, a0, c.base);
      assert Holds(a, [r][0]);
      var unit: seq<Clause> := [[r]];
      assert unit[0] == [r];
      AllHoldConcat(a, m.clauses, unit);
    }
  }

  /** The enqueued root of the BDD admits exactly the node function of `(0, 0)`. */
  lemma RootMeans(c: Ctx, a0: Asg)
    requires CtxOk(c) && Respects(a0, c.terms)
    ensures Encodes(c, RootPost(c), a0) <==> NodeFn(a0, c, 0, 0)
  {
    RootBuilt(c);
    var p := Node(c, 0, 0, Memo(map[], [], []));
    assert RootPost(c) == LeqOut(p.1.clauses + [[p.0]], |p.1.defs|);
    RootSound(c, p.0, p.1, a0);
    RootComplete(c, p.0, p.1, a0);
  }

  /** With every terminal true, `bool_linear_leq` posts exactly `sum xs <= k`. */
  lemma BoolLinearLeqMeans(c: Ctx, a0: Asg)
    requires CtxOk(c) && forall i :: 0 <= i < |c.terms| ==> c.terms[i] == Const(true)
    ensures Encodes(c, BoolLinearLeq(c), a0) <==> Count(a0, c.xs) <= c.k
  {
    if c.k == 0 {
      UnitsMean(c, a0);
    } else if c.k >= |c.xs| {
      EncodesBelow(c, LeqOut([], 0), a0);
    } else if c.k == |c.xs| - 1 {
      NegClauseMeans(c, a0);
    } else {
      RootMeans(c, a0);
    }
  }

  /** `bool_linear_leq_std` posts `sum xs <= k` together with the terminal
      of the sum, given terminals that a higher count implies a lower one
      and a first terminal that holds. */
  lemma BoolLinearLeqStdMeans(c: Ctx, a0: Asg)
    requires CtxOk(c) && Respects(a0, c.terms) && (c.k >= 0 ==> Holds(a0, c.terms[0]))
    ensures Encodes(c, BoolLinearLeqStd(c), a0) <==>
      Count(a0, c.xs) <= c.k && Holds(a0, c.terms[Count(a0, c.xs)])
  {
    if c.k == 0 {
      UnitsMean(c, a0);
    } else {
      RootMeans(c, a0);
    }
  }

  // ---------------------------------------------------------------------
  // The two entry points

  /** The relation normalised to `<=`: the polarity of the literals and
      the new bound. `LT` lowers `k` by one; `GE` counts the negations
      against `|x| - k`, `GT` the same after raising `k` by one. */
  function Normalise(t: Binary.Rel, n: nat, k: int): (r: Res<(bool, int)>)
    ensures !r.Fail?
    ensures r.Fatal? <==> t == Binary.IrtEQ || t == Binary.IrtNE
  {
    match t
    case IrtLT => Ok((true, k - 1))
    case IrtLE => Ok((true, k))
    case IrtGT => Ok((false, n - (k + 1)))
    case IrtGE => Ok((false, n - k))
    case _ => Fatal(NotSupported)
  }

  /** `x[ii].getLit(polarity)`. */
  function ViewLits(x: seq<Lit>, polarity: bool): seq<Lit>
  {
    if polarity then x else Negations(x)
  }

  function AllTrue(n: int): (r: seq<Lit>)
  {
    seq(if n >= 0 then n else 0, _ => Const(true))
  }

  /** `bool_linear_decomp(x, t, k)` over literals `x`, fresh variables from `base`. */
  function BoolLinearDecomp(x: seq<Lit>, t: Binary.Rel, k: int, base: nat): (r: Res<LeqOut>)
    requires AllBelow(x, base)
  {
    match Normalise(t, |x|, k)
    case Ok((polarity, k2)) =>
      var c := Ctx(ViewLits(x, polarity), AllTrue(k2 + 1), k2, base);
      assert AllBelow(c.xs, base) by {
        forall i | 0 <= i < |c.xs| ensures Below(c.xs[i], base) {
          assert Below(x[i], base);
        }
      }
      Ok(BoolLinearLeq(c))
    case _ => Fatal(NotSupported)
  }

  /** The decomposition of `sum x t k` admits exactly the assignments in
      which the number of true literals of `x` stands in relation `t` to
      `k`; equality and disequality are not supported. */
  lemma BoolLinearDecompMeans(x: seq<Lit>, t: Binary.Rel, k: int, base: nat, a0: Asg)
    requires AllBelow(x, base)
    ensures BoolLinearDecomp(x, t, k, base).Fatal? <==> t == Binary.IrtEQ || t == Binary.IrtNE
    ensures BoolLinearDecomp(x, t, k, base).Ok? ==>
      (Encodes(Ctx(x, [], k, base), BoolLinearDecomp(x, t, k, base).value, a0) <==>
       Binary.RelHolds(t, Count(a0, x), k))
  {
    var nr := Normalise(t, |x|, k);
    if nr.Ok? {
      var (polarity, k2) := nr.value;
      var c := Ctx(ViewLits(x, polarity), AllTrue(k2 + 1), k2, base);
      assert BoolLinearDecomp(x, t, k, base) == Ok(BoolLinearLeq(c));
      assert CtxOk(c) by {
        forall i | 0 <= i < |c.xs| ensures Below(c.xs[i], base) {
          assert Below(x[i], base);
        }
      }
      BoolLinearLeqMeans(c, a0);
      if !polarity {
        CountNegations(a0, x, 0);
      }
    }
  }

  /** `kv.setMin(0)` and `kv.setMax(|x|)`, each only when it narrows; a
      failing narrowing leaves `kv` as it was. */
  function ClampKv(kv: IntVar, n: nat): (r: IntVar)
    requires Valid(kv)
    ensures Valid(r)
    ensures kv.max >= 0 ==> r.min >= 0
    ensures r.max <= kv.max && (r.min <= n ==> r.max <= n)
    ensures forall w :: InDom(r, w) ==> InDom(kv, w)
    ensures forall w :: 0 <= w <= n && InDom(kv, w) ==> InDom(r, w)
    ensures (exists w :: 0 <= w <= n && InDom(kv, w)) ==> forall w :: InDom(r, w) <==> InDom(kv, w) && 0 <= w <= n
    ensures kv.max < 0 || kv.min > n ==> r == kv
  {
    var kv1 := if SetMinNotR(kv, 0) then (match SetMin(kv, 0) case Ok(v) => v case _ => kv) else kv;
    if SetMaxNotR(kv1, n) then (match SetMax(kv1, n) case Ok(v) => v case _ => kv1) else kv1
  }

  /** `terminals[ii] = kv.getLit(ii, LR_GE)` for `ii` in `0..k`. */
  function Terminals(ge: int -> Lit, k: int): (r: seq<Lit>)
    ensures TermsFor(r, k) && forall ii :: 0 <= ii < |r| ==> r[ii] == ge(ii)
  {
    seq(if k >= 0 then k + 1 else 0, ii => ge(ii))
  }

  /** `bool_linear_decomp(x, IRT_LE, kv)`: `sum x <= kv`. `kv` is clamped to
      `0..|x|` and made eager; `ge(ii)` is its literal `[kv >= ii]`. */
  function BoolLinearDecompVar(x: seq<Lit>, t: Binary.Rel, kv: IntVar, ge: int -> Lit, base: nat): (r: Res<(IntVar, LeqOut)>)
    requires Valid(kv) && AllBelow(x, base) && forall ii :: Below(ge(ii), base)
    ensures r.Fatal? <==> t != Binary.IrtLE || kv.kind == LL
    ensures !r.Fail?
    ensures r.Ok? ==> Valid(r.value.0) && (forall w :: InDom(r.value.0, w) <==> InDom(ClampKv(kv, |x|), w))
  {
    if t != Binary.IrtLE then Fatal(NotSupported)
    else
      var kv1 := ClampKv(kv, |x|);
      match Element.SpecialiseToEL(kv1)
      case Ok(kv2) =>
        var k := kv2.max;
        var c := Ctx(x, Terminals(ge, k), k, base);
        Ok((kv2, BoolLinearLeqStd(c)))
      case _ => Fatal(NeverLin)
  }

  /** The literals `ge(ii)` for `0 <= ii <= k` are `[w >= ii]`. */
  ghost predicate GeChannel(a0: Asg, ge: int -> Lit, k: int, w: int)
  {
    forall ii :: 0 <= ii <= k ==> (Holds(a0, ge(ii)) <==> ii <= w)
  }

  /** For every value `w` left to `kv`, with its literals channelled, the
      decomposition admits exactly the assignments with at most `w` true
      literals in `x`. */
  lemma BoolLinearDecompVarMeans(x: seq<Lit>, kv: IntVar, ge: int -> Lit, base: nat, a0: Asg, w: int)
    requires Valid(kv) && AllBelow(x, base) && forall ii :: Below(ge(ii), base)
    requires kv.kind != LL
    requires InDom(ClampKv(kv, |x|), w) && GeChannel(a0, ge, ClampKv(kv, |x|).max, w)
    ensures BoolLinearDecompVar(x, Binary.IrtLE, kv, ge, base).Ok?
    ensures Encodes(Ctx(x, [], 0, base), BoolLinearDecompVar(x, Binary.IrtLE, kv, ge, base).value.1, a0) <==>
      Count(a0, x) <= w
  {
    var kv1 := ClampKv(kv, |x|);
    var kv2 := Element.SpecialiseToEL(kv1).value;
    var k := kv2.max;
    var c := Ctx(x, Terminals(ge, k), k, base);
    assert CtxOk(c);
    assert Respects(a0, c.terms);
    if k >= 0 {
      assert Holds(a0, c.terms[0]);
    }
    BoolLinearLeqStdMeans(c, a0);
  }
}
