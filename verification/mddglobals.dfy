/** The MDD-based global constraints of chuffed/globals/mddglobals.cpp:
    `mdd_table` (the OR of one `tuple` per row, complemented for a
    negative table), `fd_regular` (a layered diagram whose level `L` holds,
    for each DFA state, the node accepting exactly the suffixes of length
    `L` the DFA accepts from that state), and the posting helpers `addMDD`
    and `addMDDProp`. The propagator they post is not part of this model:
    posting yields a record of what it is given. */
module MddGlobals {
  import opened Base
  import IntVars
  import Element
  import SymBreak
  import Regular
  import opened MddNodes
  import opened MddApply
  import opened MddOps
  import opened MddBuild

  // ---------------------------------------------------------------------
  // Posting

  /** What `addMDDProp` hands to the MDD propagator: the domain size of
      each variable, the variables after `specialiseToEL`, and the diagram. */
  datatype MddPosted = MddPosted(doms: seq<int>, xs: seq<IntVars.IntVar>, t: Table, root: nat)

  /** `addMDDProp(x, tab, m)`: `doms[i]` is one past the largest value of
      `x[i]`, read before every variable is made eager; a lazy variable
      cannot be made eager. */
  function AddMddProp(xs: seq<IntVars.IntVar>, t: Table, m: nat): (r: Res<MddPosted>)
    ensures !r.Fail?
    ensures r.Fatal? <==> exists i :: 0 <= i < |xs| && xs[i].kind == IntVars.LL
    ensures r.Ok? ==> r.value.t == t && r.value.root == m && |r.value.doms| == |xs| == |r.value.xs|
    ensures r.Ok? ==> forall i :: 0 <= i < |xs| ==> r.value.doms[i] == xs[i].max + 1
    ensures r.Ok? ==> forall i, v :: 0 <= i < |xs| && IntVars.InDom(xs[i], v) ==> v < r.value.doms[i]
    ensures r.Ok? ==> forall i :: 0 <= i < |xs| ==>
      (r.value.xs[i].kind == IntVars.EL || r.value.xs[i].kind == IntVars.SL) &&
      r.value.xs[i] == xs[i].(kind := r.value.xs[i].kind)
  {
    var doms := seq(|xs|, i requires 0 <= i < |xs| => xs[i].max + 1);
    match SymBreak.SpecialiseAll(xs)
    case Ok(ys) =>
      assert forall i :: 0 <= i < |xs| ==> Ok(ys[i]) == Element.SpecialiseToEL(xs[i]);
      Ok(MddPosted(doms, ys, t, m))
    case Fatal(msg) => Fatal(msg)
  }

  /** `addMDD(x, m)`: nothing is posted for the TRUE diagram. */
  function AddMdd(xs: seq<IntVars.IntVar>, t: Table, m: nat): (r: Res<Option<MddPosted>>)
    ensures r == Ok(None) <==> m == MddTrue
    ensures m != MddTrue ==> match AddMddProp(xs, t, m)
      case Ok(p) => r == Ok(Some(p))
      case Fatal(msg) => r == Fatal(msg)
      case Fail => false
  {
    if m == MddTrue then Ok(None)
    else
      match AddMddProp(xs, t, m)
      case Ok(p) => Ok(Some(p))
      case Fatal(msg) => Fatal(msg)
  }

  // ---------------------------------------------------------------------
  // mdd_table

  /** Row `tpl` fixes the first `|tpl|` variables. */
  predicate Matches(tpl: seq<int>, xs: Point)
  {
    forall k :: 0 <= k < |tpl| ==> xs(k) == tpl[k]
  }

  predicate InTable(entries: seq<seq<int>>, xs: Point)
  {
    exists e :: 0 <= e < |entries| && Matches(entries[e], xs)
  }

  /** `mdd_table(tab, arity, doms, entries, is_pos)`: the points some row
      matches, or for a negative table the points no row matches. */
  method MddTable(t: Table, arity: nat, doms: seq<int>, entries: seq<seq<int>>, isPos: bool) returns (o: Out)
    requires Wf(t) && |doms| == arity
    requires forall e :: 0 <= e < |entries| ==> |entries[e]| <= t.nvars
    ensures Grows(t, o)
    ensures forall xs: Point :: Eval(o.t, o.r, xs) <==> InTable(entries, xs) == isPos
  {
    o := Out(t, MddFalse);
    var i := 0;
    while i < |entries|
      invariant 0 <= i <= |entries| && Grows(t, o)
      invariant forall xs: Point :: Eval(o.t, o.r, xs) <==> InTable(entries[..i], xs)
    {
      var row := Tuple(o.t, entries[i]);
      var next := Apply(row.t, Or, o.r, row.r);
      TableStep(t, entries, i, o, row, next);
      o := next;
      i := i + 1;
    }
    assert entries[..i] == entries;
    if !isPos {
      var neg := Unary(o.t, Not, o.r);
      ExtendsTrans(t, o.t, neg.t);
      o := neg;
    }
  }

  lemma TableStep(t: Table, entries: seq<seq<int>>, i: nat, o: Out, row: Out, next: Out)
    requires Wf(t) && i < |entries| && Grows(t, o) && Grows(o.t, row) && Grows(row.t, next) && o.r < Size(row.t)
    requires forall xs: Point :: Eval(o.t, o.r, xs) <==> InTable(entries[..i], xs)
    requires forall xs: Point :: Eval(row.t, row.r, xs) <==> Matches(entries[i], xs)
    requires forall xs: Point :: Eval(next.t, next.r, xs) == (Eval(row.t, o.r, xs) || Eval(row.t, row.r, xs))
    ensures Grows(t, next)
    ensures forall xs: Point :: Eval(next.t, next.r, xs) <==> InTable(entries[..i + 1], xs)
  {
    ExtendsTrans(t, o.t, row.t);
    ExtendsTrans(t, row.t, next.t);
    forall xs: Point ensures Eval(next.t, next.r, xs) <==> InTable(entries[..i + 1], xs) {
      EvalExtends(o.t, row.t, o.r, xs);
      assert entries[..i + 1][i] == entries[i];
      if InTable(entries[..i + 1], xs) && !Matches(entries[i], xs) {
        var e :| 0 <= e < i + 1 && Matches(entries[..i + 1][e], xs);
        assert entries[..i + 1][e] == entries[..i][e];
      }
      if InTable(entries[..i], xs) {
        var e :| 0 <= e < i && Matches(entries[..i][e], xs);
        assert entries[..i + 1][e] == entries[..i][e];
      }
    }
  }

  /** The `mdd_table(x, t)` constraint: a positive table over `|x|`
      variables in a fresh node table, posted through `addMDDProp`. */
  method MddTableConstraint(xs: seq<IntVars.IntVar>, entries: seq<seq<int>>) returns (r: Res<MddPosted>)
    requires forall e :: 0 <= e < |entries| ==> |entries[e]| <= |xs|
    ensures !r.Fail?
    ensures r.Fatal? <==> exists i :: 0 <= i < |xs| && xs[i].kind == IntVars.LL
    ensures r.Ok? ==> Wf(r.value.t) && r.value.root < Size(r.value.t) && r.value.t.nvars == |xs|
    ensures r.Ok? ==> forall p: Point :: Eval(r.value.t, r.value.root, p) <==> InTable(entries, p)
  {
    var doms := seq(|xs|, i requires 0 <= i < |xs| => xs[i].max + 1);
    var t := Table(|xs|, []);
    var m := MddTable(t, |xs|, doms, entries, true);
    r := AddMddProp(xs, m.t, m.r);
  }

  // ---------------------------------------------------------------------
  // fd_regular

  /** The value that selects transition index `k`: `k + 1` when symbols
      are offset by one, else `k`. */
  function Sym(offset: bool, k: nat): int
  {
    if offset then k + 1 else k
  }

  /** The DFA move on value `v`. */
  function Step(a: Regular.Dfa, offset: bool, st: int, v: int): (r: int)
    requires Regular.RegularCheck(a)
    ensures 0 <= r <= a.q
  {
    Regular.Delta(a, st, if offset then v else v + 1)
  }

  /** Reading `xs(j), ..., xs(n - 1)` from state `st` ends in an accepting
      state. */
  predicate AcceptsFrom(a: Regular.Dfa, offset: bool, xs: Point, j: nat, n: nat, st: int)
    requires Regular.RegularCheck(a)
    decreases n - j
  {
    if j >= n then Regular.Accept(a, st)
    else AcceptsFrom(a, offset, xs, j + 1, n, Step(a, offset, st, xs(j)))
  }

  /** The dead state accepts nothing. */
  lemma {:induction false} DeadRejects(a: Regular.Dfa, offset: bool, xs: Point, j: nat, n: nat)
    requires Regular.RegularCheck(a)
    ensures !AcceptsFrom(a, offset, xs, j, n, 0)
    decreases n - j
  {
    if j < n {
      DeadRejects(a, offset, xs, j + 1, n);
    }
  }

  /** The first `n` values of a point. */
  function Word(xs: Point, n: nat): (w: seq<int>)
    ensures |w| == n && forall k :: 0 <= k < n ==> w[k] == xs(k)
  {
    seq(n, k requires 0 <= k < n => xs(k))
  }

  lemma {:induction false} AcceptsFromState(a: Regular.Dfa, xs: Point, n: nat, k: nat)
    requires Regular.RegularCheck(a) && k <= n
    ensures AcceptsFrom(a, true, xs, k, n, Regular.State(a, Word(xs, n), k)) == Regular.Accepts(a, Word(xs, n))
    decreases n - k
  {
    if k < n {
      AcceptsFromState(a, xs, n, k + 1);
    }
  }

  /** With symbols offset by one, the diagram's language is the one the
      `regular` decomposition accepts. */
  lemma AcceptsAgree(a: Regular.Dfa, xs: Point, n: nat)
    requires Regular.RegularCheck(a)
    ensures AcceptsFrom(a, true, xs, 0, n, a.q0) == Regular.Accepts(a, Word(xs, n))
  {
    AcceptsFromState(a, xs, n, 0);
  }

  /** The `mdd_case` pair for transition index `m` of state `i + 1`. */
  function Pair(a: Regular.Dfa, offset: bool, i: nat, level: seq<nat>, m: nat): (int, nat)
    requires Regular.RegularCheck(a) && i < a.q && |level| == a.q && m < a.s && a.d[i][m] > 0
  {
    (Sym(offset, m), level[a.d[i][m] - 1])
  }

  /** The live transitions out of state `i + 1` from index `k` on, as
      `mdd_case` pairs `(value, node of the target state)`. */
  function Cases(a: Regular.Dfa, offset: bool, i: nat, level: seq<nat>, k: nat): (cs: seq<(int, nat)>)
    requires Regular.RegularCheck(a) && i < a.q && |level| == a.q && k <= a.s
    ensures forall m :: k <= m < a.s && a.d[i][m] > 0 ==> Pair(a, offset, i, level, m) in cs
    ensures forall c :: c in cs ==> exists m :: k <= m < a.s && a.d[i][m] > 0 && c == Pair(a, offset, i, level, m)
    decreases a.s - k
  {
    if k == a.s then []
    else
      var rest := Cases(a, offset, i, level, k + 1);
      if a.d[i][k] > 0 then [Pair(a, offset, i, level, k)] + rest else rest
  }

  /** `level[i]` is the node for state `i + 1` reading from variable `j`. */
  ghost predicate Labels(t: Table, a: Regular.Dfa, offset: bool, level: seq<nat>, j: nat, n: nat)
    requires Regular.RegularCheck(a)
  {
    Wf(t) && |level| <= a.q &&
    forall i :: 0 <= i < |level| ==>
      level[i] < Size(t) && forall xs: Point :: Eval(t, level[i], xs) == AcceptsFrom(a, offset, xs, j, n, i + 1)
  }

  lemma LabelsExtends(t: Table, t2: Table, a: Regular.Dfa, offset: bool, level: seq<nat>, j: nat, n: nat)
    requires Regular.RegularCheck(a) && Labels(t, a, offset, level, j, n) && Wf(t2) && Extends(t, t2)
    ensures Labels(t2, a, offset, level, j, n)
  {
    forall i, xs: Point | 0 <= i < |level| ensures Eval(t2, level[i], xs) == Eval(t, level[i], xs) {
      EvalExtends(t, t2, level[i], xs);
    }
  }

  /** Level 0: TRUE exactly for the accepting states. */
  function Initial(a: Regular.Dfa): (level: seq<nat>)
    requires Regular.RegularCheck(a)
    ensures |level| == a.q
  {
    seq(a.q, i requires 0 <= i < a.q => if Regular.Accept(a, i + 1) then MddTrue else MddFalse)
  }

  lemma InitialLabels(t: Table, a: Regular.Dfa, offset: bool, n: nat)
    requires Wf(t) && Regular.RegularCheck(a)
    ensures Labels(t, a, offset, Initial(a), n, n)
  {
  }

  /** `mdd_case(j, cases)` for state `i + 1` over the nodes of the level
      below. */
  method StateNode(t: Table, a: Regular.Dfa, offset: bool, level: seq<nat>, i: nat, j: nat, n: nat) returns (o: Out)
    requires Regular.RegularCheck(a) && Labels(t, a, offset, level, j + 1, n) && |level| == a.q
    requires i < a.q && j < n && j < t.nvars
    ensures Grows(t, o)
    ensures forall xs: Point :: Eval(o.t, o.r, xs) == AcceptsFrom(a, offset, xs, j, n, i + 1)
  {
    var cs := Cases(a, offset, i, level, 0);
    CasesBelow(t, a, offset, level, i, j, n, cs);
    o := Case(t, j, cs);
    forall xs: Point ensures Eval(o.t, o.r, xs) == AcceptsFrom(a, offset, xs, j, n, i + 1) {
      CasesMean(t, a, offset, level, i, j, n, cs, xs);
    }
  }

  /** Every case leads to a node of the level below. */
  lemma CasesBelow(t: Table, a: Regular.Dfa, offset: bool, level: seq<nat>, i: nat, j: nat, n: nat, cs: seq<(int, nat)>)
    requires Regular.RegularCheck(a) && Labels(t, a, offset, level, j + 1, n) && |level| == a.q
    requires i < a.q && cs == Cases(a, offset, i, level, 0)
    ensures forall c :: 0 <= c < |cs| ==> cs[c].1 < Size(t)
  {
    forall c | 0 <= c < |cs| ensures cs[c].1 < Size(t) {
      assert cs[c] in cs;
    }
  }

  lemma CasesSound(t: Table, a: Regular.Dfa, offset: bool, level: seq<nat>, i: nat, j: nat, n: nat, cs: seq<(int, nat)>, xs: Point, c: nat)
    requires Regular.RegularCheck(a) && Labels(t, a, offset, level, j + 1, n) && |level| == a.q
    requires i < a.q && j < n && cs == Cases(a, offset, i, level, 0)
    requires c < |cs| && cs[c].1 < Size(t) && xs(j) == cs[c].0 && Eval(t, cs[c].1, xs)
    ensures AcceptsFrom(a, offset, xs, j, n, i + 1)
  {
    assert cs[c] in cs;
    var m :| 0 <= m < a.s && a.d[i][m] > 0 && cs[c] == Pair(a, offset, i, level, m);
    assert Step(a, offset, i + 1, xs(j)) == a.d[i][m];
  }

  lemma CasesComplete(t: Table, a: Regular.Dfa, offset: bool, level: seq<nat>, i: nat, j: nat, n: nat, cs: seq<(int, nat)>, xs: Point)
    requires Regular.RegularCheck(a) && Labels(t, a, offset, level, j + 1, n) && |level| == a.q
    requires i < a.q && j < n && cs == Cases(a, offset, i, level, 0)
    requires AcceptsFrom(a, offset, xs, j, n, i + 1)
    ensures forall c :: 0 <= c < |cs| ==> cs[c].1 < Size(t)
    ensures exists c :: 0 <= c < |cs| && xs(j) == cs[c].0 && Eval(t, cs[c].1, xs)
  {
    CasesBelow(t, a, offset, level, i, j, n, cs);
    var st := Step(a, offset, i + 1, xs(j));
    DeadRejects(a, offset, xs, j + 1, n);
    var m := (if offset then xs(j) else xs(j) + 1) - 1;
    assert 0 <= m < a.s && st == a.d[i][m];
    var c :| 0 <= c < |cs| && cs[c] == Pair(a, offset, i, level, m);
    assert xs(j) == cs[c].0 && Eval(t, cs[c].1, xs);
  }

  /** The cases of state `i + 1` mean: reading `xs(j)` leads to a state
      accepting the rest. */
  lemma CasesMean(t: Table, a: Regular.Dfa, offset: bool, level: seq<nat>, i: nat, j: nat, n: nat, cs: seq<(int, nat)>, xs: Point)
    requires Regular.RegularCheck(a) && Labels(t, a, offset, level, j + 1, n) && |level| == a.q
    requires i < a.q && j < n && cs == Cases(a, offset, i, level, 0)
    ensures forall c :: 0 <= c < |cs| ==> cs[c].1 < Size(t)
    ensures (exists c :: 0 <= c < |cs| && xs(j) == cs[c].0 && Eval(t, cs[c].1, xs)) ==
      AcceptsFrom(a, offset, xs, j, n, i + 1)
  {
    CasesBelow(t, a, offset, level, i, j, n, cs);
    if exists c :: 0 <= c < |cs| && xs(j) == cs[c].0 && Eval(t, cs[c].1, xs) {
      var c :| 0 <= c < |cs| && xs(j) == cs[c].0 && Eval(t, cs[c].1, xs);
      CasesSound(t, a, offset, level, i, j, n, cs, xs, c);
    }
    if AcceptsFrom(a, offset, xs, j, n, i + 1) {
      CasesComplete(t, a, offset, level, i, j, n, cs, xs);
    }
  }

  /** One level of `fd_regular`: a node per state for variable `j`, in
      state order, each built in the table the previous one left. */
  method NextLevel(t: Table, a: Regular.Dfa, offset: bool, level: seq<nat>, j: nat, n: nat) returns (t2: Table, next: seq<nat>)
    requires Regular.RegularCheck(a) && Labels(t, a, offset, level, j + 1, n) && |level| == a.q
    requires j < n && j < t.nvars
    ensures Extends(t, t2) && Labels(t2, a, offset, next, j, n) && |next| == a.q
  {
    t2 := t;
    next := [];
    var i := 0;
    while i < a.q
      invariant 0 <= i <= a.q && |next| == i && Extends(t, t2)
      invariant Labels(t2, a, offset, level, j + 1, n) && Labels(t2, a, offset, next, j, n)
    {
      var o := StateNode(t2, a, offset, level, i, j, n);
      LabelsExtends(t2, o.t, a, offset, level, j + 1, n);
      LabelsExtends(t2, o.t, a, offset, next, j, n);
      ExtendsTrans(t, t2, o.t);
      next := next + [o.r];
      t2 := o.t;
      i := i + 1;
    }
  }

  /** `fd_regular(tab, n, q + 1, d, q0, f, offset)`: the levels from the
      last variable up; the result is the node of `q0` at the top. */
  method FdRegular(t: Table, n: nat, a: Regular.Dfa, offset: bool) returns (o: Out)
    requires Wf(t) && Regular.RegularCheck(a) && n <= t.nvars
    ensures Grows(t, o)
    ensures forall xs: Point :: Eval(o.t, o.r, xs) == AcceptsFrom(a, offset, xs, 0, n, a.q0)
  {
    var level := Initial(a);
    InitialLabels(t, a, offset, n);
    var tt := t;
    var j := n;
    while j > 0
      invariant 0 <= j <= n && Extends(t, tt) && Labels(tt, a, offset, level, j, n) && |level| == a.q
    {
      j := j - 1;
      tt, level := NextLevel(tt, a, offset, level, j, n);
    }
    o := Out(tt, level[a.q0 - 1]);
  }

  /** `mdd_regular(x, q, s, d, q0, f, offset)`: the DFA's diagram over
      `|x|` variables in a fresh table, posted through `addMDDProp`. */
  method MddRegular(xs: seq<IntVars.IntVar>, a: Regular.Dfa, offset: bool) returns (r: Res<MddPosted>)
    requires Regular.RegularCheck(a)
    ensures !r.Fail?
    ensures r.Fatal? <==> exists i :: 0 <= i < |xs| && xs[i].kind == IntVars.LL
    ensures r.Ok? ==> Wf(r.value.t) && r.value.root < Size(r.value.t)
    ensures r.Ok? ==> forall p: Point :: Eval(r.value.t, r.value.root, p) == AcceptsFrom(a, offset, p, 0, |xs|, a.q0)
  {
    var t := Table(|xs|, []);
    var m := FdRegular(t, |xs|, a, offset);
    r := AddMddProp(xs, m.t, m.r);
  }

  // ---------------------------------------------------------------------
  // wmdd_cost_regular

  /** A weighted transition: its cost and its target state. */
  datatype WdfaTrans = WdfaTrans(weight: int, dest: int)

  /** Position of the transition for state `qi + 1` on symbol `vi + 1`. */
  function Pos(qi: nat, vi: nat, s: nat): nat
  {
    qi * s + vi
  }

  /** The transitions of `wmdd_cost_regular`, row by row: the one for
      state `qi + 1` on symbol `vi + 1` sits at `qi * s + vi`. */
  method WdfaTransitions(q: nat, s: nat, d: seq<seq<int>>, w: seq<seq<int>>) returns (ts: seq<WdfaTrans>)
    requires |d| >= q && |w| >= q && forall qi :: 0 <= qi < q ==> |d[qi]| >= s && |w[qi]| >= s
    ensures |ts| == q * s
    ensures forall qi, vi :: 0 <= qi < q && 0 <= vi < s ==>
      Pos(qi, vi, s) < |ts| && ts[Pos(qi, vi, s)] == WdfaTrans(w[qi][vi], d[qi][vi])
  {
    ts := [];
    var qi := 0;
    while qi < q
      invariant 0 <= qi <= q && |ts| == qi * s
      invariant forall a, b :: 0 <= a < qi && 0 <= b < s ==> Pos(a, b, s) < |ts| && ts[Pos(a, b, s)] == WdfaTrans(w[a][b], d[a][b])
    {
      var next := AppendRow(ts, qi, s, d, w);
      RowStep(ts, next, qi, s, d, w);
      ts := next;
      qi := qi + 1;
    }
    assert qi == q;
  }

  /** Appends the transitions of state `row + 1`, in symbol order. */
  method AppendRow(ts: seq<WdfaTrans>, row: nat, s: nat, d: seq<seq<int>>, w: seq<seq<int>>) returns (r: seq<WdfaTrans>)
    requires row < |d| && row < |w| && |d[row]| >= s && |w[row]| >= s
    ensures |r| == |ts| + s && r[..|ts|] == ts
    ensures forall b :: 0 <= b < s ==> r[|ts| + b] == WdfaTrans(w[row][b], d[row][b])
  {
    r := ts;
    var vi := 0;
    while vi < s
      invariant 0 <= vi <= s && |r| == |ts| + vi && r[..|ts|] == ts
      invariant forall b :: 0 <= b < vi ==> r[|ts| + b] == WdfaTrans(w[row][b], d[row][b])
    {
      r := r + [WdfaTrans(w[row][vi], d[row][vi])];
      vi := vi + 1;
    }
  }

  lemma RowStep(ts: seq<WdfaTrans>, next: seq<WdfaTrans>, qi: nat, s: nat, d: seq<seq<int>>, w: seq<seq<int>>)
    requires qi < |d| && qi < |w| && |ts| == qi * s
    requires forall a :: 0 <= a < qi ==> a < |d| && a < |w| && |d[a]| >= s && |w[a]| >= s
    requires forall a, b :: 0 <= a < qi && 0 <= b < s ==> Pos(a, b, s) < |ts| && ts[Pos(a, b, s)] == WdfaTrans(w[a][b], d[a][b])
    requires |d[qi]| >= s && |w[qi]| >= s
    requires |next| == |ts| + s && next[..|ts|] == ts
    requires forall b :: 0 <= b < s ==> next[|ts| + b] == WdfaTrans(w[qi][b], d[qi][b])
    ensures |next| == (qi + 1) * s
    ensures forall a, b :: 0 <= a < qi + 1 && 0 <= b < s ==> Pos(a, b, s) < |next| && next[Pos(a, b, s)] == WdfaTrans(w[a][b], d[a][b])
  {
    forall a, b | 0 <= a < qi + 1 && 0 <= b < s
      ensures Pos(a, b, s) < |next| && next[Pos(a, b, s)] == WdfaTrans(w[a][b], d[a][b])
    {
      if a < qi {
        assert next[Pos(a, b, s)] == next[..|ts|][Pos(a, b, s)];
      } else {
        assert Pos(a, b, s) == |ts| + b;
      }
    }
  }
}
