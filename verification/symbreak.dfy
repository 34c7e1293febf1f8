/** The symmetry-breaking constraints of chuffed/globals/sym-break.cpp:
    `var_sym_break` orders interchangeable variables, `BinLTInf` keeps
    `(x = k /\ y = k) \/ x < y`, and `val_sym_break` orders interchangeable
    values `l..u` by their first occurrence in `x`, through one variable per
    value that holds the index of that occurrence (`|x|` when there is none). */
module SymBreak {
  import opened Base
  import opened IntVars
  import opened Propagation
  import opened Element

  // Messages of the fatal errors below.
  const ReadPastX := "x[i] read past the end"

  // ---------------------------------------------------------------------
  // var_sym_break

  /** Each `i` of the result posts `x[i] <= x[i+1]`. */
  ghost predicate ChainHolds(xv: seq<int>, ps: seq<nat>)
  {
    forall k :: 0 <= k < |ps| ==> ps[k] + 1 < |xv| && xv[ps[k]] <= xv[ps[k] + 1]
  }

  ghost predicate NonDecreasing(xv: seq<int>)
  {
    forall i, j :: 0 <= i < j < |xv| ==> xv[i] <= xv[j]
  }

  /** The positions `0 .. n - 2`. */
  function Consecutive(n: nat): (ps: seq<nat>)
    ensures n >= 1 ==> |ps| == n - 1
    ensures n == 0 ==> ps == []
    ensures forall k :: 0 <= k < |ps| ==> ps[k] == k
  {
    if n <= 1 then [] else Consecutive(n - 1) + [n - 2]
  }

  /** `var_sym_break(x)` for `n` variables. With no variables the loop
      bound `x.size() - 1` wraps round and `x[0]` of an empty vector is read. */
  function VarSymBreakAsWritten(n: nat): (r: Res<seq<nat>>)
    requires n < 0x1_0000_0000
    ensures !r.Fail?
    ensures r.Fatal? <==> n == 0
    ensures r.Ok? ==> r.value == Consecutive(n)
  {
    var bound := (n - 1) % 0x1_0000_0000;
    if bound >= n then Fatal(ReadPastX) else Ok(Consecutive(n))
  }

  /** The empty input that makes the loop run past the vector. */
  lemma VarSymBreakEmptyReads()
    ensures VarSymBreakAsWritten(0).Fatal?
  {
  }

  /** `var_sym_break(x)` with the empty array posting nothing. */
  function VarSymBreak(n: nat): (r: seq<nat>)
    ensures n >= 1 ==> |r| == n - 1
    ensures forall k :: 0 <= k < |r| ==> r[k] == k
  {
    Consecutive(n)
  }

  /** The posted constraints hold exactly of the non-decreasing sequences. */
  lemma VarSymBreakMeans(xv: seq<int>)
    ensures ChainHolds(xv, VarSymBreak(|xv|)) <==> NonDecreasing(xv)
  {
    var ps := VarSymBreak(|xv|);
    if ChainHolds(xv, ps) {
      forall i, j | 0 <= i < j < |xv| ensures xv[i] <= xv[j] {
        StepsUp(xv, i, j);
      }
    }
    if NonDecreasing(xv) {
      forall k | 0 <= k < |ps| ensures ps[k] + 1 < |xv| && xv[ps[k]] <= xv[ps[k] + 1] {
        assert ps[k] == k;
      }
    }
  }

  lemma {:induction false} StepsUp(xv: seq<int>, i: nat, j: nat)
    requires i <= j < |xv|
    requires ChainHolds(xv, VarSymBreak(|xv|))
    ensures xv[i] <= xv[j]
    decreases j - i
  {
    if i < j {
      StepsUp(xv, i, j - 1);
      var ps := VarSymBreak(|xv|);
      assert ps[j - 1] == j - 1;
    }
  }

  // ---------------------------------------------------------------------
  // BinLTInf

  /** The relation `BinLTInf(x, y, k)` keeps. */
  predicate LtInf(xv: int, yv: int, k: int)
  {
    (xv == k && yv == k) || xv < yv
  }

  function Min(a: int, b: int): int { if a <= b then a else b }

  /** `BinLTInf::propagate`: when `y` stays below `k`, `x` must be below
      `y.max`; `y` is always at least `min(x.min + 1, k)`. Exactly the
      values without a partner in the other domain's bounds are removed. */
  function BinLTInfPropagate(x: IntVar, y: IntVar, k: int, finishedInit: bool): (r: Res<(IntVar, IntVar)>)
    requires Valid(x) && Valid(y)
    ensures !r.Fatal?
    ensures r.Fail? <==> (y.max < k && x.min >= y.max) || Min(x.min + 1, k) > y.max
    ensures r.Ok? ==> Valid(r.value.0) && Valid(r.value.1)
    ensures r.Ok? ==> forall w :: InDom(r.value.0, w) <==> InDom(x, w) && (y.max < k ==> w <= y.max - 1)
    ensures r.Ok? ==> forall w :: InDom(r.value.1, w) <==> InDom(y, w) && w >= Min(x.min + 1, k)
  {
    var x1 := if y.max < k then TLSet(x, OpSetMax, y.max - 1, finishedInit) else Ok(x);
    if !x1.Ok? then Fail
    else
      assert InDom(x1.value, x1.value.min);
      assert x1.value.min == x.min;
      var y1 := TLSet(y, OpSetMin, Min(x1.value.min + 1, k), finishedInit);
      if !y1.Ok? then Fail else Ok((x1.value, y1.value))
  }

  /** No pair in the relation is lost, and every value removed from either
      domain has no partner in the other. */
  lemma BinLTInfExact(x: IntVar, y: IntVar, k: int, finishedInit: bool)
    requires Valid(x) && Valid(y)
    ensures var r := BinLTInfPropagate(x, y, k, finishedInit);
      forall xv, yv :: InDom(x, xv) && InDom(y, yv) && LtInf(xv, yv, k) ==>
        r.Ok? && InDom(r.value.0, xv) && InDom(r.value.1, yv)
    ensures var r := BinLTInfPropagate(x, y, k, finishedInit);
      r.Ok? ==> forall xv, yv :: InDom(x, xv) && !InDom(r.value.0, xv) && InDom(y, yv) ==> !LtInf(xv, yv, k)
    ensures var r := BinLTInfPropagate(x, y, k, finishedInit);
      r.Ok? ==> forall xv, yv :: InDom(y, yv) && !InDom(r.value.1, yv) && InDom(x, xv) ==> !LtInf(xv, yv, k)
  {
  }

  // ---------------------------------------------------------------------
  // val_sym_break

  /** The literals of the decomposition: `[x[j] = v]`, `[y[k] = j]`, `[y[k] <= j]`. */
  datatype Atom = XEq(pos: nat, v: int) | YEq(k: nat, j: int) | YLe(k: nat, j: int)

  /** A posted constraint: an implication between two literals, or
      `BinLTInf(y[k1], y[k2], bound)`. */
  datatype SymCon = Implies(a: Atom, b: Atom) | LtInfCon(k1: nat, k2: nat, bound: int)

  /** The specialised `x`, the number of new `y` variables (each with domain
      `0..|x|`), and the posted constraints. */
  datatype ValSymPosted = ValSymPosted(xs: seq<IntVar>, ny: nat, cons: seq<SymCon>)

  /** Value `i`, position `j`: `y[i-l] = j -> x[j] = i` and `x[j] = i -> y[i-l] <= j`. */
  function ImplPair(l: int, i: int, j: nat): seq<SymCon>
    requires l <= i
  {
    [Implies(YEq(i - l, j), XEq(j, i)), Implies(XEq(j, i), YLe(i - l, j))]
  }

  /** The inner loop over the positions `j .. n - 1` for value `i`. */
  function ImplRow(l: int, i: int, j: nat, n: nat): seq<SymCon>
    requires l <= i
    decreases n - j
  {
    if j >= n then [] else ImplPair(l, i, j) + ImplRow(l, i, j + 1, n)
  }

  /** The outer loop over the values `i .. u`. */
  function ImplRows(l: int, i: int, u: int, n: nat): seq<SymCon>
    requires l <= i
    decreases u - i + 1
  {
    if i > u then [] else ImplRow(l, i, 0, n) + ImplRows(l, i + 1, u, n)
  }

  /** `BinLTInf(y[k], y[k+1], n)` for `k .. m - 1`. */
  function LtChain(k: nat, m: int, n: nat): seq<SymCon>
    decreases m - k
  {
    if k >= m then [] else [LtInfCon(k, k + 1, n)] + LtChain(k + 1, m, n)
  }

  /** `specialiseToEL` on every variable, stopping at the first lazy one. */
  function SpecialiseAll(xs: seq<IntVar>): (r: Res<seq<IntVar>>)
    ensures !r.Fail?
    ensures r.Fatal? <==> exists j :: 0 <= j < |xs| && xs[j].kind == LL
    ensures r.Ok? ==> |r.value| == |xs| && forall j :: 0 <= j < |xs| ==> Ok(r.value[j]) == SpecialiseToEL(xs[j])
  {
    if |xs| == 0 then Ok([])
    else
      var h := SpecialiseToEL(xs[0]);
      var t := SpecialiseAll(xs[1..]);
      if h.Fatal? then Fatal(h.msg)
      else if t.Fatal? then
        var j :| 0 <= j < |xs[1..]| && xs[1..][j].kind == LL;
        assert xs[j + 1].kind == LL;
        Fatal(t.msg)
      else
        assert forall j :: 1 <= j < |xs| ==> xs[j] == xs[1..][j - 1];
        Ok([h.value] + t.value)
  }

  /** `val_sym_break(x, l, u)`. */
  function ValSymBreak(xs: seq<IntVar>, l: int, u: int): (r: Res<ValSymPosted>)
    ensures !r.Fail?
    ensures r.Fatal? <==> exists j :: 0 <= j < |xs| && xs[j].kind == LL
    ensures r.Ok? ==> |r.value.xs| == |xs| && r.value.ny == (if u >= l then u - l + 1 else 0)
    ensures r.Ok? ==> forall j :: 0 <= j < |xs| ==> r.value.xs[j].kind == EL || r.value.xs[j].kind == SL
  {
    var ny := if u >= l then u - l + 1 else 0;
    var sp := SpecialiseAll(xs);
    if sp.Fatal? then Fatal(sp.msg)
    else
      assert forall j :: 0 <= j < |xs| ==> SpecialiseToEL(xs[j]).Ok?;
      Ok(ValSymPosted(sp.value, ny, ImplRows(l, l, u, |xs|) + LtChain(0, u - l, |xs|)))
  }

  // ---------------------------------------------------------------------
  // Semantics of val_sym_break

  ghost predicate AtomHolds(xv: seq<int>, yv: seq<int>, a: Atom)
  {
    match a
    case XEq(j, v) => j < |xv| && xv[j] == v
    case YEq(k, j) => k < |yv| && yv[k] == j
    case YLe(k, j) => k < |yv| && yv[k] <= j
  }

  ghost predicate SymHolds(xv: seq<int>, yv: seq<int>, c: SymCon)
  {
    match c
    case Implies(a, b) => AtomHolds(xv, yv, a) ==> AtomHolds(xv, yv, b)
    case LtInfCon(k1, k2, bound) => k1 < |yv| && k2 < |yv| && LtInf(yv[k1], yv[k2], bound)
  }

  ghost predicate AllSym(cs: seq<SymCon>, xv: seq<int>, yv: seq<int>)
  {
    forall k :: 0 <= k < |cs| ==> SymHolds(xv, yv, cs[k])
  }

  /** Values for the new variables within their domains `0..n`. */
  ghost predicate YDomain(yv: seq<int>, ny: nat, n: nat)
  {
    |yv| == ny && forall k :: 0 <= k < |yv| ==> 0 <= yv[k] <= n
  }

  /** Some values of the new variables satisfy everything posted. */
  ghost predicate ValSymAdmits(p: ValSymPosted, xv: seq<int>)
  {
    exists yv :: YDomain(yv, p.ny, |p.xs|) && AllSym(p.cons, xv, yv)
  }

  /** The index of the first occurrence of `v` in `xv`, `|xv|` when none. */
  function First(xv: seq<int>, v: int): (f: nat)
    ensures f <= |xv|
    ensures f < |xv| ==> xv[f] == v
    ensures forall j :: 0 <= j < f ==> xv[j] != v
  {
    if |xv| == 0 then 0
    else if xv[0] == v then 0
    else
      var f := 1 + First(xv[1..], v);
      assert forall j :: 1 <= j < f ==> xv[j] == xv[1..][j - 1];
      f
  }

  /** The first occurrences of the values `l..u` come in increasing order,
      and a value that does not occur is followed only by values that do not. */
  ghost predicate FirstsOrdered(xv: seq<int>, l: int, u: int)
  {
    forall i :: l <= i < u ==> LtInf(First(xv, i), First(xv, i + 1), |xv|)
  }

  lemma AllSymConcat(cs: seq<SymCon>, ds: seq<SymCon>, xv: seq<int>, yv: seq<int>)
    ensures AllSym(cs + ds, xv, yv) <==> AllSym(cs, xv, yv) && AllSym(ds, xv, yv)
  {
    var e := cs + ds;
    if AllSym(cs, xv, yv) && AllSym(ds, xv, yv) {
      forall k | 0 <= k < |e| ensures SymHolds(xv, yv, e[k]) {
        if k >= |cs| { assert e[k] == ds[k - |cs|]; }
      }
    }
    if AllSym(e, xv, yv) {
      forall k | 0 <= k < |cs| ensures SymHolds(xv, yv, cs[k]) {
        assert e[k] == cs[k];
      }
      forall k | 0 <= k < |ds| ensures SymHolds(xv, yv, ds[k]) {
        assert e[|cs| + k] == ds[k];
      }
    }
  }

  /** Both implications for value `i` at position `j`. */
  ghost predicate PairAt(xv: seq<int>, yv: seq<int>, l: int, i: int, j: nat)
    requires l <= i
  {
    AllSym(ImplPair(l, i, j), xv, yv)
  }

  lemma {:induction false} ImplRowHolds(l: int, i: int, j: nat, n: nat, xv: seq<int>, yv: seq<int>)
    requires l <= i
    ensures AllSym(ImplRow(l, i, j, n), xv, yv) <==> forall jj: nat :: j <= jj < n ==> PairAt(xv, yv, l, i, jj)
    decreases n - j
  {
    if j < n {
      assert ImplRow(l, i, j, n) == ImplPair(l, i, j) + ImplRow(l, i, j + 1, n);
      AllSymConcat(ImplPair(l, i, j), ImplRow(l, i, j + 1, n), xv, yv);
      ImplRowHolds(l, i, j + 1, n, xv, yv);
      if forall jj: nat :: j <= jj < n ==> PairAt(xv, yv, l, i, jj) {
        assert PairAt(xv, yv, l, i, j);
        assert AllSym(ImplRow(l, i, j + 1, n), xv, yv);
      }
    }
  }

  lemma {:induction false} ImplRowsHold(l: int, i: int, u: int, n: nat, xv: seq<int>, yv: seq<int>)
    requires l <= i
    ensures AllSym(ImplRows(l, i, u, n), xv, yv) <==>
      forall ii, jj: nat :: i <= ii <= u && jj < n ==> PairAt(xv, yv, l, ii, jj)
    decreases u - i + 1
  {
    if i <= u {
      AllSymConcat(ImplRow(l, i, 0, n), ImplRows(l, i + 1, u, n), xv, yv);
      ImplRowHolds(l, i, 0, n, xv, yv);
      ImplRowsHold(l, i + 1, u, n, xv, yv);
    }
  }

  /** `BinLTInf(y[kk], y[kk+1], n)` holds. */
  ghost predicate ChainAt(yv: seq<int>, kk: nat, n: nat)
  {
    kk + 1 < |yv| && LtInf(yv[kk], yv[kk + 1], n)
  }

  lemma {:induction false} LtChainHolds(k: nat, m: int, n: nat, xv: seq<int>, yv: seq<int>)
    ensures AllSym(LtChain(k, m, n), xv, yv) <==> forall kk: nat :: k <= kk < m ==> ChainAt(yv, kk, n)
    decreases m - k
  {
    if k < m {
      assert LtChain(k, m, n) == [LtInfCon(k, k + 1, n)] + LtChain(k + 1, m, n);
      assert AllSym([LtInfCon(k, k + 1, n)], xv, yv) <==> ChainAt(yv, k, n) by {
        assert [LtInfCon(k, k + 1, n)][0] == LtInfCon(k, k + 1, n);
      }
      AllSymConcat([LtInfCon(k, k + 1, n)], LtChain(k + 1, m, n), xv, yv);
      LtChainHolds(k + 1, m, n, xv, yv);
    }
  }

  /** The implications pin each new variable to the first occurrence of its value. */
  lemma YIsFirst(xv: seq<int>, yv: seq<int>, l: int, i: int)
    requires l <= i && i - l < |yv| && 0 <= yv[i - l] <= |xv|
    requires forall jj: nat :: jj < |xv| ==> PairAt(xv, yv, l, i, jj)
    ensures yv[i - l] == First(xv, i)
  {
    var f := First(xv, i);
    var y := yv[i - l];
    if f < |xv| {
      assert PairAt(xv, yv, l, i, f);
      assert ImplPair(l, i, f)[1] == Implies(XEq(f, i), YLe(i - l, f));
    }
    if y < |xv| {
      assert PairAt(xv, yv, l, i, y);
      assert ImplPair(l, i, y)[0] == Implies(YEq(i - l, y), XEq(y, i));
    }
  }

  /** Values of the new variables that satisfy everything posted are the
      first occurrences, so those are ordered. */
  lemma ValSymSound(l: int, u: int, n: nat, xv: seq<int>, yv: seq<int>)
    requires |xv| == n && YDomain(yv, if u >= l then u - l + 1 else 0, n)
    requires AllSym(ImplRows(l, l, u, n) + LtChain(0, u - l, n), xv, yv)
    ensures FirstsOrdered(xv, l, u)
  {
    AllSymConcat(ImplRows(l, l, u, n), LtChain(0, u - l, n), xv, yv);
    ImplRowsHold(l, l, u, n, xv, yv);
    LtChainHolds(0, u - l, n, xv, yv);
    forall i | l <= i < u ensures LtInf(First(xv, i), First(xv, i + 1), |xv|) {
      YIsFirst(xv, yv, l, i);
      YIsFirst(xv, yv, l, i + 1);
      var kk: nat := i - l;
      assert ChainAt(yv, kk, n);
      assert kk + 1 == i + 1 - l;
    }
  }

  /** The first occurrences satisfy everything posted when they are ordered. */
  lemma ValSymComplete(l: int, u: int, n: nat, xv: seq<int>)
    requires |xv| == n && FirstsOrdered(xv, l, u)
    ensures var yv := seq(if u >= l then u - l + 1 else 0, (k: int) => First(xv, l + k));
      YDomain(yv, if u >= l then u - l + 1 else 0, n) && AllSym(ImplRows(l, l, u, n) + LtChain(0, u - l, n), xv, yv)
  {
    var ny := if u >= l then u - l + 1 else 0;
    var yv := seq(ny, (k: int) => First(xv, l + k));
    assert forall k :: 0 <= k < |yv| ==> yv[k] == First(xv, l + k);
    FirstsPairs(l, u, n, xv, yv);
    FirstsChain(l, u, n, xv, yv);
    AllSymConcat(ImplRows(l, l, u, n), LtChain(0, u - l, n), xv, yv);
  }

  /** With `y` the first occurrences, every channelling pair holds. */
  lemma FirstsPairs(l: int, u: int, n: nat, xv: seq<int>, yv: seq<int>)
    requires |xv| == n && |yv| == (if u >= l then u - l + 1 else 0)
    requires forall k :: 0 <= k < |yv| ==> yv[k] == First(xv, l + k)
    ensures AllSym(ImplRows(l, l, u, n), xv, yv)
  {
    forall ii, jj: nat | l <= ii <= u && jj < n ensures PairAt(xv, yv, l, ii, jj) {
      assert yv[ii - l] == First(xv, ii);
      var pr := ImplPair(l, ii, jj);
      assert SymHolds(xv, yv, pr[0]) && SymHolds(xv, yv, pr[1]);
    }
    ImplRowsHold(l, l, u, n, xv, yv);
  }

  /** With `y` the first occurrences, the ordering chain holds. */
  lemma FirstsChain(l: int, u: int, n: nat, xv: seq<int>, yv: seq<int>)
    requires |xv| == n && FirstsOrdered(xv, l, u) && |yv| == (if u >= l then u - l + 1 else 0)
    requires forall k :: 0 <= k < |yv| ==> yv[k] == First(xv, l + k)
    ensures AllSym(LtChain(0, u - l, n), xv, yv)
  {
    forall kk: nat | 0 <= kk < u - l ensures ChainAt(yv, kk, n) {
      assert yv[kk] == First(xv, l + kk) && yv[kk + 1] == First(xv, l + kk + 1);
    }
    LtChainHolds(0, u - l, n, xv, yv);
  }

  /** Over values for `x`, the posted decomposition admits exactly the
      sequences whose first occurrences of `l..u` are ordered. */
  lemma ValSymBreakMeans(xs: seq<IntVar>, l: int, u: int, xv: seq<int>)
    requires ValSymBreak(xs, l, u).Ok? && |xv| == |xs|
    ensures ValSymAdmits(ValSymBreak(xs, l, u).value, xv) <==> FirstsOrdered(xv, l, u)
  {
    var p := ValSymBreak(xs, l, u).value;
    var n := |xs|;
    assert p.cons == ImplRows(l, l, u, n) + LtChain(0, u - l, n);
    if ValSymAdmits(p, xv) {
      var yv :| YDomain(yv, p.ny, n) && AllSym(p.cons, xv, yv);
      ValSymSound(l, u, n, xv, yv);
    }
    if FirstsOrdered(xv, l, u) {
      ValSymComplete(l, u, n, xv);
      var yv := seq(p.ny, (k: int) => First(xv, l + k));
      assert YDomain(yv, p.ny, |p.xs|) && AllSym(p.cons, xv, yv);
    }
  }
}
