/** The binary integer primitives of chuffed/primitives/binary.cpp: the
    propagators `BinGE` (`x >= y`, optionally only when `r`) and `BinNE`
    (`x != y`, optionally only when `r`), and the posting functions that
    rewrite every relation between two variables, or a variable and a
    constant, into them. A posted propagator is returned as a constraint
    over integer views `scale * v + offset`, so the rewrites can be stated
    as equivalences over all assignments. */
module Binary {
  import opened Base
  import opened IntVars
  import opened Propagation

  // Messages of the fatal errors below.
  const NeverRel := "NEVER"

  /** `IntRelType`; its numeric codes live in a header that is not part of
      this model. */
  datatype Rel = IrtEQ | IrtNE | IrtLE | IrtLT | IrtGE | IrtGT

  predicate RelHolds(t: Rel, a: int, b: int)
  {
    match t
    case IrtEQ => a == b
    case IrtNE => a != b
    case IrtLE => a <= b
    case IrtLT => a < b
    case IrtGE => a >= b
    case IrtGT => a > b
  }

  /** `IntView<>(v, scale, offset)`; a scale of `0` is the constant view
      `getConstant(offset)`. */
  datatype View = View(v: nat, scale: int, offset: int)

  /** An integer assignment of the variables. */
  type IAsg = nat -> int

  function Val(s: IAsg, w: View): int
  {
    w.scale * s(w.v) + w.offset
  }

  /** The plain view of variable `v`. */
  function Var(v: nat): View
  {
    View(v, 1, 0)
  }

  /** The view `w + k`. */
  function Plus(w: View, k: int): (r: View)
    ensures forall s: IAsg :: Val(s, r) == Val(s, w) + k
  {
    w.(offset := w.offset + k)
  }

  /** The view `-w + k`. */
  function NegPlus(w: View, k: int): (r: View)
    ensures forall s: IAsg :: Val(s, r) == -Val(s, w) + k
  {
    View(w.v, -w.scale, -w.offset + k)
  }

  /** A posted propagator: `newBinGE(x, y, r)` is `x >= y` when `r` holds,
      `newBinNE(x, y, r)` is `x != y` when `r` holds; the unreified forms
      have `r` the constant true. */
  datatype Con = GE(x: View, y: View, r: Lit) | NE(x: View, y: View, r: Lit)

  predicate ConHolds(s: IAsg, a: Asg, c: Con)
  {
    Holds(a, c.r) ==>
      match c
      case GE(x, y, _) => Val(s, x) >= Val(s, y)
      case NE(x, y, _) => Val(s, x) != Val(s, y)
  }

  predicate AllCons(s: IAsg, a: Asg, cs: seq<Con>)
  {
    forall i :: 0 <= i < |cs| ==> ConHolds(s, a, cs[i])
  }

  lemma AllConsConcat(s: IAsg, a: Asg, c: seq<Con>, d: seq<Con>)
    ensures AllCons(s, a, c + d) <==> AllCons(s, a, c) && AllCons(s, a, d)
  {
    if AllCons(s, a, c) && AllCons(s, a, d) {
      forall i | 0 <= i < |c + d| ensures ConHolds(s, a, (c + d)[i]) {
        if i >= |c| { assert (c + d)[i] == d[i - |c|]; }
      }
    }
    if AllCons(s, a, c + d) {
      forall i | 0 <= i < |d| ensures ConHolds(s, a, d[i]) {
        assert (c + d)[|c| + i] == d[i];
      }
      forall i | 0 <= i < |c| ensures ConHolds(s, a, c[i]) {
        assert (c + d)[i] == c[i];
      }
    }
  }

  /** A list of at most three posted propagators holds when each does. */
  lemma Unroll(cs: seq<Con>)
    ensures |cs| <= 3 ==> forall s: IAsg, a: Asg :: AllCons(s, a, cs) <==>
      (|cs| > 0 ==> ConHolds(s, a, cs[0])) && (|cs| > 1 ==> ConHolds(s, a, cs[1])) && (|cs| > 2 ==> ConHolds(s, a, cs[2]))
  {
  }

  const True: Lit := Const(true)

  /** How many rewrite steps a relation takes before it reaches a propagator. */
  function Depth(t: Rel): nat
  {
    match t
    case IrtLE => 0
    case IrtLT => 1
    case IrtGE => 2
    case IrtGT => 3
    case IrtEQ => 3
    case IrtNE => 4
  }

  // ---------------------------------------------------------------------
  // Posting

  /** `bin_linear(x, y, t, c)`: `x + y t c` as one or two `BinGE`s over
      negated and shifted views; `!=` is not a case of the switch. */
  function BinLinear(x: nat, y: nat, t: Rel, c: int): (r: Res<seq<Con>>)
    ensures !r.Fail?
    ensures r.Fatal? <==> t == IrtNE
    ensures r.Ok? ==> forall s: IAsg, a: Asg :: AllCons(s, a, r.value) <==> RelHolds(t, s(x) + s(y), c)
    decreases Depth(t)
  {
    match t
    case IrtEQ =>
      var le := BinLinear(x, y, IrtLE, c).value;
      var ge := BinLinear(x, y, IrtGE, c).value;
      assert forall s: IAsg, a: Asg :: AllCons(s, a, le + ge) <==> AllCons(s, a, le) && AllCons(s, a, ge) by {
        forall s: IAsg, a: Asg { AllConsConcat(s, a, le, ge); }
      }
      Ok(le + ge)
    case IrtLE =>
      var cs := [GE(NegPlus(Var(x), c), Var(y), True)];
      Unroll(cs);
      Ok(cs)
    case IrtLT => BinLinear(x, y, IrtLE, c - 1)
    case IrtGE =>
      var cs := [GE(Var(x), NegPlus(Var(y), c), True)];
      Unroll(cs);
      Ok(cs)
    case IrtGT => BinLinear(x, y, IrtGE, c + 1)
    case IrtNE => Fatal(NeverRel)
  }

  /** `int_rel(x, t, y, c)`: `x t y + c`. */
  function IntRel(x: nat, t: Rel, y: nat, c: int): (r: seq<Con>)
    ensures forall s: IAsg, a: Asg :: AllCons(s, a, r) <==> RelHolds(t, s(x), s(y) + c)
    decreases Depth(t)
  {
    match t
    case IrtEQ =>
      var le := IntRel(x, IrtLE, y, c);
      var ge := IntRel(x, IrtGE, y, c);
      assert forall s: IAsg, a: Asg :: AllCons(s, a, le + ge) <==> AllCons(s, a, le) && AllCons(s, a, ge) by {
        forall s: IAsg, a: Asg { AllConsConcat(s, a, le, ge); }
      }
      le + ge
    case _ =>
      var cs := match t
        case IrtNE => [NE(Var(x), Plus(Var(y), c), True)]
        case IrtLE => [GE(Var(y), Plus(Var(x), -c), True)]
        case IrtLT => [GE(Var(y), Plus(Var(x), 1 - c), True)]
        case IrtGE => [GE(Var(x), Plus(Var(y), c), True)]
        case _ => [GE(Var(x), Plus(Var(y), 1 + c), True)];
      Unroll(cs);
      cs
  }

  /** `int_rel_reif(x, t, y, r, c)`: `x t y + c` exactly when `r`. The
      operands are views so that the constant of `int_rel_reif_real` fits. */
  function IntRelReif(x: View, t: Rel, y: View, r: Lit, c: int): (cs: seq<Con>)
    ensures forall s: IAsg, a: Asg :: AllCons(s, a, cs) <==> (Holds(a, r) <==> RelHolds(t, Val(s, x), Val(s, y) + c))
    decreases Depth(t)
  {
    match t
    case IrtNE => IntRelReif(x, IrtEQ, y, Neg(r), c)
    case IrtGE => IntRelReif(x, IrtLT, y, Neg(r), c)
    case IrtGT => IntRelReif(x, IrtLE, y, Neg(r), c)
    case _ =>
      var cs := match t
        case IrtEQ => [GE(x, Plus(y, c), r), GE(y, Plus(x, -c), r), NE(x, Plus(y, c), Neg(r))]
        case IrtLE => [GE(y, Plus(x, -c), r), GE(x, Plus(y, 1 + c), Neg(r))]
        case _ => [GE(y, Plus(x, 1 - c), r), GE(x, Plus(y, c), Neg(r))];
      Unroll(cs);
      cs
  }

  /** `int_rel_half_reif(x, t, y, r, c)`: `x t y + c` whenever `r`. */
  function IntRelHalfReif(x: View, t: Rel, y: View, r: Lit, c: int): (cs: seq<Con>)
    ensures forall s: IAsg, a: Asg :: AllCons(s, a, cs) <==> (Holds(a, r) ==> RelHolds(t, Val(s, x), Val(s, y) + c))
  {
    var cs := match t
      case IrtEQ => [GE(x, Plus(y, c), r), GE(y, Plus(x, -c), r)]
      case IrtNE => [NE(x, Plus(y, c), r)]
      case IrtLE => [GE(y, Plus(x, -c), r)]
      case IrtLT => [GE(y, Plus(x, 1 - c), r)]
      case IrtGE => [GE(x, Plus(y, c), r)]
      case IrtGT => [GE(x, Plus(y, 1 + c), r)];
    Unroll(cs);
    cs
  }

  /** A deferred `(x, t, c, r)` of `ircs` or `ihrcs`, handled once the
      variables' representations are final. */
  datatype Deferred = Deferred(x: nat, t: Rel, c: int, r: Lit)

  /** `int_rel(x, t, c)`: narrows the domain at once, except that `!=` is
      deferred with `r` true. */
  function IntRelConst(x: IntVar, t: Rel, c: int, finishedInit: bool): (r: (Res<IntVar>, seq<Deferred>))
    requires Valid(x)
    ensures t == IrtNE <==> r.1 == [Deferred(x.id, IrtNE, c, True)]
    ensures t == IrtNE ==> r.0 == Ok(x)
    ensures t != IrtNE ==> r.1 == [] && !r.0.Fatal?
    ensures t != IrtNE ==> (r.0.Fail? <==> forall w :: InDom(x, w) ==> !RelHolds(t, w, c))
    ensures t != IrtNE && r.0.Ok? ==> Valid(r.0.value) && forall w :: InDom(r.0.value, w) <==> InDom(x, w) && RelHolds(t, w, c)
  {
    match t
    case IrtEQ => (TLSet(x, OpSetVal, c, finishedInit), [])
    case IrtNE => (Ok(x), [Deferred(x.id, IrtNE, c, True)])
    case IrtLE => (TLSet(x, OpSetMax, c, finishedInit), [])
    case IrtLT => (TLSet(x, OpSetMax, c - 1, finishedInit), [])
    case IrtGE => (TLSet(x, OpSetMin, c, finishedInit), [])
    case IrtGT => (TLSet(x, OpSetMin, c + 1, finishedInit), [])
  }

  // ---------------------------------------------------------------------
  // Relations against a constant, once representations are final

  /** The Boolean relations `int_rel_reif_real` hands to `bool_rel` and the
      substrate: `z <-> a /\ b`, `a <-> b`, `a \/ b`, and a plain clause. */
  datatype BoolPost = AndEq(a: Lit, b: Lit, z: Lit) | Equiv(a: Lit, b: Lit) | Or2(a: Lit, b: Lit) | Cl(c: Clause)

  predicate BoolPostHolds(g: Asg, p: BoolPost)
  {
    match p
    case AndEq(a, b, z) => Holds(g, z) <==> Holds(g, a) && Holds(g, b)
    case Equiv(a, b) => Holds(g, a) <==> Holds(g, b)
    case Or2(a, b) => Holds(g, a) || Holds(g, b)
    case Cl(c) => ClauseHolds(g, c)
  }

  predicate AllBool(g: Asg, ps: seq<BoolPost>)
  {
    forall i :: 0 <= i < |ps| ==> BoolPostHolds(g, ps[i])
  }

  /** What handling a deferred relation does. */
  datatype Handled =
    | Narrowed(res: Res<IntVar>)     // `TL_SET(x, remVal, c)`
    | ViaConstant(cons: seq<Con>)    // eager variable: a relation with `getConstant(c)`
    | ViaLits(posts: seq<BoolPost>)  // over the literals `[x >= c]` and `[x <= c]`
    | Nothing
    | Aborted                        // `assert(!so.lazy)` on an eager variable

  /** `int_rel_reif_real(x, t, c, r)`: `b1` and `b2` are `x.getLit(c, LR_GE)`
      and `x.getLit(c, LR_LE)`, `rv` the current value of `r`. */
  function IntRelReifReal(x: IntVar, t: Rel, c: int, r: Lit, rv: LBool, lazy: bool, finishedInit: bool,
                          b1: Lit, b2: Lit): (h: Handled)
    requires Valid(x)
  {
    if rv == LTrue && t == IrtNE && x.kind == EL then Narrowed(TLSet(x, OpRemVal, c, finishedInit))
    else if x.kind == Plain then
      if lazy then Aborted else ViaConstant(IntRelReif(Var(x.id), t, View(0, 0, c), r, 0))
    else ViaLits(
      match t
      case IrtEQ => [AndEq(b1, b2, r)]
      case IrtNE => [AndEq(b1, b2, Neg(r))]
      case IrtLE => [Equiv(b2, r)]
      case IrtLT => [Equiv(b1, Neg(r))]
      case IrtGE => [Equiv(b1, r)]
      case IrtGT => [Equiv(b2, Neg(r))])
  }

  /** The literals of `x`'s thresholds mean what their names say. */
  predicate Thresholds(g: Asg, s: IAsg, x: nat, c: int, b1: Lit, b2: Lit)
  {
    (Holds(g, b1) <==> s(x) >= c) && (Holds(g, b2) <==> s(x) <= c)
  }

  /** Whichever way a deferred full reification is handled, it means
      `r <-> x t c`: the constant view, or the threshold literals, carry it. */
  lemma IntRelReifRealMeans(x: IntVar, t: Rel, c: int, r: Lit, rv: LBool, lazy: bool, finishedInit: bool,
                            b1: Lit, b2: Lit, g: Asg, s: IAsg)
    requires Valid(x) && Thresholds(g, s, x.id, c, b1, b2)
    ensures var h := IntRelReifReal(x, t, c, r, rv, lazy, finishedInit, b1, b2);
      (h.ViaConstant? ==> (AllCons(s, g, h.cons) <==> (Holds(g, r) <==> RelHolds(t, s(x.id), c)))) &&
      (h.ViaLits? ==> (AllBool(g, h.posts) <==> (Holds(g, r) <==> RelHolds(t, s(x.id), c))))
    ensures var h := IntRelReifReal(x, t, c, r, rv, lazy, finishedInit, b1, b2);
      h.Aborted? <==> x.kind == Plain && lazy && !(rv == LTrue && t == IrtNE && x.kind == EL)
    ensures var h := IntRelReifReal(x, t, c, r, rv, lazy, finishedInit, b1, b2);
      h.Narrowed? ==> h.res == TLSet(x, OpRemVal, c, finishedInit) && rv == LTrue && t == IrtNE
  {
    var h := IntRelReifReal(x, t, c, r, rv, lazy, finishedInit, b1, b2);
    if h.ViaLits? {
      assert h.posts[0] in h.posts;
      assert AllBool(g, h.posts) <==> BoolPostHolds(g, h.posts[0]);
    }
  }

  /** `int_rel_half_reif_real(x, t, c, r)`. */
  function IntRelHalfReifReal(x: IntVar, t: Rel, c: int, r: Lit, rv: LBool, lazy: bool, finishedInit: bool,
                              b1: Lit, b2: Lit): (h: Handled)
    requires Valid(x)
  {
    if rv == LFalse then Nothing
    else if rv == LTrue && t == IrtNE && x.kind == EL then Narrowed(TLSet(x, OpRemVal, c, finishedInit))
    else if x.kind == Plain then
      if lazy then Aborted else ViaConstant(IntRelHalfReif(Var(x.id), t, View(0, 0, c), r, 0))
    else ViaLits(
      match t
      case IrtEQ => [Or2(b2, Neg(r)), Or2(b1, Neg(r))]
      case IrtNE => [Cl([Neg(b1), Neg(b2), Neg(r)]), Cl([b1, b2, Neg(r)])]
      case IrtLE => [Or2(b2, Neg(r))]
      case IrtLT => [Or2(Neg(b1), Neg(r))]
      case IrtGE => [Or2(b1, Neg(r))]
      case IrtGT => [Or2(Neg(b2), Neg(r))])
  }

  /** A deferred half reification means `r -> x t c`. */
  lemma IntRelHalfReifRealMeans(x: IntVar, t: Rel, c: int, r: Lit, rv: LBool, lazy: bool, finishedInit: bool,
                                b1: Lit, b2: Lit, g: Asg, s: IAsg)
    requires Valid(x) && Thresholds(g, s, x.id, c, b1, b2)
    ensures var h := IntRelHalfReifReal(x, t, c, r, rv, lazy, finishedInit, b1, b2);
      (h.ViaConstant? ==> (AllCons(s, g, h.cons) <==> (Holds(g, r) ==> RelHolds(t, s(x.id), c)))) &&
      (h.ViaLits? ==> (AllBool(g, h.posts) <==> (Holds(g, r) ==> RelHolds(t, s(x.id), c))))
    ensures IntRelHalfReifReal(x, t, c, r, rv, lazy, finishedInit, b1, b2).Nothing? <==> rv == LFalse
  {
    var h := IntRelHalfReifReal(x, t, c, r, rv, lazy, finishedInit, b1, b2);
    if h.ViaLits? {
      var p0 := h.posts[0];
      if t == IrtEQ || t == IrtNE {
        var p1 := h.posts[1];
        assert AllBool(g, h.posts) <==> BoolPostHolds(g, p0) && BoolPostHolds(g, p1);
        if t == IrtNE {
          assert p0.c[0] == Neg(b1) && p0.c[1] == Neg(b2) && p0.c[2] == Neg(r);
          assert p1.c[0] == b1 && p1.c[1] == b2 && p1.c[2] == Neg(r);
        }
      } else {
        assert AllBool(g, h.posts) <==> BoolPostHolds(g, p0);
      }
    }
  }

  // ---------------------------------------------------------------------
  // BinGE: x >= y <- r

  /** `setDom(v, setMin, m)` on a view, whose domain is seen in the view's
      own values: nothing when `m` does not raise the lower bound, otherwise
      `setMin`, which moves the bound on to the next value still present
      (for a negated view this is the variable's `setMax`, which skips the
      same removed values). */
  function ViewSetMin(v: IntVar, m: int): (r: Res<IntVar>)
    requires Valid(v)
    ensures !r.Fatal?
    ensures r.Fail? <==> forall w :: InDom(v, w) ==> w < m
    ensures r.Ok? ==> Valid(r.value) && r.value.max == v.max && r.value.min >= v.min && r.value.vals == v.vals
    ensures r.Ok? ==> forall w :: InDom(r.value, w) <==> InDom(v, w) && w >= m
  {
    assert InDom(v, v.min);
    if SetMinNotR(v, m) then SetMin(v, m) else Ok(v)
  }

  /** `setDom(v, setMax, m)` on a view, the mirror image of `ViewSetMin`. */
  function ViewSetMax(v: IntVar, m: int): (r: Res<IntVar>)
    requires Valid(v)
    ensures !r.Fatal?
    ensures r.Fail? <==> forall w :: InDom(v, w) ==> w > m
    ensures r.Ok? ==> Valid(r.value) && r.value.min == v.min && r.value.max <= v.max && r.value.vals == v.vals
    ensures r.Ok? ==> forall w :: InDom(r.value, w) <==> InDom(v, w) && w <= m
  {
    assert InDom(v, v.max);
    if SetMaxNotR(v, m) then SetMax(v, m) else Ok(v)
  }

  /** The view domains after `propagate`, and whether it marked itself satisfied. */
  datatype GEOut = GEOut(x: IntVar, y: IntVar, r: LBool, satisfied: bool)

  /** `BinGE<U, V, R>::propagate`; `reif` is `R != 0` (an unreified
      propagator's `r` is the constant true). With `r` true, `x` loses
      exactly its values below the old `y.min` and `y` its values above the
      old `x.max`; the new bounds are the next values still present. */
  function BinGEPropagate(reif: bool, x: IntVar, y: IntVar, r: LBool): (o: Res<GEOut>)
    requires Valid(x) && Valid(y) && (!reif ==> r == LTrue)
    ensures !o.Fatal?
    ensures o.Fail? <==> x.max < y.min && r == LTrue
    ensures o.Ok? ==> Valid(o.value.x) && Valid(o.value.y)
    ensures o.Ok? && o.value.r != LTrue ==> o.value.x == x && o.value.y == y && !o.value.satisfied
    ensures o.Ok? && o.value.r == LTrue ==>
      (forall w :: InDom(o.value.x, w) <==> InDom(x, w) && w >= y.min) &&
      (forall w :: InDom(o.value.y, w) <==> InDom(y, w) && w <= x.max)
    ensures o.Ok? ==> (o.value.r == LFalse <==> r == LFalse || x.max < y.min)
    ensures o.Ok? ==> (o.value.r == LTrue <==> r == LTrue)
    ensures o.Ok? ==> (o.value.satisfied <==> o.value.r == LTrue && o.value.x.min >= o.value.y.max)
  {
    if reif && r == LFalse then Ok(GEOut(x, y, r, false))
    else
      var xMax := x.max;
      var yMin := y.min;
      if reif && xMax < yMin && r == LTrue then Fail
      else
        var r1 := if reif && xMax < yMin then LFalse else r;
        if reif && r1 != LTrue then Ok(GEOut(x, y, r1, false))
        else
          assert InDom(x, x.max) && InDom(y, y.min);
          var x1 := ViewSetMin(x, yMin);
          if !x1.Ok? then Fail
          else
            var y1 := ViewSetMax(y, xMax);
            if !y1.Ok? then Fail
            else Ok(GEOut(x1.value, y1.value, r1, x1.value.min >= y1.value.max))
  }

  /** No solution is lost: a pair of view values with `x >= y` survives,
      and when `r` is forced false there is no such pair. */
  lemma BinGESound(reif: bool, x: IntVar, y: IntVar, r: LBool, vx: int, vy: int)
    requires Valid(x) && Valid(y) && (!reif ==> r == LTrue)
    requires InDom(x, vx) && InDom(y, vy) && vx >= vy
    ensures var o := BinGEPropagate(reif, x, y, r);
      o.Ok? && InDom(o.value.x, vx) && InDom(o.value.y, vy) && (o.value.r == LFalse ==> r == LFalse)
  {
  }

  /** A propagator that marks itself satisfied has only solutions left. */
  lemma BinGEEntailed(reif: bool, x: IntVar, y: IntVar, r: LBool, vx: int, vy: int)
    requires Valid(x) && Valid(y) && (!reif ==> r == LTrue)
    requires var o := BinGEPropagate(reif, x, y, r);
      o.Ok? && o.value.satisfied && InDom(o.value.x, vx) && InDom(o.value.y, vy)
    ensures vx >= vy
  {
  }

  /** The lower bound of `x` skips a removed value: with `x` in `{0, 5}`
      and `y` in `3..4`, `x` becomes `5` and the propagator is satisfied,
      where bounds alone would give `x` in `3..5`. */
  lemma BinGESkips()
    ensures var x := IntVar(0, 0, 5, 0, 5, Some({0, 5}), {}, false, Plain);
      var y := IntVar(1, 3, 4, 3, 4, None, {}, false, Plain);
      var o := BinGEPropagate(false, x, y, LTrue);
      o.Ok? && o.value.x.min == 5 && IsFixed(o.value.x) && o.value.satisfied
  {
    var x := IntVar(0, 0, 5, 0, 5, Some({0, 5}), {}, false, Plain);
    var y := IntVar(1, 3, 4, 3, 4, None, {}, false, Plain);
    var o := BinGEPropagate(false, x, y, LTrue);
    assert InDom(o.value.x, o.value.x.min);
    assert InDom(o.value.x, 5);
  }

  /** `BinGE::wakeup`: enqueue unless the reifying literal is false. */
  function BinGEWakeup(e: Engine, id: nat, reif: bool, r: LBool): (e': Engine)
    requires id < |e.props| && e.props[id].priority < |e.queues|
    ensures reif && r == LFalse ==> e' == e
    ensures !(reif && r == LFalse) ==> e' == PushInQueue(e, id) && e'.props[id].inQueue
    ensures Consistent(e) ==> Consistent(e')
  {
    if !reif || r != LFalse then PushInQueue(e, id) else e
  }

  /** `checkSatisfied`: the new flag and the returned code. A satisfied or
      switched-off propagator answers `1`, otherwise `3` after marking
      itself when its bounds entail the relation. */
  function BinGECheckSatisfied(satisfied: bool, r: LBool, x: IntVar, y: IntVar): (o: (bool, nat))
    ensures o.1 == 1 <==> satisfied || r == LFalse
    ensures o.1 == 1 || o.1 == 3
    ensures o.0 <==> satisfied || r == LFalse || x.min >= y.max
  {
    if satisfied then (true, 1)
    else if r == LFalse then (true, 1)
    else (x.min >= y.max, 3)
  }

  /** Once marked by `checkSatisfied` through its bounds, every pair of
      values left satisfies `x >= y`. */
  lemma BinGECheckEntailed(r: LBool, x: IntVar, y: IntVar, vx: int, vy: int)
    requires BinGECheckSatisfied(false, r, x, y).0 && r != LFalse && InDom(x, vx) && InDom(y, vy)
    ensures vx >= vy
  {
  }

  // ---------------------------------------------------------------------
  // BinNE: x != y + c <- r

  /** The view value of a fixed variable shifted by `c`. */
  function FixedVal(x: IntVar, c: int): int { x.min + c }

  datatype NEOut = NEOut(x: IntVar, y: IntVar, r: LBool)

  /** A failure or fatal error of a narrowing, passed on. */
  function Abort(x: Res<IntVar>): (r: Res<NEOut>)
    requires !x.Ok?
    ensures r.Fail? <==> x.Fail?
    ensures r.Fatal? <==> x.Fatal?
  {
    if x.Fail? then Fail else Fatal(x.msg)
  }

  /** `BinNE<U, V, R>::propagate` with `y` seen through the offset `c`
      (the view types `0` and `4` of `newBinNE`): a fixed side removes its
      value from the other side, and two equal fixed sides force `r` false. */
  function BinNEPropagate(reif: bool, x: IntVar, y: IntVar, c: int, r: LBool, finishedInit: bool): (o: Res<NEOut>)
    requires Valid(x) && Valid(y) && (!reif ==> r == LTrue)
    ensures o.Fail? <==> IsFixed(x) && IsFixed(y) && x.min == y.min + c && r == LTrue
    ensures o.Fatal? ==> !finishedInit
    ensures o.Ok? ==> Valid(o.value.x) && Valid(o.value.y)
    ensures o.Ok? ==> (forall w :: InDom(o.value.x, w) ==> InDom(x, w)) && (forall w :: InDom(o.value.y, w) ==> InDom(y, w))
    ensures o.Ok? ==> (o.value.r == LFalse <==> r == LFalse || (IsFixed(x) && IsFixed(y) && x.min == y.min + c))
    ensures o.Ok? ==> (o.value.r == LTrue <==> r == LTrue)
    ensures o.Ok? && o.value.r != LTrue ==> o.value.x == x && o.value.y == y
    ensures o.Ok? && o.value.r == LTrue && IsFixed(x) && y.vals.Some? ==> !InDom(o.value.y, x.min - c)
    ensures o.Ok? && o.value.r == LTrue && IsFixed(o.value.y) && x.vals.Some? ==> !InDom(o.value.x, o.value.y.min + c)
  {
    if reif && r == LFalse then Ok(NEOut(x, y, r))
    else if IsFixed(x) && IsFixed(y) && x.min == y.min + c && r == LTrue then Fail
    else
      var r1 := if IsFixed(x) && IsFixed(y) && x.min == y.min + c then LFalse else r;
      if reif && r1 != LTrue then Ok(NEOut(x, y, r1))
      else
        var y1 := if IsFixed(x) then TLSet(y, OpRemVal, x.min - c, finishedInit) else Ok(y);
        if !y1.Ok? then Abort(y1)
        else
          var y2 := y1.value;
          var x1 := if IsFixed(y2) then TLSet(x, OpRemVal, y2.min + c, finishedInit) else Ok(x);
          if !x1.Ok? then Abort(x1)
          else Ok(NEOut(x1.value, y2, r1))
  }

  /** No solution is lost: values `x != y + c` both survive while `r` is
      true, and `r` is forced false only by two equal fixed sides. */
  lemma BinNESound(reif: bool, x: IntVar, y: IntVar, c: int, r: LBool, finishedInit: bool, vx: int, vy: int)
    requires Valid(x) && Valid(y) && (!reif ==> r == LTrue)
    requires InDom(x, vx) && InDom(y, vy) && vx != vy + c
    requires BinNEPropagate(reif, x, y, c, r, finishedInit).Ok?
    ensures var o := BinNEPropagate(reif, x, y, c, r, finishedInit).value;
      InDom(o.x, vx) && InDom(o.y, vy)
  {
  }

  /** `BinNE::checkSatisfied`: marked when `r` is false or the view
      intervals are disjoint. */
  function BinNECheckSatisfied(satisfied: bool, r: LBool, x: IntVar, y: IntVar): (o: (bool, nat))
    ensures o.1 == 1 <==> satisfied || r == LFalse
    ensures o.1 == 1 || o.1 == 3
    ensures o.0 <==> satisfied || r == LFalse || x.min > y.max || x.max < y.min
  {
    if satisfied then (true, 1)
    else if r == LFalse then (true, 1)
    else (x.min > y.max || x.max < y.min, 3)
  }

  /** Disjoint intervals leave no equal pair. */
  lemma BinNECheckEntailed(r: LBool, x: IntVar, y: IntVar, vx: int, vy: int)
    requires BinNECheckSatisfied(false, r, x, y).0 && r != LFalse && InDom(x, vx) && InDom(y, vy)
    ensures vx != vy
  {
  }
}
