/** The bounds propagators for `y = a[x]` of chuffed/primitives/element.cpp:
    `IntElemBounds`, and `IntElemBoundsImp` for `b -> y = a[x]`. The index
    `x` is an integer variable (already seen through its offset); `y` and
    the entries `a[i]` are views, each modelled by the domain it shows. The
    propagators read only their bounds, but narrowing a bound moves it on
    to the next value still present. Both propagators
    remember an index `fixed_index` once `x` is fixed, and an index whose
    entry supports the lower (upper) bound of `y`, with a flag saying that
    support was lost. */
module ElemBounds {
  import opened Base
  import opened IntVars
  import opened Propagation
  import opened Binary

  // Messages of the fatal errors below.
  const ReadPastArray := "a[a.size()] is read"
  const ReadAtValue := "a[x.getVal()] is read"
  const ReadAtFixed := "a[fixed_index] is read"

  /** The sentinels of the support scans: `INT64_MAX` and `INT_MIN`. */
  const Int64Max: int := 0x7fff_ffff_ffff_ffff
  const IntMin: int := -0x8000_0000
  const IntMax: int := 0x7fff_ffff

  /** A non-empty view of 32-bit values strictly above the `INT_MIN` sentinel. */
  predicate InRange(b: IntVar) { Valid(b) && IntMin < b.min && b.max <= IntMax }

  predicate AllInRange(a: seq<IntVar>) { forall i :: 0 <= i < |a| ==> InRange(a[i]) }

  /** The bounds of an entry meet the bounds of `y` (holes are not looked at). */
  predicate Compat(f: IntVar, y: IntVar) { !(y.max < f.min) && !(y.min > f.max) }

  /** Values with `y = a[x]`. */
  ghost predicate Sol(x: IntVar, y: IntVar, a: seq<IntVar>, xv: int, yv: int)
  {
    InDom(x, xv) && 0 <= xv < |a| && InDom(y, yv) && InDom(a[xv], yv)
  }

  /** Values with `b -> y = a[x]`. */
  ghost predicate ImpSol(b: LBool, x: IntVar, y: IntVar, a: seq<IntVar>, bv: bool, xv: int, yv: int)
  {
    Admits(b, bv) && InDom(x, xv) && InDom(y, yv) && (bv ==> 0 <= xv < |a| && InDom(a[xv], yv))
  }

  /** The persistent and intermediate state: `is_fixed` (used only by the
      reified propagator), `fixed_index`, `min_support`, `max_support`,
      `no_min_support`, `no_max_support`. */
  datatype EState = EState(isFixed: bool, fixedIndex: int, minSupport: int, maxSupport: int, noMin: bool, noMax: bool)

  /** The state a fresh propagator starts from. */
  const Initial := EState(false, -1, -1, -1, false, false)

  /** The views after `propagate`, and whether it marked itself satisfied. */
  datatype ElemOut = ElemOut(st: EState, b: LBool, x: IntVar, y: IntVar, a: seq<IntVar>, satisfied: bool)

  // ---------------------------------------------------------------------
  // The support scans

  /** The least lower bound of the entries below `k` still possible for `x`,
      `INT64_MAX` when there is none. */
  function LeastMin(x: IntVar, a: seq<IntVar>, k: nat): (m: int)
    requires k <= |a| && AllInRange(a)
    ensures m <= Int64Max
  {
    if k == 0 then Int64Max
    else
      var m := LeastMin(x, a, k - 1);
      if InDom(x, k - 1) && a[k - 1].min < m then a[k - 1].min else m
  }

  /** `LeastMin` is the minimum: a lower bound of every remaining entry's
      lower bound, reached by one of them, and the sentinel only when no
      entry remains. */
  lemma {:induction false} LeastMinIs(x: IntVar, a: seq<IntVar>, k: nat)
    requires k <= |a| && AllInRange(a)
    ensures var m := LeastMin(x, a, k);
      (m == Int64Max <==> forall i :: 0 <= i < k ==> !InDom(x, i)) &&
      (forall i :: 0 <= i < k && InDom(x, i) ==> m <= a[i].min) &&
      (m < Int64Max ==> exists i :: 0 <= i < k && InDom(x, i) && a[i].min == m)
  {
    if k > 0 {
      LeastMinIs(x, a, k - 1);
    }
  }

  /** The greatest upper bound of the entries below `k` still possible for
      `x`, `INT_MIN` when there is none. */
  function GreatestMax(x: IntVar, a: seq<IntVar>, k: nat): (m: int)
    requires k <= |a| && AllInRange(a)
    ensures m >= IntMin
  {
    if k == 0 then IntMin
    else
      var m := GreatestMax(x, a, k - 1);
      if InDom(x, k - 1) && a[k - 1].max > m then a[k - 1].max else m
  }

  /** `GreatestMax` is the maximum, as `LeastMinIs` says of `LeastMin`. */
  lemma {:induction false} GreatestMaxIs(x: IntVar, a: seq<IntVar>, k: nat)
    requires k <= |a| && AllInRange(a)
    ensures var m := GreatestMax(x, a, k);
      (m == IntMin <==> forall i :: 0 <= i < k ==> !InDom(x, i)) &&
      (forall i :: 0 <= i < k && InDom(x, i) ==> a[i].max <= m) &&
      (m > IntMin ==> exists i :: 0 <= i < k && InDom(x, i) && a[i].max == m)
  {
    if k > 0 {
      GreatestMaxIs(x, a, k - 1);
    }
  }

  /** Looking at more entries can only lower the least lower bound. */
  lemma LeastMinMono(x: IntVar, a: seq<IntVar>, k: nat, l: nat)
    requires k <= l <= |a| && AllInRange(a)
    ensures LeastMin(x, a, l) <= LeastMin(x, a, k)
  {
    LeastMinIs(x, a, k);
    LeastMinIs(x, a, l);
    if LeastMin(x, a, k) < Int64Max {
      var i :| 0 <= i < k && InDom(x, i) && a[i].min == LeastMin(x, a, k);
    }
  }

  lemma GreatestMaxMono(x: IntVar, a: seq<IntVar>, k: nat, l: nat)
    requires k <= l <= |a| && AllInRange(a)
    ensures GreatestMax(x, a, l) >= GreatestMax(x, a, k)
  {
    GreatestMaxIs(x, a, k);
    GreatestMaxIs(x, a, l);
    if GreatestMax(x, a, k) > IntMin {
      var i :| 0 <= i < k && InDom(x, i) && a[i].max == GreatestMax(x, a, k);
    }
  }

  /** The `no_min_support` scan: the first index reaching a lower bound at
      or below the old `y.min` ends it early; otherwise the least lower bound
      over all remaining indices is found. So the new bound `max(old, new_m)`
      is the old bound raised to the least lower bound of the entries. */
  method MinSupport(x: IntVar, a: seq<IntVar>, oldM: int) returns (best: int, newM: int)
    requires AllInRange(a)
    ensures best == -1 <==> newM == Int64Max
    ensures newM == Int64Max <==> forall i :: 0 <= i < |a| ==> !InDom(x, i)
    ensures best != -1 ==> 0 <= best < |a| && InDom(x, best) && a[best].min == newM
    ensures LeastMin(x, a, |a|) <= newM && (newM <= oldM || newM == LeastMin(x, a, |a|))
  {
    newM := Int64Max;
    best := -1;
    var i := 0;
    LeastMinIs(x, a, |a|);
    while i < |a|
      invariant 0 <= i <= |a|
      invariant newM == LeastMin(x, a, i)
      invariant best == -1 <==> newM == Int64Max
      invariant best != -1 ==> 0 <= best < i && InDom(x, best) && a[best].min == newM
    {
      if InDom(x, i) {
        var cur := a[i].min;
        if cur < newM {
          best := i;
          newM := cur;
          if cur <= oldM {
            LeastMinMono(x, a, i + 1, |a|);
            return;
          }
        }
      }
      i := i + 1;
    }
  }

  /** The `no_max_support` scan, the mirror image of `MinSupport`. */
  method MaxSupport(x: IntVar, a: seq<IntVar>, oldM: int) returns (best: int, newM: int)
    requires AllInRange(a)
    ensures best == -1 <==> newM == IntMin
    ensures newM == IntMin <==> forall i :: 0 <= i < |a| ==> !InDom(x, i)
    ensures best != -1 ==> 0 <= best < |a| && InDom(x, best) && a[best].max == newM
    ensures GreatestMax(x, a, |a|) >= newM && (newM >= oldM || newM == GreatestMax(x, a, |a|))
  {
    newM := IntMin;
    best := -1;
    var i := 0;
    GreatestMaxIs(x, a, |a|);
    while i < |a|
      invariant 0 <= i <= |a|
      invariant newM == GreatestMax(x, a, i)
      invariant best == -1 <==> newM == IntMin
      invariant best != -1 ==> 0 <= best < i && InDom(x, best) && a[best].max == newM
    {
      if InDom(x, i) {
        var cur := a[i].max;
        if cur > newM {
          best := i;
          newM := cur;
          if cur >= oldM {
            GreatestMaxMono(x, a, i + 1, |a|);
            return;
          }
        }
      }
      i := i + 1;
    }
  }

  /** What a support step leaves: the state, `b`, `y`, and whether
      `propagate` returns at once because it forced `b` false. */
  datatype Stepped = Stepped(st: EState, b: LBool, y: IntVar, stop: bool)

  /** The `no_min_support` block: with `b` true `y` loses exactly its values
      below the least lower bound of the entries, so its lower bound rises
      to the next value it still has; with `b` unknown an entry set entirely
      above `y` forces `b` false instead. */
  method MinStep(st: EState, b: LBool, x: IntVar, y: IntVar, a: seq<IntVar>) returns (r: Res<Stepped>)
    requires AllInRange(a) && InRange(y) && b != LFalse
    ensures !r.Fatal?
    ensures r.Fail? <==> b == LTrue && LeastMin(x, a, |a|) > y.max
    ensures r.Ok? ==> (r.value.stop <==> b == LUndef && LeastMin(x, a, |a|) > y.max)
    ensures r.Ok? ==> r.value.st == st.(minSupport := r.value.st.minSupport, noMin := r.value.st.noMin)
    ensures r.Ok? && r.value.stop ==> r.value.b == LFalse && r.value.y == y && r.value.st.noMin == st.noMin
    ensures r.Ok? && !r.value.stop ==> r.value.b == b && !r.value.st.noMin && Valid(r.value.y)
    ensures r.Ok? && !r.value.stop ==> r.value.y.max == y.max && r.value.y.min >= y.min
    ensures r.Ok? && !r.value.stop && b == LTrue ==>
      (forall w :: InDom(r.value.y, w) <==> InDom(y, w) && w >= LeastMin(x, a, |a|)) &&
      0 <= r.value.st.minSupport < |a| && InDom(x, r.value.st.minSupport) && a[r.value.st.minSupport].min <= r.value.y.min
    ensures r.Ok? && !r.value.stop && b == LUndef ==> r.value.y == y
  {
    var best, newM := MinSupport(x, a, y.min);
    var st1 := st.(minSupport := best);
    var y1 := y;
    if newM > y.min {
      if b == LTrue {
        var t := ViewSetMin(y, newM);
        if !t.Ok? { return Fail; }
        y1 := t.value;
      } else if y.max < newM {
        return Ok(Stepped(st1, LFalse, y, true));
      }
    }
    r := Ok(Stepped(st1.(noMin := false), b, y1, false));
  }

  /** The `no_max_support` block, the mirror image of `MinStep`: with `b`
      true `y` loses exactly its values above the greatest upper bound of
      the entries. */
  method MaxStep(st: EState, b: LBool, x: IntVar, y: IntVar, a: seq<IntVar>) returns (r: Res<Stepped>)
    requires AllInRange(a) && InRange(y) && b != LFalse
    ensures !r.Fatal?
    ensures r.Fail? <==> b == LTrue && GreatestMax(x, a, |a|) < y.min
    ensures r.Ok? ==> (r.value.stop <==> b == LUndef && GreatestMax(x, a, |a|) < y.min)
    ensures r.Ok? ==> r.value.st == st.(maxSupport := r.value.st.maxSupport, noMax := r.value.st.noMax)
    ensures r.Ok? && r.value.stop ==> r.value.b == LFalse && r.value.y == y && r.value.st.noMax == st.noMax
    ensures r.Ok? && !r.value.stop ==> r.value.b == b && !r.value.st.noMax && Valid(r.value.y)
    ensures r.Ok? && !r.value.stop ==> r.value.y.min == y.min && r.value.y.max <= y.max
    ensures r.Ok? && !r.value.stop && b == LTrue ==>
      (forall w :: InDom(r.value.y, w) <==> InDom(y, w) && w <= GreatestMax(x, a, |a|)) &&
      0 <= r.value.st.maxSupport < |a| && InDom(x, r.value.st.maxSupport) && a[r.value.st.maxSupport].max >= r.value.y.max
    ensures r.Ok? && !r.value.stop && b == LUndef ==> r.value.y == y
  {
    var best, newM := MaxSupport(x, a, y.max);
    var st1 := st.(maxSupport := best);
    var y1 := y;
    if newM < y.max {
      if b == LTrue {
        var t := ViewSetMax(y, newM);
        if !t.Ok? { return Fail; }
        y1 := t.value;
      } else if y.min > newM {
        return Ok(Stepped(st1, LFalse, y, true));
      }
    }
    r := Ok(Stepped(st1.(noMax := false), b, y1, false));
  }

  // ---------------------------------------------------------------------
  // Narrowing

  /** The four `setDom`s of a fixed index `f`: `y` rises to `f.min`, `f` to
      the new `y.min`, `y` falls to `f.max` and `f` to the new `y.max`. Each
      bound moves on to the next value its view still has, so `y` ends
      within the bounds of `f` and `f` within the new bounds of `y`. No
      common value is lost, and bounds that miss each other fail; values
      that miss each other between overlapping bounds may fail too (see
      `FixedNarrowHoles`). */
  function FixedNarrow(y: IntVar, f: IntVar): (r: Res<(IntVar, IntVar)>)
    requires Valid(y) && Valid(f)
    ensures !r.Fatal?
    ensures !Compat(f, y) ==> r.Fail?
    ensures r.Fail? ==> forall w :: InDom(y, w) ==> !InDom(f, w)
    ensures r.Ok? ==> Valid(r.value.0) && Valid(r.value.1)
    ensures r.Ok? ==> (forall w :: InDom(r.value.0, w) ==> InDom(y, w)) && (forall w :: InDom(r.value.1, w) ==> InDom(f, w))
    ensures r.Ok? ==> forall w :: InDom(y, w) && InDom(f, w) ==> InDom(r.value.0, w) && InDom(r.value.1, w)
    ensures r.Ok? ==> f.min <= r.value.0.min <= r.value.1.min && r.value.1.max <= r.value.0.max <= f.max
  {
    var y1 := ViewSetMin(y, f.min);
    if !y1.Ok? then Fail
    else
      var f1 := ViewSetMin(f, y1.value.min);
      if !f1.Ok? then Fail
      else
        var y2 := ViewSetMax(y1.value, f1.value.max);
        if !y2.Ok? then Fail
        else
          var f2 := ViewSetMax(f1.value, y2.value.max);
          if !f2.Ok? then Fail
          else Ok((y2.value, f2.value))
  }

  /** With views without holes the narrowing is exact: it fails exactly
      when the bounds miss each other, and otherwise both views become the
      common interval. */
  lemma FixedNarrowIntervals(y: IntVar, f: IntVar)
    requires Valid(y) && Valid(f) && y.vals.None? && f.vals.None?
    ensures FixedNarrow(y, f).Fail? <==> !Compat(f, y)
    ensures var r := FixedNarrow(y, f);
      r.Ok? ==> forall w :: (InDom(r.value.0, w) <==> InDom(y, w) && InDom(f, w)) &&
                            (InDom(r.value.1, w) <==> InDom(y, w) && InDom(f, w))
  {
    var r := FixedNarrow(y, f);
    if Compat(f, y) {
      var lo := if y.min < f.min then f.min else y.min;
      assert InDom(y, lo) && InDom(f, lo);
    }
  }

  /** With holes the narrowing can fail although the bounds meet: for `y` in
      `{0, 10}` and an entry in `{5, 20}`, `y` rises to `10`, the entry to
      `20`, and lowering the entry to `10` fails. */
  lemma FixedNarrowHoles()
    ensures var y := IntVar(0, 0, 10, 0, 10, Some({0, 10}), {}, false, Plain);
      var f := IntVar(1, 5, 20, 5, 20, Some({5, 20}), {}, false, Plain);
      Compat(f, y) && FixedNarrow(y, f).Fail?
  {
    var y := IntVar(0, 0, 10, 0, 10, Some({0, 10}), {}, false, Plain);
    var f := IntVar(1, 5, 20, 5, 20, Some({5, 20}), {}, false, Plain);
    var y1 := ViewSetMin(y, f.min);
    assert InDom(y1.value, y1.value.min) && InDom(y, 10);
    assert y1.value.min == 10;
    var f1 := ViewSetMin(f, 10);
    assert InDom(f1.value, f1.value.min) && InDom(f, 20);
    assert f1.value.min == 20;
  }

  /** `x` after the index removals of `propagate`: a dense domain loses
      exactly the indices whose entry misses `y`; without a dense table
      `remVal` records nothing. */
  ghost predicate RemovedBelow(x0: IntVar, x: IntVar, y: IntVar, a: seq<IntVar>, i: nat)
    requires i <= |a|
  {
    Valid(x) && x.vals.Some? == x0.vals.Some? &&
    (x0.vals.None? ==> x == x0) &&
    (x0.vals.Some? ==> forall v :: InDom(x, v) <==> InDom(x0, v) && !(0 <= v < i && !Compat(a[v], y)))
  }

  /** The removal loop: every index still possible for `x` whose entry
      misses `y` is removed. It fails when that would empty `x`. */
  method RemoveIncompatible(x0: IntVar, y: IntVar, a: seq<IntVar>, finishedInit: bool) returns (r: Res<IntVar>)
    requires Valid(x0)
    ensures r.Fatal? ==> x0.vals.None? && !finishedInit
    ensures (forall v :: 0 <= v < |a| ==> !InDom(x0, v)) ==> r == Ok(x0)
    ensures r.Fail? ==> forall v :: InDom(x0, v) ==> 0 <= v < |a| && !Compat(a[v], y)
    ensures x0.vals.Some? ==> (r.Fail? <==> forall v :: InDom(x0, v) ==> 0 <= v < |a| && !Compat(a[v], y))
    ensures r.Ok? ==> RemovedBelow(x0, r.value, y, a, |a|)
  {
    var x := x0;
    for i := 0 to |a|
      invariant RemovedBelow(x0, x, y, a, i)
      invariant (forall v :: 0 <= v < |a| ==> !InDom(x0, v)) ==> x == x0
    {
      if !InDom(x, i) { continue; }
      if y.max < a[i].min {
        var t := TLSet(x, OpRemVal, i, finishedInit);
        RemKeepsTable(x, i, finishedInit);
        if !t.Ok? {
          r := if t.Fail? then Fail else Fatal(t.msg);
          RemoveFailed(x0, x, y, a, i, t);
          return;
        }
        x := t.value;
      }
      if y.min > a[i].max {
        var t := TLSet(x, OpRemVal, i, finishedInit);
        RemKeepsTable(x, i, finishedInit);
        if !t.Ok? {
          r := if t.Fail? then Fail else Fatal(t.msg);
          RemoveFailed(x0, x, y, a, i, t);
          return;
        }
        x := t.value;
      }
    }
    r := Ok(x);
    if x0.vals.Some? && forall v :: InDom(x0, v) ==> 0 <= v < |a| && !Compat(a[v], y) {
      assert InDom(x, x.min);
    }
  }

  /** `remVal` keeps the kind of table, and without one it records nothing. */
  lemma RemKeepsTable(x: IntVar, v: int, finishedInit: bool)
    requires Valid(x)
    ensures var t := TLSet(x, OpRemVal, v, finishedInit);
      t.Ok? ==> t.value.vals.Some? == x.vals.Some? && (x.vals.None? ==> t.value == x)
  {
  }

  /** Removing index `i` fails only when it is the last value of `x`. */
  lemma RemoveFailed(x0: IntVar, x: IntVar, y: IntVar, a: seq<IntVar>, i: nat, t: Res<IntVar>)
    requires i < |a| && RemovedBelow(x0, x, y, a, i) && !Compat(a[i], y)
    requires t == TLSet(x, OpRemVal, i, false) || t == TLSet(x, OpRemVal, i, true)
    requires !t.Ok? && InDom(x, i)
    ensures t.Fatal? ==> x0.vals.None? && t == TLSet(x, OpRemVal, i, false)
    ensures t.Fail? ==> forall v :: InDom(x0, v) ==> 0 <= v < |a| && !Compat(a[v], y)
  {
    if t.Fail? {
      forall v | InDom(x0, v) ensures 0 <= v < |a| && !Compat(a[v], y) {
        if x0.vals.Some? && !(0 <= v < i && !Compat(a[v], y)) {
          assert InDom(x, v);
        }
      }
    }
  }

  // ---------------------------------------------------------------------
  // IntElemBounds

  /** The propagator's own obligations: a recorded `fixed_index` is the value
      of the fixed `x`. Nothing keeps `x` within the indices of `a`. */
  predicate Ready(st: EState, x: IntVar, y: IntVar, a: seq<IntVar>)
  {
    Valid(x) && InRange(y) && AllInRange(a) &&
    (st.fixedIndex >= 0 ==> IsFixed(x) && x.min == st.fixedIndex)
  }

  /** A flagged lower bound of `y` has a support again; an unflagged one did
      not move. */
  ghost predicate MinRestored(st: EState, y: IntVar, a: seq<IntVar>, o: ElemOut)
  {
    if st.noMin then
      !o.st.noMin && 0 <= o.st.minSupport < |a| && InDom(o.x, o.st.minSupport) && a[o.st.minSupport].min <= o.y.min
    else
      o.y.min == y.min && o.st.minSupport == st.minSupport && !o.st.noMin
  }

  /** The mirror image of `MinRestored` for the upper bound. */
  ghost predicate MaxRestored(st: EState, y: IntVar, a: seq<IntVar>, o: ElemOut)
  {
    if st.noMax then
      !o.st.noMax && 0 <= o.st.maxSupport < |a| && InDom(o.x, o.st.maxSupport) && a[o.st.maxSupport].max >= o.y.max
    else
      o.y.max == y.max && o.st.maxSupport == st.maxSupport && !o.st.noMax
  }

  /** `y` after the support blocks with `b` true: it lost exactly its values
      below the least lower bound of the remaining entries when the lower
      support was lost, and above their greatest upper bound when the upper
      one was. */
  ghost predicate YNarrowed(st: EState, x: IntVar, y: IntVar, a: seq<IntVar>, y1: IntVar)
    requires AllInRange(a)
  {
    Valid(y1) &&
    forall w :: InDom(y1, w) <==>
      InDom(y, w) && (st.noMin ==> w >= LeastMin(x, a, |a|)) && (st.noMax ==> w <= GreatestMax(x, a, |a|))
  }

  /** The outcome with an unfixed index and `b` true: `x` lost exactly the
      indices whose entry misses `y`, `y` was narrowed by the flagged
      supports and has them again, and the entries did not move. */
  ghost predicate UnfixedOut(st: EState, x: IntVar, y: IntVar, a: seq<IntVar>, o: ElemOut)
  {
    o.a == a && !o.satisfied && AllInRange(a) &&
    RemovedBelow(x, o.x, y, a, |a|) && YNarrowed(st, o.x, y, a, o.y) &&
    MinRestored(st, y, a, o) && MaxRestored(st, y, a, o) &&
    o.st.isFixed == st.isFixed && o.st.fixedIndex == st.fixedIndex
  }

  /** The removals and both support blocks with `b` true. */
  method UnfixedTrue(st: EState, x: IntVar, y: IntVar, a: seq<IntVar>, finishedInit: bool) returns (r: Res<ElemOut>)
    requires Valid(x) && InRange(y) && AllInRange(a)
    ensures r.Fatal? ==> x.vals.None? && !finishedInit
    ensures r.Ok? ==> r.value.b == LTrue && UnfixedOut(st, x, y, a, r.value)
    ensures (st.noMin || st.noMax) && (forall v :: 0 <= v < |a| ==> !InDom(x, v)) ==> r.Fail?
    ensures forall xv, yv :: Sol(x, y, a, xv, yv) && !r.Fatal? ==> r.Ok? && Sol(r.value.x, r.value.y, r.value.a, xv, yv)
  {
    var x1 := RemoveIncompatible(x, y, a, finishedInit);
    if !x1.Ok? {
      r := if x1.Fail? then Fail else Fatal(x1.msg);
      return;
    }
    var xs := x1.value;
    forall xv, yv | Sol(x, y, a, xv, yv) ensures Sol(xs, y, a, xv, yv) {
      assert Compat(a[xv], y);
    }
    r := SupportSteps(st, xs, y, a);
  }

  /** Both support blocks with `b` true, after the removals left `x`: `y`
      is narrowed as `YNarrowed` says, and a value of `y` that some
      remaining index supports survives. */
  method SupportSteps(st: EState, x: IntVar, y: IntVar, a: seq<IntVar>) returns (r: Res<ElemOut>)
    requires Valid(x) && InRange(y) && AllInRange(a)
    ensures !r.Fatal?
    ensures r.Ok? ==> r.value.b == LTrue && r.value.x == x && r.value.a == a && !r.value.satisfied
    ensures r.Ok? ==> YNarrowed(st, x, y, a, r.value.y) && MinRestored(st, y, a, r.value) && MaxRestored(st, y, a, r.value)
    ensures r.Ok? ==> r.value.st.isFixed == st.isFixed && r.value.st.fixedIndex == st.fixedIndex
    ensures (st.noMin || st.noMax) && (forall v :: 0 <= v < |a| ==> !InDom(x, v)) ==> r.Fail?
    ensures forall xv, yv :: Sol(x, y, a, xv, yv) ==> r.Ok? && Sol(x, r.value.y, a, xv, yv)
  {
    LeastMinIs(x, a, |a|);
    GreatestMaxIs(x, a, |a|);
    var st1, y1 := st, y;
    if st.noMin {
      var s := MinStep(st1, LTrue, x, y1, a);
      if !s.Ok? {
        r := Fail;
        return;
      }
      st1, y1 := s.value.st, s.value.y;
    }
    if st.noMax {
      var s := MaxStep(st1, LTrue, x, y1, a);
      if !s.Ok? {
        r := Fail;
        return;
      }
      st1, y1 := s.value.st, s.value.y;
    }
    r := Ok(ElemOut(st1, LTrue, x, y1, a, false));
  }

  /** `IntElemBounds::propagate`. With the index fixed, `y` and the selected
      entry narrow as `FixedNarrow` says and the propagator is satisfied
      once both are fixed; an index fixed past the end of `a` is read all
      the same, which is the `Fatal` outcome. Otherwise see `UnfixedOut`;
      an `x` with no value among the indices (one fixed at a negative value
      counts as unfixed) fails as soon as a support is sought. No solution
      is lost. */
  method IntElemBoundsPropagate(st: EState, x: IntVar, y: IntVar, a: seq<IntVar>, finishedInit: bool)
    returns (r: Res<ElemOut>)
    requires Ready(st, x, y, a)
    ensures st.fixedIndex >= |a| ==> r.Fatal?
    ensures r.Fatal? ==> st.fixedIndex >= |a| || (st.fixedIndex < 0 && x.vals.None? && !finishedInit)
    ensures 0 <= st.fixedIndex < |a| ==> (r.Fail? <==> FixedNarrow(y, a[st.fixedIndex]).Fail?)
    ensures 0 <= st.fixedIndex < |a| && !Compat(a[st.fixedIndex], y) ==> r.Fail?
    ensures st.fixedIndex < 0 && (st.noMin || st.noMax) && (forall v :: 0 <= v < |a| ==> !InDom(x, v)) ==> r.Fail?
    ensures r.Ok? && st.fixedIndex >= 0 ==>
      var f := st.fixedIndex; var o := r.value;
      f < |a| && o.st == st && o.x == x && |o.a| == |a| &&
      (forall j :: 0 <= j < |a| && j != f ==> o.a[j] == a[j]) &&
      FixedNarrow(y, a[f]) == Ok((o.y, o.a[f])) &&
      (o.satisfied <==> IsFixed(o.y) && IsFixed(o.a[f]))
    ensures r.Ok? && st.fixedIndex < 0 ==> UnfixedOut(st, x, y, a, r.value)
    ensures forall xv, yv :: Sol(x, y, a, xv, yv) && !r.Fatal? ==> r.Ok? && Sol(r.value.x, r.value.y, r.value.a, xv, yv)
  {
    if st.fixedIndex >= |a| {
      return Fatal(ReadAtFixed);
    }
    if st.fixedIndex >= 0 {
      var f := st.fixedIndex;
      var n := FixedNarrow(y, a[f]);
      if !n.Ok? { return Fail; }
      var (yf, ff) := n.value;
      r := Ok(ElemOut(st, LTrue, x, yf, a[f := ff], IsFixed(yf) && IsFixed(ff)));
      return;
    }
    r := UnfixedTrue(st, x, y, a, finishedInit);
  }

  /** The part of `wakeup` shared by both propagators while the index is
      not fixed: an entry, `y` or `x` changed at argument position `i`. */
  function UnfixedWakeup(e: Engine, id: nat, st: EState, i: nat, x: IntVar, y: IntVar, a: seq<IntVar>)
    : (r: (EState, Engine))
    requires id < |e.props| && e.props[id].priority < |e.queues|
    ensures r.0 == st.(noMin := r.0.noMin, noMax := r.0.noMax)
    ensures r.0.noMin <==> st.noMin || (i < |a| && i == st.minSupport && a[i].min > y.min) ||
                           (i == |a| + 1 && !InDom(x, st.minSupport))
    ensures r.0.noMax <==> st.noMax || (i < |a| && i == st.maxSupport && a[i].max < y.max) ||
                           (i == |a| + 1 && !InDom(x, st.maxSupport))
    ensures r.1 == e || r.1 == PushInQueue(e, id)
    ensures r.1 == PushInQueue(e, id) || e.props[id].inQueue <==>
      i != |a| + 1 || !InDom(x, st.minSupport) || !InDom(x, st.maxSupport) || e.props[id].inQueue
  {
    if i < |a| then
      var st1 := st.(noMin := st.noMin || (i == st.minSupport && a[i].min > y.min),
                     noMax := st.noMax || (i == st.maxSupport && a[i].max < y.max));
      (st1, PushInQueue(e, id))
    else if i == |a| + 1 then
      var lostMin := !InDom(x, st.minSupport);
      var lostMax := !InDom(x, st.maxSupport);
      (st.(noMin := st.noMin || lostMin, noMax := st.noMax || lostMax),
       if lostMin || lostMax then PushInQueue(e, id) else e)
    else
      (st, PushInQueue(e, id))
  }

  /** `IntElemBounds::wakeup(i, c)`: position `|a|` is `y`, `|a| + 1` is `x`.
      The event that fixes `x` records `fixed_index` and clears both flags;
      from then on only `y` and the selected entry enqueue the propagator.
      A negative value is indistinguishable from the unset `fixed_index`
      `-1`, so an `x` fixed there goes on through the unfixed rules. */
  function IntElemBoundsWakeup(e: Engine, id: nat, st: EState, i: nat, c: set<Event>, x: IntVar, y: IntVar, a: seq<IntVar>)
    : (r: (EState, Engine))
    requires id < |e.props| && e.props[id].priority < |e.queues|
    requires Valid(x) && (i == |a| + 1 && EvF in c ==> IsFixed(x))
    ensures |r.1.props| == |e.props|
    ensures i == |a| + 1 && EvF in c && x.min >= 0 ==>
      r.0 == st.(fixedIndex := x.min, noMin := false, noMax := false) && r.1.props[id].inQueue
    ensures i == |a| + 1 && EvF in c && x.min < 0 ==>
      r == UnfixedWakeup(PushInQueue(e, id), id, st.(fixedIndex := x.min, noMin := false, noMax := false), i, x, y, a)
    ensures !(i == |a| + 1 && EvF in c) && st.fixedIndex >= 0 ==>
      r.0 == st && r.1 == (if i == |a| || i == st.fixedIndex then PushInQueue(e, id) else e)
    ensures !(i == |a| + 1 && EvF in c) && st.fixedIndex < 0 ==> r == UnfixedWakeup(e, id, st, i, x, y, a)
    ensures Consistent(e) ==> Consistent(r.1)
  {
    var fixing := i == |a| + 1 && EvF in c;
    var st1 := if fixing then st.(fixedIndex := x.min, noMin := false, noMax := false) else st;
    var e1 := if fixing then PushInQueue(e, id) else e;
    if st1.fixedIndex >= 0 then
      (st1, if i == |a| || i == st1.fixedIndex then PushInQueue(e1, id) else e1)
    else
      UnfixedWakeup(e1, id, st1, i, x, y, a)
  }

  /** A recorded support still supports its bound, or its flag is up. */
  ghost predicate Supported(st: EState, x: IntVar, y: IntVar, a: seq<IntVar>)
  {
    (st.noMin || (0 <= st.minSupport < |a| && InDom(x, st.minSupport) && a[st.minSupport].min <= y.min)) &&
    (st.noMax || (0 <= st.maxSupport < |a| && InDom(x, st.maxSupport) && a[st.maxSupport].max >= y.max))
  }

  /** Between two calls only the view at position `i` changed, and it only narrowed. */
  ghost predicate OnlyAt(i: nat, x0: IntVar, y0: IntVar, a0: seq<IntVar>, x: IntVar, y: IntVar, a: seq<IntVar>)
  {
    |a| == |a0| &&
    (i < |a| ==> x == x0 && y == y0 && (forall j :: 0 <= j < |a| && j != i ==> a[j] == a0[j]) &&
                 a0[i].min <= a[i].min && a[i].max <= a0[i].max) &&
    (i == |a| ==> x == x0 && a == a0 && y0.min <= y.min && y.max <= y0.max) &&
    (i == |a| + 1 ==> y == y0 && a == a0 && forall v :: InDom(x, v) ==> InDom(x0, v))
  }

  /** The wake-up keeps the supports honest: a support that the change at
      position `i` invalidates raises its flag, so every unflagged support
      still supports its bound afterwards. */
  lemma WakeupKeepsSupport(e: Engine, id: nat, st: EState, i: nat, c: set<Event>,
                           x0: IntVar, y0: IntVar, a0: seq<IntVar>, x: IntVar, y: IntVar, a: seq<IntVar>)
    requires id < |e.props| && e.props[id].priority < |e.queues|
    requires Valid(x) && st.fixedIndex < 0 && i <= |a| + 1 && !(i == |a| + 1 && EvF in c)
    requires Supported(st, x0, y0, a0) && OnlyAt(i, x0, y0, a0, x, y, a)
    ensures Supported(IntElemBoundsWakeup(e, id, st, i, c, x, y, a).0, x, y, a)
  {
  }

  /** `clearPropState`: leaves the queue and lowers both flags. */
  function ElemClearPropState(e: Engine, id: nat, st: EState): (r: (EState, Engine))
    requires id < |e.props|
    ensures |r.1.props| == |e.props|
    ensures !r.1.props[id].inQueue && r.1.queues == e.queues
    ensures r.1.props[id].satisfied == e.props[id].satisfied
    ensures forall j :: 0 <= j < |e.props| && j != id ==> r.1.props[j] == e.props[j]
    ensures !r.0.noMin && !r.0.noMax && r.0 == st.(noMin := false, noMax := false)
  {
    (st.(noMin := false, noMax := false), DefaultClearPropState(e, id))
  }

  /** `IntElemBounds::checkSatisfied`: marked once `x`, `y` and the selected
      entry are all fixed; answers `1` only if already marked. Reading the
      entry of an index fixed outside `a` is an error. */
  function IntElemBoundsCheckSatisfied(satisfied: bool, x: IntVar, y: IntVar, a: seq<IntVar>): (o: Res<(bool, nat)>)
    ensures !o.Fail?
    ensures o.Fatal? <==> !satisfied && IsFixed(x) && y.min == y.max && !(0 <= x.min < |a|)
    ensures o.Ok? ==> (o.value.1 == 1 <==> satisfied) && (o.value.1 == 1 || o.value.1 == 3)
    ensures o.Ok? ==> (o.value.0 <==> satisfied || (IsFixed(x) && y.min == y.max && 0 <= x.min < |a| && a[x.min].min == a[x.min].max))
  {
    if satisfied then Ok((true, 1))
    else if IsFixed(x) && y.min == y.max then
      if 0 <= x.min < |a| then Ok((a[x.min].min == a[x.min].max, 3))
      else Fatal(ReadAtValue)
    else Ok((false, 3))
  }

  // ---------------------------------------------------------------------
  // IntElemBoundsImp: b -> y = a[x]

  /** The walk of the reified propagator with `b` unknown, as written: it
      runs while `i <= |a|`, so once every earlier possible index misses `y`
      and `|a|` itself is possible for `x`, it reads the entry one past the
      end of `a`. That read is the `Fatal` outcome. Otherwise it agrees with
      `Scan`: the walk passes `x.max` exactly when no possible index selects
      an entry meeting `y` and `x` stays below `|a|`. */
  method ScanAsWritten(x: IntVar, y: IntVar, a: seq<IntVar>) returns (r: Res<nat>)
    requires Valid(x)
    ensures !r.Fail?
    ensures r.Fatal? <==> InDom(x, |a|) && forall v :: 0 <= v < |a| && InDom(x, v) ==> !Compat(a[v], y)
    ensures r.Ok? ==> (r.value > x.max <==> x.max < |a| && forall v :: InDom(x, v) && 0 <= v < |a| ==> !Compat(a[v], y))
  {
    var i := 0;
    while i <= |a|
      invariant i <= |a| + 1
      invariant forall j :: 0 <= j < i && j < |a| && InDom(x, j) ==> !Compat(a[j], y)
      invariant i == |a| + 1 ==> !InDom(x, |a|)
    {
      if !InDom(x, i) {
      } else if i == |a| {
        return Fatal(ReadPastArray);
      } else if y.max < a[i].min {
      } else if y.min > a[i].max {
      } else {
        break;
      }
      i := i + 1;
    }
    assert InDom(x, x.max);
    r := Ok(i);
  }

  /** The input on which the walk reads past the end: `a = [5..5]`,
      `y = 0..0` and `x` in `{0, 1}`. Index 0 misses `y` and index 1 is
      possible. */
  lemma ScanReadsPastEnd()
    ensures var x := IntVar(0, 0, 1, 0, 1, None, {}, false, EL);
      var a := [IntVar(1, 5, 5, 5, 5, None, {}, false, Plain)];
      var y := IntVar(2, 0, 0, 0, 0, None, {}, false, Plain);
      Valid(x) && InDom(x, |a|) && forall v :: 0 <= v < |a| && InDom(x, v) ==> !Compat(a[v], y)
  {
  }

  /** The walk with the bound `i < |a|`: it stops at the first possible
      index whose entry meets `y`, or at `|a|`. Passing `x.max` then means
      that no possible index selects an entry meeting `y` and `x` has no
      value at or past `|a|`, so `b` must be false. */
  method Scan(x: IntVar, y: IntVar, a: seq<IntVar>) returns (i: nat)
    requires Valid(x)
    ensures i <= |a|
    ensures i < |a| ==> InDom(x, i) && Compat(a[i], y)
    ensures forall j :: 0 <= j < i && InDom(x, j) ==> !Compat(a[j], y)
    ensures i > x.max <==> x.max < |a| && forall v :: InDom(x, v) && 0 <= v < |a| ==> !Compat(a[v], y)
  {
    i := 0;
    while i < |a|
      invariant i <= |a|
      invariant forall j :: 0 <= j < i && InDom(x, j) ==> !Compat(a[j], y)
    {
      if !InDom(x, i) {
      } else if y.max < a[i].min {
      } else if y.min > a[i].max {
      } else {
        break;
      }
      i := i + 1;
    }
    assert InDom(x, x.max);
  }

  /** The obligations of the reified propagator: a recorded fixed index is
      the value of the fixed `x`; `x` may range outside the indices of `a`. */
  predicate ImpReady(st: EState, x: IntVar, y: IntVar, a: seq<IntVar>)
  {
    Valid(x) && InRange(y) && AllInRange(a) &&
    (st.isFixed ==> IsFixed(x) && x.min == st.fixedIndex)
  }

  /** `IntElemBoundsImp::propagate` with the corrected walk. A false `b`
      makes it satisfied; an index fixed outside `a` forces `b` false; a
      fixed index with `b` true narrows `y` and the entry as in
      `IntElemBounds`, and with `b` unknown forces `b` false when their
      bounds miss each other; with `b` true the index removals and support updates of
      `IntElemBounds` follow; with `b` unknown nothing but `b` changes. No
      solution of `b -> y = a[x]` is lost. */
  method IntElemBoundsImpPropagate(st: EState, b: LBool, x: IntVar, y: IntVar, a: seq<IntVar>, finishedInit: bool)
    returns (r: Res<ElemOut>)
    requires ImpReady(st, x, y, a)
    ensures b == LFalse ==> r == Ok(ElemOut(st, b, x, y, a, true))
    ensures r.Fatal? ==> b == LTrue && !st.isFixed && x.vals.None? && !finishedInit
    ensures r.Ok? ==> (r.value.b == LTrue <==> b == LTrue) && (r.value.b == LUndef ==> b == LUndef)
    ensures r.Ok? && b != LTrue ==> r.value.x == x && r.value.y == y && r.value.a == a
    ensures st.isFixed && b == LTrue ==>
      (r.Fail? <==> !(0 <= st.fixedIndex < |a|) || FixedNarrow(y, a[st.fixedIndex]).Fail?)
    ensures st.isFixed && b == LTrue && 0 <= st.fixedIndex < |a| && !Compat(a[st.fixedIndex], y) ==> r.Fail?
    ensures st.isFixed && b == LUndef ==>
      r.Ok? && (r.value.b == LFalse <==> !(0 <= st.fixedIndex < |a|) || !Compat(a[st.fixedIndex], y))
    ensures r.Ok? && st.isFixed && b == LTrue ==>
      var f := st.fixedIndex; var o := r.value;
      0 <= f < |a| && o.st == st && o.x == x && |o.a| == |a| &&
      (forall j :: 0 <= j < |a| && j != f ==> o.a[j] == a[j]) &&
      FixedNarrow(y, a[f]) == Ok((o.y, o.a[f])) &&
      (o.satisfied <==> IsFixed(o.y) && IsFixed(o.a[f]))
    ensures r.Ok? && !st.isFixed && b == LTrue ==> UnfixedOut(st, x, y, a, r.value)
    ensures !st.isFixed && b == LUndef && x.max < |a| && (forall v :: InDom(x, v) && 0 <= v < |a| ==> !Compat(a[v], y)) ==>
      r.Ok? && r.value.b == LFalse
    ensures forall bv, xv, yv :: ImpSol(b, x, y, a, bv, xv, yv) && !r.Fatal? ==>
      r.Ok? && ImpSol(r.value.b, r.value.x, r.value.y, r.value.a, bv, xv, yv)
  {
    if b == LFalse {
      return Ok(ElemOut(st, b, x, y, a, true));
    }
    if st.isFixed && (st.fixedIndex < 0 || st.fixedIndex >= |a|) {
      if b == LTrue { return Fail; }
      return Ok(ElemOut(st, LFalse, x, y, a, false));
    }
    if st.isFixed {
      var fi := st.fixedIndex;
      var f := a[fi];
      if b == LTrue {
        var n := FixedNarrow(y, f);
        if !n.Ok? { return Fail; }
        var (yf, ff) := n.value;
        return Ok(ElemOut(st, b, x, yf, a[fi := ff], IsFixed(yf) && IsFixed(ff)));
      } else if f.min > y.max {
        return Ok(ElemOut(st, LFalse, x, y, a, false));
      } else if f.max < y.min {
        return Ok(ElemOut(st, LFalse, x, y, a, false));
      }
      return Ok(ElemOut(st, b, x, y, a, false));
    }
    if b == LTrue {
      r := UnfixedTrue(st, x, y, a, finishedInit);
      forall bv, xv, yv | ImpSol(b, x, y, a, bv, xv, yv) && !r.Fatal?
        ensures r.Ok? && ImpSol(r.value.b, r.value.x, r.value.y, r.value.a, bv, xv, yv)
      {
        assert Sol(x, y, a, xv, yv);
      }
      return;
    }
    var i := Scan(x, y, a);
    if i > x.max {
      return Ok(ElemOut(st, LFalse, x, y, a, false));
    }
    LeastMinIs(x, a, |a|);
    GreatestMaxIs(x, a, |a|);
    var st1 := st;
    if st.noMin {
      var s := MinStep(st1, LUndef, x, y, a);
      if s.value.stop {
        return Ok(ElemOut(s.value.st, LFalse, x, y, a, false));
      }
      st1 := s.value.st;
    }
    if st.noMax {
      var s := MaxStep(st1, LUndef, x, y, a);
      if s.value.stop {
        return Ok(ElemOut(s.value.st, LFalse, x, y, a, false));
      }
      st1 := s.value.st;
    }
    r := Ok(ElemOut(st1, LUndef, x, y, a, false));
  }

  /** `IntElemBoundsImp::wakeup(i, c)`: position `|a| + 2` is `b`, whose
      fixing to false is ignored; the event fixing `x` sets `is_fixed`. */
  function IntElemBoundsImpWakeup(e: Engine, id: nat, st: EState, i: nat, c: set<Event>, b: LBool,
                                  x: IntVar, y: IntVar, a: seq<IntVar>)
    : (r: (EState, Engine))
    requires id < |e.props| && e.props[id].priority < |e.queues|
    requires Valid(x) && (i == |a| + 1 && EvF in c ==> IsFixed(x))
    ensures |r.1.props| == |e.props|
    ensures i == |a| + 2 && EvF in c && b == LFalse ==> r == (st, e)
    ensures i == |a| + 1 && EvF in c ==>
      r.0 == st.(isFixed := true, fixedIndex := x.min, noMin := false, noMax := false) && r.1 == PushInQueue(e, id)
    ensures !(i == |a| + 1 && EvF in c) && !(i == |a| + 2 && EvF in c && b == LFalse) && st.isFixed ==>
      r.0 == st && r.1 == (if i == |a| || i == st.fixedIndex then PushInQueue(e, id) else e)
    ensures !(i == |a| + 1 && EvF in c) && !(i == |a| + 2 && EvF in c && b == LFalse) && !st.isFixed ==>
      r == UnfixedWakeup(e, id, st, i, x, y, a)
    ensures Consistent(e) ==> Consistent(r.1)
  {
    if i == |a| + 2 && EvF in c && b == LFalse then (st, e)
    else if i == |a| + 1 && EvF in c then
      (st.(isFixed := true, fixedIndex := x.min, noMin := false, noMax := false), PushInQueue(e, id))
    else if st.isFixed then
      (st, if i == |a| || i == st.fixedIndex then PushInQueue(e, id) else e)
    else
      UnfixedWakeup(e, id, st, i, x, y, a)
  }

  /** Satisfaction of the reified constraint as the check reads it. */
  predicate ImpDone(satisfied: bool, b: LBool, x: IntVar, y: IntVar, a: seq<IntVar>)
  {
    satisfied || b == LFalse ||
    (b == LTrue && IsFixed(x) && y.min == y.max && 0 <= x.min < |a| && a[x.min].min == a[x.min].max)
  }

  /** `IntElemBoundsImp::checkSatisfied`: marked when `b` is false, or when
      `b`, `x`, `y` and the selected entry are all fixed; reading the entry
      of an index fixed outside `a` is an error. */
  function IntElemBoundsImpCheckSatisfied(satisfied: bool, b: LBool, x: IntVar, y: IntVar, a: seq<IntVar>)
    : (o: Res<(bool, nat)>)
    ensures !o.Fail?
    ensures o.Fatal? <==> !satisfied && b == LTrue && IsFixed(x) && y.min == y.max && !(0 <= x.min < |a|)
    ensures o.Ok? ==> (o.value.1 == 1 <==> satisfied) && (o.value.1 == 1 || o.value.1 == 3)
    ensures o.Ok? ==> (o.value.0 <==> ImpDone(satisfied, b, x, y, a))
  {
    if satisfied then Ok((true, 1))
    else if b == LFalse then Ok((true, 3))
    else if b == LTrue && IsFixed(x) && y.min == y.max then
      if 0 <= x.min < |a| then Ok((a[x.min].min == a[x.min].max, 3))
      else Fatal(ReadAtValue)
    else Ok((false, 3))
  }
}
