/** The propagator of chuffed/globals/bool_arg_max.cpp: `y - offset` is the
    index of the first true entry of the Boolean array `x`. It sets false
    every entry before `y`'s least value, sets true the entry `y` is fixed
    to, removes the values of `y` whose entry is false, and moves `y`'s
    bounds to the first entry that may be true and the first that must be. */
module ArgMax {
  import opened Base
  import opened IntVars
  import opened Propagation

  /** Values with `y - offset` the index of the first true entry of `xv`. */
  ghost predicate Sol(xv: seq<bool>, offset: int, yv: int)
  {
    offset <= yv < offset + |xv| && xv[yv - offset] &&
    forall i :: 0 <= i < yv - offset ==> !xv[i]
  }

  /** Every entry of `xv` is allowed by the current values `x`. */
  ghost predicate AdmitsAll(x: seq<LBool>, xv: seq<bool>)
  {
    |xv| == |x| && forall i :: 0 <= i < |x| ==> Admits(x[i], xv[i])
  }

  /** The propagator reads `x[v - offset]` for values `v` of `y` without a
      range check; a read outside `x` is fatal. */
  const ReadOutside := "x[i] is read outside the array"

  /** `y` starts at or after `offset`, so no value of it reads before `x[0]`. */
  predicate FromOffset(y: IntVar, offset: int)
  {
    Valid(y) && offset <= y.min
  }

  /** The walk over the values of `y` reaches one past the end of `x`: `y`
      has such a value and no value before it has a true entry. */
  ghost predicate WalksPastEnd(x: seq<LBool>, y: IntVar, offset: int)
  {
    offset + |x| <= y.max &&
    forall w :: InDom(y, w) && offset <= w < offset + |x| ==> x[w - offset] != LTrue
  }

  /** `x` only gains fixed values. */
  predicate Refines(x0: seq<LBool>, x: seq<LBool>)
  {
    |x| == |x0| && forall i :: 0 <= i < |x0| && x0[i] != LUndef ==> x[i] == x0[i]
  }

  /** `BoolArgMax(x, offset, y)`: registered like every propagator, then
      given priority 1. */
  function BoolArgMaxRegister(e: Engine): (r: (Engine, nat))
    requires |e.queues| > 1
    ensures r.1 == |e.props| && |r.0.props| == |e.props| + 1
    ensures r.0.props[..|e.props|] == e.props
    ensures r.0.props[r.1] == Prop(r.1, 1, false, false)
    ensures Consistent(e) ==> Consistent(r.0)
  {
    var (e1, id) := Register(e);
    (e1.(props := e1.props[id := e1.props[id].(priority := 1)]), id)
  }

  /** The loops setting `x[i]` false for `lo <= i < hi`: an entry already
      false is left alone, and one already true is a failure. */
  method FixFalse(x: seq<LBool>, lo: int, hi: int) returns (r: Res<seq<LBool>>)
    requires 0 <= lo <= hi <= |x|
    ensures !r.Fatal?
    ensures r.Fail? <==> exists i :: lo <= i < hi && x[i] == LTrue
    ensures r.Ok? ==> |r.value| == |x|
    ensures r.Ok? ==> forall i :: 0 <= i < |x| ==> r.value[i] == (if lo <= i < hi then LFalse else x[i])
  {
    var z := x;
    var i := lo;
    while i < hi
      invariant lo <= i <= hi
      invariant |z| == |x|
      invariant forall j :: 0 <= j < |x| ==> z[j] == (if lo <= j < i then LFalse else x[j])
      invariant forall j :: lo <= j < i ==> x[j] != LTrue
    {
      if z[i] != LFalse {
        if z[i] == LTrue {
          return Fail;
        }
        z := z[i := LFalse];
      }
      i := i + 1;
    }
    r := Ok(z);
  }

  /** Whether the walk over the values of `y` reads past the end of `x`.
      The walk changes nothing before its first read, so deciding this ahead
      of it is the same as aborting at that read. */
  method PastEnd(x: seq<LBool>, y: IntVar, offset: int) returns (past: bool)
    requires FromOffset(y, offset)
    ensures past <==> WalksPastEnd(x, y, offset)
  {
    var v := y.min;
    while v <= y.max && v < offset + |x|
      invariant y.min <= v
      invariant forall w :: InDom(y, w) && w < v && w < offset + |x| ==> x[w - offset] != LTrue
    {
      if InDom(y, v) && x[v - offset] == LTrue {
        TrueInside(x, y, offset, v);
        return false;
      }
      v := v + 1;
    }
    past := offset + |x| <= y.max;
  }

  /** The walk over the values of `y` in increasing order, when it stays
      inside `x`. `l` is the index of the first value whose entry may be
      true (`|x|` when there is none), `u` that of the first value whose
      entry is true, or of the last value, and `toFix` the indices of the
      values up to `u` whose entry is false. The source gathers the three in
      one loop; here each has its own. */
  method Scan(x: seq<LBool>, y: IntVar, offset: int) returns (l: int, u: int, toFix: seq<int>)
    requires FromOffset(y, offset) && !WalksPastEnd(x, y, offset)
    ensures 0 <= l <= |x| && 0 <= u < |x|
    ensures l < |x| ==> InDom(y, l + offset) && x[l] != LFalse && l <= u
    ensures forall w :: InDom(y, w) && w < l + offset ==> x[w - offset] == LFalse
    ensures InDom(y, u + offset) && (x[u] == LTrue || u + offset == y.max)
    ensures forall w :: InDom(y, w) && w < u + offset ==> x[w - offset] != LTrue
    ensures forall k, m :: 0 <= k < m < |toFix| ==> toFix[k] < toFix[m]
    ensures forall i :: i in toFix <==> InDom(y, i + offset) && i <= u && x[i] == LFalse
  {
    u := FirstTrue(x, y, offset);
    l := FirstOpen(x, y, offset, u);
    toFix := FalseUpTo(x, y, offset, u);
  }

  /** Where the walk stops: the first value of `y` whose entry is true, or
      its greatest value. */
  method FirstTrue(x: seq<LBool>, y: IntVar, offset: int) returns (u: int)
    requires FromOffset(y, offset) && !WalksPastEnd(x, y, offset)
    ensures 0 <= u < |x| && InDom(y, u + offset) && (x[u] == LTrue || u + offset == y.max)
    ensures forall w :: InDom(y, w) && w < u + offset ==> x[w - offset] != LTrue
  {
    var v := y.min;
    var last := y.min;
    while v <= y.max
      invariant y.min <= v <= y.max + 1
      invariant forall w :: InDom(y, w) && w < v && w < offset + |x| ==> x[w - offset] != LTrue
      invariant v > y.min ==> InDom(y, last) && last < v && last < offset + |x|
      invariant forall w :: v > y.min && last < w < v ==> !InDom(y, w)
    {
      if InDom(y, v) {
        StaysInside(x, y, offset, v);
        last := v;
        if x[v - offset] == LTrue {
          return v - offset;
        }
      }
      v := v + 1;
    }
    assert InDom(y, y.max);
    u := last - offset;
  }

  /** The first value of `y`, up to where the walk stops, whose entry may be
      true; `|x|` when every such entry is false. */
  method FirstOpen(x: seq<LBool>, y: IntVar, offset: int, u: int) returns (l: int)
    requires FromOffset(y, offset) && 0 <= u < |x| && InDom(y, u + offset)
    requires x[u] == LTrue || u + offset == y.max
    ensures 0 <= l <= |x|
    ensures l < |x| ==> InDom(y, l + offset) && x[l] != LFalse && l <= u
    ensures forall w :: InDom(y, w) && w < l + offset ==> x[w - offset] == LFalse
  {
    var v := y.min;
    while v <= u + offset
      invariant y.min <= v <= u + offset + 1
      invariant forall w :: InDom(y, w) && w < v ==> x[w - offset] == LFalse
    {
      if InDom(y, v) && x[v - offset] != LFalse {
        return v - offset;
      }
      v := v + 1;
    }
    l := |x|;
  }

  /** The values of `y` up to where the walk stops whose entry is false, in
      increasing order. */
  method FalseUpTo(x: seq<LBool>, y: IntVar, offset: int, u: int) returns (toFix: seq<int>)
    requires FromOffset(y, offset) && 0 <= u < |x|
    ensures forall k, m :: 0 <= k < m < |toFix| ==> toFix[k] < toFix[m]
    ensures forall i :: i in toFix <==> InDom(y, i + offset) && i <= u && x[i] == LFalse
  {
    toFix := [];
    var v := y.min;
    while v <= u + offset
      invariant y.min <= v
      invariant v <= u + offset + 1 || toFix == []
      invariant forall k, m :: 0 <= k < m < |toFix| ==> toFix[k] < toFix[m]
      invariant forall k :: 0 <= k < |toFix| ==> toFix[k] + offset < v
      invariant forall i :: i in toFix <==> InDom(y, i + offset) && i + offset < v && i <= u && x[i] == LFalse
    {
      if InDom(y, v) && x[v - offset] == LFalse {
        toFix := toFix + [v - offset];
      }
      v := v + 1;
    }
  }

  /** When the walk does not pass the end of `x`, a value it reaches with no
      true entry before it lies inside `x`. */
  lemma StaysInside(x: seq<LBool>, y: IntVar, offset: int, v: int)
    requires FromOffset(y, offset) && !WalksPastEnd(x, y, offset) && InDom(y, v)
    requires forall w :: InDom(y, w) && w < v && w < offset + |x| ==> x[w - offset] != LTrue
    ensures v < offset + |x|
  {
  }

  /** A value of `y` inside `x` with a true entry stops the walk there. */
  lemma TrueInside(x: seq<LBool>, y: IntVar, offset: int, v: int)
    requires InDom(y, v) && offset <= v < offset + |x| && x[v - offset] == LTrue
    ensures !WalksPastEnd(x, y, offset)
  {
  }

  /** The result of a successful propagation: the new entries and `y`. */
  datatype ArgMaxOut = ArgMaxOut(x: seq<LBool>, y: IntVar)

  /** The domain `y` ends with is a part of the one it started with. */
  ghost predicate Narrowed(y0: IntVar, y: IntVar)
  {
    Valid(y) && InDom(y0, y.min) && InDom(y0, y.max) && forall w :: InDom(y, w) ==> InDom(y0, w)
  }

  /** The new least value of `y` is the first one whose entry was not false. */
  ghost predicate MinAtFirstOpen(x: seq<LBool>, y0: IntVar, y: IntVar, offset: int)
    requires FromOffset(y0, offset) && Narrowed(y0, y)
  {
    y.min < offset + |x| && x[y.min - offset] != LFalse &&
    forall w :: InDom(y0, w) && w < y.min ==> x[w - offset] == LFalse
  }

  /** The new greatest value of `y` lies at or before the first value whose
      entry was true, and when it is not that value, every value of `y`
      indexed `x` and every one past the new greatest had a false entry. */
  ghost predicate MaxAtFirstTrue(x: seq<LBool>, y0: IntVar, y: IntVar, offset: int)
    requires FromOffset(y0, offset) && Narrowed(y0, y)
  {
    y.max < offset + |x| &&
    (forall w :: InDom(y0, w) && w < y.max ==> x[w - offset] != LTrue) &&
    (x[y.max - offset] == LTrue ||
     (y0.max < offset + |x| && forall w :: InDom(y0, w) && w > y.max ==> x[w - offset] == LFalse))
  }

  /** How the first two steps change the entries: those before `n` become
      false (none was true), the rest only go from unknown to true. */
  ghost predicate OnlyOpened(x: seq<LBool>, x1: seq<LBool>, y: IntVar, offset: int)
  {
    var n := y.min - offset;
    Refines(x, x1) && |x1| == |x| &&
    (forall i :: 0 <= i < n && i < |x| ==> x[i] != LTrue && x1[i] == LFalse) &&
    (forall i :: 0 <= i < |x| && n <= i && x1[i] != x[i] ==> IsFixed(y) && i == n && x[i] == LUndef && x1[i] == LTrue)
  }

  /** The first two steps: the entries before `y`'s least value are set
      false, and the entry of a fixed `y` is set true. A least value below
      `offset` reads before `x[0]`; one past the end of `x` reads after it
      once the entries that exist are set, and so does a fixed value at the
      end. */
  method OpenEntries(x: seq<LBool>, y: IntVar, offset: int) returns (r: Res<seq<LBool>>)
    requires Valid(y)
    ensures r.Fatal? <==>
      (y.min < offset ||
       ((forall i :: 0 <= i < |x| && i < y.min - offset ==> x[i] != LTrue) &&
        (offset + |x| < y.min || (offset + |x| == y.min && IsFixed(y)))))
    ensures r.Ok? ==> offset <= y.min <= offset + |x| && (IsFixed(y) ==> y.min < offset + |x|)
    ensures r.Ok? ==> OnlyOpened(x, r.value, y, offset)
    ensures r.Ok? && IsFixed(y) ==> r.value[y.min - offset] == LTrue
    ensures forall xv, yv :: AdmitsAll(x, xv) && InDom(y, yv) && Sol(xv, offset, yv) ==>
      !r.Fail? && (r.Ok? ==> AdmitsAll(r.value, xv))
  {
    if y.min < offset {
      return Fatal(ReadOutside);
    }
    var n := y.min - offset;
    var fx := FixFalse(x, 0, if n < |x| then n else |x|);
    if !fx.Ok? {
      return Fail;
    }
    if |x| < n || (n == |x| && IsFixed(y)) {
      return Fatal(ReadOutside);
    }
    var x1 := fx.value;
    if IsFixed(y) {
      var yl := y.min - offset;
      if x1[yl] != LTrue {
        if x1[yl] == LFalse {
          return Fail;
        }
        x1 := x1[yl := LTrue];
      }
    }
    r := Ok(x1);
  }

  /** The walk, the removals and the two bound moves on `y`, given the
      entries after the first two steps. */
  method NarrowY(x: seq<LBool>, y: IntVar, offset: int, finishedInit: bool) returns (r: Res<IntVar>)
    requires FromOffset(y, offset)
    ensures WalksPastEnd(x, y, offset) ==> r.Fatal?
    ensures r.Fatal? ==> WalksPastEnd(x, y, offset) || (y.vals.None? && !finishedInit)
    ensures r.Ok? ==> Narrowed(y, r.value)
    ensures r.Ok? ==> MinAtFirstOpen(x, y, r.value, offset)
    ensures r.Ok? ==> MaxAtFirstTrue(x, y, r.value, offset)
    ensures r.Ok? && y.vals.Some? ==> forall w :: InDom(r.value, w) ==> x[w - offset] != LFalse
    ensures forall xv, yv :: AdmitsAll(x, xv) && InDom(y, yv) && Sol(xv, offset, yv) ==>
      !r.Fail? && (r.Ok? ==> InDom(r.value, yv))
  {
    var past := PastEnd(x, y, offset);
    if past {
      return Fatal(ReadOutside);
    }
    var l, u, toFix := Scan(x, y, offset);
    var y1 := RemoveFalse(x, y, offset, u, toFix, finishedInit);
    if !y1.Ok? {
      forall xv, yv | AdmitsAll(x, xv) && InDom(y, yv) && Sol(xv, offset, yv)
        ensures y1.Fatal?
      {
        SolWithinWalk(x, y, offset, u, xv, yv);
      }
      return if y1.Fail? then Fail else Fatal(y1.msg);
    }
    r := Clamp(y1.value, l + offset, u + offset);
    if r.Ok? {
      ClampedMin(x, y, offset, l, u, toFix, y1.value, r.value);
      ClampedMax(x, y, offset, l, u, toFix, y1.value, r.value);
    }
    forall xv, yv | AdmitsAll(x, xv) && InDom(y, yv) && Sol(xv, offset, yv)
      ensures !r.Fail? && (r.Ok? ==> InDom(r.value, yv))
    {
      SolWithinWalk(x, y, offset, u, xv, yv);
      assert yv >= l + offset;
    }
  }

  /** The `setMin` and `setMax` calls on `y`, each made only when it moves
      its bound: the values kept are those between the two bounds. */
  function Clamp(y: IntVar, lo: int, hi: int): (r: Res<IntVar>)
    requires Valid(y)
    ensures !r.Fatal?
    ensures r.Fail? ==> forall w :: InDom(y, w) ==> w < lo || w > hi
    ensures r.Ok? ==> Valid(r.value) && forall w :: InDom(r.value, w) <==> InDom(y, w) && lo <= w <= hi
  {
    var s := if SetMinNotR(y, lo) then SetMin(y, lo) else Ok(y);
    if !s.Ok? then Fail
    else if SetMaxNotR(s.value, hi) then SetMax(s.value, hi)
    else Ok(s.value)
  }

  /** A solution's value of `y` lies within the walk, and its entry is not
      false. */
  lemma SolWithinWalk(x: seq<LBool>, y: IntVar, offset: int, u: int, xv: seq<bool>, yv: int)
    requires FromOffset(y, offset) && 0 <= u < |x| && InDom(y, u + offset)
    requires x[u] == LTrue || u + offset == y.max
    requires AdmitsAll(x, xv) && InDom(y, yv) && Sol(xv, offset, yv)
    ensures yv <= u + offset && x[yv - offset] != LFalse
  {
    assert Admits(x[yv - offset], xv[yv - offset]);
    if x[u] == LTrue {
      assert Admits(x[u], xv[u]);
    }
  }

  /** After the clamp the least value of `y` is the first whose entry may
      be true. */
  lemma ClampedMin(x: seq<LBool>, y: IntVar, offset: int, l: int, u: int, toFix: seq<int>, y1: IntVar, y2: IntVar)
    requires FromOffset(y, offset)
    requires 0 <= l <= |x| && 0 <= u < |x|
    requires l < |x| ==> InDom(y, l + offset) && x[l] != LFalse && l <= u
    requires forall w :: InDom(y, w) && w < l + offset ==> x[w - offset] == LFalse
    requires forall i :: i in toFix <==> InDom(y, i + offset) && i <= u && x[i] == LFalse
    requires Narrowed(y, y1) && (y.vals.None? ==> y1 == y)
    requires y.vals.Some? ==> forall w :: InDom(y1, w) <==> InDom(y, w) && (w - offset) !in toFix
    requires Valid(y2) && forall w :: InDom(y2, w) <==> InDom(y1, w) && l + offset <= w <= u + offset
    ensures Narrowed(y, y2) && y2.min == l + offset && MinAtFirstOpen(x, y, y2, offset)
  {
    assert InDom(y2, y2.min);
    assert l < |x|;
    assert InDom(y1, l + offset);
    assert InDom(y2, l + offset);
  }

  /** After the clamp the greatest value of `y` is at most the first whose
      entry must be true, and every value of `y` past it had a false entry
      unless its own entry is true. */
  lemma ClampedMax(x: seq<LBool>, y: IntVar, offset: int, l: int, u: int, toFix: seq<int>, y1: IntVar, y2: IntVar)
    requires FromOffset(y, offset)
    requires 0 <= l <= u < |x| && InDom(y, u + offset)
    requires x[u] == LTrue || u + offset == y.max
    requires forall w :: InDom(y, w) && w < u + offset ==> x[w - offset] != LTrue
    requires forall i :: i in toFix <==> InDom(y, i + offset) && i <= u && x[i] == LFalse
    requires Narrowed(y, y1) && (y.vals.None? ==> y1 == y)
    requires y.vals.Some? ==> forall w :: InDom(y1, w) <==> InDom(y, w) && (w - offset) !in toFix
    requires Valid(y2) && forall w :: InDom(y2, w) <==> InDom(y1, w) && l + offset <= w <= u + offset
    requires Narrowed(y, y2) && y2.min == l + offset
    ensures MaxAtFirstTrue(x, y, y2, offset)
    ensures y.vals.Some? ==> forall w :: InDom(y2, w) ==> x[w - offset] != LFalse
  {
    assert InDom(y2, y2.max);
    if y2.max < u + offset && x[y2.max - offset] != LTrue {
      forall w | InDom(y, w) && w > y2.max
        ensures x[w - offset] == LFalse
      {
        assert !InDom(y2, w);
        assert (w - offset) in toFix || w > u + offset;
      }
    }
    forall w | y.vals.Some? && InDom(y2, w)
      ensures x[w - offset] != LFalse
    {
      assert (w - offset) !in toFix;
    }
  }

  /** What the walk established about the opened entries holds of the
      entries as they came in. */
  lemma OpenedBounds(x: seq<LBool>, x1: seq<LBool>, y: IntVar, y2: IntVar, offset: int)
    requires FromOffset(y, offset) && OnlyOpened(x, x1, y, offset) && Narrowed(y, y2)
    requires MinAtFirstOpen(x1, y, y2, offset) && MaxAtFirstTrue(x1, y, y2, offset)
    ensures MinAtFirstOpen(x, y, y2, offset) && MaxAtFirstTrue(x, y, y2, offset)
  {
    assert x[y2.min - offset] != LFalse;
    assert forall w :: InDom(y, w) && w < y2.max ==> x[w - offset] != LTrue by {
      forall w | InDom(y, w) && w < y2.max
        ensures x[w - offset] != LTrue
      {
        assert x1[w - offset] != LTrue;
      }
    }
  }

  /** Opening the entries before `y`'s least value and that of a fixed `y`
      does not change whether the walk passes the end of `x`. */
  lemma OpenedWalk(x: seq<LBool>, x1: seq<LBool>, y: IntVar, offset: int)
    requires FromOffset(y, offset) && OnlyOpened(x, x1, y, offset)
    requires IsFixed(y) ==> y.min < offset + |x| && x1[y.min - offset] == LTrue
    ensures WalksPastEnd(x1, y, offset) <==> WalksPastEnd(x, y, offset)
  {
  }

  /** `BoolArgMax::propagate`. It loses no solution that it does not abort
      on; on success the entries before `y`'s new least value are false,
      the entry of a fixed `y` is true, `y`'s least value is the first whose
      entry may be true and its greatest is at most the first whose entry
      must be; with a dense table no value of `y` keeps a false entry. A
      read of `x` outside the array is fatal: always when `y`'s least value
      is below `offset`, never when every value of `y` indexes `x`, and
      whenever the walk passes the end of `x`. A value removal before the
      end of model construction on a variable without a table is fatal. */
  method BoolArgMaxPropagate(x: seq<LBool>, y: IntVar, offset: int, finishedInit: bool) returns (r: Res<ArgMaxOut>)
    requires Valid(y)
    ensures y.min < offset ==> r.Fatal?
    ensures r.Fatal? ==> y.min < offset || offset + |x| <= y.max || (y.vals.None? && !finishedInit)
    ensures WalksPastEnd(x, y, offset) ==> !r.Ok?
    ensures r.Ok? ==> Refines(x, r.value.x) && Narrowed(y, r.value.y)
    ensures r.Ok? ==> MinAtFirstOpen(x, y, r.value.y, offset)
    ensures r.Ok? ==> forall i :: 0 <= i < r.value.y.min - offset ==> r.value.x[i] == LFalse
    ensures r.Ok? && IsFixed(r.value.y) ==> r.value.x[r.value.y.min - offset] == LTrue
    ensures r.Ok? ==> MaxAtFirstTrue(x, y, r.value.y, offset)
    ensures r.Ok? && y.vals.Some? ==> forall w :: InDom(r.value.y, w) ==> r.value.x[w - offset] != LFalse
    ensures forall xv, yv :: AdmitsAll(x, xv) && InDom(y, yv) && Sol(xv, offset, yv) && !r.Fatal? ==>
      r.Ok? && AdmitsAll(r.value.x, xv) && InDom(r.value.y, yv)
  {
    var ol := y.min;
    var x1 := OpenEntries(x, y, offset);
    if !x1.Ok? {
      return if x1.Fail? then Fail else Fatal(x1.msg);
    }
    OpenedWalk(x, x1.value, y, offset);
    var y1 := NarrowY(x1.value, y, offset, finishedInit);
    if !y1.Ok? {
      return if y1.Fail? then Fail else Fatal(y1.msg);
    }
    var y2 := y1.value;
    OpenedBounds(x, x1.value, y, y2, offset);
    var x2 := x1.value;
    if IsFixed(y2) {
      var yl := y2.min - offset;
      if x2[yl] != LTrue {
        if x2[yl] == LFalse {
          return Fail;
        }
        x2 := x2[yl := LTrue];
      }
    }
    var nl := y2.min;
    var fx := FixFalse(x2, ol - offset, nl - offset);
    if !fx.Ok? {
      return Fail;
    }
    assert Refines(x, x2);
    r := Ok(ArgMaxOut(fx.value, y2));
  }

  /** The `remVal` loop over `toFix`: with a dense table each listed value
      leaves `y`; without one nothing changes. */
  method RemoveFalse(x: seq<LBool>, y: IntVar, offset: int, u: int, toFix: seq<int>, finishedInit: bool)
    returns (r: Res<IntVar>)
    requires FromOffset(y, offset) && u < |x|
    requires forall k, m :: 0 <= k < m < |toFix| ==> toFix[k] < toFix[m]
    requires forall i :: i in toFix <==> InDom(y, i + offset) && i <= u && x[i] == LFalse
    ensures r.Fatal? ==> y.vals.None? && !finishedInit
    ensures r.Fail? ==> forall w :: InDom(y, w) && w <= u + offset ==> x[w - offset] == LFalse
    ensures r.Ok? ==> Narrowed(y, r.value) && r.value.vals.Some? == y.vals.Some?
    ensures r.Ok? && y.vals.None? ==> r.value == y
    ensures r.Ok? && y.vals.Some? ==>
      forall w :: InDom(r.value, w) <==> InDom(y, w) && (w - offset) !in toFix
  {
    var z := y;
    var k := 0;
    while k < |toFix|
      invariant k <= |toFix|
      invariant Valid(z) && z.vals.Some? == y.vals.Some?
      invariant y.vals.None? ==> z == y
      invariant forall w :: InDom(z, w) ==> InDom(y, w)
      invariant y.vals.Some? ==> forall w :: InDom(z, w) <==> InDom(y, w) && (w - offset) !in toFix[..k]
    {
      assert toFix[k] in toFix;
      assert (toFix[k] + offset) - offset !in toFix[..k];
      var rv := RemVal(z, toFix[k] + offset, finishedInit);
      if rv.Fail? {
        assert IsFixed(z) && InDom(z, toFix[k] + offset);
        forall w | InDom(y, w) && w <= u + offset
          ensures x[w - offset] == LFalse
        {
        }
        return Fail;
      }
      if rv.Fatal? {
        return Fatal(rv.msg);
      }
      z := rv.value;
      assert toFix[..k + 1] == toFix[..k] + [toFix[k]];
      k := k + 1;
    }
    assert toFix[..k] == toFix;
    r := Ok(z);
  }
}
