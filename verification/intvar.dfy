/** The finite-domain integer variable of chuffed/vars/int-var.cpp: bounds,
    an optional dense membership table (`vals`), the mask of events fired
    since the last wake-up, and the narrowing operations, which report a
    wiped-out domain as `Fail` rather than by an exception. */
module IntVars {
  import opened Base

  // Messages of the fatal errors below.
  const UnboundedVals := "Cannot initialise vals in unbounded IntVar"
  const NeverInit := "NEVER"
  const NotIntVar := "assert getType() == INT_VAR"
  const NoMedian := "Median value selection is not supported this variable."

  /** The engine-wide bounds `min_limit`/`max_limit` every domain must lie in. */
  datatype Limits = Limits(minLimit: int, maxLimit: int)

  /** The run-time representation: plain bounds, eager literals, sparse list, lazy list. */
  datatype Kind = Plain | EL | SL | LL

  /** `vals`, when present, is the set of values whose flag is still set; the
      table is allocated one past `max`, so it may hold `max + 1` too. */
  datatype IntVar = IntVar(
    id: nat,
    min: int, max: int,
    min0: int, max0: int,
    vals: Option<set<int>>,
    changes: set<Event>,
    inQueue: bool,
    kind: Kind)

  /** The representation invariant: non-empty bounds whose end points are set in `vals`. */
  predicate Valid(x: IntVar)
  {
    x.min <= x.max && (x.vals.Some? ==> x.min in x.vals.value && x.max in x.vals.value)
  }

  predicate InDom(x: IntVar, v: int)
  {
    x.min <= v <= x.max && (x.vals.None? || v in x.vals.value)
  }

  predicate IsFixed(x: IntVar)
  {
    x.min == x.max
  }

  /** The "would this narrow?" guards every narrowing operation asserts. */
  predicate SetMinNotR(x: IntVar, v: int) { v > x.min }
  predicate SetMaxNotR(x: IntVar, v: int) { v < x.max }
  predicate SetValNotR(x: IntVar, v: int) { x.min != v || x.max != v }
  predicate RemValNotR(x: IntVar, v: int) { InDom(x, v) }

  predicate Sorted(s: seq<int>)
  {
    forall i, j :: 0 <= i < j < |s| ==> s[i] <= s[j]
  }

  predicate StrictlySorted(s: seq<int>)
  {
    forall i, j :: 0 <= i < j < |s| ==> s[i] < s[j]
  }

  function FixedEvent(x: IntVar): set<Event>
  {
    if IsFixed(x) then {EvF} else {}
  }

  // ---------------------------------------------------------------------
  // Construction

  /** `IntVar(min, max)`: registers a new variable after those in `vars`. */
  function NewIntVar(vars: seq<IntVar>, lim: Limits, lo: int, hi: int): (r: seq<IntVar>)
    requires lim.minLimit <= lo <= hi <= lim.maxLimit
    ensures |r| == |vars| + 1 && r[..|vars|] == vars
    ensures r[|vars|].id == |vars| && Valid(r[|vars|])
    ensures forall v :: InDom(r[|vars|], v) <==> lo <= v <= hi
    ensures r[|vars|].min0 == lo && r[|vars|].max0 == hi
    ensures r[|vars|].changes * {EvC, EvL, EvU} == {EvC, EvL, EvU}
    ensures EvF in r[|vars|].changes <==> lo == hi
  {
    var x := IntVar(|vars|, lo, hi, lo, hi, None, {EvC, EvL, EvU}, false, Plain);
    vars + [x.(changes := x.changes + FixedEvent(x))]
  }

  /** `initVals(false)`: allocates the dense table with every flag set,
      refusing a variable whose bounds touch the engine limits. */
  function InitVals(x: IntVar, lim: Limits): (r: Res<IntVar>)
    requires Valid(x)
    ensures !r.Fail?
    ensures r.Fatal? <==> x.vals.None? && (x.min == lim.minLimit || x.max == lim.maxLimit)
    ensures r.Ok? ==> Valid(r.value) && r.value.vals.Some? && r.value == x.(vals := r.value.vals)
    ensures r.Ok? ==> forall w :: InDom(r.value, w) <==> InDom(x, w)
  {
    if x.vals.Some? then Ok(x)
    else if x.min == lim.minLimit || x.max == lim.maxLimit then
      Fatal(UnboundedVals)
    else
      Ok(x.(vals := Some(Interval(x.min, x.max + 1))))
  }

  /** The integers from `lo` to `hi`. */
  function Interval(lo: int, hi: int): (r: set<int>)
    ensures forall w :: w in r <==> lo <= w <= hi
    decreases hi - lo
  {
    if lo > hi then {} else {lo} + Interval(lo + 1, hi)
  }

  // ---------------------------------------------------------------------
  // Bound normalisation over the dense table

  /** The least member of `s` that is at least `v`. */
  function NextIn(s: set<int>, v: int, hi: int): (r: int)
    requires v <= hi && hi in s
    ensures v <= r <= hi && r in s
    ensures forall w :: v <= w < r ==> w !in s
    decreases hi - v
  {
    if v in s then v else NextIn(s, v + 1, hi)
  }

  /** The greatest member of `s` that is at most `v`. */
  function PrevIn(s: set<int>, v: int, lo: int): (r: int)
    requires lo <= v && lo in s
    ensures lo <= r <= v && r in s
    ensures forall w :: r < w <= v ==> w !in s
    decreases v - lo
  {
    if v in s then v else PrevIn(s, v - 1, lo)
  }

  /** `updateMin`: moves `min` up to the first value still set, leaving the domain alone. */
  function UpdateMin(x: IntVar): (r: IntVar)
    requires x.vals.Some? && x.min <= x.max && (x.min in x.vals.value || x.max in x.vals.value)
    ensures r.vals.Some? && r.min <= r.max && r.min in r.vals.value
    ensures r == x.(min := r.min, changes := r.changes)
    ensures forall w :: InDom(r, w) <==> InDom(x, w)
    ensures r.min == x.min ==> r.changes == x.changes
    ensures r.min != x.min ==> r.changes == x.changes + {EvC, EvL}
  {
    if x.min in x.vals.value then x
    else x.(min := NextIn(x.vals.value, x.min, x.max), changes := x.changes + {EvC, EvL})
  }

  /** `updateMax`: moves `max` down to the last value still set. */
  function UpdateMax(x: IntVar): (r: IntVar)
    requires x.vals.Some? && x.min <= x.max && (x.min in x.vals.value || x.max in x.vals.value)
    ensures r.vals.Some? && r.min <= r.max && r.max in r.vals.value
    ensures r == x.(max := r.max, changes := r.changes)
    ensures forall w :: InDom(r, w) <==> InDom(x, w)
    ensures r.max == x.max ==> r.changes == x.changes
    ensures r.max != x.max ==> r.changes == x.changes + {EvC, EvU}
  {
    if x.max in x.vals.value then x
    else x.(max := PrevIn(x.vals.value, x.max, x.min), changes := x.changes + {EvC, EvU})
  }

  function UpdateFixed(x: IntVar): IntVar
  {
    x.(changes := x.changes + FixedEvent(x))
  }

  // ---------------------------------------------------------------------
  // Narrowing

  function SetMin(x: IntVar, v: int): (r: Res<IntVar>)
    requires Valid(x) && SetMinNotR(x, v)
    ensures !r.Fatal?
    ensures r.Fail? <==> v > x.max
    ensures r.Fail? <==> forall w :: InDom(x, w) ==> w < v
    ensures r.Ok? ==> Valid(r.value) && r.value.max == x.max && r.value.inQueue
    ensures r.Ok? ==> forall w :: InDom(r.value, w) <==> InDom(x, w) && w >= v
    ensures r.Ok? ==> r.value == x.(min := r.value.min, changes := r.value.changes, inQueue := true)
    ensures r.Ok? ==> r.value.changes == x.changes + {EvC, EvL} + FixedEvent(r.value)
  {
    if v > x.max then Fail
    else
      assert InDom(x, x.max);
      var y := x.(min := v, changes := x.changes + {EvC, EvL});
      var z := if y.vals.Some? then UpdateMin(y) else y;
      Ok(UpdateFixed(z).(inQueue := true))
  }

  function SetMax(x: IntVar, v: int): (r: Res<IntVar>)
    requires Valid(x) && SetMaxNotR(x, v)
    ensures !r.Fatal?
    ensures r.Fail? <==> v < x.min
    ensures r.Fail? <==> forall w :: InDom(x, w) ==> w > v
    ensures r.Ok? ==> Valid(r.value) && r.value.min == x.min && r.value.inQueue
    ensures r.Ok? ==> forall w :: InDom(r.value, w) <==> InDom(x, w) && w <= v
    ensures r.Ok? ==> r.value == x.(max := r.value.max, changes := r.value.changes, inQueue := true)
    ensures r.Ok? ==> r.value.changes == x.changes + {EvC, EvU} + FixedEvent(r.value)
  {
    if v < x.min then Fail
    else
      assert InDom(x, x.min);
      var y := x.(max := v, changes := x.changes + {EvC, EvU});
      var z := if y.vals.Some? then UpdateMax(y) else y;
      Ok(UpdateFixed(z).(inQueue := true))
  }

  function SetVal(x: IntVar, v: int): (r: Res<IntVar>)
    requires Valid(x) && SetValNotR(x, v)
    ensures !r.Fatal?
    ensures r.Fail? <==> !InDom(x, v)
    ensures r.Ok? ==> Valid(r.value) && r.value.min == v == r.value.max && r.value.inQueue
    ensures r.Ok? ==> forall w :: InDom(r.value, w) <==> w == v
    ensures r.Ok? ==> {EvC, EvF} <= r.value.changes
    ensures r.Ok? ==> (EvL in r.value.changes <==> EvL in x.changes || x.min < v)
    ensures r.Ok? ==> (EvU in r.value.changes <==> EvU in x.changes || x.max > v)
  {
    if !InDom(x, v) then Fail
    else
      var y := if x.min < v then x.(min := v, changes := x.changes + {EvC, EvL, EvF}) else x;
      var z := if y.max > v then y.(max := v, changes := y.changes + {EvC, EvU, EvF}) else y;
      Ok(z.(inQueue := true))
  }

  /** `remVal`: without a dense table there is nothing to record, and before
      the end of model construction that case is a fatal error. */
  function RemVal(x: IntVar, v: int, finishedInit: bool): (r: Res<IntVar>)
    requires Valid(x) && RemValNotR(x, v)
    ensures r.Fail? <==> IsFixed(x)
    ensures r.Fatal? <==> !IsFixed(x) && x.vals.None? && !finishedInit
    ensures r.Ok? && x.vals.None? ==> r.value == x
    ensures r.Ok? ==> r.value.kind == x.kind && r.value.id == x.id
    ensures r.Ok? && x.vals.Some? ==> Valid(r.value) && r.value.vals.Some? && r.value.inQueue && EvC in r.value.changes
    ensures r.Ok? && x.vals.Some? ==> forall w :: InDom(r.value, w) <==> InDom(x, w) && w != v
  {
    if IsFixed(x) then Fail
    else if x.vals.None? then
      if !finishedInit then Fatal(NeverInit) else Ok(x)
    else
      var y := x.(vals := Some(x.vals.value - {v}), changes := x.changes + {EvC});
      assert forall w :: InDom(y, w) <==> InDom(x, w) && w != v;
      var z := UpdateMax(UpdateMin(y));
      Ok(UpdateFixed(z).(inQueue := true))
  }

  /** `allowSet(v)` for a sorted `v`: keeps exactly the domain values that occur in `v`. */
  method AllowSet(x0: IntVar, v: seq<int>, lim: Limits, finishedInit: bool) returns (r: Res<IntVar>)
    requires Valid(x0) && Sorted(v)
    ensures r.Fatal? <==> x0.vals.None? && (x0.min == lim.minLimit || x0.max == lim.maxLimit)
    ensures r.Fail? <==> !r.Fatal? && forall w :: InDom(x0, w) ==> w !in v
    ensures r.Ok? ==> Valid(r.value) && r.value.vals.Some? && r.value.kind == x0.kind
    ensures r.Ok? ==> forall w :: InDom(r.value, w) <==> InDom(x0, w) && w in v
  {
    var init := InitVals(x0, lim);
    if init.Fatal? {
      return Fatal(init.msg);
    }
    var x := init.value;
    var i := 0;
    var m := x.min;
    while i < |v| && v[i] < m
      invariant 0 <= i <= |v|
      invariant forall k :: 0 <= k < i ==> v[k] < m
    {
      i := i + 1;
    }
    while i < |v|
      invariant 0 <= i <= |v|
      invariant Valid(x) && x.vals.Some? && x.kind == x0.kind
      invariant forall k :: 0 <= k < i ==> v[k] < m
      invariant i < |v| ==> m <= v[i] + 1
      invariant forall w :: w < m ==> (InDom(x, w) <==> InDom(x0, w) && w in v)
      invariant forall w :: w >= m ==> (InDom(x, w) <==> InDom(x0, w))
    {
      while m < v[i]
        invariant 0 <= i < |v| && m <= v[i] + 1
        invariant Valid(x) && x.vals.Some? && x.kind == x0.kind
        invariant forall k :: 0 <= k < i ==> v[k] < m
        invariant forall w :: w < m ==> (InDom(x, w) <==> InDom(x0, w) && w in v)
        invariant forall w :: w >= m ==> (InDom(x, w) <==> InDom(x0, w))
      {
        if m > x.max {
          assert InDom(x, x.min);
          return Ok(x);
        }
        assert m !in v;
        if RemValNotR(x, m) {
          var rm := RemVal(x, m, finishedInit);
          if rm.Fail? {
            RemovalFailed(x0, x, m, v);
            return Fail;
          }
          x := rm.value;
        }
        m := m + 1;
      }
      m := v[i] + 1;
      i := i + 1;
    }
    while m <= x.max
      invariant Valid(x) && x.vals.Some? && x.kind == x0.kind
      invariant forall k :: 0 <= k < |v| ==> v[k] < m
      invariant forall w :: w < m ==> (InDom(x, w) <==> InDom(x0, w) && w in v)
      invariant forall w :: w >= m ==> (InDom(x, w) <==> InDom(x0, w))
      decreases x.max - m
    {
      if RemValNotR(x, m) {
        var rm := RemVal(x, m, finishedInit);
        if rm.Fail? {
          RemovalFailed(x0, x, m, v);
          return Fail;
        }
        x := rm.value;
      }
      m := m + 1;
    }
    assert InDom(x, x.min);
    return Ok(x);
  }

  /** Removing `m` fails only when it is the last value, and then nothing of `v` was left. */
  lemma RemovalFailed(x0: IntVar, x: IntVar, m: int, v: seq<int>)
    requires Valid(x) && IsFixed(x) && InDom(x, m) && m !in v
    requires forall w :: w < m ==> (InDom(x, w) <==> InDom(x0, w) && w in v)
    requires forall w :: w >= m ==> (InDom(x, w) <==> InDom(x0, w))
    ensures forall w :: InDom(x0, w) ==> w !in v
  {
    forall w | InDom(x0, w)
      ensures w !in v
    {
    }
  }

  // ---------------------------------------------------------------------
  // Specialisation to a sparse or dense value set

  /** Insertion into a strictly increasing sequence, dropping duplicates. */
  function InsertSorted(s: seq<int>, w: int): (r: seq<int>)
    requires StrictlySorted(s)
    ensures StrictlySorted(r)
    ensures forall u :: u in r <==> u in s || u == w
  {
    if |s| == 0 then [w]
    else if w < s[0] then [w] + s
    else if w == s[0] then s
    else
      var t := InsertSorted(s[1..], w);
      assert forall u :: u in t ==> u > s[0];
      ConsSorted(s[0], t);
      [s[0]] + t
  }

  /** A value below every element extends a strictly increasing sequence. */
  lemma ConsSorted(h: int, t: seq<int>)
    requires StrictlySorted(t) && forall u :: u in t ==> u > h
    ensures StrictlySorted([h] + t)
  {
    var r := [h] + t;
    forall i, j | 0 <= i < j < |r| ensures r[i] < r[j] {
      assert r[j] == t[j - 1] && t[j - 1] in t;
      if i > 0 { assert r[i] == t[i - 1]; }
    }
  }

  /** The sort-then-compact step: the values, strictly increasing, each once. */
  function SortDedup(s: seq<int>): (r: seq<int>)
    ensures StrictlySorted(r)
    ensures forall u :: u in r <==> u in s
    ensures |s| > 0 ==> |r| > 0
  {
    if |s| == 0 then []
    else
      var r := InsertSorted(SortDedup(s[..|s| - 1]), s[|s| - 1]);
      assert s == s[..|s| - 1] + [s[|s| - 1]];
      r
  }

  /** The least of the values, by a left-to-right scan. */
  function Least(s: seq<int>): (m: int)
    requires |s| > 0
  {
    if |s| == 1 then s[0]
    else
      var t := Least(s[1..]);
      if s[0] <= t then s[0] else t
  }

  /** The greatest of the values, by a left-to-right scan. */
  function Greatest(s: seq<int>): (m: int)
    requires |s| > 0
  {
    if |s| == 1 then s[0]
    else
      var t := Greatest(s[1..]);
      if s[0] >= t then s[0] else t
  }

  /** `Least` and `Greatest` are a member of the values below (above) all others. */
  lemma {:induction false} LeastGreatestAre(s: seq<int>)
    requires |s| > 0
    ensures Least(s) in s && forall w :: w in s ==> Least(s) <= w
    ensures Greatest(s) in s && forall w :: w in s ==> w <= Greatest(s)
  {
    if |s| > 1 {
      LeastGreatestAre(s[1..]);
      assert forall w :: w in s ==> w == s[0] || w in s[1..];
    }
  }

  /** Sorting and compacting puts the least value first and the greatest last. */
  lemma SortDedupEnds(s: seq<int>)
    requires |s| > 0
    ensures var v := SortDedup(s); v[0] == Least(s) && v[|v| - 1] == Greatest(s)
  {
    var v := SortDedup(s);
    LeastGreatestAre(s);
    assert v[0] in v && v[|v| - 1] in v;
    assert v[0] in s && v[|v| - 1] in s;
    var i :| 0 <= i < |v| && v[i] == Least(s);
    var j :| 0 <= j < |v| && v[j] == Greatest(s);
    SortedEnds(v, i);
    SortedEnds(v, j);
  }

  /** A strictly increasing sequence starts with its least element and ends with its greatest. */
  lemma SortedEnds(v: seq<int>, k: nat)
    requires StrictlySorted(v) && k < |v|
    ensures v[0] <= v[k] <= v[|v| - 1]
  {
    if 0 < k { assert v[0] < v[k]; }
    if k < |v| - 1 { assert v[k] < v[|v| - 1]; }
  }

  /** The bounds after clamping to the first and last of the (sorted) values. */
  function Clamped(x: IntVar, v: seq<int>): IntVar
    requires |v| > 0
  {
    x.(min := if x.min < v[0] then v[0] else x.min,
       max := if x.max > v[|v| - 1] then v[|v| - 1] else x.max)
  }

  /** Clamping to the sorted values moves each bound to the least or greatest
      value when that is tighter, changes nothing else, and keeps every value
      that lay within the old bounds. */
  lemma ClampedBounds(x: IntVar, values: seq<int>)
    requires |values| > 0
    ensures var y := Clamped(x, SortDedup(values));
      y.min == (if x.min < Least(values) then Least(values) else x.min) &&
      y.max == (if x.max > Greatest(values) then Greatest(values) else x.max) &&
      y == x.(min := y.min, max := y.max) &&
      forall w :: w in values && x.min <= w <= x.max ==> y.min <= w <= y.max
  {
    SortDedupEnds(values);
    LeastGreatestAre(values);
  }

  /** Sparse iff the span of the values is at least n times log2 n; `log2` is `mylog2`. */
  predicate IsSparse(v: seq<int>, log2: nat -> nat)
    requires |v| > 0
  {
    v[|v| - 1] - v[0] >= |v| * log2(|v|)
  }

  /** `specialiseToSL(values)`: a plain variable becomes a sparse-list variable
      over the values in its bounds, or an eager variable restricted to them. */
  method SpecialiseToSL(x: IntVar, values: seq<int>, lim: Limits, log2: nat -> nat, finishedInit: bool)
    returns (r: Res<IntVar>)
    requires Valid(x) && |values| > 0
    requires Valid(Clamped(x, SortDedup(values)))
    ensures x.kind == EL || x.kind == SL ==> r == Ok(x)
    ensures x.kind == LL ==> r.Fatal?
    ensures x.kind == Plain && IsSparse(SortDedup(values), log2) ==>
      r.Ok? && r.value.kind == SL &&
      r.value.min == (if x.min < Least(values) then Least(values) else x.min) &&
      r.value.max == (if x.max > Greatest(values) then Greatest(values) else x.max) &&
      r.value == x.(min := r.value.min, max := r.value.max, kind := SL)
    ensures x.kind == Plain && IsSparse(SortDedup(values), log2) ==>
      forall w :: w in values && x.min <= w <= x.max ==> r.value.min <= w <= r.value.max
    ensures x.kind == Plain && !IsSparse(SortDedup(values), log2) && r.Ok? ==>
      r.value.kind == EL && Valid(r.value) &&
      forall w :: InDom(r.value, w) <==> InDom(x, w) && w in values
    ensures x.kind == Plain && !IsSparse(SortDedup(values), log2) && r.Fail? ==>
      forall w :: InDom(x, w) ==> w !in values
  {
    if x.kind == EL || x.kind == SL {
      return Ok(x);
    }
    if x.kind == LL {
      return Fatal(NotIntVar);
    }
    var v := SortDedup(values);
    ClampedBounds(x, values);
    var y := Clamped(x, v);
    if IsSparse(v, log2) {
      var z := y.(kind := SL);
      r := Ok(z);
    } else {
      var s := AllowSet(y.(kind := EL), v, lim, finishedInit);
      r := s;
    }
  }

  // ---------------------------------------------------------------------
  // Watches and wake-up

  /** A watch: propagator id, its argument position, the events it wants. */
  datatype PropInfo = PropInfo(p: nat, pos: nat, eflags: set<Event>)

  /** A call `p->wakeup(pos, events)`. */
  datatype Wake = Wake(p: nat, pos: nat, events: set<Event>)

  predicate KnownProps(pinfo: seq<PropInfo>, satisfied: seq<bool>)
  {
    forall i :: 0 <= i < |pinfo| ==> pinfo[i].p < |satisfied|
  }

  /** The watches whose propagator is not yet satisfied, in their original order. */
  function Unsatisfied(pinfo: seq<PropInfo>, satisfied: seq<bool>): (r: seq<PropInfo>)
    requires KnownProps(pinfo, satisfied)
    ensures |r| <= |pinfo|
    ensures forall e :: e in r <==> e in pinfo && !satisfied[e.p]
  {
    if |pinfo| == 0 then []
    else
      var last := pinfo[|pinfo| - 1];
      var front := Unsatisfied(pinfo[..|pinfo| - 1], satisfied);
      assert pinfo == pinfo[..|pinfo| - 1] + [last];
      if satisfied[last.p] then front else front + [last]
  }

  /** `simplifyWatches`: compacts the watch list in place and returns its new length. */
  method SimplifyWatches(pinfo: seq<PropInfo>, satisfied: seq<bool>) returns (kept: seq<PropInfo>, j: nat)
    requires KnownProps(pinfo, satisfied)
    ensures kept == Unsatisfied(pinfo, satisfied) && j == |kept|
  {
    var a := pinfo;
    var i := 0;
    j := 0;
    while i < |pinfo|
      invariant 0 <= j <= i <= |pinfo| && |a| == |pinfo|
      invariant a[..j] == Unsatisfied(pinfo[..i], satisfied)
      invariant a[i..] == pinfo[i..]
    {
      assert pinfo[..i + 1] == pinfo[..i] + [pinfo[i]];
      if !satisfied[pinfo[i].p] {
        a := a[j := pinfo[i]];
        j := j + 1;
      }
      i := i + 1;
    }
    assert pinfo[..|pinfo|] == pinfo;
    kept := a[..j];
  }

  predicate Wakes(e: PropInfo, changes: set<Event>, satisfied: seq<bool>, lastProp: Option<nat>)
    requires e.p < |satisfied|
  {
    e.eflags * changes != {} && !satisfied[e.p] && lastProp != Some(e.p)
  }

  /** `wakePropagators`: walks the watches from the last to the first, waking
      each interested, unsatisfied propagator other than the one running,
      then clears the variable's propagation state. */
  function WakePropagators(x: IntVar, pinfo: seq<PropInfo>, satisfied: seq<bool>, lastProp: Option<nat>)
    : (r: (seq<Wake>, IntVar))
    requires KnownProps(pinfo, satisfied)
    ensures r.1 == x.(changes := {}, inQueue := false)
    ensures |r.0| <= |pinfo|
    ensures forall k :: 0 <= k < |r.0| ==> r.0[k].events == x.changes
    ensures forall p, pos :: Wake(p, pos, x.changes) in r.0 <==>
      exists i :: 0 <= i < |pinfo| && pinfo[i].p == p && pinfo[i].pos == pos &&
        Wakes(pinfo[i], x.changes, satisfied, lastProp)
    ensures |pinfo| > 0 && Wakes(pinfo[|pinfo| - 1], x.changes, satisfied, lastProp) ==>
      |r.0| > 0 && r.0[0] == Wake(pinfo[|pinfo| - 1].p, pinfo[|pinfo| - 1].pos, x.changes)
  {
    (WakeFromEnd(pinfo, x.changes, satisfied, lastProp), x.(changes := {}, inQueue := false))
  }

  function WakeFromEnd(pinfo: seq<PropInfo>, changes: set<Event>, satisfied: seq<bool>, lastProp: Option<nat>)
    : (r: seq<Wake>)
    requires KnownProps(pinfo, satisfied)
    ensures |r| <= |pinfo|
    ensures forall k :: 0 <= k < |r| ==> r[k].events == changes
    ensures forall p, pos :: Wake(p, pos, changes) in r <==>
      exists i :: 0 <= i < |pinfo| && pinfo[i].p == p && pinfo[i].pos == pos &&
        Wakes(pinfo[i], changes, satisfied, lastProp)
    ensures |pinfo| > 0 && Wakes(pinfo[|pinfo| - 1], changes, satisfied, lastProp) ==>
      |r| > 0 && r[0] == Wake(pinfo[|pinfo| - 1].p, pinfo[|pinfo| - 1].pos, changes)
  {
    if |pinfo| == 0 then []
    else
      var e := pinfo[|pinfo| - 1];
      var rest := WakeFromEnd(pinfo[..|pinfo| - 1], changes, satisfied, lastProp);
      assert forall i :: 0 <= i < |pinfo| - 1 ==> pinfo[..|pinfo| - 1][i] == pinfo[i];
      if Wakes(e, changes, satisfied, lastProp) then [Wake(e.p, e.pos, changes)] + rest else rest
  }

  // ---------------------------------------------------------------------
  // Branching

  /** The value-choice preference of a variable (`preferred_val`). */
  datatype PreferredVal = PvMin | PvMax | PvSplitMin | PvSplitMax | PvMedian

  /** `DecInfo(var, val, type)`: type 1 decides x = val, 2 decides x > val, 3 decides x <= val. */
  datatype Decision = Decision(val: int, rel: nat)

  predicate DecisionHolds(d: Decision, w: int)
  {
    if d.rel == 1 then w == d.val
    else if d.rel == 2 then w > d.val
    else d.rel == 3 && w <= d.val
  }

  /** The domain values from `lo` upwards, increasing. */
  function DomFrom(x: IntVar, lo: int): (r: seq<int>)
    ensures StrictlySorted(r)
    ensures forall w :: w in r <==> InDom(x, w) && w >= lo
    decreases x.max - lo
  {
    if lo > x.max then []
    else
      var rest := DomFrom(x, lo + 1);
      assert forall u :: u in rest ==> u > lo;
      if InDom(x, lo) then ConsSorted(lo, rest); [lo] + rest else rest
  }

  function DomValues(x: IntVar): (r: seq<int>)
    ensures StrictlySorted(r)
    ensures forall w :: w in r <==> InDom(x, w)
  {
    DomFrom(x, x.min)
  }

  /** Both a decision and its negation keep some value of the domain. */
  ghost predicate Splits(x: IntVar, d: Decision)
  {
    (exists w :: InDom(x, w) && DecisionHolds(d, w)) &&
    (exists w :: InDom(x, w) && !DecisionHolds(d, w))
  }

  /** `IntVar::branch`: a decision following solution-based phase saving
      (`sbps`, with the value of the last solution) and then the preference. */
  function Branch(x: IntVar, pv: PreferredVal, sbps: bool, lastSolution: int): (r: Res<Decision>)
    requires Valid(x)
    ensures !r.Fail?
    ensures r.Fatal? <==> !(sbps && InDom(x, lastSolution)) && pv == PvMedian && x.vals.None?
    ensures r.Ok? && !IsFixed(x) ==> Splits(x, r.value)
    ensures r.Ok? && ((sbps && InDom(x, lastSolution)) || pv == PvMedian) ==>
      r.value.rel == 1 && InDom(x, r.value.val)
    ensures r.Ok? && !(sbps && InDom(x, lastSolution)) && pv == PvMedian ==>
      forall i :: 0 <= i < |DomValues(x)| ==>
        (DomValues(x)[i] < r.value.val <==> i < (|DomValues(x)| - 1) / 2)
    ensures sbps && InDom(x, lastSolution) ==> r == Ok(Decision(lastSolution, 1))
    ensures !(sbps && InDom(x, lastSolution)) ==>
      (pv == PvMin ==> r == Ok(Decision(x.min, 1))) &&
      (pv == PvMax ==> r == Ok(Decision(x.max, 1))) &&
      (pv == PvSplitMin ==> r == Ok(Decision(x.min + CDiv(x.max - x.min - 1, 2), 3))) &&
      (pv == PvSplitMax ==> r == Ok(Decision(x.min + CDiv(x.max - x.min, 2), 2)))
    ensures r.Ok? && !(sbps && InDom(x, lastSolution)) && pv == PvSplitMin && !IsFixed(x) ==>
      var h := r.value.val - x.min; 2 * h <= x.max - x.min - 1 < 2 * h + 2
    ensures r.Ok? && !(sbps && InDom(x, lastSolution)) && pv == PvSplitMax ==>
      var h := r.value.val - x.min; 2 * h <= x.max - x.min < 2 * h + 2
  {
    assert InDom(x, x.min) && InDom(x, x.max);
    if sbps && InDom(x, lastSolution) then
      Ok(Decision(lastSolution, 1))
    else
      match pv
      case PvMin => Ok(Decision(x.min, 1))
      case PvMax => Ok(Decision(x.max, 1))
      case PvSplitMin => Ok(Decision(x.min + CDiv(x.max - x.min - 1, 2), 3))
      case PvSplitMax => Ok(Decision(x.min + CDiv(x.max - x.min, 2), 2))
      case PvMedian =>
        if x.vals.None? then Fatal(NoMedian)
        else
          var ds := DomValues(x);
          var k := (|ds| - 1) / 2;
          assert ds[k] in ds;
          Ok(Decision(ds[k], 1))
  }
}
