/** The element constraints of chuffed/primitives/element.cpp,
    `y = a[x - offset]`: the clausal encodings for a constant array of
    Booleans or integers, and the bounds propagators `IntElemBounds` and its
    reified form `IntElemBoundsImp` for an array of integer views. The
    literals `[x = v]` and `[y = w]` of an eager variable are given as
    functions `eqX` and `eqY`; an assignment gives each variable one value,
    so exactly one of its equality literals holds. */
module Element {
  import opened Base
  import opened IntVars
  import opened Propagation

  // Messages of the fatal errors below.
  const NeverKind := "NEVER"
  const IndexOutOfRange := "vector index out of range"

  /** The equality literals of a variable mean that it takes the value `v`. */
  ghost predicate EqLits(g: Asg, eq: int -> Lit, v: int)
  {
    forall w :: Holds(g, eq(w)) <==> w == v
  }

  /** `specialiseToEL`: an eager representation for a plain variable; the
      other eager kinds are left alone and a lazy variable is an error. */
  function SpecialiseToEL(x: IntVar): (r: Res<IntVar>)
    ensures !r.Fail?
    ensures r.Fatal? <==> x.kind == LL
    ensures r.Ok? ==> r.value == x.(kind := r.value.kind) && (r.value.kind == EL || r.value.kind == SL)
    ensures r.Ok? ==> (r.value.kind == SL <==> x.kind == SL)
  {
    match x.kind
    case EL => Ok(x)
    case SL => Ok(x)
    case Plain => Ok(x.(kind := EL))
    case LL => Fatal(NeverKind)
  }

  // ---------------------------------------------------------------------
  // array_bool_element

  /** The literal `[y = p]` of a Boolean view. */
  function Is(y: Lit, p: bool): (r: Lit)
    ensures forall g: Asg :: Holds(g, r) <==> (Holds(g, y) == p)
  {
    if p then y else Neg(y)
  }

  /** `[x = i]` for the indices `i` of `a` whose entry is `p`, in order. */
  function IndicesWith(a: seq<bool>, p: bool, eqX: int -> Lit, offset: int): (r: seq<Lit>)
    ensures |r| <= |a|
  {
    if |a| == 0 then []
    else IndicesWith(a[..|a| - 1], p, eqX, offset) + (if a[|a| - 1] == p then [eqX(|a| - 1 + offset)] else [])
  }

  /** The disjunction of those literals says `x - offset` indexes an entry `p`. */
  lemma {:induction false} IndicesWithHolds(a: seq<bool>, p: bool, eqX: int -> Lit, offset: int, g: Asg, v: int)
    requires EqLits(g, eqX, v)
    ensures ClauseHolds(g, IndicesWith(a, p, eqX, offset)) <==> 0 <= v - offset < |a| && a[v - offset] == p
  {
    if |a| > 0 {
      var n := |a| - 1;
      var rest := IndicesWith(a[..n], p, eqX, offset);
      IndicesWithHolds(a[..n], p, eqX, offset, g, v);
      assert ClauseHolds(g, rest) <==> 0 <= v - offset < n && a[v - offset] == p by {
        if 0 <= v - offset < n { assert a[..n][v - offset] == a[v - offset]; }
      }
      if a[n] == p {
        SnocHolds(g, rest, eqX(n + offset));
        assert Holds(g, eqX(n + offset)) <==> v == n + offset;
      } else {
        assert IndicesWith(a, p, eqX, offset) == rest + [] == rest;
      }
    }
  }

  /** The per-index clauses `[y = a[i]] \/ [x != i]`. */
  function IndexClauses(a: seq<bool>, y: Lit, eqX: int -> Lit, offset: int): (cs: seq<Clause>)
    ensures |cs| == |a| && forall i :: 0 <= i < |a| ==> cs[i] == [Is(y, a[i]), Neg(eqX(i + offset))]
  {
    if |a| == 0 then [] else IndexClauses(a[..|a| - 1], y, eqX, offset) + [[Is(y, a[|a| - 1]), Neg(eqX(|a| - 1 + offset))]]
  }

  /** `array_bool_element(x, a, y, offset)`: the per-index clauses, then
      `y \/ [x = i]...` over the false entries and `~y \/ [x = i]...` over
      the true ones. */
  function ArrayBoolElement(a: seq<bool>, y: Lit, eqX: int -> Lit, offset: int): (cs: seq<Clause>)
    ensures |cs| == |a| + 2
    ensures cs[|a|] == [y] + IndicesWith(a, false, eqX, offset)
    ensures cs[|a| + 1] == [Neg(y)] + IndicesWith(a, true, eqX, offset)
  {
    IndexClauses(a, y, eqX, offset) +
      [[y] + IndicesWith(a, false, eqX, offset), [Neg(y)] + IndicesWith(a, true, eqX, offset)]
  }

  /** The clauses hold exactly when `x - offset` indexes `a` and `y` is
      that entry; an index outside the array satisfies no assignment. */
  lemma ArrayBoolElementMeans(a: seq<bool>, y: Lit, eqX: int -> Lit, offset: int, g: Asg, v: int)
    requires EqLits(g, eqX, v)
    ensures AllHold(g, ArrayBoolElement(a, y, eqX, offset)) <==>
      0 <= v - offset < |a| && Holds(g, y) == a[v - offset]
  {
    var cs := ArrayBoolElement(a, y, eqX, offset);
    var ps1 := [y] + IndicesWith(a, false, eqX, offset);
    var ps2 := [Neg(y)] + IndicesWith(a, true, eqX, offset);
    ConcatHolds(g, [y], IndicesWith(a, false, eqX, offset));
    ConcatHolds(g, [Neg(y)], IndicesWith(a, true, eqX, offset));
    IndicesWithHolds(a, false, eqX, offset, g, v);
    IndicesWithHolds(a, true, eqX, offset, g, v);
    assert ClauseHolds(g, [y]) <==> Holds(g, y) by { assert [y][0] == y; }
    assert ClauseHolds(g, [Neg(y)]) <==> !Holds(g, y) by { assert [Neg(y)][0] == Neg(y); }
    if AllHold(g, cs) {
      assert ClauseHolds(g, cs[|a|]) && ClauseHolds(g, cs[|a| + 1]);
    }
    if 0 <= v - offset < |a| && Holds(g, y) == a[v - offset] {
      forall j | 0 <= j < |cs| ensures ClauseHolds(g, cs[j]) {
        if j < |a| {
          var c := cs[j];
          if j == v - offset { assert Holds(g, c[0]); } else { assert Holds(g, c[1]); }
        }
      }
    }
  }

  // ---------------------------------------------------------------------
  // array_int_element

  /** `z`: the entries whose index is still possible for `x` and whose
      value is still possible for `y`, scanning the indices from `lo`
      (inclusive) to `hi` (exclusive). */
  function Supported(x: IntVar, a: seq<int>, y: IntVar, offset: int, lo: int, hi: int): (z: seq<int>)
    requires 0 <= lo && hi <= |a|
    ensures forall w :: w in z <==> exists i :: lo <= i < hi && InDom(x, i + offset) && InDom(y, a[i]) && a[i] == w
    decreases hi - lo
  {
    if lo >= hi then []
    else
      var rest := Supported(x, a, y, offset, lo + 1, hi);
      if InDom(x, lo + offset) && InDom(y, a[lo]) then [a[lo]] + rest else rest
  }

  /** `[x = j]` for the indices `j < i` with `a[j] == w` still possible for `x`. */
  function Xs(a: seq<int>, w: int, x: IntVar, offset: int, eqX: int -> Lit, i: nat): (r: seq<Lit>)
    requires i <= |a|
    ensures |r| <= i
  {
    if i == 0 then []
    else Xs(a, w, x, offset, eqX, i - 1) + (if a[i - 1] == w && InDom(x, i - 1 + offset) then [eqX(i - 1 + offset)] else [])
  }

  /** The disjunction of those literals says `x - offset` is such an index. */
  lemma {:induction false} XsHolds(a: seq<int>, w: int, x: IntVar, offset: int, eqX: int -> Lit, i: nat, g: Asg, v: int)
    requires i <= |a| && EqLits(g, eqX, v)
    ensures ClauseHolds(g, Xs(a, w, x, offset, eqX, i)) <==> 0 <= v - offset < i && a[v - offset] == w && InDom(x, v)
  {
    if i > 0 {
      XsHolds(a, w, x, offset, eqX, i - 1, g, v);
      if a[i - 1] == w && InDom(x, i - 1 + offset) {
        SnocHolds(g, Xs(a, w, x, offset, eqX, i - 1), eqX(i - 1 + offset));
        assert Holds(g, eqX(i - 1 + offset)) <==> v == i - 1 + offset;
      } else {
        assert Holds(g, eqX(i - 1 + offset)) <==> v == i - 1 + offset;
        assert Xs(a, w, x, offset, eqX, i) == Xs(a, w, x, offset, eqX, i - 1) + [] == Xs(a, w, x, offset, eqX, i - 1);
      }
    }
  }

  /** The per-index clauses `[y = a[i]] \/ [x != i]`. */
  function IntIndexClauses(a: seq<int>, eqX: int -> Lit, eqY: int -> Lit, offset: int): (cs: seq<Clause>)
    ensures |cs| == |a| && forall i :: 0 <= i < |a| ==> cs[i] == [eqY(a[i]), Neg(eqX(i + offset))]
  {
    if |a| == 0 then [] else IntIndexClauses(a[..|a| - 1], eqX, eqY, offset) + [[eqY(a[|a| - 1]), Neg(eqX(|a| - 1 + offset))]]
  }

  /** The support clause of value `w` once all indices are seen. */
  function Support(a: seq<int>, w: int, x: IntVar, offset: int, eqX: int -> Lit, eqY: int -> Lit): Clause
  {
    [Neg(eqY(w))] + Xs(a, w, x, offset, eqX, |a|)
  }

  /** The support clauses under construction: `val_to_pss`, the clauses
      `pss`, and `ws[k]`, the value clause `k` is about. */
  datatype Supp = Supp(m: map<int, nat>, pss: seq<Clause>, ws: seq<int>)

  /** The map and the value list agree: `m` sends each listed value to its position. */
  predicate Sync(s: Supp)
  {
    |s.pss| == |s.ws| &&
    (forall k :: 0 <= k < |s.ws| ==> s.ws[k] in s.m && s.m[s.ws[k]] == k) &&
    (forall w :: w in s.m ==> w in s.ws && s.m[w] < |s.ws|)
  }

  /** Clause `k` holds `[y != ws[k]]` and the indices below `i` that select `ws[k]`. */
  predicate ClausesUpTo(s: Supp, a: seq<int>, x: IntVar, offset: int, eqX: int -> Lit, eqY: int -> Lit, i: nat)
    requires |s.pss| == |s.ws| && i <= |a|
  {
    forall k :: 0 <= k < |s.ws| ==> s.pss[k] == [Neg(eqY(s.ws[k]))] + Xs(a, s.ws[k], x, offset, eqX, i)
  }

  /** The listed values are those of the entries below `i` still possible for `y`. */
  ghost predicate SeenUpTo(s: Supp, a: seq<int>, y: IntVar, i: nat)
    requires i <= |a|
  {
    forall w :: w in s.ws <==> exists j :: 0 <= j < i && InDom(y, a[j]) && a[j] == w
  }

  /** One turn of the loop over the entries of `a`. */
  function SuppStep(s: Supp, a: seq<int>, x: IntVar, y: IntVar, offset: int, eqX: int -> Lit, eqY: int -> Lit, i: nat): Supp
    requires Sync(s) && i < |a|
  {
    if !InDom(y, a[i]) then s
    else
      var t := if a[i] in s.m then s
               else Supp(s.m[a[i] := |s.pss|], s.pss + [[Neg(eqY(a[i]))]], s.ws + [a[i]]);
      var index := t.m[a[i]];
      if InDom(x, i + offset) then t.(pss := t.pss[index := t.pss[index] + [eqX(i + offset)]]) else t
  }

  lemma StepSync(s: Supp, a: seq<int>, x: IntVar, y: IntVar, offset: int, eqX: int -> Lit, eqY: int -> Lit, i: nat)
    requires Sync(s) && i < |a|
    ensures Sync(SuppStep(s, a, x, y, offset, eqX, eqY, i))
    ensures SuppStep(s, a, x, y, offset, eqX, eqY, i).ws ==
      s.ws + (if InDom(y, a[i]) && a[i] !in s.m then [a[i]] else [])
  {
    if InDom(y, a[i]) && a[i] !in s.m {
      var t := Supp(s.m[a[i] := |s.pss|], s.pss + [[Neg(eqY(a[i]))]], s.ws + [a[i]]);
      forall k | 0 <= k < |t.ws| ensures t.ws[k] in t.m && t.m[t.ws[k]] == k {
        if k < |s.ws| { assert t.ws[k] == s.ws[k]; assert s.ws[k] != a[i]; }
      }
      assert Sync(t);
    }
  }

  /** A value is in the map exactly when it is listed, and then at its position. */
  lemma SyncIn(s: Supp, w: int)
    requires Sync(s)
    ensures w in s.m <==> w in s.ws
    ensures w in s.m ==> s.ws[s.m[w]] == w
  {
    if w in s.m {
      var k :| 0 <= k < |s.ws| && s.ws[k] == w;
    }
    if w in s.ws {
      var k :| 0 <= k < |s.ws| && s.ws[k] == w;
    }
  }

  lemma StepClauses(s: Supp, a: seq<int>, x: IntVar, y: IntVar, offset: int, eqX: int -> Lit, eqY: int -> Lit, i: nat)
    requires Sync(s) && i < |a| && ClausesUpTo(s, a, x, offset, eqX, eqY, i) && SeenUpTo(s, a, y, i)
    ensures var r := SuppStep(s, a, x, y, offset, eqX, eqY, i);
      Sync(r) && ClausesUpTo(r, a, x, offset, eqX, eqY, i + 1)
  {
    var r := SuppStep(s, a, x, y, offset, eqX, eqY, i);
    StepSync(s, a, x, y, offset, eqX, eqY, i);
    assert forall k :: 0 <= k < |s.ws| ==> InDom(y, s.ws[k]) by {
      forall k | 0 <= k < |s.ws| ensures InDom(y, s.ws[k]) { assert s.ws[k] in s.ws; }
    }
    if !InDom(y, a[i]) {
      forall k | 0 <= k < |r.ws| ensures r.pss[k] == [Neg(eqY(r.ws[k]))] + Xs(a, r.ws[k], x, offset, eqX, i + 1) {
        assert r.ws[k] != a[i];
        assert Xs(a, r.ws[k], x, offset, eqX, i + 1) == Xs(a, r.ws[k], x, offset, eqX, i) + [] == Xs(a, r.ws[k], x, offset, eqX, i);
      }
    } else {
      var t := if a[i] in s.m then s
               else Supp(s.m[a[i] := |s.pss|], s.pss + [[Neg(eqY(a[i]))]], s.ws + [a[i]]);
      assert Sync(t) && t.ws == r.ws;
      assert forall k :: 0 <= k < |s.ws| ==> t.pss[k] == s.pss[k] && t.ws[k] == s.ws[k];
      var index := t.m[a[i]];
      SyncIn(t, a[i]);
      SyncIn(s, a[i]);
      forall k | 0 <= k < |r.ws| ensures r.pss[k] == [Neg(eqY(r.ws[k]))] + Xs(a, r.ws[k], x, offset, eqX, i + 1) {
        var w := r.ws[k];
        if k == index {
          assert w == a[i];
          if InDom(x, i + offset) {
            assert r.pss[k] == t.pss[k] + [eqX(i + offset)];
            assert Xs(a, w, x, offset, eqX, i + 1) == Xs(a, w, x, offset, eqX, i) + [eqX(i + offset)];
            if k < |s.ws| {
              assert t.pss[k] == [Neg(eqY(w))] + Xs(a, w, x, offset, eqX, i);
            } else {
              assert Xs(a, w, x, offset, eqX, i) == [] by { XsNone(a, w, x, offset, eqX, i); }
            }
          } else {
            assert Xs(a, w, x, offset, eqX, i + 1) == Xs(a, w, x, offset, eqX, i) + [] == Xs(a, w, x, offset, eqX, i);
            if k == |s.ws| {
              assert Xs(a, w, x, offset, eqX, i) == [] by { XsNone(a, w, x, offset, eqX, i); }
            }
          }
        } else {
          assert t.m[w] == k;
          assert w != a[i];
          assert r.pss[k] == t.pss[k] == s.pss[k];
          assert Xs(a, w, x, offset, eqX, i + 1) == Xs(a, w, x, offset, eqX, i) + [] == Xs(a, w, x, offset, eqX, i);
        }
      }
    }
  }

  /** A value that no entry below `i` selects has no index literals yet. */
  lemma {:induction false} XsNone(a: seq<int>, w: int, x: IntVar, offset: int, eqX: int -> Lit, i: nat)
    requires i <= |a| && forall j :: 0 <= j < i ==> a[j] != w
    ensures Xs(a, w, x, offset, eqX, i) == []
  {
    if i > 0 { XsNone(a, w, x, offset, eqX, i - 1); }
  }

  lemma StepSeen(s: Supp, a: seq<int>, x: IntVar, y: IntVar, offset: int, eqX: int -> Lit, eqY: int -> Lit, i: nat)
    requires Sync(s) && i < |a| && SeenUpTo(s, a, y, i)
    ensures SeenUpTo(SuppStep(s, a, x, y, offset, eqX, eqY, i), a, y, i + 1)
  {
    StepSync(s, a, x, y, offset, eqX, eqY, i);
    SyncIn(s, a[i]);
  }

  /** The support clauses `[y != w] \/ [x = i]...`, one per distinct value
      of `a` still possible for `y`, in order of first occurrence, built
      through the map `val_to_pss`; `ws[k]` is the value of clause `k`. */
  method SupportClauses(a: seq<int>, x: IntVar, y: IntVar, offset: int, eqX: int -> Lit, eqY: int -> Lit)
    returns (pss: seq<Clause>, ws: seq<int>)
    ensures |pss| == |ws|
    ensures forall k :: 0 <= k < |ws| ==> pss[k] == Support(a, ws[k], x, offset, eqX, eqY)
    ensures forall k, l :: 0 <= k < l < |ws| ==> ws[k] != ws[l]
    ensures forall w :: w in ws <==> exists i :: 0 <= i < |a| && InDom(y, a[i]) && a[i] == w
  {
    var s := Supp(map[], [], []);
    for i := 0 to |a|
      invariant Sync(s)
      invariant ClausesUpTo(s, a, x, offset, eqX, eqY, i)
      invariant SeenUpTo(s, a, y, i)
    {
      StepClauses(s, a, x, y, offset, eqX, eqY, i);
      StepSeen(s, a, x, y, offset, eqX, eqY, i);
      s := SuppStep(s, a, x, y, offset, eqX, eqY, i);
    }
    pss, ws := s.pss, s.ws;
  }

  /** What `array_int_element` posts and the variables after it. */
  datatype ElemPosted = ElemPosted(x: IntVar, y: IntVar, clauses: seq<Clause>)

  /** The two `TL_SET`s that confine `x - offset` to the indices of `a`. */
  function NarrowIndex(x: IntVar, n: nat, offset: int, finishedInit: bool): (r: Res<IntVar>)
    requires Valid(x)
    ensures !r.Fatal?
    ensures r.Fail? <==> forall v :: InDom(x, v) ==> !(0 <= v - offset < n)
    ensures r.Ok? ==> Valid(r.value) && r.value.kind == x.kind
    ensures r.Ok? ==> forall v :: InDom(r.value, v) <==> InDom(x, v) && 0 <= v - offset < n
  {
    var x1 := TLSet(x, OpSetMin, offset, finishedInit);
    if !x1.Ok? then Fail
    else
      var x2 := TLSet(x1.value, OpSetMax, n - 1 + offset, finishedInit);
      assert x2.Ok? ==> x2.value.kind == x.kind by { KindKept(x1.value, OpSetMax, n - 1 + offset, finishedInit); KindKept(x, OpSetMin, offset, finishedInit); }
      if !x2.Ok? then Fail else x2
  }

  /** The bound of the second `TL_SET`, `a.size() - 1 + offset`, computed in
      32-bit unsigned arithmetic. */
  function IndexBound(n: nat, offset: int): (b: int)
    ensures 0 <= b < 0x1_0000_0000
    ensures 0 <= n - 1 + offset < 0x1_0000_0000 ==> b == n - 1 + offset
    ensures -0x1_0000_0000 <= n - 1 + offset < 0 ==> b == n - 1 + offset + 0x1_0000_0000
  {
    (n - 1 + offset) % 0x1_0000_0000
  }

  /** The two `TL_SET`s as written: `x` is confined to `[offset, b]` with the
      wrapped bound `b` of `IndexBound`. */
  function NarrowIndexAsWritten(x: IntVar, n: nat, offset: int, finishedInit: bool): (r: Res<IntVar>)
    requires Valid(x)
    ensures !r.Fatal?
    ensures r.Fail? <==> forall v :: InDom(x, v) ==> !(offset <= v <= IndexBound(n, offset))
    ensures r.Ok? ==> Valid(r.value) && r.value.kind == x.kind
    ensures r.Ok? ==> forall v :: InDom(r.value, v) <==> InDom(x, v) && offset <= v <= IndexBound(n, offset)
  {
    var b := IndexBound(n, offset);
    var x1 := TLSet(x, OpSetMin, offset, finishedInit);
    if !x1.Ok? then Fail
    else
      var x2 := TLSet(x1.value, OpSetMax, b, finishedInit);
      assert x2.Ok? ==> x2.value.kind == x.kind by { KindKept(x1.value, OpSetMax, b, finishedInit); KindKept(x, OpSetMin, offset, finishedInit); }
      if !x2.Ok? then Fail else x2
  }

  /** Without a wrap the narrowing as written is the intended one. */
  lemma {:induction false} NarrowIndexAgrees(x: IntVar, n: nat, offset: int, finishedInit: bool)
    requires Valid(x) && 0 <= n - 1 + offset < 0x1_0000_0000
    ensures NarrowIndexAsWritten(x, n, offset, finishedInit) == NarrowIndex(x, n, offset, finishedInit)
  {
    assert IndexBound(n, offset) == n - 1 + offset;
  }

  /** Some value of `x` that the narrowing as written keeps selects an entry
      past the end of an array of length `n`: the loop that collects `z`
      reads it. */
  ghost predicate ReadsPastArray(x: IntVar, n: nat, offset: int)
  {
    exists v :: InDom(x, v) && offset <= v <= IndexBound(n, offset) && n <= v - offset
  }

  /** The wrap happens: `a = [7]`, `offset = -5` and `x` in `[-5, 0]`. The
      narrowing as written keeps all of `x`, so `-4` selects `a[1]`; the
      intended narrowing leaves only `-5`. */
  lemma NarrowIndexWraps()
    ensures var x := IntVar(0, -5, 0, -5, 0, None, {}, false, Plain);
      NarrowIndexAsWritten(x, 1, -5, true) == Ok(x) && ReadsPastArray(x, 1, -5) &&
      NarrowIndex(x, 1, -5, true).Ok? && forall v :: InDom(NarrowIndex(x, 1, -5, true).value, v) <==> v == -5
  {
    var x := IntVar(0, -5, 0, -5, 0, None, {}, false, Plain);
    assert IndexBound(1, -5) == 0xFFFF_FFFB;
    assert InDom(x, -4);
  }

  /** Narrowing never changes the representation. */
  lemma KindKept(x: IntVar, op: DomOp, v: int, finishedInit: bool)
    requires Valid(x)
    ensures TLSet(x, op, v, finishedInit).Ok? ==> TLSet(x, op, v, finishedInit).value.kind == x.kind
  {
  }

  /** The clauses of `array_int_element` once `x` and `y` are specialised. */
  method ElementClauses(x: IntVar, a: seq<int>, y: IntVar, offset: int, eqX: int -> Lit, eqY: int -> Lit)
    returns (cs: seq<Clause>)
    ensures forall g: Asg, xv: int, yv: int ::
      EqLits(g, eqX, xv) && EqLits(g, eqY, yv) && InDom(x, xv) && InDom(y, yv) && 0 <= xv - offset < |a| ==>
      (AllHold(g, cs) <==> yv == a[xv - offset])
  {
    var pss, ws := SupportClauses(a, x, y, offset, eqX, eqY);
    cs := IntIndexClauses(a, eqX, eqY, offset) + pss;
    forall g: Asg, xv: int, yv: int |
      EqLits(g, eqX, xv) && EqLits(g, eqY, yv) && InDom(x, xv) && InDom(y, yv) && 0 <= xv - offset < |a|
      ensures AllHold(g, cs) <==> yv == a[xv - offset]
    {
      ElementMeans(a, x, offset, eqX, eqY, pss, ws, g, xv, yv);
    }
  }

  lemma ElementMeans(a: seq<int>, x: IntVar, offset: int, eqX: int -> Lit, eqY: int -> Lit,
                     pss: seq<Clause>, ws: seq<int>, g: Asg, xv: int, yv: int)
    requires |pss| == |ws|
    requires forall k :: 0 <= k < |ws| ==> pss[k] == Support(a, ws[k], x, offset, eqX, eqY)
    requires EqLits(g, eqX, xv) && EqLits(g, eqY, yv) && InDom(x, xv) && 0 <= xv - offset < |a|
    ensures AllHold(g, IntIndexClauses(a, eqX, eqY, offset) + pss) <==> yv == a[xv - offset]
  {
    var ics := IntIndexClauses(a, eqX, eqY, offset);
    var i := xv - offset;
    AllHoldConcat(g, ics, pss);
    if AllHold(g, ics) {
      assert ClauseHolds(g, ics[i]);
      var c := ics[i];
      assert !Holds(g, c[1]);
    }
    if yv == a[i] {
      forall j | 0 <= j < |ics| ensures ClauseHolds(g, ics[j]) {
        var c := ics[j];
        if j == i { assert Holds(g, c[0]); } else { assert Holds(g, c[1]); }
      }
      forall k | 0 <= k < |pss| ensures ClauseHolds(g, pss[k]) {
        var w := ws[k];
        ConcatHolds(g, [Neg(eqY(w))], Xs(a, w, x, offset, eqX, |a|));
        XsHolds(a, w, x, offset, eqX, |a|, g, xv);
        if w != yv { assert Holds(g, [Neg(eqY(w))][0]); }
      }
    }
  }

  /** `y->specialiseToSL(z)` on the supported values `z`, which are all in
      the domain of `y`; only a plain `y` looks at `z`, and it must not be
      empty then. */
  method SpecialiseY(y: IntVar, z: seq<int>, lim: Limits, log2: nat -> nat, finishedInit: bool) returns (r: Res<IntVar>)
    requires Valid(y) && (|z| > 0 || y.kind != Plain)
    requires forall w :: w in z ==> InDom(y, w)
    ensures !r.Fail?
    ensures r.Fatal? ==> y.kind == LL || y.kind == Plain
    ensures y.kind == LL ==> r.Fatal?
    ensures r.Ok? ==> r.value.kind == EL || r.value.kind == SL
  {
    if y.kind != Plain {
      return if y.kind == LL then Fatal(NotIntVar) else Ok(y);
    }
    var v := SortDedup(z);
    assert v[0] in z && v[|v| - 1] in z;
    r := SpecialiseToSL(y, z, lim, log2, finishedInit);
  }

  /** `x->specialiseToEL()`, then the clauses over the specialised variables. */
  method PostElement(x: IntVar, a: seq<int>, y: IntVar, offset: int, eqX: int -> Lit, eqY: int -> Lit)
    returns (r: Res<ElemPosted>)
    requires forall v :: InDom(x, v) ==> 0 <= v - offset < |a|
    ensures !r.Fail?
    ensures r.Fatal? <==> x.kind == LL
    ensures r.Ok? ==> r.value.y == y && forall v :: InDom(r.value.x, v) <==> InDom(x, v)
    ensures r.Ok? ==> forall g: Asg, xv: int, yv: int ::
      EqLits(g, eqX, xv) && EqLits(g, eqY, yv) && InDom(r.value.x, xv) && InDom(r.value.y, yv) ==>
      (AllHold(g, r.value.clauses) <==> yv == a[xv - offset])
  {
    var x1 := SpecialiseToEL(x);
    if !x1.Ok? { return Fatal(x1.msg); }
    var cs := ElementClauses(x1.value, a, y, offset, eqX, eqY);
    r := Ok(ElemPosted(x1.value, y, cs));
  }

  /** Some index still possible for `x` selects a value still possible for `y`. */
  predicate SomeSupport(x: IntVar, a: seq<int>, y: IntVar, offset: int)
  {
    exists i :: 0 <= i < |a| && InDom(x, i + offset) && InDom(y, a[i])
  }

  /** The narrowed index and the supported values `z`. */
  method Prepare(x: IntVar, a: seq<int>, y: IntVar, offset: int, finishedInit: bool)
    returns (x1: Res<IntVar>, z: seq<int>)
    requires Valid(x)
    ensures !x1.Fatal?
    ensures x1.Fail? <==> forall v :: InDom(x, v) ==> !(0 <= v - offset < |a|)
    ensures x1.Ok? ==> Valid(x1.value) && x1.value.kind == x.kind
    ensures x1.Ok? ==> forall v :: InDom(x1.value, v) <==> InDom(x, v) && 0 <= v - offset < |a|
    ensures forall w :: w in z ==> InDom(y, w)
    ensures x1.Ok? ==> (|z| == 0 <==> !SomeSupport(x, a, y, offset))
  {
    x1 := NarrowIndex(x, |a|, offset, finishedInit);
    if !x1.Ok? { return x1, []; }
    var n := x1.value;
    assert InDom(n, n.min) && InDom(n, n.max);
    z := Supported(n, a, y, offset, n.min - offset, n.max - offset + 1);
    if SomeSupport(x, a, y, offset) {
      var i :| 0 <= i < |a| && InDom(x, i + offset) && InDom(y, a[i]);
      assert InDom(n, i + offset);
      assert a[i] in z;
    }
    if |z| > 0 {
      assert z[0] in z;
    }
  }

  /** The narrowing and the collecting loop as written: the wrapped bound
      can leave values of `x` that select entries past the end of `a`, and
      the loop reads `a[i]` for each of them. */
  method PrepareAsWritten(x: IntVar, a: seq<int>, y: IntVar, offset: int, finishedInit: bool)
    returns (x1: Res<IntVar>, z: seq<int>)
    requires Valid(x)
    ensures x1.Fail? <==> forall v :: InDom(x, v) ==> !(offset <= v <= IndexBound(|a|, offset))
    ensures x1.Fatal? <==> ReadsPastArray(x, |a|, offset)
    ensures x1.Ok? ==> Valid(x1.value) && x1.value.kind == x.kind
    ensures x1.Ok? ==> forall v :: InDom(x1.value, v) <==> InDom(x, v) && offset <= v <= IndexBound(|a|, offset)
    ensures x1.Ok? ==> forall v :: InDom(x1.value, v) ==> v - offset < |a|
    ensures forall w :: w in z ==> InDom(y, w)
    ensures x1.Ok? ==> (|z| == 0 <==> !SomeSupport(x1.value, a, y, offset))
  {
    x1 := NarrowIndexAsWritten(x, |a|, offset, finishedInit);
    if !x1.Ok? { return x1, []; }
    var n := x1.value;
    assert InDom(n, n.min) && InDom(n, n.max);
    if n.max - offset >= |a| {
      return Fatal(IndexOutOfRange), [];
    }
    assert !ReadsPastArray(x, |a|, offset) by {
      forall v | InDom(x, v) && offset <= v <= IndexBound(|a|, offset)
        ensures v - offset < |a|
      {
        assert InDom(n, v);
      }
    }
    z := Supported(n, a, y, offset, n.min - offset, n.max - offset + 1);
    if SomeSupport(n, a, y, offset) {
      var i :| 0 <= i < |a| && InDom(n, i + offset) && InDom(y, a[i]);
      assert a[i] in z;
    }
    if |z| > 0 {
      assert z[0] in z;
    }
  }

  /** `array_int_element(x, a, y, offset)` as written. The index bound of
      the second `TL_SET` wraps when `offset + |a| - 1` is negative, and the
      collecting loop then reads past the end of `a`: `Fatal`. After that `y`
      is specialised to the values `z` still supported. When none is and `y`
      is still a plain variable, the sparse-list specialisation reads the
      first element of an empty vector: `Fatal` too. */
  method ArrayIntElementAsWritten(x: IntVar, a: seq<int>, y: IntVar, offset: int, lim: Limits, log2: nat -> nat,
                                  finishedInit: bool, eqX: int -> Lit, eqY: int -> Lit) returns (r: Res<ElemPosted>)
    requires Valid(x) && Valid(y)
    ensures r.Fail? <==> forall v :: InDom(x, v) ==> !(offset <= v <= IndexBound(|a|, offset))
    ensures ReadsPastArray(x, |a|, offset) ==> r.Fatal?
    ensures |a| - 1 + offset < 0x1_0000_0000 ==>
      y.kind == Plain && !SomeSupport(x, a, y, offset) && SomeIndex(x, |a|, offset) ==> r.Fatal?
  {
    var x1, z := PrepareAsWritten(x, a, y, offset, finishedInit);
    if x1.Fail? { return Fail; }
    if x1.Fatal? { return Fatal(x1.msg); }
    if |z| == 0 && y.kind == Plain {
      return Fatal(IndexOutOfRange);
    }
    var y1 := SpecialiseY(y, z, lim, log2, finishedInit);
    if !y1.Ok? { return Fatal(y1.msg); }
    r := PostElement(x1.value, a, y1.value, offset, eqX, eqY);
  }

  /** Some index still possible for `x` is an index of an array of length `n`. */
  predicate SomeIndex(x: IntVar, n: nat, offset: int)
  {
    exists v :: InDom(x, v) && 0 <= v - offset < n
  }

  /** The read happens: `x` in `{0}`, `a = [5]`, a plain `y` in `{0}`. The
      index survives the narrowing, but its entry is not a value of `y`. */
  lemma ArrayIntElementEmptyRead()
    ensures var x := IntVar(0, 0, 0, 0, 0, None, {}, false, Plain);
      var y := IntVar(1, 0, 0, 0, 0, None, {}, false, Plain);
      Valid(x) && Valid(y) && y.kind == Plain && !SomeSupport(x, [5], y, 0) && SomeIndex(x, 1, 0)
  {
    var x := IntVar(0, 0, 0, 0, 0, None, {}, false, Plain);
    assert InDom(x, 0);
  }

  /** `array_int_element(x, a, y, offset)` with the empty case decided: when
      no index supports a value of `y` there is no solution, so posting
      fails. Otherwise the narrowed index, the specialised `y` and the
      clauses mean exactly `y = a[x - offset]`. */
  method ArrayIntElement(x: IntVar, a: seq<int>, y: IntVar, offset: int, lim: Limits, log2: nat -> nat,
                         finishedInit: bool, eqX: int -> Lit, eqY: int -> Lit) returns (r: Res<ElemPosted>)
    requires Valid(x) && Valid(y)
    ensures r.Fail? <==> !SomeSupport(x, a, y, offset)
    ensures r.Fatal? ==> x.kind == LL || y.kind == LL || y.kind == Plain
    ensures SomeSupport(x, a, y, offset) && (x.kind == LL || y.kind == LL) ==> r.Fatal?
    ensures r.Ok? ==> forall v :: InDom(r.value.x, v) <==> InDom(x, v) && 0 <= v - offset < |a|
    ensures r.Ok? ==> r.value.y.kind == EL || r.value.y.kind == SL
    ensures r.Ok? ==> forall g: Asg, xv: int, yv: int ::
      EqLits(g, eqX, xv) && EqLits(g, eqY, yv) && InDom(r.value.x, xv) && InDom(r.value.y, yv) ==>
      (AllHold(g, r.value.clauses) <==> yv == a[xv - offset])
  {
    var x1, z := Prepare(x, a, y, offset, finishedInit);
    if !x1.Ok? { return Fail; }
    if |z| == 0 {
      return Fail;
    }
    var y1 := SpecialiseY(y, z, lim, log2, finishedInit);
    if !y1.Ok? { return Fatal(y1.msg); }
    r := PostElement(x1.value, a, y1.value, offset, eqX, eqY);
  }
}
