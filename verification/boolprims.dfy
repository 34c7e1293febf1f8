/** The Boolean primitives of chuffed/primitives/bool.cpp. `bool_rel` turns
    the truth table of a relation over three views into the fewest clauses it
    finds, smallest first; `bool_clause`, `array_bool_or` and
    `array_bool_and` are fixed clausal encodings. A Boolean view is its
    literal; the clauses handed to the substrate are returned. */
module BoolPrims {
  import opened Base

  // ---------------------------------------------------------------------
  // Masks over the three views

  /** Bit `m < 3` of a subset or an assignment `x < 8` of the views: an
      assignment `k` gives view `v[m]` the value of its bit `m`; a subset `i`
      holds the views whose bits are set. */
  function Bit3(x: nat, m: nat): bool
  {
    if m == 0 then x == 1 || x == 3 || x == 5 || x == 7
    else if m == 1 then x == 2 || x == 3 || x == 6 || x == 7
    else 4 <= x <= 7
  }

  /** Bit `k` of the truth table: whether assignment `k` is allowed. */
  function Allowed(t: bv8, k: nat): bool
    requires k < 8
  {
    (t >> (k as bv8)) & 1 == 1
  }

  /** `bitcount(i)` for a subset `i < 8`. */
  function Popcount(i: nat): nat
  {
    (if Bit3(i, 0) then 1 else 0) + (if Bit3(i, 1) then 1 else 0) + (if Bit3(i, 2) then 1 else 0)
  }

  /** `j & ~i == 0`: `j` sets no view outside `i`. */
  predicate Within(j: nat, i: nat)
  {
    (Bit3(j, 0) ==> Bit3(i, 0)) && (Bit3(j, 1) ==> Bit3(i, 1)) && (Bit3(j, 2) ==> Bit3(i, 2))
  }

  /** Assignment `k` disagrees with `j` on view `m`, or `m` is not in `i`. */
  predicate DiffersAt(i: nat, j: nat, k: nat, m: nat)
  {
    Bit3(i, m) ==> Bit3(k, m) != Bit3(j, m)
  }

  /** `pass` of the innermost loop: `k` disagrees with `j` on every view of `i`. */
  predicate Differs(i: nat, j: nat, k: nat)
  {
    DiffersAt(i, j, k, 0) && DiffersAt(i, j, k, 1) && DiffersAt(i, j, k, 2)
  }

  /** `flags`, the bit mask built over `k < 8`, as the set of assignments it
      marks: those the clause of `(i, j)` excludes. The tests `t & flags` and
      `flags & ~u` become "some flagged assignment is allowed" and "some
      flagged assignment is not yet covered". */
  function Flags(i: nat, j: nat): (r: set<nat>)
    ensures forall k :: k in r <==> k < 8 && Differs(i, j, k)
  {
    set k | 0 <= k < 8 && Differs(i, j, k)
  }

  /** Some assignment of `f` is allowed by the table. */
  predicate Hits(t: bv8, f: set<nat>)
  {
    exists k :: k in f && k < 8 && Allowed(t, k)
  }

  /** Disagreeing with `j` on all three views singles out one assignment,
      the complement `7 - j`. */
  lemma FullFlags(j: nat, k: nat)
    requires j < 8 && k < 8
    ensures Differs(7, j, k) <==> k == 7 - j
  {
  }

  /** The flags of the full subset are one assignment. */
  lemma FullFlagsSet(j: nat)
    requires j < 8
    ensures Flags(7, j) == {7 - j}
  {
    forall k | k in Flags(7, j) ensures k == 7 - j { FullFlags(j, k); }
    FullFlags(j, 7 - j);
  }

  // ---------------------------------------------------------------------
  // The (subset, assignment) pairs, in the order of the loops

  /** One iteration of the two outer loops that passes the filters: subset
      `i` of `l` views and an assignment `j` of those views. */
  datatype Pair = Pair(l: nat, i: nat, j: nat)

  /** The pairs from level `l`, subset `i` and assignment `j` onwards, in
      the order of the three loops: levels upwards, then subsets of that many
      views, then assignments with `j & ~i == 0`. */
  function Walk(l: nat, i: nat, j: nat): (r: seq<Pair>)
    requires 1 <= l <= 4 && i <= 8 && j <= 8
    ensures forall n :: 0 <= n < |r| ==> l <= r[n].l <= 3 && Popcount(r[n].i) == r[n].l
    ensures forall n :: 0 < n < |r| ==> r[n - 1].l <= r[n].l
    decreases 4 - l, 8 - i, 8 - j
  {
    if l == 4 then []
    else if i == 8 then Walk(l + 1, 0, 0)
    else if j == 8 then Walk(l, i + 1, 0)
    else if Popcount(i) == l && Within(j, i) then [Pair(l, i, j)] + Walk(l, i, j + 1)
    else Walk(l, i, j + 1)
  }

  /** Every view is in the full subset `7`. */
  lemma WithinFull(j: nat)
    ensures Within(j, 7)
  {
  }

  /** Each assignment of the full subset is still ahead of any point of the
      walk before it. */
  lemma {:induction false} FullAhead(l: nat, i: nat, j: nat, jt: nat)
    requires 1 <= l <= 4 && i <= 8 && j <= 8 && jt < 8
    requires l < 3 || (l == 3 && i < 7) || (l == 3 && i == 7 && j <= jt)
    ensures Pair(3, 7, jt) in Walk(l, i, j)
    decreases 4 - l, 8 - i, 8 - j, 1
  {
    if i == 8 {
      AheadNextLevel(l, j, jt);
    } else if j == 8 {
      AheadNextSubset(l, i, jt);
    } else if l == 3 && i == 7 && j == jt {
      WalkFull(jt);
    } else {
      AheadNextView(l, i, j, jt);
    }
  }

  lemma {:induction false} AheadNextLevel(l: nat, j: nat, jt: nat)
    requires 1 <= l < 3 && j <= 8 && jt < 8
    ensures Pair(3, 7, jt) in Walk(l, 8, j)
    decreases 4 - l, 0, 8 - j, 0
  {
    FullAhead(l + 1, 0, 0, jt);
    WalkNextLevel(l, j);
  }

  lemma {:induction false} AheadNextSubset(l: nat, i: nat, jt: nat)
    requires 1 <= l <= 3 && i < 8 && jt < 8
    requires l < 3 || i < 7
    ensures Pair(3, 7, jt) in Walk(l, i, 8)
    decreases 4 - l, 8 - i, 0, 0
  {
    FullAhead(l, i + 1, 0, jt);
    WalkNextSubset(l, i);
  }

  lemma {:induction false} AheadNextView(l: nat, i: nat, j: nat, jt: nat)
    requires 1 <= l <= 3 && i < 8 && j < 8 && jt < 8
    requires l < 3 || i < 7 || j < jt
    ensures Pair(3, 7, jt) in Walk(l, i, j)
    decreases 4 - l, 8 - i, 8 - j, 0
  {
    FullAhead(l, i, j + 1, jt);
    WalkKeepsTail(l, i, j, Pair(3, 7, jt));
  }

  /** The walk moves to the next level once the subsets run out. */
  lemma WalkNextLevel(l: nat, j: nat)
    requires 1 <= l < 4 && j <= 8
    ensures Walk(l, 8, j) == Walk(l + 1, 0, 0)
  {
  }

  /** The walk moves to the next subset once the assignments run out. */
  lemma WalkNextSubset(l: nat, i: nat)
    requires 1 <= l < 4 && i < 8
    ensures Walk(l, i, 8) == Walk(l, i + 1, 0)
  {
  }

  /** The full subset's walk starts with its current assignment. */
  lemma WalkFull(j: nat)
    requires j < 8
    ensures Pair(3, 7, j) in Walk(3, 7, j)
  {
    WithinFull(j);
    assert Walk(3, 7, j) == [Pair(3, 7, j)] + Walk(3, 7, j + 1);
  }

  /** A pair met later in the walk is met from any earlier point too. */
  lemma WalkKeepsTail(l: nat, i: nat, j: nat, p: Pair)
    requires 1 <= l < 4 && i < 8 && j < 8
    requires p in Walk(l, i, j + 1)
    ensures p in Walk(l, i, j)
  {
  }

  /** Every pair the three nested loops visit, smaller subsets first. */
  function Pairs(): (r: seq<Pair>)
    ensures forall n :: 0 <= n < |r| ==> 1 <= r[n].l <= 3 && Popcount(r[n].i) == r[n].l
    ensures forall n :: 0 < n < |r| ==> r[n - 1].l <= r[n].l
    ensures forall j :: 0 <= j < 8 ==> Pair(3, 7, j) in r
  {
    forall j | 0 <= j < 8 ensures Pair(3, 7, j) in Walk(1, 0, 0) {
      FullAhead(1, 0, 0, j);
    }
    Walk(1, 0, 0)
  }

  // ---------------------------------------------------------------------
  // Meaning of a pair

  /** `v[m].getLit(p)`: the literal that makes view `m` equal `p`. */
  function ViewLit(x: Lit, p: bool): (r: Lit)
    ensures forall a: Asg :: Holds(a, r) <==> (Holds(a, x) == p)
  {
    if p then x else Neg(x)
  }

  /** The clause `ps` of a pair: one literal per view of `i`, asking that the
      view take its value in `j`. */
  function ClauseOf(v: seq<Lit>, i: nat, j: nat): (c: Clause)
    requires |v| == 3
    ensures |c| == Popcount(i)
  {
    (if Bit3(i, 0) then [ViewLit(v[0], Bit3(j, 0))] else []) +
    (if Bit3(i, 1) then [ViewLit(v[1], Bit3(j, 1))] else []) +
    (if Bit3(i, 2) then [ViewLit(v[2], Bit3(j, 2))] else [])
  }

  /** The assignment of the views under a substrate assignment. */
  function Index(a: Asg, v: seq<Lit>): (k: nat)
    requires |v| == 3
    ensures k < 8
    ensures Bit3(k, 0) == Holds(a, v[0]) && Bit3(k, 1) == Holds(a, v[1]) && Bit3(k, 2) == Holds(a, v[2])
  {
    (if Holds(a, v[0]) then 1 else 0) + (if Holds(a, v[1]) then 2 else 0) + (if Holds(a, v[2]) then 4 else 0)
  }

  /** The clause of `(i, j)` is false exactly at the assignments in its `flags`. */
  lemma ClauseMeaning(a: Asg, v: seq<Lit>, i: nat, j: nat)
    requires |v| == 3
    ensures ClauseHolds(a, ClauseOf(v, i, j)) <==> !Differs(i, j, Index(a, v))
  {
    var k := Index(a, v);
    var c0 := if Bit3(i, 0) then [ViewLit(v[0], Bit3(j, 0))] else [];
    var c1 := if Bit3(i, 1) then [ViewLit(v[1], Bit3(j, 1))] else [];
    var c2 := if Bit3(i, 2) then [ViewLit(v[2], Bit3(j, 2))] else [];
    var c := ClauseOf(v, i, j);
    assert c == c0 + c1 + c2;
    assert ClauseHolds(a, c0) <==> Bit3(i, 0) && Bit3(k, 0) == Bit3(j, 0) by {
      if Bit3(i, 0) { assert c0[0] == ViewLit(v[0], Bit3(j, 0)); }
    }
    assert ClauseHolds(a, c1) <==> Bit3(i, 1) && Bit3(k, 1) == Bit3(j, 1) by {
      if Bit3(i, 1) { assert c1[0] == ViewLit(v[1], Bit3(j, 1)); }
    }
    assert ClauseHolds(a, c2) <==> Bit3(i, 2) && Bit3(k, 2) == Bit3(j, 2) by {
      if Bit3(i, 2) { assert c2[0] == ViewLit(v[2], Bit3(j, 2)); }
    }
    assert ClauseHolds(a, c) <==> ClauseHolds(a, c0) || ClauseHolds(a, c1) || ClauseHolds(a, c2) by {
      ConcatHolds(a, c0, c1);
      ConcatHolds(a, c0 + c1, c2);
    }
  }

  // ---------------------------------------------------------------------
  // bool_rel

  function LB(p: bool): LBool
  {
    if p then LTrue else LFalse
  }

  /** The one view of a singleton subset. */
  function Only(i: nat): (m: nat)
    requires Popcount(i) == 1
    ensures m < 3 && Bit3(i, m)
  {
    if Bit3(i, 0) then 0 else if Bit3(i, 1) then 1 else 2
  }

  /** A substrate assignment agrees with the views' fixed values. */
  predicate Agrees(a: Asg, v: seq<Lit>, vals: seq<LBool>)
    requires |v| == 3 && |vals| == 3
  {
    forall m :: 0 <= m < 3 && vals[m] != LUndef ==> Holds(a, v[m]) == (vals[m] == LTrue)
  }

  /** What `bool_rel` posted: the pairs it acted on in order, the clauses
      handed to the substrate (pairs of two or more views), and the values
      of the views after the singleton pairs fixed them. */
  datatype Posted = Posted(acted: seq<Pair>, clauses: seq<Clause>, vals: seq<LBool>)

  /** The substrate clauses for a run of acted pairs. */
  function ClausesOf(v: seq<Lit>, acted: seq<Pair>): (r: seq<Clause>)
    requires |v| == 3
    ensures |r| <= |acted|
  {
    if |acted| == 0 then []
    else
      var last := acted[|acted| - 1];
      ClausesOf(v, acted[..|acted| - 1]) + (if last.l >= 2 then [ClauseOf(v, last.i, last.j)] else [])
  }

  /** Every constraint posted for `acted` holds under `a`. */
  predicate AllPosted(a: Asg, v: seq<Lit>, acted: seq<Pair>)
    requires |v| == 3
  {
    forall n :: 0 <= n < |acted| ==> ClauseHolds(a, ClauseOf(v, acted[n].i, acted[n].j))
  }

  /** The state of the scan: `u`, the assignments already excluded, the
      pairs acted on and the current view values. */
  datatype Scan = Scan(u: set<nat>, acted: seq<Pair>, cur: seq<LBool>)

  /** One iteration of the pair loops: a pair acts when the table allows
      none of its flagged assignments and some of them are still not
      excluded. A singleton pair fixes its view, failing when the view is
      already fixed the other way; a larger pair posts its clause. */
  function Step(t: bv8, p: Pair, s: Scan): (r: Res<Scan>)
    requires |s.cur| == 3 && Popcount(p.i) == p.l
  {
    var flags := Flags(p.i, p.j);
    if Hits(t, flags) || flags <= s.u then Ok(s)
    else if p.l == 1 then
      var m := Only(p.i);
      var want := LB(Bit3(p.j, m));
      if s.cur[m] != want && s.cur[m] != LUndef then Fail
      else Ok(Scan(s.u + flags, s.acted + [p], s.cur[m := want]))
    else Ok(Scan(s.u + flags, s.acted + [p], s.cur))
  }

  /** The walk's own guarantees, as the scan relies on them. */
  predicate WellWalked(ps: seq<Pair>)
  {
    (forall n :: 0 <= n < |ps| ==> 1 <= ps[n].l <= 3 && Popcount(ps[n].i) == ps[n].l) &&
    (forall n :: 0 < n < |ps| ==> ps[n - 1].l <= ps[n].l)
  }

  /** What holds of the acted pairs by themselves. */
  predicate ActedShape(t: bv8, acted: seq<Pair>)
  {
    (forall c :: 0 <= c < |acted| ==> 1 <= acted[c].l <= 3 && Popcount(acted[c].i) == acted[c].l) &&
    (forall c :: 0 < c < |acted| ==> acted[c - 1].l <= acted[c].l) &&
    (forall c :: 0 <= c < |acted| ==> !Hits(t, Flags(acted[c].i, acted[c].j)))
  }

  /** `u` is exactly what is needed: every pair seen that the table never
      allows is covered, and everything covered is flagged by an acted pair. */
  predicate Covered(t: bv8, ps: seq<Pair>, n: nat, s: Scan)
    requires n <= |ps|
  {
    (forall c :: 0 <= c < n && !Hits(t, Flags(ps[c].i, ps[c].j)) ==> Flags(ps[c].i, ps[c].j) <= s.u) &&
    (forall k :: k in s.u ==> exists c :: 0 <= c < |s.acted| && k in Flags(s.acted[c].i, s.acted[c].j))
  }

  /** The view values: singleton pairs have fixed their views, values fixed
      on entry are kept, and every allowed assignment that agreed with the
      entry values agrees with the current ones. */
  ghost predicate ValuesKept(v: seq<Lit>, t: bv8, vals: seq<LBool>, s: Scan)
    requires |v| == 3 && |vals| == 3
  {
    |s.cur| == 3 &&
    (forall c :: 0 <= c < |s.acted| && s.acted[c].l == 1 && Popcount(s.acted[c].i) == 1 ==>
      s.cur[Only(s.acted[c].i)] == LB(Bit3(s.acted[c].j, Only(s.acted[c].i)))) &&
    (forall m :: 0 <= m < 3 && vals[m] != LUndef ==> s.cur[m] == vals[m]) &&
    (forall a: Asg :: Agrees(a, v, vals) && Allowed(t, Index(a, v)) ==> Agrees(a, v, s.cur))
  }

  /** The loop invariant of `bool_rel` after `n` pairs. */
  ghost predicate ScanInv(v: seq<Lit>, t: bv8, vals: seq<LBool>, ps: seq<Pair>, n: nat, s: Scan)
    requires |v| == 3 && |vals| == 3
  {
    n <= |ps| && ActedShape(t, s.acted) && Covered(t, ps, n, s) && ValuesKept(v, t, vals, s) &&
    (n < |ps| && |s.acted| > 0 ==> s.acted[|s.acted| - 1].l <= ps[n].l)
  }

  /** `bool_rel(x, t, y, z)` with `v = [x, y, z]` and current view values
      `vals`: the posted constraints (singleton pairs as fixed views, the
      rest as clauses) hold under a substrate assignment exactly when the
      views' values form an assignment the table allows. `Fail` is the
      `TL_FAIL` of a singleton pair meeting a view fixed the other way, which
      happens only when no allowed assignment agrees with the fixed views. */
  method BoolRel(v: seq<Lit>, t: bv8, vals: seq<LBool>) returns (r: Res<Posted>)
    requires |v| == 3 && |vals| == 3
    ensures !r.Fatal?
    ensures r.Ok? ==> r.value.clauses == ClausesOf(v, r.value.acted) && |r.value.vals| == 3
    ensures r.Ok? ==> forall a: Asg :: AllPosted(a, v, r.value.acted) <==> Allowed(t, Index(a, v))
    ensures r.Ok? ==> forall n :: 0 <= n < |r.value.acted| ==>
      1 <= r.value.acted[n].l <= 3 && Popcount(r.value.acted[n].i) == r.value.acted[n].l &&
      (r.value.acted[n].l == 1 ==>
        r.value.vals[Only(r.value.acted[n].i)] == LB(Bit3(r.value.acted[n].j, Only(r.value.acted[n].i))))
    ensures r.Ok? ==> forall n :: 0 < n < |r.value.acted| ==> r.value.acted[n - 1].l <= r.value.acted[n].l
    ensures r.Ok? ==> forall m :: 0 <= m < 3 && vals[m] != LUndef ==> r.value.vals[m] == vals[m]
    ensures r.Fail? ==> forall a: Asg :: Agrees(a, v, vals) ==> !Allowed(t, Index(a, v))
  {
    var ps := Pairs();
    var res, clauses := ScanPairs(v, t, vals, ps);
    if res.Fail? {
      return Fail;
    }
    var s := res.value;
    PostedSound(v, t, s.acted);
    PostedComplete(v, t, ps, s.u, s.acted);
    r := Ok(Posted(s.acted, clauses, s.cur));
  }

  /** The pair loops themselves: run `Step` over the pairs, collecting the
      clauses of the pairs of two or more views as they act. */
  method ScanPairs(v: seq<Lit>, t: bv8, vals: seq<LBool>, ps: seq<Pair>) returns (r: Res<Scan>, clauses: seq<Clause>)
    requires |v| == 3 && |vals| == 3 && WellWalked(ps)
    ensures !r.Fatal?
    ensures r.Ok? ==> ScanInv(v, t, vals, ps, |ps|, r.value) && clauses == ClausesOf(v, r.value.acted)
    ensures r.Fail? ==> forall a: Asg :: Agrees(a, v, vals) ==> !Allowed(t, Index(a, v))
  {
    var s := Scan({}, [], vals);
    clauses := [];
    for n := 0 to |ps|
      invariant ScanInv(v, t, vals, ps, n, s)
      invariant clauses == ClausesOf(v, s.acted)
    {
      var p := ps[n];
      var next := Step(t, p, s);
      if next.Fail? {
        StepFails(v, t, vals, p, s);
        return Fail, clauses;
      }
      StepKeeps(v, t, vals, ps, n, s);
      if next.value.acted != s.acted {
        ClausesOfSnoc(v, s.acted, p);
        if p.l >= 2 {
          clauses := clauses + [ClauseOf(v, p.i, p.j)];
        }
      }
      s := next.value;
    }
    r := Ok(s);
  }

  /** A failing step meets a view that no allowed assignment agreeing with
      the entry values can give. */
  lemma StepFails(v: seq<Lit>, t: bv8, vals: seq<LBool>, p: Pair, s: Scan)
    requires |v| == 3 && |vals| == 3 && ValuesKept(v, t, vals, s) && Popcount(p.i) == p.l
    requires Step(t, p, s).Fail?
    ensures forall a: Asg :: Agrees(a, v, vals) ==> !Allowed(t, Index(a, v))
  {
    forall a: Asg | Agrees(a, v, vals) && Allowed(t, Index(a, v)) ensures false {
      UnitForced(a, v, t, p.i, p.j);
    }
  }

  /** A step that does not fail keeps the loop invariant. */
  lemma StepKeeps(v: seq<Lit>, t: bv8, vals: seq<LBool>, ps: seq<Pair>, n: nat, s: Scan)
    requires |v| == 3 && |vals| == 3 && WellWalked(ps) && n < |ps|
    requires ScanInv(v, t, vals, ps, n, s)
    requires Step(t, ps[n], s).Ok?
    ensures ScanInv(v, t, vals, ps, n + 1, Step(t, ps[n], s).value)
    ensures var s' := Step(t, ps[n], s).value;
      s'.acted == s.acted || s'.acted == s.acted + [ps[n]]
  {
    var p := ps[n];
    var s' := Step(t, p, s).value;
    StepShape(t, ps, n, s);
    StepCovers(t, ps, n, s);
    StepValues(v, t, vals, p, s);
  }

  lemma StepShape(t: bv8, ps: seq<Pair>, n: nat, s: Scan)
    requires WellWalked(ps) && n < |ps| && |s.cur| == 3 && ActedShape(t, s.acted)
    requires |s.acted| > 0 ==> s.acted[|s.acted| - 1].l <= ps[n].l
    requires Step(t, ps[n], s).Ok?
    ensures var s' := Step(t, ps[n], s).value;
      ActedShape(t, s'.acted) && (s'.acted == s.acted || s'.acted == s.acted + [ps[n]]) &&
      (n + 1 < |ps| && |s'.acted| > 0 ==> s'.acted[|s'.acted| - 1].l <= ps[n + 1].l)
  {
    var p := ps[n];
    StepGrows(t, p, s);
    var s' := Step(t, p, s).value;
    if s'.acted != s.acted {
      ActedSnoc(t, s.acted, p);
      assert s'.acted[|s'.acted| - 1] == p;
    }
  }

  /** A step either leaves the acted pairs alone or appends its pair, which
      the table does not allow. */
  lemma StepGrows(t: bv8, p: Pair, s: Scan)
    requires |s.cur| == 3 && Popcount(p.i) == p.l
    requires Step(t, p, s).Ok?
    ensures var s' := Step(t, p, s).value;
      s'.acted == s.acted || (s'.acted == s.acted + [p] && !Hits(t, Flags(p.i, p.j)))
  {
  }

  lemma ActedSnoc(t: bv8, acted: seq<Pair>, p: Pair)
    requires ActedShape(t, acted) && 1 <= p.l <= 3 && Popcount(p.i) == p.l && !Hits(t, Flags(p.i, p.j))
    requires |acted| > 0 ==> acted[|acted| - 1].l <= p.l
    ensures ActedShape(t, acted + [p])
  {
    var r := acted + [p];
    forall c | 0 <= c < |r| ensures 1 <= r[c].l <= 3 && Popcount(r[c].i) == r[c].l && !Hits(t, Flags(r[c].i, r[c].j)) {
      if c < |acted| { assert r[c] == acted[c]; }
    }
    forall c | 0 < c < |r| ensures r[c - 1].l <= r[c].l {
      if c < |acted| { assert r[c] == acted[c] && r[c - 1] == acted[c - 1]; }
    }
  }

  lemma StepCovers(t: bv8, ps: seq<Pair>, n: nat, s: Scan)
    requires WellWalked(ps) && n < |ps| && |s.cur| == 3 && Covered(t, ps, n, s)
    requires Step(t, ps[n], s).Ok?
    ensures Covered(t, ps, n + 1, Step(t, ps[n], s).value)
  {
    var p := ps[n];
    var s' := Step(t, p, s).value;
    forall k | k in s'.u ensures exists c :: 0 <= c < |s'.acted| && k in Flags(s'.acted[c].i, s'.acted[c].j) {
      if k in s.u {
        var c :| 0 <= c < |s.acted| && k in Flags(s.acted[c].i, s.acted[c].j);
        assert s'.acted[c] == s.acted[c];
      } else {
        assert s'.acted[|s.acted|] == p;
      }
    }
  }

  lemma StepValues(v: seq<Lit>, t: bv8, vals: seq<LBool>, p: Pair, s: Scan)
    requires |v| == 3 && |vals| == 3 && Popcount(p.i) == p.l && ValuesKept(v, t, vals, s)
    requires Step(t, p, s).Ok?
    ensures ValuesKept(v, t, vals, Step(t, p, s).value)
  {
    var s' := Step(t, p, s).value;
    if s'.acted != s.acted && p.l == 1 {
      var m := Only(p.i);
      forall a: Asg | Agrees(a, v, vals) && Allowed(t, Index(a, v)) ensures Agrees(a, v, s'.cur) {
        UnitForced(a, v, t, p.i, p.j);
      }
      forall c | 0 <= c < |s'.acted| && s'.acted[c].l == 1 && Popcount(s'.acted[c].i) == 1
        ensures s'.cur[Only(s'.acted[c].i)] == LB(Bit3(s'.acted[c].j, Only(s'.acted[c].i)))
      {
        if c < |s.acted| {
          assert s'.acted[c] == s.acted[c];
        }
      }
    }
  }

  /** Extending the acted pairs by one adds its clause when it has two or more views. */
  lemma ClausesOfSnoc(v: seq<Lit>, acted: seq<Pair>, p: Pair)
    requires |v| == 3
    ensures ClausesOf(v, acted + [p]) == ClausesOf(v, acted) + (if p.l >= 2 then [ClauseOf(v, p.i, p.j)] else [])
  {
    assert (acted + [p])[..|acted|] == acted;
  }

  /** A singleton pair whose flags the table never allows fixes its view in
      every allowed assignment. */
  lemma UnitForced(a: Asg, v: seq<Lit>, t: bv8, i: nat, j: nat)
    requires |v| == 3 && Popcount(i) == 1 && !Hits(t, Flags(i, j)) && Allowed(t, Index(a, v))
    ensures Holds(a, v[Only(i)]) == Bit3(j, Only(i))
  {
    var k := Index(a, v);
    assert k !in Flags(i, j);
  }

  /** No allowed assignment violates a posted constraint. */
  lemma PostedSound(v: seq<Lit>, t: bv8, acted: seq<Pair>)
    requires |v| == 3
    requires forall c :: 0 <= c < |acted| ==> !Hits(t, Flags(acted[c].i, acted[c].j))
    ensures forall a: Asg :: Allowed(t, Index(a, v)) ==> AllPosted(a, v, acted)
  {
    forall a: Asg, c | Allowed(t, Index(a, v)) && 0 <= c < |acted|
      ensures ClauseHolds(a, ClauseOf(v, acted[c].i, acted[c].j))
    {
      ClauseMeaning(a, v, acted[c].i, acted[c].j);
    }
  }

  /** Once every pair has been seen, each disallowed assignment is excluded by
      a posted constraint: the pair of the full subset and the complement of
      that assignment flags it alone, so it was covered. */
  lemma PostedComplete(v: seq<Lit>, t: bv8, ps: seq<Pair>, u: set<nat>, acted: seq<Pair>)
    requires |v| == 3
    requires forall j :: 0 <= j < 8 ==> Pair(3, 7, j) in ps
    requires forall c :: 0 <= c < |ps| && !Hits(t, Flags(ps[c].i, ps[c].j)) ==> Flags(ps[c].i, ps[c].j) <= u
    requires forall k :: k in u ==> exists c :: 0 <= c < |acted| && k in Flags(acted[c].i, acted[c].j)
    ensures forall a: Asg :: AllPosted(a, v, acted) ==> Allowed(t, Index(a, v))
  {
    forall k | 0 <= k < 8 && !Allowed(t, k)
      ensures exists c :: 0 <= c < |acted| && k in Flags(acted[c].i, acted[c].j)
    {
      var c0 :| 0 <= c0 < |ps| && ps[c0] == Pair(3, 7, 7 - k);
      FullFlagsSet(7 - k);
      assert k in u;
    }
    forall a: Asg, c | 0 <= c < |acted|
      ensures ClauseHolds(a, ClauseOf(v, acted[c].i, acted[c].j)) <==> Index(a, v) !in Flags(acted[c].i, acted[c].j)
    {
      ClauseMeaning(a, v, acted[c].i, acted[c].j);
    }
  }

  // ---------------------------------------------------------------------
  // Clausal encodings

  /** Some view of `x` is true. */
  predicate SomeTrue(a: Asg, x: seq<Lit>)
  {
    exists i :: 0 <= i < |x| && Holds(a, x[i])
  }

  /** Some view of `y` is false. */
  predicate SomeFalse(a: Asg, y: seq<Lit>)
  {
    exists i :: 0 <= i < |y| && !Holds(a, y[i])
  }

  /** `~y[i]` for each view, in order. */
  function NegAll(y: seq<Lit>): (r: seq<Lit>)
    ensures |r| == |y| && forall i :: 0 <= i < |y| ==> r[i] == Neg(y[i])
  {
    if |y| == 0 then [] else [Neg(y[0])] + NegAll(y[1..])
  }

  lemma NegAllHolds(a: Asg, y: seq<Lit>)
    ensures ClauseHolds(a, NegAll(y)) <==> SomeFalse(a, y)
  {
    var r := NegAll(y);
    if SomeFalse(a, y) {
      var i :| 0 <= i < |y| && !Holds(a, y[i]);
      assert Holds(a, r[i]);
    }
  }

  /** `bool_clause(x, y)`: the clause `x_1 \/ ... \/ ~y_1 \/ ...`, which holds
      exactly when some `x` is true or some `y` is false. */
  function BoolClause(x: seq<Lit>, y: seq<Lit>): (c: Clause)
    ensures |c| == |x| + |y|
    ensures forall a: Asg :: ClauseHolds(a, c) <==> SomeTrue(a, x) || SomeFalse(a, y)
  {
    forall a: Asg ensures ClauseHolds(a, x + NegAll(y)) <==> SomeTrue(a, x) || SomeFalse(a, y) {
      ConcatHolds(a, x, NegAll(y));
      NegAllHolds(a, y);
    }
    x + NegAll(y)
  }

  /** `bool_clause(x)`: some `x` is true. */
  function BoolClauseOf(x: seq<Lit>): (c: Clause)
    ensures forall a: Asg :: ClauseHolds(a, c) <==> SomeTrue(a, x)
  {
    BoolClause(x, [])
  }

  /** The binary clauses `~x_i \/ z`, one per element, in order. */
  function ImplyEach(x: seq<Lit>, z: Lit): (cs: seq<Clause>)
    ensures |cs| == |x| && forall i :: 0 <= i < |x| ==> cs[i] == [Neg(x[i]), z]
  {
    if |x| == 0 then [] else [[Neg(x[0]), z]] + ImplyEach(x[1..], z)
  }

  /** The binary clauses `y_i \/ z`, one per element, in order. */
  function ImpliedBy(y: seq<Lit>, z: Lit): (cs: seq<Clause>)
    ensures |cs| == |y| && forall i :: 0 <= i < |y| ==> cs[i] == [y[i], z]
  {
    if |y| == 0 then [] else [[y[0], z]] + ImpliedBy(y[1..], z)
  }

  /** `array_bool_or(x, y, z)`: the `n + 1` clauses `~x_i \/ z`, `y_i \/ z`
      and `~z \/ x_1 \/ ... \/ ~y_1 \/ ...`. */
  function ArrayBoolOr(x: seq<Lit>, y: seq<Lit>, z: Lit): (cs: seq<Clause>)
    ensures |cs| == |x| + |y| + 1
    ensures forall i :: 0 <= i < |x| ==> cs[i] == [Neg(x[i]), z]
    ensures forall i :: 0 <= i < |y| ==> cs[|x| + i] == [y[i], z]
    ensures cs[|cs| - 1] == [Neg(z)] + x + NegAll(y)
  {
    var p1 := ImplyEach(x, z);
    var p2 := ImpliedBy(y, z);
    var cs := p1 + p2 + [[Neg(z)] + x + NegAll(y)];
    forall i | 0 <= i < |y| ensures cs[|x| + i] == [y[i], z] {
      assert cs[|x| + i] == p2[i];
    }
    cs
  }

  /** A two-literal clause holds when either literal does. */
  lemma BinaryHolds(a: Asg, l1: Lit, l2: Lit)
    ensures ClauseHolds(a, [l1, l2]) <==> Holds(a, l1) || Holds(a, l2)
  {
    assert [l1, l2][0] == l1 && [l1, l2][1] == l2;
  }

  /** The clauses of `array_bool_or` hold exactly when `z` is the
      disjunction of the `x` and of the negated `y`. */
  lemma ArrayBoolOrMeaning(a: Asg, x: seq<Lit>, y: seq<Lit>, z: Lit)
    ensures AllHold(a, ArrayBoolOr(x, y, z)) <==> (Holds(a, z) <==> SomeTrue(a, x) || SomeFalse(a, y))
  {
    BigClause(a, x, y, z);
    if AllHold(a, ArrayBoolOr(x, y, z)) {
      ArrayBoolOrForces(a, x, y, z);
    }
    if Holds(a, z) <==> SomeTrue(a, x) || SomeFalse(a, y) {
      ArrayBoolOrHolds(a, x, y, z);
    }
  }

  /** The last clause says `z` implies the disjunction. */
  lemma BigClause(a: Asg, x: seq<Lit>, y: seq<Lit>, z: Lit)
    ensures ClauseHolds(a, [Neg(z)] + x + NegAll(y)) <==> !Holds(a, z) || SomeTrue(a, x) || SomeFalse(a, y)
  {
    ConcatHolds(a, [Neg(z)], x);
    ConcatHolds(a, [Neg(z)] + x, NegAll(y));
    NegAllHolds(a, y);
    assert ClauseHolds(a, [Neg(z)]) <==> !Holds(a, z) by {
      assert [Neg(z)][0] == Neg(z);
    }
  }

  lemma ArrayBoolOrForces(a: Asg, x: seq<Lit>, y: seq<Lit>, z: Lit)
    requires AllHold(a, ArrayBoolOr(x, y, z))
    requires ClauseHolds(a, [Neg(z)] + x + NegAll(y)) <==> !Holds(a, z) || SomeTrue(a, x) || SomeFalse(a, y)
    ensures Holds(a, z) <==> SomeTrue(a, x) || SomeFalse(a, y)
  {
    var cs := ArrayBoolOr(x, y, z);
    assert ClauseHolds(a, cs[|cs| - 1]);
    if SomeTrue(a, x) {
      var i :| 0 <= i < |x| && Holds(a, x[i]);
      assert ClauseHolds(a, cs[i]);
      BinaryHolds(a, Neg(x[i]), z);
    }
    if SomeFalse(a, y) {
      var i :| 0 <= i < |y| && !Holds(a, y[i]);
      assert ClauseHolds(a, cs[|x| + i]);
      BinaryHolds(a, y[i], z);
    }
  }

  lemma ArrayBoolOrHolds(a: Asg, x: seq<Lit>, y: seq<Lit>, z: Lit)
    requires Holds(a, z) <==> SomeTrue(a, x) || SomeFalse(a, y)
    requires ClauseHolds(a, [Neg(z)] + x + NegAll(y)) <==> !Holds(a, z) || SomeTrue(a, x) || SomeFalse(a, y)
    ensures AllHold(a, ArrayBoolOr(x, y, z))
  {
    var cs := ArrayBoolOr(x, y, z);
    forall j | 0 <= j < |cs| ensures ClauseHolds(a, cs[j]) {
      if j < |x| {
        BinaryHolds(a, Neg(x[j]), z);
      } else if j < |x| + |y| {
        assert cs[|x| + (j - |x|)] == [y[j - |x|], z];
        BinaryHolds(a, y[j - |x|], z);
      }
    }
  }

  /** `array_bool_or(x, z)`: `z` is the disjunction of the `x`. */
  function ArrayBoolOrOf(x: seq<Lit>, z: Lit): (cs: seq<Clause>)
    ensures |cs| == |x| + 1
    ensures forall a: Asg :: AllHold(a, cs) <==> (Holds(a, z) <==> SomeTrue(a, x))
  {
    forall a: Asg ensures AllHold(a, ArrayBoolOr(x, [], z)) <==> (Holds(a, z) <==> SomeTrue(a, x)) {
      ArrayBoolOrMeaning(a, x, [], z);
    }
    ArrayBoolOr(x, [], z)
  }

  /** `array_bool_and(x, y, z)`: the encoding of `array_bool_or(y, x, ~z)`,
      which makes `z` the conjunction of the `x` and of the negated `y`. */
  function ArrayBoolAnd(x: seq<Lit>, y: seq<Lit>, z: Lit): (cs: seq<Clause>)
    ensures |cs| == |x| + |y| + 1
    ensures forall a: Asg :: AllHold(a, cs) <==>
      (Holds(a, z) <==> (forall i :: 0 <= i < |x| ==> Holds(a, x[i])) && (forall i :: 0 <= i < |y| ==> !Holds(a, y[i])))
  {
    forall a: Asg ensures AllHold(a, ArrayBoolOr(y, x, Neg(z))) <==>
      (Holds(a, z) <==> (forall i :: 0 <= i < |x| ==> Holds(a, x[i])) && (forall i :: 0 <= i < |y| ==> !Holds(a, y[i])))
    {
      ArrayBoolOrMeaning(a, y, x, Neg(z));
    }
    ArrayBoolOr(y, x, Neg(z))
  }

  /** `array_bool_and(x, z)`: `z` is the conjunction of the `x`. */
  function ArrayBoolAndOf(x: seq<Lit>, z: Lit): (cs: seq<Clause>)
    ensures |cs| == |x| + 1
    ensures forall a: Asg :: AllHold(a, cs) <==> (Holds(a, z) <==> forall i :: 0 <= i < |x| ==> Holds(a, x[i]))
  {
    ArrayBoolAnd(x, [], z)
  }
}
