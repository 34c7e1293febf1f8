/** The lazy-literal integer variable of chuffed/vars/int-var-ll.cpp.
    Threshold literals are created on demand and kept in a doubly linked list
    stored in an index arena `ld` with a free list. A node with value `p`
    carries the SAT variable of the literal [x >= p + 1] (its negation is
    [x <= p]). Node 0 and node 1 are sentinels for the initial bounds; `li`
    and `hi` point at the nodes of the current bounds. */
module LazyVars {
  import opened Base
  import opened IntVars

  // Messages of the fatal errors below.
  const NoEqLits := "no equality literals on a lazy variable"
  const SetValUnchannelled := "setVal on a lazy variable without channelling"
  const RemValUnchannelled := "remVal on a lazy variable without channelling"
  const RemValDuringInit := "remVal on a lazy variable during model construction"
  const FreeInsideBounds := "freeLazyVar inside the bounds"
  const FreeMissing := "freeLazyVar of a missing threshold"
  const FreeSentinel := "ld[-1] is written when a sentinel is unlinked"

  datatype Node = Node(satVar: nat, val: int, prev: int, next: int)

  /** `order` lists the linked arena indices from node 0 to node 1; it is an
      abstraction kept beside the arena so that the list can be specified. */
  datatype LazyVar = LazyVar(
    x: IntVar,
    ld: seq<Node>,
    freelist: seq<nat>,
    li: nat, hi: nat,
    valLit: Lit,
    order: seq<nat>)

  /** Why a literal was enqueued: no reason, the caller's reason, the
      negation of a bound literal, or the two current bound literals. */
  datatype Why = NoReason | External | ByLit(l: Lit) | ByBounds(lo: Lit, hi: Lit)

  datatype Enq = Enq(lit: Lit, why: Why)

  /** The part of the SAT substrate the list touches: the number of
      variables and the log of enqueued literals. */
  datatype Sat = Sat(nVars: nat, trail: seq<Enq>)

  /** The arena shape: `order` is a chain of in-range indices from 0 to 1
      with strictly increasing values, `prev`/`next` inverse along it,
      pairwise distinct SAT variables below `nVars`, a free list of unlinked
      indices, and the bound nodes at `min - 1` and `max`. */
  predicate Shape(l: LazyVar, nVars: nat)
  {
    Chain(l) && Increasing(l) && Linked(l) && DistinctVars(l, nVars) && FreeOk(l) && BoundsOk(l)
  }

  predicate Chain(l: LazyVar)
  {
    var o := l.order;
    |o| >= 2 && o[0] == 0 && o[|o| - 1] == 1 &&
    (forall k :: 0 <= k < |o| ==> o[k] < |l.ld|)
  }

  predicate Increasing(l: LazyVar)
    requires Chain(l)
  {
    forall k, m :: 0 <= k < m < |l.order| ==> l.ld[l.order[k]].val < l.ld[l.order[m]].val
  }

  predicate Linked(l: LazyVar)
    requires Chain(l)
  {
    var o := l.order;
    (forall k :: 0 <= k < |o| - 1 ==> l.ld[o[k]].next == o[k + 1] && l.ld[o[k + 1]].prev == o[k]) &&
    l.ld[0].prev == -1 && l.ld[1].next == -1
  }

  predicate DistinctVars(l: LazyVar, nVars: nat)
    requires Chain(l)
  {
    var o := l.order;
    (forall k, m :: 0 <= k < m < |o| ==> l.ld[o[k]].satVar != l.ld[o[m]].satVar) &&
    (forall k :: 0 <= k < |o| ==> l.ld[o[k]].satVar < nVars)
  }

  predicate FreeOk(l: LazyVar)
  {
    (forall i :: 0 <= i < |l.freelist| ==> l.freelist[i] < |l.ld|) &&
    (forall i, k :: 0 <= i < |l.freelist| && 0 <= k < |l.order| ==> l.freelist[i] != l.order[k]) &&
    (forall i, j :: 0 <= i < j < |l.freelist| ==> l.freelist[i] != l.freelist[j])
  }

  predicate BoundsOk(l: LazyVar)
  {
    l.li in l.order && l.hi in l.order && l.li < |l.ld| && l.hi < |l.ld| &&
    l.ld[l.li].val == l.x.min - 1 && l.ld[l.hi].val == l.x.max &&
    l.x.min <= l.x.max && l.x.vals.None?
  }

  function IndexOf(o: seq<nat>, i: nat): (k: nat)
    requires i in o
    ensures k < |o| && o[k] == i
    ensures forall m :: 0 <= m < k ==> o[m] != i
  {
    if o[0] == i then 0 else 1 + IndexOf(o[1..], i)
  }

  /** The values of the linked nodes: the thresholds materialised so far. */
  function Vals(l: LazyVar): set<int>
    requires forall k :: 0 <= k < |l.order| ==> l.order[k] < |l.ld|
  {
    set k | 0 <= k < |l.order| :: l.ld[l.order[k]].val
  }

  /** The position in `order` of the node with value `p`. */
  function NodeAt(l: LazyVar, p: int): (k: nat)
    requires forall k :: 0 <= k < |l.order| ==> l.order[k] < |l.ld|
    requires p in Vals(l)
    ensures k < |l.order| && l.ld[l.order[k]].val == p
  {
    FindFrom(l, p, 0)
  }

  function FindFrom(l: LazyVar, p: int, k: nat): (r: nat)
    requires forall k :: 0 <= k < |l.order| ==> l.order[k] < |l.ld|
    requires k <= |l.order|
    requires exists m :: k <= m < |l.order| && l.ld[l.order[m]].val == p
    ensures k <= r < |l.order| && l.ld[l.order[r]].val == p
    decreases |l.order| - k
  {
    if l.ld[l.order[k]].val == p then k else FindFrom(l, p, k + 1)
  }

  /** The meaning of a literal for an integer value `w` of the variable. */
  ghost predicate LitMeans(l: LazyVar, lit: Lit, w: int)
  {
    match lit
    case Const(b) => b
    case Atom(v, s) =>
      exists k :: 0 <= k < |l.order| && l.order[k] < |l.ld| && l.ld[l.order[k]].satVar == v &&
        (if s then w > l.ld[l.order[k]].val else w <= l.ld[l.order[k]].val)
  }

  /** Distinct SAT variables make a node literal mean exactly its threshold. */
  lemma MeansNode(l: LazyVar, nVars: nat, k: nat, s: bool, w: int)
    requires Shape(l, nVars) && k < |l.order|
    ensures LitMeans(l, Atom(l.ld[l.order[k]].satVar, s), w) <==>
      (if s then w > l.ld[l.order[k]].val else w <= l.ld[l.order[k]].val)
  {
    var lit := Atom(l.ld[l.order[k]].satVar, s);
    if LitMeans(l, lit, w) {
      var m :| 0 <= m < |l.order| && l.order[m] < |l.ld| && l.ld[l.order[m]].satVar == lit.v &&
        (if s then w > l.ld[l.order[m]].val else w <= l.ld[l.order[m]].val);
      assert m == k;
    }
  }

  /** `getMinLit()`: [x <= min - 1], false under the current bounds. */
  function MinLit(l: LazyVar): Lit
    requires l.li < |l.ld|
  {
    Atom(l.ld[l.li].satVar, false)
  }

  /** `getMaxLit()`: [x >= max + 1], false under the current bounds. */
  function MaxLit(l: LazyVar): Lit
    requires l.hi < |l.ld|
  {
    Atom(l.ld[l.hi].satVar, true)
  }

  // ---------------------------------------------------------------------
  // Construction and node allocation

  /** `IntVarLL(other)`: the two sentinels linked to each other, and the
      "is fixed" literal on a fresh SAT variable, enqueued at once when the
      variable is already fixed. */
  function NewLazyVar(x: IntVar, s: Sat): (r: (LazyVar, Sat))
    requires Valid(x) && x.vals.None? && s.nVars >= 2
    ensures Shape(r.0, r.1.nVars)
    ensures r.0.order == [0, 1] && |r.0.ld| == 2 && r.0.freelist == []
    ensures r.0.li == 0 && r.0.hi == 1 && Vals(r.0) == {x.min - 1, x.max}
    ensures r.0.x == x && r.0.valLit == Atom(s.nVars, true) && r.1.nVars == s.nVars + 1
    ensures forall w :: x.min <= w <= x.max ==> LitMeans(r.0, MinLit(r.0), w) == false && LitMeans(r.0, MaxLit(r.0), w) == false
    ensures r.1.trail == s.trail + (if IsFixed(x) then [Enq(r.0.valLit, NoReason)] else [])
  {
    var ld := [Node(0, x.min - 1, -1, 1), Node(1, x.max, 0, -1)];
    var l := LazyVar(x, ld, [], 0, 1, Atom(s.nVars, true), [0, 1]);
    SentinelsShape(x, s.nVars);
    SentinelsMean(l, s.nVars + 1);
    (l, Sat(s.nVars + 1, s.trail + (if IsFixed(x) then [Enq(l.valLit, NoReason)] else [])))
  }

  lemma SentinelsShape(x: IntVar, nVars: nat)
    requires Valid(x) && x.vals.None? && nVars >= 2
    ensures Shape(LazyVar(x, [Node(0, x.min - 1, -1, 1), Node(1, x.max, 0, -1)], [], 0, 1, Atom(nVars, true), [0, 1]), nVars + 1)
  {
    var l := LazyVar(x, [Node(0, x.min - 1, -1, 1), Node(1, x.max, 0, -1)], [], 0, 1, Atom(nVars, true), [0, 1]);
    assert Chain(l);
    assert l.li in l.order && l.hi in l.order;
  }

  lemma SentinelsMean(l: LazyVar, nVars: nat)
    requires Shape(l, nVars) && l.order == [0, 1] && l.li == 0 && l.hi == 1
    ensures Vals(l) == {l.x.min - 1, l.x.max}
    ensures forall w :: l.x.min <= w <= l.x.max ==> !LitMeans(l, MinLit(l), w) && !LitMeans(l, MaxLit(l), w)
  {
    assert l.ld[l.order[0]].val == l.x.min - 1 && l.ld[l.order[1]].val == l.x.max;
    forall w | l.x.min <= w <= l.x.max
      ensures !LitMeans(l, MinLit(l), w) && !LitMeans(l, MaxLit(l), w)
    {
      MeansNode(l, nVars, 0, false, w);
      MeansNode(l, nVars, 1, true, w);
    }
  }

  /** `getLitNode`: reuse the most recently freed index, else grow the arena. */
  function GetLitNode(l: LazyVar, nVars: nat): (r: (LazyVar, nat))
    requires Shape(l, nVars)
    ensures Shape(r.0, nVars) && r.1 < |r.0.ld|
    ensures forall k :: 0 <= k < |r.0.order| ==> r.0.order[k] != r.1
    ensures forall k :: 0 <= k < |r.0.freelist| ==> r.0.freelist[k] != r.1
    ensures r.0.order == l.order && r.0.li == l.li && r.0.hi == l.hi && r.0.x == l.x
    ensures forall k :: 0 <= k < |l.order| ==> r.0.ld[l.order[k]] == l.ld[l.order[k]]
    ensures Vals(r.0) == Vals(l)
    ensures |l.freelist| > 0 ==> r.1 == l.freelist[|l.freelist| - 1] && |r.0.ld| == |l.ld|
    ensures |l.freelist| == 0 ==> r.1 == |l.ld| && |r.0.ld| == |l.ld| + 1
  {
    if |l.freelist| > 0 then
      PopKeepsShape(l, nVars);
      (l.(freelist := l.freelist[..|l.freelist| - 1]), l.freelist[|l.freelist| - 1])
    else
      PushKeepsShape(l, nVars);
      (l.(ld := l.ld + [Node(0, 0, 0, 0)]), |l.ld|)
  }

  lemma PopKeepsShape(l: LazyVar, nVars: nat)
    requires Shape(l, nVars) && |l.freelist| > 0
    ensures var r := l.(freelist := l.freelist[..|l.freelist| - 1]);
      Shape(r, nVars) && Vals(r) == Vals(l) &&
      (forall j :: 0 <= j < |r.freelist| ==> r.freelist[j] != l.freelist[|l.freelist| - 1]) &&
      (forall k :: 0 <= k < |r.order| ==> r.order[k] != l.freelist[|l.freelist| - 1])
  {
  }

  lemma PushKeepsShape(l: LazyVar, nVars: nat)
    requires Shape(l, nVars)
    ensures var r := l.(ld := l.ld + [Node(0, 0, 0, 0)]);
      Shape(r, nVars) && Vals(r) == Vals(l) && (forall j :: 0 <= j < |l.ld| ==> r.ld[j] == l.ld[j]) &&
      (forall k :: 0 <= k < |r.order| ==> r.order[k] != |l.ld|) &&
      (forall k :: 0 <= k < |r.freelist| ==> r.freelist[k] != |l.ld|)
  {
    var r := l.(ld := l.ld + [Node(0, 0, 0, 0)]);
    assert forall j :: 0 <= j < |l.ld| ==> r.ld[j] == l.ld[j];
    ArenaKeeps(l, r, nVars);
  }

  /** Growing the arena past the nodes in use keeps the shape and the values. */
  lemma ArenaKeeps(l: LazyVar, r: LazyVar, nVars: nat)
    requires Shape(l, nVars)
    requires r.order == l.order && r.freelist == l.freelist && r.li == l.li && r.hi == l.hi && r.x == l.x
    requires |r.ld| >= |l.ld| && forall j :: 0 <= j < |l.ld| ==> r.ld[j] == l.ld[j]
    ensures Shape(r, nVars) && Vals(r) == Vals(l)
  {
    assert Chain(r);
    assert forall k :: 0 <= k < |l.order| ==> r.ld[l.order[k]] == l.ld[l.order[k]];
    assert r.ld[0] == l.ld[0] && r.ld[1] == l.ld[1] && r.ld[l.li] == l.ld[l.li] && r.ld[l.hi] == l.ld[l.hi];
  }

  /** Links a node keyed `p` on SAT variable `sv` before position `k` of the chain. */
  function InsertBefore(l: LazyVar, k: nat, mi: nat, sv: nat, p: int): (r: LazyVar)
    requires 0 < k < |l.order| && mi < |l.ld| && (forall m :: 0 <= m < |l.order| ==> l.order[m] != mi)
    requires forall m :: 0 <= m < |l.order| ==> l.order[m] < |l.ld|
    ensures |r.ld| == |l.ld| && r.order == l.order[..k] + [mi] + l.order[k..]
    ensures r.x == l.x && r.li == l.li && r.hi == l.hi && r.freelist == l.freelist && r.valLit == l.valLit
  {
    var ni := l.order[k];
    var ld1 := l.ld[mi := Node(sv, p, l.ld[ni].prev, ni)];
    var ld2 := ld1[ni := ld1[ni].(prev := mi)];
    var pi := l.ld[ni].prev;
    var ld3 := if 0 <= pi < |ld2| then ld2[pi := ld2[pi].(next := mi)] else ld2;
    l.(ld := ld3, order := l.order[..k] + [mi] + l.order[k..])
  }

  lemma InsertKeepsShape(l: LazyVar, nVars: nat, k: nat, mi: nat, p: int)
    requires Shape(l, nVars) && 0 < k < |l.order| && mi < |l.ld|
    requires forall m :: 0 <= m < |l.order| ==> l.order[m] != mi
    requires forall m :: 0 <= m < |l.freelist| ==> l.freelist[m] != mi
    requires l.ld[l.order[k - 1]].val < p < l.ld[l.order[k]].val
    ensures var r := InsertBefore(l, k, mi, nVars, p);
      Shape(r, nVars + 1) && Vals(r) == Vals(l) + {p} && r.ld[mi].val == p && r.ld[mi].satVar == nVars &&
      (forall i :: 0 <= i < |l.ld| && i != mi ==> r.ld[i].val == l.ld[i].val && r.ld[i].satVar == l.ld[i].satVar)
  {
    var r := InsertBefore(l, k, mi, nVars, p);
    ChainDistinct(l);
    InsertFields(l, k, mi, nVars, p);
    InsertChain(l, r, k, mi, nVars, p);
    InsertSortedVals(l, r, k, mi, nVars, p);
    InsertLinks(l, r, k, mi, nVars, p);
    InsertVars(l, r, nVars, k, mi, p);
    InsertFree(l, r, k, mi);
    InsertBounds(l, r, k, mi, nVars, p);
    InsertValsSet(l, r, k, mi, p);
  }

  /** Increasing values make the chain free of repetitions. */
  lemma ChainDistinct(l: LazyVar)
    requires Chain(l) && Increasing(l)
    ensures forall a, b :: 0 <= a < b < |l.order| ==> l.order[a] != l.order[b]
  {
  }

  /** What `InsertBefore` does to the arena, stated field by field. */
  predicate Spliced(l: LazyVar, r: LazyVar, k: nat, mi: nat, sv: nat, p: int)
    requires Chain(l)
  {
    var o := l.order;
    0 < k < |o| && mi < |l.ld| && |r.ld| == |l.ld| && r.order == o[..k] + [mi] + o[k..] &&
    r.x == l.x && r.li == l.li && r.hi == l.hi && r.freelist == l.freelist &&
    r.ld[mi] == Node(sv, p, o[k - 1], o[k]) &&
    r.ld[o[k]] == l.ld[o[k]].(prev := mi) &&
    r.ld[o[k - 1]] == l.ld[o[k - 1]].(next := mi) &&
    (forall i :: 0 <= i < |l.ld| && i != mi && i != o[k] && i != o[k - 1] ==> r.ld[i] == l.ld[i]) &&
    (forall i :: 0 <= i < |l.ld| && i != mi ==> r.ld[i].val == l.ld[i].val && r.ld[i].satVar == l.ld[i].satVar)
  }

  lemma InsertFields(l: LazyVar, k: nat, mi: nat, sv: nat, p: int)
    requires Chain(l) && Linked(l) && 0 < k < |l.order| && mi < |l.ld| && (forall m :: 0 <= m < |l.order| ==> l.order[m] != mi)
    requires l.order[k] != l.order[k - 1]
    ensures Spliced(l, InsertBefore(l, k, mi, sv, p), k, mi, sv, p)
  {
    assert l.ld[l.order[k]].prev == l.order[k - 1];
  }

  lemma InsertIndices(o: seq<nat>, k: nat, mi: nat)
    requires 0 < k < |o|
    ensures var o' := o[..k] + [mi] + o[k..];
      |o'| == |o| + 1 && o'[k] == mi &&
      (forall m :: 0 <= m < k ==> o'[m] == o[m]) &&
      (forall m :: k < m < |o'| ==> o'[m] == o[m - 1])
  {
  }

  lemma InsertChain(l: LazyVar, r: LazyVar, k: nat, mi: nat, sv: nat, p: int)
    requires Chain(l) && Spliced(l, r, k, mi, sv, p)
    ensures Chain(r)
  {
    InsertIndices(l.order, k, mi);
  }

  lemma InsertSortedVals(l: LazyVar, r: LazyVar, k: nat, mi: nat, sv: nat, p: int)
    requires Chain(l) && Increasing(l) && Spliced(l, r, k, mi, sv, p) && Chain(r)
    requires forall m :: 0 <= m < |l.order| ==> l.order[m] != mi
    requires l.ld[l.order[k - 1]].val < p < l.ld[l.order[k]].val
    ensures Increasing(r)
  {
    var o := l.order;
    var o' := r.order;
    InsertIndices(o, k, mi);
    forall a, b | 0 <= a < b < |o'|
      ensures r.ld[o'[a]].val < r.ld[o'[b]].val
    {
      if a < k && b < k {
      } else if a < k && b == k {
        assert l.ld[o[a]].val <= l.ld[o[k - 1]].val;
      } else if a < k {
        assert l.ld[o[a]].val < l.ld[o[b - 1]].val;
      } else if a == k {
        assert l.ld[o[k]].val <= l.ld[o[b - 1]].val;
      } else {
        assert l.ld[o[a - 1]].val < l.ld[o[b - 1]].val;
      }
    }
  }

  lemma InsertLinks(l: LazyVar, r: LazyVar, k: nat, mi: nat, sv: nat, p: int)
    requires Chain(l) && Linked(l) && Spliced(l, r, k, mi, sv, p) && Chain(r)
    requires forall m :: 0 <= m < |l.order| ==> l.order[m] != mi
    requires forall a, b :: 0 <= a < b < |l.order| ==> l.order[a] != l.order[b]
    ensures Linked(r)
  {
    var o := l.order;
    var o' := r.order;
    InsertIndices(o, k, mi);
    forall a | 0 <= a < |o'| - 1
      ensures r.ld[o'[a]].next == o'[a + 1] && r.ld[o'[a + 1]].prev == o'[a]
    {
      if a < k - 1 {
        assert o[a] != o[k - 1] && o[a + 1] != o[k] && o[a] != o[k];
        assert o[a + 1] != o[k - 1] || a + 1 == k - 1;
      } else if a == k - 1 {
      } else if a == k {
      } else {
        assert o[a - 1] != o[k - 1] && o[a] != o[k] && o[a] != o[k - 1];
        assert o[a - 1] != o[k] || a - 1 == k;
      }
    }
    assert o[0] != mi && o[|o| - 1] != mi;
    if k - 1 == 0 {
      assert r.ld[0].prev == -1;
    }
    if k == |o| - 1 {
      assert r.ld[1].next == -1;
    }
  }

  lemma InsertVars(l: LazyVar, r: LazyVar, nVars: nat, k: nat, mi: nat, p: int)
    requires Chain(l) && DistinctVars(l, nVars) && Spliced(l, r, k, mi, nVars, p) && Chain(r)
    requires forall m :: 0 <= m < |l.order| ==> l.order[m] != mi
    ensures DistinctVars(r, nVars + 1)
  {
    var o := l.order;
    var o' := r.order;
    InsertIndices(o, k, mi);
    forall a, b | 0 <= a < b < |o'|
      ensures r.ld[o'[a]].satVar != r.ld[o'[b]].satVar
    {
      if a < k && b < k {
      } else if b == k {
        assert l.ld[o[a]].satVar < nVars;
      } else if a == k {
        assert l.ld[o[b - 1]].satVar < nVars;
      } else if a < k {
        assert l.ld[o[a]].satVar != l.ld[o[b - 1]].satVar;
      } else {
        assert l.ld[o[a - 1]].satVar != l.ld[o[b - 1]].satVar;
      }
    }
    forall a | 0 <= a < |o'|
      ensures r.ld[o'[a]].satVar < nVars + 1
    {
      if a < k {
        assert l.ld[o[a]].satVar < nVars;
      } else if a > k {
        assert l.ld[o[a - 1]].satVar < nVars;
      }
    }
  }

  lemma InsertFree(l: LazyVar, r: LazyVar, k: nat, mi: nat)
    requires FreeOk(l) && 0 < k < |l.order| && r.order == l.order[..k] + [mi] + l.order[k..]
    requires |r.ld| == |l.ld| && r.freelist == l.freelist
    requires forall m :: 0 <= m < |l.freelist| ==> l.freelist[m] != mi
    ensures FreeOk(r)
  {
    InsertIndices(l.order, k, mi);
    forall i, m | 0 <= i < |r.freelist| && 0 <= m < |r.order|
      ensures r.freelist[i] != r.order[m]
    {
      if m < k {
        assert r.order[m] == l.order[m];
      } else if m > k {
        assert r.order[m] == l.order[m - 1];
      }
    }
  }

  lemma InsertBounds(l: LazyVar, r: LazyVar, k: nat, mi: nat, sv: nat, p: int)
    requires Chain(l) && BoundsOk(l) && Spliced(l, r, k, mi, sv, p)
    requires forall m :: 0 <= m < |l.order| ==> l.order[m] != mi
    ensures BoundsOk(r)
  {
    assert l.li != mi && l.hi != mi;
    assert l.li in r.order && l.hi in r.order;
  }

  lemma InsertValsSet(l: LazyVar, r: LazyVar, k: nat, mi: nat, p: int)
    requires 0 < k < |l.order| && r.order == l.order[..k] + [mi] + l.order[k..] && |r.ld| == |l.ld|
    requires forall m :: 0 <= m < |l.order| ==> l.order[m] < |l.ld| && l.order[m] != mi
    requires mi < |l.ld| && r.ld[mi].val == p
    requires forall i :: 0 <= i < |l.ld| && i != mi ==> r.ld[i].val == l.ld[i].val
    ensures Vals(r) == Vals(l) + {p}
  {
    var o := l.order;
    var o' := r.order;
    InsertIndices(o, k, mi);
    forall w | w in Vals(r)
      ensures w in Vals(l) + {p}
    {
      var a :| 0 <= a < |o'| && r.ld[o'[a]].val == w;
      if a < k {
        assert l.ld[o[a]].val == w;
      } else if a > k {
        assert l.ld[o[a - 1]].val == w;
      }
    }
    forall w | w in Vals(l) + {p}
      ensures w in Vals(r)
    {
      if w == p {
        assert r.ld[o'[k]].val == w;
      } else {
        var a :| 0 <= a < |o| && l.ld[o[a]].val == w;
        if a < k {
          assert r.ld[o'[a]].val == w;
        } else {
          assert r.ld[o'[a + 1]].val == w;
        }
      }
    }
  }

  // ---------------------------------------------------------------------
  // Threshold literals

  /** The literal of the node at chain position `k`: [x >= val + 1] when
      `sign`, [x <= val] otherwise. */
  function NodeLit(l: LazyVar, k: nat, sign: bool): Lit
    requires Chain(l) && k < |l.order|
  {
    Atom(l.ld[l.order[k]].satVar, sign)
  }

  /** The literal [x >= v] once its threshold node exists (or the maximum
      literal above the upper bound). */
  function GELitOf(l: LazyVar, v: int): Lit
    requires Chain(l) && BoundsOk(l) && (v > l.x.max || v - 1 in Vals(l))
  {
    if v > l.x.max then MaxLit(l) else NodeLit(l, NodeAt(l, v - 1), true)
  }

  /** Increasing values make the position of a value unique. */
  lemma UniqueVal(l: LazyVar, a: nat, b: nat)
    requires Chain(l) && Increasing(l) && a < |l.order| && b < |l.order|
    requires l.ld[l.order[a]].val == l.ld[l.order[b]].val
    ensures a == b
  {
  }

  /** A value strictly between two neighbours is not in the chain. */
  lemma GapNotInVals(l: LazyVar, k: nat, p: int)
    requires Chain(l) && Increasing(l) && 0 < k < |l.order|
    requires l.ld[l.order[k - 1]].val < p < l.ld[l.order[k]].val
    ensures p !in Vals(l)
  {
    forall j | 0 <= j < |l.order|
      ensures l.ld[l.order[j]].val != p
    {
      if j < k - 1 {
        assert l.ld[l.order[j]].val < l.ld[l.order[k - 1]].val;
      } else if j > k {
        assert l.ld[l.order[k]].val < l.ld[l.order[j]].val;
      }
    }
  }

  /** The walk of `getGELit`: from `li` along `next` to the first node whose
      value is at least `prev`; it stops at `hi` at the latest. */
  method WalkUp(l: LazyVar, nVars: nat, prev: int) returns (k: nat)
    requires Shape(l, nVars) && prev < l.x.max
    ensures IndexOf(l.order, l.li) <= k < |l.order| && l.ld[l.order[k]].val >= prev
    ensures forall j :: IndexOf(l.order, l.li) <= j < k ==> l.ld[l.order[j]].val < prev
  {
    var o := l.order;
    var ni := l.li;
    var k0 := IndexOf(o, l.li);
    ghost var kh := IndexOf(o, l.hi);
    Monotone(l);
    k := k0;
    while l.ld[ni].val < prev
      invariant k0 <= k <= kh && o[k] == ni
      invariant forall j :: k0 <= j < k ==> l.ld[o[j]].val < prev
      decreases |o| - k
    {
      ni := l.ld[ni].next;
      k := k + 1;
    }
  }

  /** Along the chain, a smaller value sits at an earlier position. */
  lemma Monotone(l: LazyVar)
    requires Chain(l) && Increasing(l)
    ensures forall a, b :: 0 <= a < |l.order| && 0 <= b < |l.order| && l.ld[l.order[a]].val < l.ld[l.order[b]].val ==> a < b
  {
  }

  /** A node literal is [x >= v] when the node's value is `v - 1`. */
  lemma NodeIsGELit(l: LazyVar, nVars: nat, k: nat, v: int)
    requires Shape(l, nVars) && k < |l.order| && l.ld[l.order[k]].val == v - 1 && v <= l.x.max
    ensures v - 1 in Vals(l) && GELitOf(l, v) == NodeLit(l, k, true)
    ensures forall w :: LitMeans(l, NodeLit(l, k, true), w) <==> w >= v
  {
    assert v - 1 in Vals(l);
    UniqueVal(l, k, NodeAt(l, v - 1));
    forall w
      ensures LitMeans(l, NodeLit(l, k, true), w) <==> w >= v
    {
      MeansNode(l, nVars, k, true, w);
    }
  }

  /** The maximum literal means [x >= max + 1]: false across the domain. */
  lemma MaxLitFalse(l: LazyVar, nVars: nat)
    requires Shape(l, nVars)
    ensures forall w :: w <= l.x.max ==> !LitMeans(l, MaxLit(l), w)
  {
    var kh := IndexOf(l.order, l.hi);
    forall w | w <= l.x.max
      ensures !LitMeans(l, MaxLit(l), w)
    {
      MeansNode(l, nVars, kh, true, w);
    }
  }

  /** The minimum literal means [x <= min - 1]: false across the domain. */
  lemma MinLitFalse(l: LazyVar, nVars: nat)
    requires Shape(l, nVars)
    ensures forall w :: w >= l.x.min ==> !LitMeans(l, MinLit(l), w)
  {
    var kl := IndexOf(l.order, l.li);
    forall w | w >= l.x.min
      ensures !LitMeans(l, MinLit(l), w)
    {
      MeansNode(l, nVars, kl, false, w);
    }
  }

  /** `getGELit(v)` for `v >= min`: above `max` the maximum literal; otherwise
      walk `next` from `li` to the first node whose value is at least
      `v - 1`, reuse it if its value is `v - 1`, or splice a fresh node for
      `v - 1` (on a new SAT variable) in front of it. */
  method GetGELit(l: LazyVar, s: Sat, v: int) returns (lit: Lit, r: LazyVar, s': Sat)
    requires Shape(l, s.nVars) && v >= l.x.min
    ensures Shape(r, s'.nVars) && s'.trail == s.trail
    ensures r.x == l.x && r.li == l.li && r.hi == l.hi && r.valLit == l.valLit
    ensures v > l.x.max ==> r == l && s' == s && lit == MaxLit(l)
    ensures v <= l.x.max ==> Vals(r) == Vals(l) + {v - 1}
    ensures v <= l.x.max && v - 1 in Vals(l) ==> r == l && s' == s
    ensures v <= l.x.max && v - 1 !in Vals(l) ==> s'.nVars == s.nVars + 1 && lit == Atom(s.nVars, true)
    ensures (v > r.x.max || v - 1 in Vals(r)) && lit == GELitOf(r, v)
    ensures forall w :: l.x.min <= w <= l.x.max ==> (LitMeans(r, lit, w) <==> w >= v)
  {
    if v > l.x.max {
      lit, r, s' := MaxLit(l), l, s;
      MaxLitFalse(l, s.nVars);
      return;
    }
    lit, r, s' := GetGELitIn(l, s, v);
  }

  /** `getGELit(v)` for `min <= v <= max`. */
  method GetGELitIn(l: LazyVar, s: Sat, v: int) returns (lit: Lit, r: LazyVar, s': Sat)
    requires Shape(l, s.nVars) && l.x.min <= v <= l.x.max
    ensures Shape(r, s'.nVars) && s'.trail == s.trail
    ensures r.x == l.x && r.li == l.li && r.hi == l.hi && r.valLit == l.valLit
    ensures Vals(r) == Vals(l) + {v - 1}
    ensures v - 1 in Vals(l) ==> r == l && s' == s
    ensures v - 1 !in Vals(l) ==> s'.nVars == s.nVars + 1 && lit == Atom(s.nVars, true)
    ensures v - 1 in Vals(r) && lit == GELitOf(r, v)
    ensures forall w :: l.x.min <= w <= l.x.max ==> (LitMeans(r, lit, w) <==> w >= v)
  {
    var prev := v - 1;
    var k := WalkUp(l, s.nVars, prev);
    if l.ld[l.order[k]].val == prev {
      ReuseGELit(l, s.nVars, k, v);
      lit, r, s' := NodeLit(l, k, true), l, s;
    } else {
      lit, r, s' := SpliceGELit(l, s, v, k);
    }
  }

  /** A fresh node for the threshold `v - 1`, spliced in before the `k`-th
      node of the chain, the first whose value passes `v - 1`. */
  method SpliceGELit(l: LazyVar, s: Sat, v: int, k: nat) returns (lit: Lit, r: LazyVar, s': Sat)
    requires Shape(l, s.nVars) && l.x.min <= v <= l.x.max
    requires IndexOf(l.order, l.li) <= k < |l.order| && l.ld[l.order[k]].val > v - 1
    requires forall j :: IndexOf(l.order, l.li) <= j < k ==> l.ld[l.order[j]].val < v - 1
    ensures Shape(r, s'.nVars) && s'.trail == s.trail
    ensures r.x == l.x && r.li == l.li && r.hi == l.hi && r.valLit == l.valLit
    ensures v - 1 !in Vals(l) && Vals(r) == Vals(l) + {v - 1}
    ensures s'.nVars == s.nVars + 1 && lit == Atom(s.nVars, true)
    ensures v - 1 in Vals(r) && lit == GELitOf(r, v)
    ensures forall w :: LitMeans(r, lit, w) <==> w >= v
  {
    Monotone(l);
    GapNotInVals(l, k, v - 1);
    var got := GetLitNode(l, s.nVars);
    FreshGELit(l, got.0, got.1, s.nVars, k, v);
    r := InsertBefore(got.0, k, got.1, s.nVars, v - 1);
    s' := s.(nVars := s.nVars + 1);
    lit := Atom(s.nVars, true);
  }

  /** Reusing the node that already carries the threshold `v - 1`. */
  lemma ReuseGELit(l: LazyVar, nVars: nat, k: nat, v: int)
    requires Shape(l, nVars) && k < |l.order| && l.ld[l.order[k]].val == v - 1 && v <= l.x.max
    ensures v - 1 in Vals(l) && Vals(l) == Vals(l) + {v - 1} && GELitOf(l, v) == NodeLit(l, k, true)
    ensures forall w :: l.x.min <= w <= l.x.max ==> (LitMeans(l, NodeLit(l, k, true), w) <==> w >= v)
  {
    NodeIsGELit(l, nVars, k, v);
  }

  /** Splicing a fresh node `mi` for `v - 1` at position `k` of the chain of
      `l1`, the arena of `l` after `getLitNode`. */
  lemma FreshGELit(l: LazyVar, l1: LazyVar, mi: nat, nVars: nat, k: nat, v: int)
    requires Chain(l) && Shape(l1, nVars) && 0 < k < |l1.order| && mi < |l1.ld|
    requires forall m :: 0 <= m < |l1.order| ==> l1.order[m] != mi
    requires forall m :: 0 <= m < |l1.freelist| ==> l1.freelist[m] != mi
    requires l1.x == l.x && l1.li == l.li && l1.hi == l.hi && l1.valLit == l.valLit && Vals(l1) == Vals(l)
    requires l1.ld[l1.order[k - 1]].val < v - 1 < l1.ld[l1.order[k]].val && v <= l.x.max
    ensures var r := InsertBefore(l1, k, mi, nVars, v - 1);
      Shape(r, nVars + 1) && r.x == l.x && r.li == l.li && r.hi == l.hi && r.valLit == l.valLit &&
      Vals(r) == Vals(l) + {v - 1} && v - 1 in Vals(r) && GELitOf(r, v) == Atom(nVars, true) &&
      forall w :: LitMeans(r, Atom(nVars, true), w) <==> w >= v
  {
    InsertKeepsShape(l1, nVars, k, mi, v - 1);
    var r := InsertBefore(l1, k, mi, nVars, v - 1);
    assert r.order[k] == mi;
    NodeIsGELit(r, nVars + 1, k, v);
  }

  /** Asking twice for [x >= v] yields the same literal and allocates nothing the second time. */
  method GetGELitTwice(l: LazyVar, s: Sat, v: int) returns (lit1: Lit, lit2: Lit, r1: LazyVar, r2: LazyVar, s1: Sat, s2: Sat)
    requires Shape(l, s.nVars) && v >= l.x.min
    ensures lit1 == lit2 && r2 == r1 && s2 == s1
  {
    lit1, r1, s1 := GetGELit(l, s, v);
    lit2, r2, s2 := GetGELit(r1, s1, v);
  }

  /** The negation of a node literal means the complementary threshold. */
  lemma NegGEMeans(l: LazyVar, nVars: nat, v: int, w: int)
    requires Shape(l, nVars) && (v > l.x.max || v - 1 in Vals(l))
    ensures GELitOf(l, v).Atom?
    ensures LitMeans(l, Neg(GELitOf(l, v)), w) <==> !LitMeans(l, GELitOf(l, v), w)
  {
    var k := if v > l.x.max then IndexOf(l.order, l.hi) else NodeAt(l, v - 1);
    assert GELitOf(l, v) == NodeLit(l, k, true);
    MeansNode(l, nVars, k, true, w);
    MeansNode(l, nVars, k, false, w);
  }

  /** `getLELit(v)`: below `min` the minimum literal, otherwise the negation of [x >= v + 1]. */
  method GetLELit(l: LazyVar, s: Sat, v: int) returns (lit: Lit, r: LazyVar, s': Sat)
    requires Shape(l, s.nVars)
    ensures Shape(r, s'.nVars) && s'.trail == s.trail
    ensures r.x == l.x && r.li == l.li && r.hi == l.hi && r.valLit == l.valLit
    ensures v < l.x.min ==> r == l && s' == s && lit == MinLit(l)
    ensures l.x.min <= v < l.x.max ==> Vals(r) == Vals(l) + {v} && lit == Neg(GELitOf(r, v + 1))
    ensures v >= l.x.max ==> r == l && s' == s && lit == Neg(MaxLit(l))
    ensures forall w :: l.x.min <= w <= l.x.max ==> (LitMeans(r, lit, w) <==> w <= v)
  {
    if v < l.x.min {
      MinLitFalse(l, s.nVars);
      lit, r, s' := MinLit(l), l, s;
      return;
    }
    lit, r, s' := GetLELitIn(l, s, v);
  }

  method GetLELitIn(l: LazyVar, s: Sat, v: int) returns (lit: Lit, r: LazyVar, s': Sat)
    requires Shape(l, s.nVars) && v >= l.x.min
    ensures Shape(r, s'.nVars) && s'.trail == s.trail
    ensures r.x == l.x && r.li == l.li && r.hi == l.hi && r.valLit == l.valLit
    ensures v < l.x.max ==> Vals(r) == Vals(l) + {v} && lit == Neg(GELitOf(r, v + 1))
    ensures v >= l.x.max ==> r == l && s' == s && lit == Neg(MaxLit(l))
    ensures forall w :: l.x.min <= w <= l.x.max ==> (LitMeans(r, lit, w) <==> w <= v)
  {
    var g;
    g, r, s' := GetGELit(l, s, v + 1);
    NegGELit(r, s'.nVars, g, v);
    lit := Neg(g);
  }

  lemma NegGELit(l: LazyVar, nVars: nat, g: Lit, v: int)
    requires Shape(l, nVars) && (v + 1 > l.x.max || v in Vals(l)) && g == GELitOf(l, v + 1)
    requires forall w :: l.x.min <= w <= l.x.max ==> (LitMeans(l, g, w) <==> w >= v + 1)
    ensures forall w :: l.x.min <= w <= l.x.max ==> (LitMeans(l, Neg(g), w) <==> w <= v)
  {
    forall w | l.x.min <= w <= l.x.max
      ensures LitMeans(l, Neg(g), w) <==> w <= v
    {
      NegGEMeans(l, nVars, v + 1, w);
    }
  }

  /** The relation codes of `LitRel`: `t & 1` tells LE (and EQ) from GE (and NE). */
  datatype LitRel = LrNE | LrEQ | LrGE | LrLE

  function RelCode(t: LitRel): nat
  {
    match t
    case LrNE => 0
    case LrEQ => 1
    case LrGE => 2
    case LrLE => 3
  }

  predicate RelHolds(t: LitRel, w: int, v: int)
  {
    match t
    case LrNE => w != v
    case LrEQ => w == v
    case LrGE => w >= v
    case LrLE => w <= v
  }

  /** `getLit(v, t)`: constants outside the bounds, threshold literals for
      GE and LE inside them; EQ and NE inside the bounds are fatal, since a
      lazy variable has no equality literals. */
  method GetLit(l: LazyVar, s: Sat, v: int, t: LitRel) returns (r: Res<Lit>, l': LazyVar, s': Sat)
    requires Shape(l, s.nVars)
    ensures Shape(l', s'.nVars) && s'.trail == s.trail && l'.x == l.x
    ensures v < l.x.min ==> r == Ok(Const(RelCode(t) % 2 == 0)) && l' == l && s' == s
    ensures v > l.x.max ==> r == Ok(Const(RelCode(t) % 2 == 1)) && l' == l && s' == s
    ensures r.Fatal? <==> l.x.min <= v <= l.x.max && (t == LrEQ || t == LrNE)
    ensures !r.Fail?
    ensures r.Ok? && (t == LrGE || t == LrLE || v < l.x.min) ==>
      forall w :: l.x.min <= w <= l.x.max ==> (LitMeans(l', r.value, w) <==> RelHolds(t, w, v))
  {
    if v < l.x.min {
      return Ok(Const(RelCode(t) % 2 == 0)), l, s;
    }
    if v > l.x.max {
      return Ok(Const(RelCode(t) % 2 == 1)), l, s;
    }
    match t
    case LrGE =>
      var lit;
      lit, l', s' := GetGELit(l, s, v);
      r := Ok(lit);
    case LrLE =>
      var lit;
      lit, l', s' := GetLELit(l, s, v);
      r := Ok(lit);
    case _ =>
      r, l', s' := Fatal(NoEqLits), l, s;
  }

  // ---------------------------------------------------------------------
  // Channelling bound changes into the threshold literals

  predicate InArena(ld: seq<Node>, o: seq<nat>)
  {
    forall k :: 0 <= k < |o| ==> o[k] < |ld|
  }

  /** The enqueues of `channelMin`: [x >= val + 1] for each node strictly
      between positions `a` and `b`, walking up. */
  function UpEnqs(ld: seq<Node>, o: seq<nat>, a: nat, b: nat, why: Why): (r: seq<Enq>)
    requires InArena(ld, o) && b <= |o|
    ensures |r| == if b > a then b - a - 1 else 0
    ensures forall i :: 0 <= i < |r| ==> r[i] == Enq(Atom(ld[o[a + 1 + i]].satVar, true), why)
    decreases b
  {
    if b <= a + 1 then [] else UpEnqs(ld, o, a, b - 1, why) + [Enq(Atom(ld[o[b - 1]].satVar, true), why)]
  }

  /** The enqueues of `channelMax`: [x <= val] for each node strictly between
      positions `a` and `b`, walking down from `b`. */
  function DownEnqs(ld: seq<Node>, o: seq<nat>, a: nat, b: nat, why: Why): (r: seq<Enq>)
    requires InArena(ld, o) && b <= |o|
    ensures |r| == if b > a then b - a - 1 else 0
    ensures forall i :: 0 <= i < |r| ==> r[i] == Enq(Atom(ld[o[b - 1 - i]].satVar, false), why)
    decreases b - a
  {
    if b <= a + 1 then [] else DownEnqs(ld, o, a + 1, b, why) + [Enq(Atom(ld[o[a + 1]].satVar, false), why)]
  }

  /** Every literal `channelMin` enqueues holds once x reaches the value of
      the node at `b`; every literal `channelMax` enqueues holds once x is at
      most the value of the node at `a`. */
  lemma ChannelledHold(l: LazyVar, nVars: nat, a: nat, b: nat, why: Why, w: int)
    requires Shape(l, nVars) && a < b < |l.order|
    ensures w >= l.ld[l.order[b]].val ==>
      forall e :: e in UpEnqs(l.ld, l.order, a, b, why) ==> LitMeans(l, e.lit, w)
    ensures w <= l.ld[l.order[a]].val ==>
      forall e :: e in DownEnqs(l.ld, l.order, a, b, why) ==> LitMeans(l, e.lit, w)
  {
    var up := UpEnqs(l.ld, l.order, a, b, why);
    var down := DownEnqs(l.ld, l.order, a, b, why);
    forall i | 0 <= i < |up|
      ensures w >= l.ld[l.order[b]].val ==> LitMeans(l, up[i].lit, w)
    {
      MeansNode(l, nVars, a + 1 + i, true, w);
    }
    forall i | 0 <= i < |down|
      ensures w <= l.ld[l.order[a]].val ==> LitMeans(l, down[i].lit, w)
    {
      MeansNode(l, nVars, b - 1 - i, false, w);
    }
  }

  /** `channelMin(v, p)`, once [x >= v] exists: enqueue, for the reason
      `~p`, every threshold literal between the old lower-bound node and
      the node of `v - 1`, which becomes the new `li`. */
  method ChannelMin(l: LazyVar, s: Sat, v: int, p: Lit) returns (r: LazyVar, s': Sat)
    requires Shape(l, s.nVars) && l.x.min < v && v - 1 in Vals(l)
    ensures NodeAt(l, v - 1) > IndexOf(l.order, l.li)
    ensures r == l.(li := l.order[NodeAt(l, v - 1)]) && s'.nVars == s.nVars
    ensures s'.trail == s.trail + UpEnqs(l.ld, l.order, IndexOf(l.order, l.li), NodeAt(l, v - 1), ByLit(Neg(p)))
  {
    var o := l.order;
    var prev := v - 1;
    var why := ByLit(Neg(p));
    var k0 := IndexOf(o, l.li);
    ghost var kt := NodeAt(l, prev);
    Monotone(l);
    var k := k0 + 1;
    var ni := l.ld[l.li].next;
    var trail := s.trail;
    while l.ld[ni].val < prev
      invariant k0 < k <= kt && ni == o[k]
      invariant trail == s.trail + UpEnqs(l.ld, o, k0, k, why)
      decreases |o| - k
    {
      trail := trail + [Enq(Atom(l.ld[ni].satVar, true), why)];
      ni := l.ld[ni].next;
      k := k + 1;
    }
    UniqueVal(l, k, kt);
    r := l.(li := ni);
    s' := s.(trail := trail);
  }

  /** `channelMax(v, p)`, once [x <= v] exists: enqueue, for the reason
      `~p`, every threshold literal between the old upper-bound node and
      the node of `v`, which becomes the new `hi`. */
  method ChannelMax(l: LazyVar, s: Sat, v: int, p: Lit) returns (r: LazyVar, s': Sat)
    requires Shape(l, s.nVars) && v < l.x.max && v in Vals(l)
    ensures NodeAt(l, v) < IndexOf(l.order, l.hi)
    ensures r == l.(hi := l.order[NodeAt(l, v)]) && s'.nVars == s.nVars
    ensures s'.trail == s.trail + DownEnqs(l.ld, l.order, NodeAt(l, v), IndexOf(l.order, l.hi), ByLit(Neg(p)))
  {
    var o := l.order;
    var why := ByLit(Neg(p));
    var kh := IndexOf(o, l.hi);
    ghost var kt := NodeAt(l, v);
    Monotone(l);
    var k := kh - 1;
    var ni := l.ld[l.hi].prev;
    var trail := s.trail;
    while l.ld[ni].val > v
      invariant kt <= k < kh && ni == o[k]
      invariant trail == s.trail + DownEnqs(l.ld, o, k, kh, why)
      decreases k
    {
      trail := trail + [Enq(Atom(l.ld[ni].satVar, false), why)];
      ni := l.ld[ni].prev;
      k := k - 1;
    }
    UniqueVal(l, k, kt);
    r := l.(hi := ni);
    s' := s.(trail := trail);
  }

  // ---------------------------------------------------------------------
  // Narrowing

  /** Moving the bound nodes to the thresholds of new bounds keeps the shape. */
  lemma MoveBoundsKeepsShape(l: LazyVar, nVars: nat, kl: nat, kh: nat, x': IntVar)
    requires Shape(l, nVars) && kl < |l.order| && kh < |l.order|
    requires l.ld[l.order[kl]].val == x'.min - 1 && l.ld[l.order[kh]].val == x'.max
    requires x'.min <= x'.max && x'.vals.None?
    ensures Shape(l.(li := l.order[kl], hi := l.order[kh], x := x'), nVars)
  {
    var r := l.(li := l.order[kl], hi := l.order[kh], x := x');
    assert r.li in r.order && r.hi in r.order;
  }

  /** `updateFixed`: once fixed, the "is fixed" literal is enqueued for the
      reason made of the two bound literals, and F is recorded. */
  function UpdateFixedLL(l: LazyVar, s: Sat): (r: (LazyVar, Sat))
    requires l.li < |l.ld| && l.hi < |l.ld|
    ensures IsFixed(l.x) ==> (r.0 == l.(x := l.x.(changes := l.x.changes + {EvF})) &&
      r.1 == s.(trail := s.trail + [Enq(l.valLit, ByBounds(MinLit(l), MaxLit(l)))]))
    ensures !IsFixed(l.x) ==> r == (l, s)
  {
    if IsFixed(l.x) then
      (l.(x := l.x.(changes := l.x.changes + {EvF})), s.(trail := s.trail + [Enq(l.valLit, ByBounds(MinLit(l), MaxLit(l)))]))
    else (l, s)
  }

  /** The variable once `li` has moved to the node of `v - 1` and `min` to `v`. */
  function MovedMin(l: LazyVar, v: int): LazyVar
    requires Chain(l) && v - 1 in Vals(l)
  {
    l.(li := l.order[NodeAt(l, v - 1)],
       x := l.x.(min := v, changes := l.x.changes + {EvC, EvL} + (if v == l.x.max then {EvF} else {}), inQueue := true))
  }

  /** The variable once `hi` has moved to the node of `v` and `max` to `v`. */
  function MovedMax(l: LazyVar, v: int): LazyVar
    requires Chain(l) && v in Vals(l)
  {
    l.(hi := l.order[NodeAt(l, v)],
       x := l.x.(max := v, changes := l.x.changes + {EvC, EvU} + (if v == l.x.min then {EvF} else {}), inQueue := true))
  }

  /** The part of `setMin` after the literal exists and `v <= max`:
      channel, move `li` and `min`, record the events, check fixedness. */
  method CommitMin(l: LazyVar, s: Sat, v: int, p: Lit) returns (r: LazyVar, s': Sat)
    requires Shape(l, s.nVars) && l.x.min < v <= l.x.max && v - 1 in Vals(l)
    ensures r == MovedMin(l, v) && s'.nVars == s.nVars
    ensures s'.trail ==
      s.trail + UpEnqs(l.ld, l.order, IndexOf(l.order, l.li), NodeAt(l, v - 1), ByLit(Neg(p))) +
      (if v == l.x.max then [Enq(l.valLit, ByBounds(MinLit(r), MaxLit(r)))] else [])
  {
    var l2, s2 := ChannelMin(l, s, v, p);
    var x' := l.x.(min := v, changes := l.x.changes + {EvC, EvL}, inQueue := true);
    var fixed := UpdateFixedLL(l2.(x := x'), s2);
    r, s' := fixed.0, fixed.1;
  }

  /** The part of `setMax` after the literal exists and `v >= min`. */
  method CommitMax(l: LazyVar, s: Sat, v: int, p: Lit) returns (r: LazyVar, s': Sat)
    requires Shape(l, s.nVars) && l.x.min <= v < l.x.max && v in Vals(l)
    ensures r == MovedMax(l, v) && s'.nVars == s.nVars
    ensures s'.trail ==
      s.trail + DownEnqs(l.ld, l.order, NodeAt(l, v), IndexOf(l.order, l.hi), ByLit(Neg(p))) +
      (if v == l.x.min then [Enq(l.valLit, ByBounds(MinLit(r), MaxLit(r)))] else [])
  {
    var l2, s2 := ChannelMax(l, s, v, p);
    var x' := l.x.(max := v, changes := l.x.changes + {EvC, EvU}, inQueue := true);
    var fixed := UpdateFixedLL(l2.(x := x'), s2);
    r, s' := fixed.0, fixed.1;
  }

  lemma MovedMinShape(l: LazyVar, nVars: nat, v: int)
    requires Shape(l, nVars) && l.x.min < v <= l.x.max && v - 1 in Vals(l)
    ensures var r := MovedMin(l, v);
      Shape(r, nVars) && r.ld == l.ld && r.order == l.order && Vals(r) == Vals(l) &&
      NodeAt(r, v - 1) == NodeAt(l, v - 1) && IndexOf(r.order, l.li) == IndexOf(l.order, l.li) &&
      r.x.changes == l.x.changes + {EvC, EvL} + FixedEvent(r.x)
  {
    var kt := NodeAt(l, v - 1);
    var r := MovedMin(l, v);
    MoveBoundsKeepsShape(l, nVars, kt, IndexOf(l.order, l.hi), r.x);
    assert r == l.(li := l.order[kt], hi := l.order[IndexOf(l.order, l.hi)], x := r.x);
  }

  lemma MovedMaxShape(l: LazyVar, nVars: nat, v: int)
    requires Shape(l, nVars) && l.x.min <= v < l.x.max && v in Vals(l)
    ensures var r := MovedMax(l, v);
      Shape(r, nVars) && r.ld == l.ld && r.order == l.order && Vals(r) == Vals(l) &&
      NodeAt(r, v) == NodeAt(l, v) && IndexOf(r.order, l.hi) == IndexOf(l.order, l.hi) &&
      r.x.changes == l.x.changes + {EvC, EvU} + FixedEvent(r.x)
  {
    var kt := NodeAt(l, v);
    var r := MovedMax(l, v);
    MoveBoundsKeepsShape(l, nVars, IndexOf(l.order, l.li), kt, r.x);
    assert r == l.(li := l.order[IndexOf(l.order, l.li)], hi := l.order[kt], x := r.x);
  }

  /** The outcome of a successful `setMin(v)` on `l`, given the trail `pre`
      it started from: `li` sits on the node of `v - 1` and `min` is `v`;
      C and L (and F once fixed) are recorded; the thresholds strictly between
      the old and the new lower-bound nodes were enqueued for the reason
      `~p`, followed by the "is fixed" literal when `v` is `max`. */
  predicate MinMoved(l: LazyVar, pre: seq<Enq>, v: int, p: Lit, r: LazyVar, s': Sat)
  {
    Shape(r, s'.nVars) && v - 1 in Vals(r) && l.li in r.order &&
    r.x == l.x.(min := v, changes := l.x.changes + {EvC, EvL} + FixedEvent(r.x), inQueue := true) &&
    r.hi == l.hi && r.li == r.order[NodeAt(r, v - 1)] &&
    s'.trail ==
      pre + UpEnqs(r.ld, r.order, IndexOf(r.order, l.li), NodeAt(r, v - 1), ByLit(Neg(p))) +
      (if v == l.x.max then [Enq(l.valLit, ByBounds(MinLit(r), MaxLit(r)))] else [])
  }

  /** The outcome of a successful `setMax(v)`: the mirror image of `MinMoved`. */
  predicate MaxMoved(l: LazyVar, pre: seq<Enq>, v: int, p: Lit, r: LazyVar, s': Sat)
  {
    Shape(r, s'.nVars) && v in Vals(r) && l.hi in r.order &&
    r.x == l.x.(max := v, changes := l.x.changes + {EvC, EvU} + FixedEvent(r.x), inQueue := true) &&
    r.li == l.li && r.hi == r.order[NodeAt(r, v)] &&
    s'.trail ==
      pre + DownEnqs(r.ld, r.order, NodeAt(r, v), IndexOf(r.order, l.hi), ByLit(Neg(p))) +
      (if v == l.x.min then [Enq(l.valLit, ByBounds(MinLit(r), MaxLit(r)))] else [])
  }

  /** The enqueue of the new bound literal for the caller's reason, when channelling. */
  function ChanEnq(p: Lit, channel: bool): seq<Enq>
  {
    if channel then [Enq(p, External)] else []
  }

  /** `setMin(v, r, channel)`, for `v > min`: materialise [x >= v] as `p`,
      enqueue it for the caller's reason when `channel`, fail above `max`,
      and otherwise channel the skipped thresholds, move `li` and `min`,
      and record C and L (and F once fixed). */
  method SetMin(l: LazyVar, s: Sat, v: int, channel: bool) returns (res: Res<LazyVar>, s': Sat, p: Lit)
    requires Shape(l, s.nVars) && SetMinNotR(l.x, v)
    ensures !res.Fatal?
    ensures res.Fail? <==> v > l.x.max
    ensures res.Fail? ==> p == MaxLit(l) && s' == s.(trail := s.trail + ChanEnq(p, channel))
    ensures res.Ok? ==> MinMoved(l, s.trail + ChanEnq(p, channel), v, p, res.value, s')
    ensures res.Ok? ==> Vals(res.value) == Vals(l) + {v - 1}
    ensures res.Ok? ==> forall w :: l.x.min <= w <= l.x.max ==> (LitMeans(res.value, p, w) <==> w >= v)
  {
    var l1, s1;
    p, l1, s1 := GetGELit(l, s, v);
    s1 := s1.(trail := s1.trail + ChanEnq(p, channel));
    if v > l.x.max {
      return Fail, s1, p;
    }
    var r;
    r, s' := FinishMin(l, l1, s1, v, p);
    res := Ok(r);
  }

  /** `setMin` once [x >= v] exists in `l1` (the list of `l` after `getGELit`). */
  method FinishMin(l: LazyVar, l1: LazyVar, s1: Sat, v: int, p: Lit) returns (r: LazyVar, s': Sat)
    requires Shape(l1, s1.nVars) && l.x.min < v <= l.x.max && v - 1 in Vals(l1)
    requires l1.x == l.x && l1.li == l.li && l1.hi == l.hi && l1.valLit == l.valLit
    ensures MinMoved(l, s1.trail, v, p, r, s') && Vals(r) == Vals(l1)
    ensures forall w :: LitMeans(r, p, w) <==> LitMeans(l1, p, w)
  {
    r, s' := CommitMin(l1, s1, v, p);
    MovedMinShape(l1, s1.nVars, v);
    SameMeaning(l1, r, p);
  }

  /** `setMax(v, r, channel)`, for `v < max`: the mirror image of `SetMin`
      with [x <= v], `hi` and U. */
  method SetMax(l: LazyVar, s: Sat, v: int, channel: bool) returns (res: Res<LazyVar>, s': Sat, p: Lit)
    requires Shape(l, s.nVars) && SetMaxNotR(l.x, v)
    ensures !res.Fatal?
    ensures res.Fail? <==> v < l.x.min
    ensures res.Fail? ==> p == MinLit(l) && s' == s.(trail := s.trail + ChanEnq(p, channel))
    ensures res.Ok? ==> MaxMoved(l, s.trail + ChanEnq(p, channel), v, p, res.value, s')
    ensures res.Ok? ==> Vals(res.value) == Vals(l) + {v}
    ensures res.Ok? ==> forall w :: l.x.min <= w <= l.x.max ==> (LitMeans(res.value, p, w) <==> w <= v)
  {
    var l1, s1;
    p, l1, s1 := GetLELit(l, s, v);
    s1 := s1.(trail := s1.trail + ChanEnq(p, channel));
    if v < l.x.min {
      return Fail, s1, p;
    }
    var r;
    r, s' := FinishMax(l, l1, s1, v, p);
    res := Ok(r);
  }

  /** `setMax` once [x <= v] exists in `l1` (the list of `l` after `getLELit`). */
  method FinishMax(l: LazyVar, l1: LazyVar, s1: Sat, v: int, p: Lit) returns (r: LazyVar, s': Sat)
    requires Shape(l1, s1.nVars) && l.x.min <= v < l.x.max && v in Vals(l1)
    requires l1.x == l.x && l1.li == l.li && l1.hi == l.hi && l1.valLit == l.valLit
    ensures MaxMoved(l, s1.trail, v, p, r, s') && Vals(r) == Vals(l1)
    ensures forall w :: LitMeans(r, p, w) <==> LitMeans(l1, p, w)
  {
    r, s' := CommitMax(l1, s1, v, p);
    MovedMaxShape(l1, s1.nVars, v);
    SameMeaning(l1, r, p);
  }

  /** The meaning of a literal depends on the arena and the chain only. */
  lemma SameMeaning(l: LazyVar, r: LazyVar, p: Lit)
    requires r.ld == l.ld && r.order == l.order
    ensures forall w :: LitMeans(r, p, w) <==> LitMeans(l, p, w)
  {
  }

  /** `setVal(v, r, channel)`: `setMin` then `setMax`, each only when it
      narrows; without channelling it is a failed assertion. */
  method SetVal(l: LazyVar, s: Sat, v: int, channel: bool) returns (res: Res<LazyVar>, s': Sat)
    requires Shape(l, s.nVars) && SetValNotR(l.x, v)
    ensures res.Fatal? <==> !channel
    ensures res.Fail? <==> channel && (v < l.x.min || v > l.x.max)
    ensures res.Ok? ==> Shape(res.value, s'.nVars) && res.value.x.min == v && res.value.x.max == v
    ensures res.Ok? ==> Vals(l) <= Vals(res.value) && res.value.x.id == l.x.id && EvF in res.value.x.changes
  {
    if !channel {
      return Fatal(SetValUnchannelled), s;
    }
    var cur, sc := l, s;
    if SetMinNotR(l.x, v) {
      var r1, s1, p1 := SetMin(l, s, v, channel);
      if r1.Fail? {
        return Fail, s1;
      }
      cur, sc := r1.value, s1;
    }
    if SetMaxNotR(cur.x, v) {
      var r2, s2, p2 := SetMax(cur, sc, v, channel);
      if r2.Fail? {
        return Fail, s2;
      }
      cur, sc := r2.value, s2;
    }
    res, s' := Ok(cur), sc;
  }

  /** `remVal`: holes are not represented, so it changes nothing; without
      channelling, or before the model is finished, it is fatal. */
  function RemVal(l: LazyVar, v: int, channel: bool, finishedInit: bool): (r: Res<LazyVar>)
    ensures r.Fatal? <==> !channel || !finishedInit
    ensures !r.Fail?
    ensures r.Ok? ==> r.value == l
  {
    if !channel then Fatal(RemValUnchannelled)
    else if !finishedInit then Fatal(RemValDuringInit)
    else Ok(l)
  }

  // ---------------------------------------------------------------------
  // Releasing threshold literals

  /** Unlinks the node at chain position `k` and pushes its index on the free list. */
  function Unlink(l: LazyVar, k: nat): (r: LazyVar)
    requires Chain(l) && 0 < k < |l.order| - 1
    ensures |r.ld| == |l.ld| && r.order == l.order[..k] + l.order[k + 1..]
    ensures r.freelist == l.freelist + [l.order[k]]
    ensures r.x == l.x && r.li == l.li && r.hi == l.hi && r.valLit == l.valLit
  {
    var o := l.order;
    var ni := o[k];
    var pi := l.ld[ni].prev;
    var nx := l.ld[ni].next;
    var ld1 := if 0 <= pi < |l.ld| then l.ld[pi := l.ld[pi].(next := nx)] else l.ld;
    var ld2 := if 0 <= nx < |ld1| then ld1[nx := ld1[nx].(prev := pi)] else ld1;
    l.(ld := ld2, order := o[..k] + o[k + 1..], freelist := l.freelist + [ni])
  }

  lemma RemoveIndices(o: seq<nat>, k: nat)
    requires k < |o|
    ensures var o' := o[..k] + o[k + 1..];
      |o'| == |o| - 1 &&
      (forall m :: 0 <= m < k ==> o'[m] == o[m]) &&
      (forall m :: k <= m < |o'| ==> o'[m] == o[m + 1])
  {
  }

  /** What `Unlink` does to the arena, field by field. */
  predicate Unspliced(l: LazyVar, r: LazyVar, k: nat)
    requires Chain(l)
  {
    var o := l.order;
    0 < k < |o| - 1 && |r.ld| == |l.ld| && r.order == o[..k] + o[k + 1..] &&
    r.x == l.x && r.li == l.li && r.hi == l.hi && r.freelist == l.freelist + [o[k]] &&
    r.ld[o[k - 1]] == l.ld[o[k - 1]].(next := o[k + 1]) &&
    r.ld[o[k + 1]] == l.ld[o[k + 1]].(prev := o[k - 1]) &&
    (forall i :: 0 <= i < |l.ld| && i != o[k - 1] && i != o[k + 1] ==> r.ld[i] == l.ld[i]) &&
    (forall i :: 0 <= i < |l.ld| ==> r.ld[i].val == l.ld[i].val && r.ld[i].satVar == l.ld[i].satVar)
  }

  lemma UnlinkFields(l: LazyVar, nVars: nat, k: nat)
    requires Shape(l, nVars) && 0 < k < |l.order| - 1
    ensures Unspliced(l, Unlink(l, k), k)
  {
    ChainDistinct(l);
    assert l.ld[l.order[k]].prev == l.order[k - 1] && l.ld[l.order[k]].next == l.order[k + 1];
  }

  lemma UnlinkChain(l: LazyVar, r: LazyVar, k: nat)
    requires Chain(l) && Unspliced(l, r, k)
    ensures Chain(r)
  {
    RemoveIndices(l.order, k);
  }

  lemma UnlinkIncreasing(l: LazyVar, r: LazyVar, k: nat)
    requires Chain(l) && Increasing(l) && Unspliced(l, r, k) && Chain(r)
    ensures Increasing(r)
  {
    RemoveIndices(l.order, k);
    var o := l.order;
    var o' := r.order;
    forall a, b | 0 <= a < b < |o'|
      ensures r.ld[o'[a]].val < r.ld[o'[b]].val
    {
      var a' := if a < k then a else a + 1;
      var b' := if b < k then b else b + 1;
      assert o'[a] == o[a'] && o'[b] == o[b'] && a' < b';
    }
  }

  lemma UnlinkLinks(l: LazyVar, r: LazyVar, k: nat)
    requires Chain(l) && Linked(l) && Unspliced(l, r, k) && Chain(r)
    requires forall a, b :: 0 <= a < b < |l.order| ==> l.order[a] != l.order[b]
    ensures Linked(r)
  {
    RemoveIndices(l.order, k);
    var o := l.order;
    var o' := r.order;
    forall a | 0 <= a < |o'| - 1
      ensures r.ld[o'[a]].next == o'[a + 1] && r.ld[o'[a + 1]].prev == o'[a]
    {
      if a < k - 1 {
        assert o[a] != o[k - 1] && o[a] != o[k + 1] && o[a + 1] != o[k + 1];
        assert o[a + 1] != o[k - 1] || a + 1 == k - 1;
      } else if a == k - 1 {
      } else {
        assert o'[a] == o[a + 1] && o'[a + 1] == o[a + 2];
        assert o[a + 1] != o[k - 1] && o[a + 2] != o[k - 1] && o[a + 2] != o[k + 1];
        assert o[a + 1] != o[k + 1] || a == k;
      }
    }
    assert o[0] != o[k + 1] && o[|o| - 1] != o[k - 1];
  }

  lemma UnlinkVars(l: LazyVar, r: LazyVar, nVars: nat, k: nat)
    requires Chain(l) && DistinctVars(l, nVars) && Unspliced(l, r, k) && Chain(r)
    ensures DistinctVars(r, nVars)
  {
    RemoveIndices(l.order, k);
    var o := l.order;
    var o' := r.order;
    forall a, b | 0 <= a < b < |o'|
      ensures r.ld[o'[a]].satVar != r.ld[o'[b]].satVar
    {
      var a' := if a < k then a else a + 1;
      var b' := if b < k then b else b + 1;
      assert o'[a] == o[a'] && o'[b] == o[b'] && a' < b';
    }
    forall a | 0 <= a < |o'|
      ensures r.ld[o'[a]].satVar < nVars
    {
      var a' := if a < k then a else a + 1;
      assert o'[a] == o[a'];
    }
  }

  lemma UnlinkFree(l: LazyVar, r: LazyVar, k: nat)
    requires Chain(l) && FreeOk(l) && Unspliced(l, r, k)
    requires forall a, b :: 0 <= a < b < |l.order| ==> l.order[a] != l.order[b]
    ensures FreeOk(r)
  {
    RemoveIndices(l.order, k);
    var o := l.order;
    forall i, m | 0 <= i < |r.freelist| && 0 <= m < |r.order|
      ensures r.freelist[i] != r.order[m]
    {
      var m' := if m < k then m else m + 1;
      assert r.order[m] == o[m'] && m' != k;
    }
    forall i, j | 0 <= i < j < |r.freelist|
      ensures r.freelist[i] != r.freelist[j]
    {
      if j == |l.freelist| {
        assert l.freelist[i] != o[k];
      }
    }
  }

  lemma UnlinkBounds(l: LazyVar, r: LazyVar, k: nat)
    requires Chain(l) && BoundsOk(l) && Unspliced(l, r, k)
    requires l.li != l.order[k] && l.hi != l.order[k]
    ensures BoundsOk(r)
  {
    RemoveIndices(l.order, k);
    var a := IndexOf(l.order, l.li);
    var b := IndexOf(l.order, l.hi);
    assert r.order[if a < k then a else a - 1] == l.li;
    assert r.order[if b < k then b else b - 1] == l.hi;
  }

  lemma UnlinkVals(l: LazyVar, r: LazyVar, k: nat)
    requires Chain(l) && Increasing(l) && Unspliced(l, r, k) && Chain(r)
    ensures Vals(r) == Vals(l) - {l.ld[l.order[k]].val}
  {
    UnlinkValsSub(l, r, k);
    UnlinkValsSup(l, r, k);
  }

  lemma UnlinkValsSub(l: LazyVar, r: LazyVar, k: nat)
    requires Chain(l) && Increasing(l) && Unspliced(l, r, k) && Chain(r)
    ensures Vals(r) <= Vals(l) - {l.ld[l.order[k]].val}
  {
    RemoveIndices(l.order, k);
    var o := l.order;
    var o' := r.order;
    forall w | w in Vals(r)
      ensures w in Vals(l) - {l.ld[o[k]].val}
    {
      var a :| 0 <= a < |o'| && r.ld[o'[a]].val == w;
      var a' := if a < k then a else a + 1;
      assert o'[a] == o[a'] && a' != k;
      assert l.ld[o[a']].val == w;
      assert l.ld[o[a']].val != l.ld[o[k]].val;
    }
  }

  lemma UnlinkValsSup(l: LazyVar, r: LazyVar, k: nat)
    requires Chain(l) && Unspliced(l, r, k) && Chain(r)
    ensures Vals(l) - {l.ld[l.order[k]].val} <= Vals(r)
  {
    RemoveIndices(l.order, k);
    var o := l.order;
    var o' := r.order;
    forall w | w in Vals(l) - {l.ld[o[k]].val}
      ensures w in Vals(r)
    {
      var a :| 0 <= a < |o| && l.ld[o[a]].val == w;
      var a' := if a < k then a else a - 1;
      assert o'[a'] == o[a];
      assert r.ld[o'[a']].val == w;
    }
  }

  lemma UnlinkKeepsShape(l: LazyVar, nVars: nat, k: nat)
    requires Shape(l, nVars) && 0 < k < |l.order| - 1
    requires l.li != l.order[k] && l.hi != l.order[k]
    ensures var r := Unlink(l, k);
      Shape(r, nVars) && Vals(r) == Vals(l) - {l.ld[l.order[k]].val}
  {
    var r := Unlink(l, k);
    ChainDistinct(l);
    UnlinkFields(l, nVars, k);
    UnlinkChain(l, r, k);
    UnlinkIncreasing(l, r, k);
    UnlinkLinks(l, r, k);
    UnlinkVars(l, r, nVars, k);
    UnlinkFree(l, r, k);
    UnlinkBounds(l, r, k);
    UnlinkVals(l, r, k);
  }

  /** `freeLazyVar(val)`: only thresholds outside the current bounds may be
      released; the walk from the bound node must find a node with exactly
      that value (the source's assertions), which is unlinked and recycled.
      Unlinking a sentinel writes through its `-1` neighbour index, which is
      the `Fatal` outcome. Nothing stops the walk at the bound node itself:
      for `val == min - 1` or `val == max` the node `li` or `hi` points at is
      unlinked and put on the free list, and the list invariant is lost. */
  function FreeLazyVar(l: LazyVar, nVars: nat, val: int): (r: Res<LazyVar>)
    requires Shape(l, nVars)
    ensures !r.Fail?
    ensures r.Fatal? <==> l.x.min <= val < l.x.max || val !in Vals(l) || val == l.ld[0].val || val == l.ld[1].val
    ensures r.Ok? ==> Chain(r.value) && Vals(r.value) == Vals(l) - {val}
    ensures r.Ok? ==> |r.value.freelist| == |l.freelist| + 1 && r.value.freelist[..|l.freelist|] == l.freelist
    ensures r.Ok? ==> r.value.x == l.x && r.value.li == l.li && r.value.hi == l.hi
    ensures r.Ok? ==> (Shape(r.value, nVars) <==> val != l.x.min - 1 && val != l.x.max)
    ensures r.Ok? && val == l.x.min - 1 ==> r.value.li in r.value.freelist && r.value.li !in r.value.order
    ensures r.Ok? && val == l.x.max ==> r.value.hi in r.value.freelist && r.value.hi !in r.value.order
  {
    if l.x.min <= val < l.x.max then Fatal(FreeInsideBounds)
    else if val !in Vals(l) then Fatal(FreeMissing)
    else
      var k := NodeAt(l, val);
      FreeFacts(l, nVars, val, k);
      if k == 0 || k == |l.order| - 1 then Fatal(FreeSentinel)
      else
        var r := Unlink(l, k);
        UnlinkFields(l, nVars, k);
        UnlinkChain(l, r, k);
        UnlinkIncreasing(l, r, k);
        UnlinkVals(l, r, k);
        if val != l.x.min - 1 && val != l.x.max then
          UnlinkKeepsShape(l, nVars, k);
          Ok(r)
        else
          UnlinkDangles(l, nVars, k);
          Ok(r)
  }

  /** Where the node with value `val` sits: at a sentinel exactly when `val`
      is a sentinel's value, and at `li` or `hi` exactly when `val` is
      `min - 1` or `max`. */
  lemma FreeFacts(l: LazyVar, nVars: nat, val: int, k: nat)
    requires Shape(l, nVars) && k < |l.order| && l.ld[l.order[k]].val == val
    ensures (k == 0 <==> val == l.ld[0].val) && (k == |l.order| - 1 <==> val == l.ld[1].val)
    ensures l.li == l.order[k] <==> val == l.x.min - 1
    ensures l.hi == l.order[k] <==> val == l.x.max
  {
    var a := IndexOf(l.order, l.li);
    var b := IndexOf(l.order, l.hi);
    if val == l.x.min - 1 { UniqueVal(l, a, k); }
    if val == l.x.max { UniqueVal(l, b, k); }
    if val == l.ld[0].val { UniqueVal(l, 0, k); }
    if val == l.ld[1].val { UniqueVal(l, |l.order| - 1, k); }
  }

  /** An unlinked node is on the free list and no longer in the chain, so a
      bound pointing at it breaks the list invariant. */
  lemma UnlinkDangles(l: LazyVar, nVars: nat, k: nat)
    requires Shape(l, nVars) && 0 < k < |l.order| - 1
    ensures var r := Unlink(l, k);
      l.order[k] in r.freelist && l.order[k] !in r.order &&
      ((l.li == l.order[k] || l.hi == l.order[k]) ==> !BoundsOk(r))
  {
    var r := Unlink(l, k);
    ChainDistinct(l);
    RemoveIndices(l.order, k);
    assert r.freelist[|l.freelist|] == l.order[k];
    forall m | 0 <= m < |r.order| ensures r.order[m] != l.order[k] {
      var m' := if m < k then m else m + 1;
      assert r.order[m] == l.order[m'];
    }
  }

  // ---------------------------------------------------------------------
  // Branching

  /** `IntVarLL::branch`: lazy variables never decide `x = v`; they decide a
      threshold (`x > v` is type 2, `x <= v` type 3), so a decision is always
      one of the literals the list can hold. Solution-based phase saving
      picks the side that keeps the last solution's value. */
  const NoLazyMedian := "Median value selection is not supported for variables with lazy literals."

  function Branch(l: LazyVar, pv: PreferredVal, sbps: bool, lastSolution: int): (r: Res<Decision>)
    requires Valid(l.x)
    ensures !r.Fail?
    ensures r.Fatal? <==> !(sbps && InDom(l.x, lastSolution)) && pv == PvMedian
    ensures r.Ok? ==> r.value.rel == 2 || r.value.rel == 3
    ensures r.Ok? && !IsFixed(l.x) ==> Splits(l.x, r.value)
    ensures r.Ok? && sbps && InDom(l.x, lastSolution) ==> DecisionHolds(r.value, lastSolution)
    ensures r.Ok? && !(sbps && InDom(l.x, lastSolution)) ==>
      (pv == PvMin ==> r.value == Decision(l.x.min, 3)) &&
      (pv == PvMax ==> r.value == Decision(l.x.max - 1, 2)) &&
      (pv == PvSplitMin || pv == PvSplitMax ==> l.x.min <= r.value.val < l.x.max || IsFixed(l.x))
  {
    var x := l.x;
    var d :=
      if sbps && InDom(x, lastSolution) then
        if lastSolution > x.min then Decision(lastSolution - 1, 2) else Decision(lastSolution, 3)
      else
        match pv
        case PvMin => Decision(x.min, 3)
        case PvMax => Decision(x.max - 1, 2)
        case PvSplitMin => Decision(x.min + CDiv(x.max - x.min - 1, 2), 3)
        case PvSplitMax => Decision(x.min + CDiv(x.max - x.min, 2), 2)
        case PvMedian => Decision(0, 2);
    if !(sbps && InDom(x, lastSolution)) && pv == PvMedian then
      Fatal(NoLazyMedian)
    else
      BranchSplits(x, d, sbps && InDom(x, lastSolution), lastSolution, pv);
      Ok(d)
  }

  /** The threshold decisions of `Branch` keep a value on each side. */
  lemma BranchSplits(x: IntVar, d: Decision, saved: bool, lastSolution: int, pv: PreferredVal)
    requires Valid(x) && (saved ==> InDom(x, lastSolution))
    requires saved ==> d == if lastSolution > x.min then Decision(lastSolution - 1, 2) else Decision(lastSolution, 3)
    requires !saved ==> pv != PvMedian
    requires !saved && pv == PvMin ==> d == Decision(x.min, 3)
    requires !saved && pv == PvMax ==> d == Decision(x.max - 1, 2)
    requires !saved && pv == PvSplitMin ==> d == Decision(x.min + CDiv(x.max - x.min - 1, 2), 3)
    requires !saved && pv == PvSplitMax ==> d == Decision(x.min + CDiv(x.max - x.min, 2), 2)
    ensures !IsFixed(x) ==> Splits(x, d)
    ensures saved ==> DecisionHolds(d, lastSolution)
    ensures !saved && (pv == PvSplitMin || pv == PvSplitMax) ==> x.min <= d.val < x.max || IsFixed(x)
  {
    assert InDom(x, x.min) && InDom(x, x.max);
    if !IsFixed(x) {
      var gap := x.max - x.min;
      HalfBounds(gap - 1);
      HalfBounds(gap);
      if DecisionHolds(d, x.min) {
        assert !DecisionHolds(d, x.max);
      } else {
        assert DecisionHolds(d, x.max);
      }
    }
  }

  /** Halving a non-negative count, truncated. */
  lemma HalfBounds(a: int)
    requires a >= 0
    ensures 0 <= CDiv(a, 2) && 2 * CDiv(a, 2) <= a
  {
  }
}
