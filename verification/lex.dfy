/** The lexicographic-ordering decomposition of chuffed/globals/lex.cpp.
    Over `|x| + 1` Booleans `b` (with `b[0]` true and `b[|x|]` false) and
    `|x|` Booleans `r` it posts `b[i] <-> r[i] \/ b[i+1]` and
    `r[i] -> y[i] >= x[i] + 1` along the chain, and `b[i] -> y[i] >= x[i]` at
    every position: `b[i]` reads "the prefix before `i` is equal", `r[i]`
    "position `i` is the first where `x` is smaller". */
module Lex {
  import opened Base

  // Messages of the fatal errors below.
  const ReadPastR := "r[i] read past the end"

  /** A Boolean of the decomposition: a constant, `b[i]` or `r[i]`. */
  datatype BRef = Konst(val: bool) | B(i: nat) | R(i: nat)

  /** A posted constraint: `bool_rel(a, BRT_OR, c, z)`, which is
      `z <-> a \/ c`, or a half-reified `BinGE`: `g -> y[i] >= x[i] + plus`. */
  datatype LexCon = OrEq(a: BRef, c: BRef, z: BRef) | GeIf(i: nat, plus: int, g: BRef)

  /** `b[i]` for a chain of `n >= 1` positions: the constant true first, the
      constant false last, fresh Booleans in between. */
  function BAt(n: nat, i: nat): BRef
  {
    if i == 0 then Konst(true) else if i == n then Konst(false) else B(i)
  }

  /** The bound of the first loop, `x.size() - 1 + strict` in 32-bit
      unsigned arithmetic. */
  function LinkBound(n: nat, strict: bool): nat
  {
    (n - 1 + (if strict then 1 else 0)) % 0x1_0000_0000
  }

  /** The first loop from position `i` up to `bound`. */
  function LinkCons(n: nat, i: nat, bound: nat): seq<LexCon>
    requires i <= bound
    decreases bound - i
  {
    if i == bound then []
    else [OrEq(R(i), BAt(n, i + 1), BAt(n, i)), GeIf(i, 1, R(i))] + LinkCons(n, i + 1, bound)
  }

  /** The second loop from position `i`. */
  function GeCons(n: nat, i: nat): seq<LexCon>
    requires i <= n
    decreases n - i
  {
    if i == n then [] else [GeIf(i, 0, BAt(n, i))] + GeCons(n, i + 1)
  }

  // ---------------------------------------------------------------------
  // Semantics

  function BVal(bv: nat -> bool, rv: nat -> bool, ref: BRef): bool
  {
    match ref
    case Konst(v) => v
    case B(i) => bv(i)
    case R(i) => rv(i)
  }

  ghost predicate ConHolds(xv: seq<int>, yv: seq<int>, bv: nat -> bool, rv: nat -> bool, c: LexCon)
  {
    match c
    case OrEq(a, d, z) => BVal(bv, rv, z) == (BVal(bv, rv, a) || BVal(bv, rv, d))
    case GeIf(i, plus, g) => BVal(bv, rv, g) ==> i < |xv| && i < |yv| && yv[i] >= xv[i] + plus
  }

  ghost predicate AllCons(cs: seq<LexCon>, xv: seq<int>, yv: seq<int>, bv: nat -> bool, rv: nat -> bool)
  {
    forall k :: 0 <= k < |cs| ==> ConHolds(xv, yv, bv, rv, cs[k])
  }

  /** Some values of the fresh Booleans satisfy every posted constraint. */
  ghost predicate Encodes(cs: seq<LexCon>, xv: seq<int>, yv: seq<int>)
  {
    exists bv: nat -> bool, rv: nat -> bool :: AllCons(cs, xv, yv, bv, rv)
  }

  /** `xv` and `yv` agree on the positions from `i` up to `k`. */
  ghost predicate EqBetween(xv: seq<int>, yv: seq<int>, i: int, k: int)
    requires 0 <= i && k <= |xv| && k <= |yv|
  {
    forall j :: i <= j < k ==> xv[j] == yv[j]
  }

  /** Lexicographic order from position `i`: the first difference is a
      smaller `xv`, or (when not strict) there is none. */
  ghost predicate LexFrom(xv: seq<int>, yv: seq<int>, strict: bool, i: nat)
    requires |xv| == |yv| && i <= |xv|
  {
    exists k :: i <= k <= |xv| && EqBetween(xv, yv, i, k) && (if k < |xv| then xv[k] < yv[k] else !strict)
  }

  /** `xv <=lex yv`, or `xv <lex yv` when strict. */
  ghost predicate LexOrdered(xv: seq<int>, yv: seq<int>, strict: bool)
    requires |xv| == |yv|
  {
    LexFrom(xv, yv, strict, 0)
  }

  // ---------------------------------------------------------------------
  // The posting

  /** `lex(x, y, strict)` for arrays of `n` variables. With no variables and
      `strict` false the loop bound wraps round and `r[0]` of an empty
      vector is read. */
  function LexPost(n: nat, strict: bool): (r: Res<seq<LexCon>>)
    requires n < 0x1_0000_0000
    ensures !r.Fail?
    ensures r.Fatal? <==> n == 0 && !strict
    ensures r.Ok? ==> forall k :: 0 <= k < |r.value| ==> RefsIn(n, r.value[k])
  {
    var bound := LinkBound(n, strict);
    if bound > n then Fatal(ReadPastR)
    else
      LinkRefs(n, 0, bound);
      GeRefs(n, 0);
      Ok(LinkCons(n, 0, bound) + GeCons(n, 0))
  }

  /** The fresh Booleans a constraint mentions: `b[i]` for `0 < i < n`, `r[i]` for `i < n`. */
  predicate RefOk(n: nat, ref: BRef)
  {
    match ref
    case Konst(_) => true
    case B(i) => 0 < i < n
    case R(i) => i < n
  }

  predicate RefsIn(n: nat, c: LexCon)
  {
    match c
    case OrEq(a, d, z) => RefOk(n, a) && RefOk(n, d) && RefOk(n, z)
    case GeIf(i, _, g) => i < n && RefOk(n, g)
  }

  lemma {:induction false} LinkRefs(n: nat, i: nat, bound: nat)
    requires i <= bound <= n
    ensures forall k :: 0 <= k < |LinkCons(n, i, bound)| ==> RefsIn(n, LinkCons(n, i, bound)[k])
    decreases bound - i
  {
    if i < bound {
      LinkRefs(n, i + 1, bound);
    }
  }

  lemma {:induction false} GeRefs(n: nat, i: nat)
    requires i <= n
    ensures forall k :: 0 <= k < |GeCons(n, i)| ==> RefsIn(n, GeCons(n, i)[k])
    decreases n - i
  {
    if i < n {
      GeRefs(n, i + 1);
    }
  }

  // ---------------------------------------------------------------------
  // Unfolding the loops

  lemma AllConsConcat(cs: seq<LexCon>, ds: seq<LexCon>, xv: seq<int>, yv: seq<int>, bv: nat -> bool, rv: nat -> bool)
    ensures AllCons(cs + ds, xv, yv, bv, rv) <==> AllCons(cs, xv, yv, bv, rv) && AllCons(ds, xv, yv, bv, rv)
  {
    var e := cs + ds;
    if AllCons(cs, xv, yv, bv, rv) && AllCons(ds, xv, yv, bv, rv) {
      forall k | 0 <= k < |e| ensures ConHolds(xv, yv, bv, rv, e[k]) {
        if k >= |cs| { assert e[k] == ds[k - |cs|]; }
      }
    }
    if AllCons(e, xv, yv, bv, rv) {
      forall k | 0 <= k < |cs| ensures ConHolds(xv, yv, bv, rv, cs[k]) {
        assert e[k] == cs[k];
      }
      forall k | 0 <= k < |ds| ensures ConHolds(xv, yv, bv, rv, ds[k]) {
        assert e[|cs| + k] == ds[k];
      }
    }
  }

  /** Position `i` of the chain: `b[i] <-> r[i] \/ b[i+1]` and `r[i] -> y[i] > x[i]`. */
  ghost predicate LinkAt(n: nat, xv: seq<int>, yv: seq<int>, bv: nat -> bool, rv: nat -> bool, i: nat)
  {
    ConHolds(xv, yv, bv, rv, OrEq(R(i), BAt(n, i + 1), BAt(n, i))) && ConHolds(xv, yv, bv, rv, GeIf(i, 1, R(i)))
  }

  /** Position `i` of the second loop: `b[i] -> y[i] >= x[i]`. */
  ghost predicate GeAt(n: nat, xv: seq<int>, yv: seq<int>, bv: nat -> bool, rv: nat -> bool, i: nat)
  {
    ConHolds(xv, yv, bv, rv, GeIf(i, 0, BAt(n, i)))
  }

  lemma {:induction false} LinkConsHold(n: nat, i: nat, bound: nat, xv: seq<int>, yv: seq<int>, bv: nat -> bool, rv: nat -> bool)
    requires i <= bound
    ensures AllCons(LinkCons(n, i, bound), xv, yv, bv, rv) <==> forall j :: i <= j < bound ==> LinkAt(n, xv, yv, bv, rv, j)
    decreases bound - i
  {
    if i < bound {
      var head := [OrEq(R(i), BAt(n, i + 1), BAt(n, i)), GeIf(i, 1, R(i))];
      AllConsConcat(head, LinkCons(n, i + 1, bound), xv, yv, bv, rv);
      LinkConsHold(n, i + 1, bound, xv, yv, bv, rv);
      assert AllCons(head, xv, yv, bv, rv) <==> LinkAt(n, xv, yv, bv, rv, i) by {
        assert head[0] == OrEq(R(i), BAt(n, i + 1), BAt(n, i)) && head[1] == GeIf(i, 1, R(i));
      }
    }
  }

  lemma {:induction false} GeConsHold(n: nat, i: nat, xv: seq<int>, yv: seq<int>, bv: nat -> bool, rv: nat -> bool)
    requires i <= n
    ensures AllCons(GeCons(n, i), xv, yv, bv, rv) <==> forall j :: i <= j < n ==> GeAt(n, xv, yv, bv, rv, j)
    decreases n - i
  {
    if i < n {
      var head := [GeIf(i, 0, BAt(n, i))];
      AllConsConcat(head, GeCons(n, i + 1), xv, yv, bv, rv);
      GeConsHold(n, i + 1, xv, yv, bv, rv);
      assert AllCons(head, xv, yv, bv, rv) <==> GeAt(n, xv, yv, bv, rv, i) by {
        assert head[0] == GeIf(i, 0, BAt(n, i));
      }
    }
  }

  // ---------------------------------------------------------------------
  // Soundness and completeness of the decomposition

  /** Walking down the chain: a true `b[i]` means the suffixes from `i` are
      ordered. */
  lemma {:induction false} ChainSound(n: nat, strict: bool, xv: seq<int>, yv: seq<int>, bv: nat -> bool, rv: nat -> bool, i: nat)
    requires 1 <= n && |xv| == n && |yv| == n && i <= n
    requires LinkBound(n, strict) == n - 1 + (if strict then 1 else 0)
    requires forall j :: 0 <= j < LinkBound(n, strict) ==> LinkAt(n, xv, yv, bv, rv, j)
    requires forall j :: 0 <= j < n ==> GeAt(n, xv, yv, bv, rv, j)
    requires BVal(bv, rv, BAt(n, i))
    ensures LexFrom(xv, yv, strict, i)
    decreases n - i
  {
    if i == n {
    } else if i == n - 1 && !strict {
      assert GeAt(n, xv, yv, bv, rv, i);
      if xv[i] < yv[i] {
        assert EqBetween(xv, yv, i, i);
      } else {
        assert EqBetween(xv, yv, i, n);
      }
    } else {
      assert LinkAt(n, xv, yv, bv, rv, i) && GeAt(n, xv, yv, bv, rv, i);
      if rv(i) {
        assert EqBetween(xv, yv, i, i);
      } else if xv[i] < yv[i] {
        assert EqBetween(xv, yv, i, i);
      } else {
        ChainSound(n, strict, xv, yv, bv, rv, i + 1);
        var k :| i + 1 <= k <= n && EqBetween(xv, yv, i + 1, k) && (if k < n then xv[k] < yv[k] else !strict);
        assert EqBetween(xv, yv, i, k);
      }
    }
  }

  /** The witness for ordered values: `b[i]` true up to the first
      difference `k`, `r[i]` true exactly at `k`. */
  lemma ChainComplete(n: nat, strict: bool, xv: seq<int>, yv: seq<int>, k: nat)
    requires 1 <= n && |xv| == n && |yv| == n && k <= n
    requires LinkBound(n, strict) == n - 1 + (if strict then 1 else 0)
    requires EqBetween(xv, yv, 0, k) && (if k < n then xv[k] < yv[k] else !strict)
    ensures var bv := (i: nat) => i <= k && i < n;
      var rv := (i: nat) => i == k;
      (forall j :: 0 <= j < LinkBound(n, strict) ==> LinkAt(n, xv, yv, bv, rv, j)) &&
      (forall j :: 0 <= j < n ==> GeAt(n, xv, yv, bv, rv, j))
  {
    var bv := (i: nat) => i <= k && i < n;
    var rv := (i: nat) => i == k;
    forall j | 0 <= j <= n ensures BVal(bv, rv, BAt(n, j)) == (j <= k && j < n) {
    }
  }

  /** For arrays of at least one variable the decomposition admits exactly
      the ordered pairs of value sequences. */
  lemma LexMeans(n: nat, strict: bool, xv: seq<int>, yv: seq<int>)
    requires 1 <= n < 0x1_0000_0000 && |xv| == n && |yv| == n
    ensures LexPost(n, strict).Ok?
    ensures Encodes(LexPost(n, strict).value, xv, yv) <==> LexOrdered(xv, yv, strict)
  {
    var bound := LinkBound(n, strict);
    assert bound == n - 1 + (if strict then 1 else 0);
    var cs := LexPost(n, strict).value;
    assert cs == LinkCons(n, 0, bound) + GeCons(n, 0);
    if Encodes(cs, xv, yv) {
      var bv: nat -> bool, rv: nat -> bool :| AllCons(cs, xv, yv, bv, rv);
      AllConsConcat(LinkCons(n, 0, bound), GeCons(n, 0), xv, yv, bv, rv);
      LinkConsHold(n, 0, bound, xv, yv, bv, rv);
      GeConsHold(n, 0, xv, yv, bv, rv);
      ChainSound(n, strict, xv, yv, bv, rv, 0);
    }
    if LexOrdered(xv, yv, strict) {
      var k :| 0 <= k <= n && EqBetween(xv, yv, 0, k) && (if k < n then xv[k] < yv[k] else !strict);
      var bv := (i: nat) => i <= k && i < n;
      var rv := (i: nat) => i == k;
      ChainComplete(n, strict, xv, yv, k);
      AllConsConcat(LinkCons(n, 0, bound), GeCons(n, 0), xv, yv, bv, rv);
      LinkConsHold(n, 0, bound, xv, yv, bv, rv);
      GeConsHold(n, 0, xv, yv, bv, rv);
      assert AllCons(cs, xv, yv, bv, rv);
    }
  }

  /** On empty arrays the strict posting adds nothing, so it admits the one
      pair of empty sequences, which is not strictly ordered. */
  lemma LexEmptyStrictAdmits()
    ensures LexPost(0, true) == Ok([])
    ensures Encodes([], [], []) && !LexOrdered([], [], true)
  {
    var bv := (i: nat) => true;
    assert AllCons([], [], [], bv, bv);
    assert LinkBound(0, true) == 0;
    assert LinkCons(0, 0, 0) == [] && GeCons(0, 0) == [];
    assert LinkCons(0, 0, 0) + GeCons(0, 0) == [];
  }

  /** The posting with empty arrays handled first: the strict order of two
      empty sequences fails at once, the non-strict one holds trivially. It
      admits exactly the ordered pairs of value sequences for every length. */
  function LexPostChecked(n: nat, strict: bool): (r: Res<seq<LexCon>>)
    requires n < 0x1_0000_0000
    ensures !r.Fatal?
    ensures r.Fail? <==> n == 0 && strict
    ensures r.Ok? ==> forall k :: 0 <= k < |r.value| ==> RefsIn(n, r.value[k])
  {
    if n == 0 then (if strict then Fail else Ok([]))
    else LexPost(n, strict)
  }

  lemma LexCheckedMeans(n: nat, strict: bool, xv: seq<int>, yv: seq<int>)
    requires n < 0x1_0000_0000 && |xv| == n && |yv| == n
    ensures LexPostChecked(n, strict).Fail? ==> !LexOrdered(xv, yv, strict)
    ensures LexPostChecked(n, strict).Ok? ==>
      (Encodes(LexPostChecked(n, strict).value, xv, yv) <==> LexOrdered(xv, yv, strict))
  {
    if n == 0 {
      assert xv == [] && yv == [];
      if !strict {
        var bv := (i: nat) => true;
        assert AllCons([], xv, yv, bv, bv);
        assert EqBetween(xv, yv, 0, 0);
      }
    } else {
      LexMeans(n, strict, xv, yv);
    }
  }
}
