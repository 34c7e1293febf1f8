/** The `regular` decomposition of chuffed/globals/regular.cpp. A DFA with
    states `1..q` (0 is the dead state), symbols `1..s`, transition table
    `d`, start `q0` and accepting states `f` becomes three tuple tables over
    the live transitions, and a chain of table constraints over `x` and
    `|x| - 1` fresh state variables `y`, where `y[k]` is the state after
    reading `x[0..k]`. */
module Regular {
  import opened Base

  // Messages of the fatal errors below.
  const EmptyRead := "y[0] of an empty vector is read"

  datatype Dfa = Dfa(q: int, s: int, d: seq<seq<int>>, q0: int, f: seq<int>)

  /** `regular_check`, asserted on entry: the shapes and ranges of the DFA. */
  predicate RegularCheck(a: Dfa)
  {
    a.q >= 1 && a.s >= 1 && |a.d| == a.q &&
    (forall i :: 0 <= i < a.q ==> |a.d[i]| == a.s) &&
    (forall i, j :: 0 <= i < a.q && 0 <= j < a.s ==> 0 <= a.d[i][j] <= a.q) &&
    1 <= a.q0 <= a.q &&
    (forall i :: 0 <= i < |a.f| ==> 1 <= a.f[i] <= a.q)
  }

  /** `accept[st]`: set for the states listed in `f`. */
  predicate Accept(a: Dfa, st: int)
  {
    st in a.f
  }

  /** The transition function, with the dead state 0 absorbing and symbols
      outside `1..s` leading to it. */
  function Delta(a: Dfa, st: int, sym: int): (r: int)
    requires RegularCheck(a)
    ensures 0 <= r <= a.q
    ensures st == 0 ==> r == 0
  {
    if 1 <= st <= a.q && 1 <= sym <= a.s then a.d[st - 1][sym - 1] else 0
  }

  /** The state after reading the first `k` symbols of `xv`. */
  function State(a: Dfa, xv: seq<int>, k: nat): (r: int)
    requires RegularCheck(a) && k <= |xv|
    ensures 0 <= r <= a.q
  {
    if k == 0 then a.q0 else Delta(a, State(a, xv, k - 1), xv[k - 1])
  }

  /** The DFA accepts `xv`. */
  predicate Accepts(a: Dfa, xv: seq<int>)
    requires RegularCheck(a)
  {
    Accept(a, State(a, xv, |xv|))
  }

  // ---------------------------------------------------------------------
  // The tuple tables

  datatype Tables = Tables(start: seq<seq<int>>, middle: seq<seq<int>>, end: seq<seq<int>>)

  /** The double loop over states `i` and symbols `j`, from `(i, j)` on:
      each live transition gives a `middle` tuple `(i+1, j+1, d[i][j])`, a
      `start` tuple `(j+1, d[i][j])` when `i + 1 == q0`, and an `end` tuple
      `(i+1, j+1)` when it reaches an accepting state. */
  function BuildFrom(a: Dfa, i: nat, j: nat): Tables
    requires RegularCheck(a) && i <= a.q && j <= a.s
    decreases a.q - i, a.s - j
  {
    if i == a.q then Tables([], [], [])
    else if j == a.s then BuildFrom(a, i + 1, 0)
    else
      var t := a.d[i][j];
      var rest := BuildFrom(a, i, j + 1);
      if t == 0 then rest
      else Tables(
        (if i + 1 == a.q0 then [[j + 1, t]] else []) + rest.start,
        [[i + 1, j + 1, t]] + rest.middle,
        (if Accept(a, t) then [[i + 1, j + 1]] else []) + rest.end)
  }

  /** Position `(i2, j2)` is at or after `(i, j)` in row-major order. */
  predicate After(i2: int, j2: int, i: int, j: int)
  {
    i2 > i || (i2 == i && j2 >= j)
  }

  predicate StartOk(a: Dfa, t: seq<int>)
    requires RegularCheck(a)
  {
    |t| == 2 && 1 <= t[0] <= a.s && t[1] == a.d[a.q0 - 1][t[0] - 1] && t[1] != 0
  }

  predicate MiddleOk(a: Dfa, t: seq<int>)
    requires RegularCheck(a)
  {
    |t| == 3 && 1 <= t[0] <= a.q && 1 <= t[1] <= a.s && t[2] == a.d[t[0] - 1][t[1] - 1] && t[2] != 0
  }

  predicate EndOk(a: Dfa, t: seq<int>)
    requires RegularCheck(a)
  {
    |t| == 2 && 1 <= t[0] <= a.q && 1 <= t[1] <= a.s &&
    a.d[t[0] - 1][t[1] - 1] != 0 && Accept(a, a.d[t[0] - 1][t[1] - 1])
  }

  /** The start table holds exactly the live transitions out of `q0` from `(i, j)` on. */
  lemma {:induction false} StartMembers(a: Dfa, i: nat, j: nat)
    requires RegularCheck(a) && i <= a.q && j <= a.s
    ensures forall t :: t in BuildFrom(a, i, j).start <==> StartOk(a, t) && After(a.q0 - 1, t[0] - 1, i, j)
    decreases a.q - i, a.s - j
  {
    if i == a.q {
    } else if j == a.s {
      StartMembers(a, i + 1, 0);
    } else {
      StartMembers(a, i, j + 1);
      var t0 := a.d[i][j];
      forall t ensures t in BuildFrom(a, i, j).start <==> StartOk(a, t) && After(a.q0 - 1, t[0] - 1, i, j) {
        if StartOk(a, t) && a.q0 - 1 == i && t[0] - 1 == j {
          assert t == [j + 1, t0];
        }
      }
    }
  }

  /** The middle table holds exactly the live transitions from `(i, j)` on. */
  lemma {:induction false} MiddleMembers(a: Dfa, i: nat, j: nat)
    requires RegularCheck(a) && i <= a.q && j <= a.s
    ensures forall t :: t in BuildFrom(a, i, j).middle <==> MiddleOk(a, t) && After(t[0] - 1, t[1] - 1, i, j)
    decreases a.q - i, a.s - j
  {
    if i == a.q {
    } else if j == a.s {
      MiddleMembers(a, i + 1, 0);
    } else {
      MiddleMembers(a, i, j + 1);
      var t0 := a.d[i][j];
      forall t ensures t in BuildFrom(a, i, j).middle <==> MiddleOk(a, t) && After(t[0] - 1, t[1] - 1, i, j) {
        if MiddleOk(a, t) && t[0] - 1 == i && t[1] - 1 == j {
          assert t == [i + 1, j + 1, t0];
        }
      }
    }
  }

  /** The end table holds exactly the transitions into an accepting state
      from `(i, j)` on. */
  lemma {:induction false} EndMembers(a: Dfa, i: nat, j: nat)
    requires RegularCheck(a) && i <= a.q && j <= a.s
    ensures forall t :: t in BuildFrom(a, i, j).end <==> EndOk(a, t) && After(t[0] - 1, t[1] - 1, i, j)
    decreases a.q - i, a.s - j
  {
    if i == a.q {
    } else if j == a.s {
      EndMembers(a, i + 1, 0);
    } else {
      EndMembers(a, i, j + 1);
      forall t ensures t in BuildFrom(a, i, j).end <==> EndOk(a, t) && After(t[0] - 1, t[1] - 1, i, j) {
        if EndOk(a, t) && t[0] - 1 == i && t[1] - 1 == j {
          assert t == [i + 1, j + 1];
        }
      }
    }
  }

  /** The three tables of `regular`. */
  function RegularTables(a: Dfa): (r: Tables)
    requires RegularCheck(a)
    ensures forall t :: t in r.start <==> StartOk(a, t)
    ensures forall t :: t in r.middle <==> MiddleOk(a, t)
    ensures forall t :: t in r.end <==> EndOk(a, t)
  {
    StartMembers(a, 0, 0);
    MiddleMembers(a, 0, 0);
    EndMembers(a, 0, 0);
    BuildFrom(a, 0, 0)
  }

  // ---------------------------------------------------------------------
  // The posting

  /** A variable of a table constraint: `x[i]` or the new `y[k]`. */
  datatype VarRef = X(i: nat) | Y(k: nat)

  datatype TableCon = TableCon(vars: seq<VarRef>, tuples: seq<seq<int>>)

  /** The number of new state variables (domain `1..q`) and the tables posted. */
  datatype RegularPosted = RegularPosted(ny: nat, tables: seq<TableCon>)

  /** The middle loop from `i` while `i < n - 1`: `(y[i-1], x[i], y[i])`. */
  function MiddleCons(middle: seq<seq<int>>, i: nat, n: nat): seq<TableCon>
    requires 1 <= i
    decreases n - i
  {
    if i + 1 >= n then [] else [TableCon([Y(i - 1), X(i), Y(i)], middle)] + MiddleCons(middle, i + 1, n)
  }

  /** `regular(x, q, s, d, q0, f)` for `n` variables. With one variable no
      state variable is created, yet `y[0]` and `y.last()` are read; with
      none, `x[0]` is read as well. */
  function RegularAsWritten(n: nat, a: Dfa): (r: Res<RegularPosted>)
    requires RegularCheck(a)
    ensures !r.Fail?
    ensures r.Fatal? <==> n <= 1
    ensures r.Ok? ==> r.value.ny == n - 1 && |r.value.tables| == n
  {
    if n <= 1 then Fatal(EmptyRead)
    else
      var tb := RegularTables(a);
      MiddleCount(tb.middle, 1, n);
      Ok(RegularPosted(n - 1,
        [TableCon([X(0), Y(0)], tb.start)] + MiddleCons(tb.middle, 1, n) + [TableCon([Y(n - 2), X(n - 1)], tb.end)]))
  }

  lemma {:induction false} MiddleCount(middle: seq<seq<int>>, i: nat, n: nat)
    requires 1 <= i
    ensures |MiddleCons(middle, i, n)| == (if i + 1 >= n then 0 else n - 1 - i)
    decreases n - i
  {
    if i + 1 < n {
      MiddleCount(middle, i + 1, n);
    }
  }

  /** The single-variable case that reads `y[0]` although `y` is empty. */
  lemma RegularSingleReads(a: Dfa)
    requires RegularCheck(a)
    ensures RegularAsWritten(1, a).Fatal?
  {
  }

  /** The symbols that lead from `q0` to an accepting state, from `j` on. */
  function AcceptedFirst(a: Dfa, j: nat): (r: seq<seq<int>>)
    requires RegularCheck(a) && j <= a.s
    ensures forall t :: t in r <==> |t| == 1 && j + 1 <= t[0] <= a.s && Accepts(a, t)
    decreases a.s - j
  {
    if j == a.s then []
    else
      var rest := AcceptedFirst(a, j + 1);
      OneSymbol(a, [j + 1]);
      assert forall t :: |t| == 1 && t[0] == j + 1 ==> t == [j + 1];
      if Accept(a, a.d[a.q0 - 1][j]) then [[j + 1]] + rest else rest
  }

  /** The dead state is never accepting. */
  lemma DeadRejects(a: Dfa)
    requires RegularCheck(a)
    ensures !Accept(a, 0)
  {
  }

  /** A one-symbol word is accepted iff its symbol is in range and leads
      from `q0` to an accepting state. */
  lemma OneSymbol(a: Dfa, t: seq<int>)
    requires RegularCheck(a) && |t| == 1
    ensures Accepts(a, t) <==> 1 <= t[0] <= a.s && Accept(a, a.d[a.q0 - 1][t[0] - 1])
  {
    DeadRejects(a);
    assert State(a, t, 1) == Delta(a, a.q0, t[0]);
  }

  /** `regular` with short inputs handled: no variables posts nothing and
      fails unless `q0` accepts; one variable posts a table of the symbols
      that reach an accepting state in one step. */
  function RegularPost(n: nat, a: Dfa): (r: Res<RegularPosted>)
    requires RegularCheck(a)
    ensures !r.Fatal?
    ensures r.Fail? <==> n == 0 && !Accept(a, a.q0)
    ensures n >= 2 ==> r == RegularAsWritten(n, a)
  {
    if n == 0 then (if Accept(a, a.q0) then Ok(RegularPosted(0, [])) else Fail)
    else if n == 1 then Ok(RegularPosted(0, [TableCon([X(0)], AcceptedFirst(a, 0))]))
    else RegularAsWritten(n, a)
  }

  // ---------------------------------------------------------------------
  // Semantics of the posting

  function Val(xv: seq<int>, yv: seq<int>, v: VarRef): int
  {
    match v
    case X(i) => if i < |xv| then xv[i] else 0
    case Y(k) => if k < |yv| then yv[k] else 0
  }

  predicate RefIn(xv: seq<int>, yv: seq<int>, v: VarRef)
  {
    match v
    case X(i) => i < |xv|
    case Y(k) => k < |yv|
  }

  /** The values of the constraint's variables form one of its tuples. */
  ghost predicate TableHolds(xv: seq<int>, yv: seq<int>, c: TableCon)
  {
    (forall m :: 0 <= m < |c.vars| ==> RefIn(xv, yv, c.vars[m])) &&
    seq(|c.vars|, m requires 0 <= m < |c.vars| => Val(xv, yv, c.vars[m])) in c.tuples
  }

  ghost predicate AllTables(cs: seq<TableCon>, xv: seq<int>, yv: seq<int>)
  {
    forall k :: 0 <= k < |cs| ==> TableHolds(xv, yv, cs[k])
  }

  /** State values within `1..q`. */
  ghost predicate YRange(yv: seq<int>, q: int)
  {
    forall k :: 0 <= k < |yv| ==> 1 <= yv[k] <= q
  }

  /** Some values of the state variables satisfy every table. */
  ghost predicate Admits(p: RegularPosted, a: Dfa, xv: seq<int>)
  {
    exists yv :: |yv| == p.ny && YRange(yv, a.q) && AllTables(p.tables, xv, yv)
  }

  lemma AllTablesConcat(cs: seq<TableCon>, ds: seq<TableCon>, xv: seq<int>, yv: seq<int>)
    ensures AllTables(cs + ds, xv, yv) <==> AllTables(cs, xv, yv) && AllTables(ds, xv, yv)
  {
    var e := cs + ds;
    if AllTables(cs, xv, yv) && AllTables(ds, xv, yv) {
      forall k | 0 <= k < |e| ensures TableHolds(xv, yv, e[k]) {
        if k >= |cs| { assert e[k] == ds[k - |cs|]; }
      }
    }
    if AllTables(e, xv, yv) {
      forall k | 0 <= k < |cs| ensures TableHolds(xv, yv, cs[k]) {
        assert e[k] == cs[k];
      }
      forall k | 0 <= k < |ds| ensures TableHolds(xv, yv, ds[k]) {
        assert e[|cs| + k] == ds[k];
      }
    }
  }

  /** The start table at positions `(x[0], y[0])`. */
  ghost predicate StartAt(a: Dfa, xv: seq<int>, yv: seq<int>)
    requires RegularCheck(a) && |xv| >= 1 && |yv| >= 1
  {
    StartOk(a, [xv[0], yv[0]])
  }

  /** The middle table at `(y[i-1], x[i], y[i])`. */
  ghost predicate MiddleAt(a: Dfa, xv: seq<int>, yv: seq<int>, i: nat)
    requires RegularCheck(a) && 1 <= i < |xv| && i < |yv|
  {
    MiddleOk(a, [yv[i - 1], xv[i], yv[i]])
  }

  /** The end table at `(y.last(), x.last())`. */
  ghost predicate EndAt(a: Dfa, xv: seq<int>, yv: seq<int>)
    requires RegularCheck(a) && |xv| >= 1 && |yv| >= 1
  {
    EndOk(a, [yv[|yv| - 1], xv[|xv| - 1]])
  }

  /** The middle constraints hold iff the middle table admits every
      position from `i` on. */
  lemma {:induction false} MiddleHold(a: Dfa, xv: seq<int>, yv: seq<int>, i: nat)
    requires RegularCheck(a) && 1 <= i && |xv| >= 2 && |yv| == |xv| - 1
    ensures AllTables(MiddleCons(RegularTables(a).middle, i, |xv|), xv, yv) <==>
      forall k :: i <= k < |xv| - 1 ==> MiddleAt(a, xv, yv, k)
    decreases |xv| - i
  {
    var n := |xv|;
    var mid := RegularTables(a).middle;
    if i + 1 < n {
      var c := TableCon([Y(i - 1), X(i), Y(i)], mid);
      var rest := MiddleCons(mid, i + 1, n);
      assert MiddleCons(mid, i, n) == [c] + rest;
      AllTablesConcat([c], rest, xv, yv);
      MiddleHold(a, xv, yv, i + 1);
      MiddleOne(a, xv, yv, i, c);
      SplitFirst(a, xv, yv, i);
    }
  }

  /** The middle constraint at position `i`. */
  lemma MiddleOne(a: Dfa, xv: seq<int>, yv: seq<int>, i: nat, c: TableCon)
    requires RegularCheck(a) && 1 <= i && i + 1 < |xv| && |yv| == |xv| - 1
    requires c == TableCon([Y(i - 1), X(i), Y(i)], RegularTables(a).middle)
    ensures AllTables([c], xv, yv) <==> MiddleAt(a, xv, yv, i)
  {
    assert seq(3, m requires 0 <= m < 3 => Val(xv, yv, c.vars[m])) == [yv[i - 1], xv[i], yv[i]];
    assert TableHolds(xv, yv, c) <==> MiddleAt(a, xv, yv, i);
    assert [c][0] == c;
  }

  /** Every position from `i` on is position `i` and every one after. */
  lemma SplitFirst(a: Dfa, xv: seq<int>, yv: seq<int>, i: nat)
    requires RegularCheck(a) && 1 <= i && i + 1 < |xv| && |yv| == |xv| - 1
    ensures (forall k :: i <= k < |xv| - 1 ==> MiddleAt(a, xv, yv, k)) <==>
      MiddleAt(a, xv, yv, i) && forall k :: i + 1 <= k < |xv| - 1 ==> MiddleAt(a, xv, yv, k)
  {
  }

  /** The posted tables hold iff start, every middle position and end hold. */
  lemma PostedHolds(n: nat, a: Dfa, xv: seq<int>, yv: seq<int>)
    requires RegularCheck(a) && n >= 2 && |xv| == n && |yv| == n - 1
    ensures RegularAsWritten(n, a).Ok?
    ensures AllTables(RegularAsWritten(n, a).value.tables, xv, yv) <==>
      StartAt(a, xv, yv) && (forall i :: 1 <= i < n - 1 ==> MiddleAt(a, xv, yv, i)) && EndAt(a, xv, yv)
  {
    var tb := RegularTables(a);
    var first := TableCon([X(0), Y(0)], tb.start);
    var mids := MiddleCons(tb.middle, 1, n);
    var last := TableCon([Y(n - 2), X(n - 1)], tb.end);
    assert RegularAsWritten(n, a).value.tables == [first] + mids + [last];
    AllTablesConcat([first] + mids, [last], xv, yv);
    AllTablesConcat([first], mids, xv, yv);
    MiddleHold(a, xv, yv, 1);
    EndsHold(a, xv, yv, first, last);
  }

  /** The start and end constraints. */
  lemma EndsHold(a: Dfa, xv: seq<int>, yv: seq<int>, first: TableCon, last: TableCon)
    requires RegularCheck(a) && |xv| >= 2 && |yv| == |xv| - 1
    requires first == TableCon([X(0), Y(0)], RegularTables(a).start)
    requires last == TableCon([Y(|xv| - 2), X(|xv| - 1)], RegularTables(a).end)
    ensures AllTables([first], xv, yv) <==> StartAt(a, xv, yv)
    ensures AllTables([last], xv, yv) <==> EndAt(a, xv, yv)
  {
    var n := |xv|;
    assert seq(2, m requires 0 <= m < 2 => Val(xv, yv, first.vars[m])) == [xv[0], yv[0]];
    assert seq(2, m requires 0 <= m < 2 => Val(xv, yv, last.vars[m])) == [yv[n - 2], xv[n - 1]];
    assert [first][0] == first && [last][0] == last;
  }

  // ---------------------------------------------------------------------
  // Soundness and completeness

  /** In an accepting run no state before the end is the dead one. */
  lemma {:induction false} LiveBefore(a: Dfa, xv: seq<int>, k: nat, m: nat)
    requires RegularCheck(a) && k <= m <= |xv| && State(a, xv, m) != 0
    ensures State(a, xv, k) != 0
    decreases m - k
  {
    if k < m {
      LiveBefore(a, xv, k + 1, m);
    }
  }

  /** Satisfying state values are the states of the run. */
  lemma {:induction false} StatesFollowRun(a: Dfa, xv: seq<int>, yv: seq<int>, k: nat)
    requires RegularCheck(a) && |xv| >= 2 && |yv| == |xv| - 1 && k < |yv|
    requires StartAt(a, xv, yv)
    requires forall i :: 1 <= i < |xv| - 1 ==> MiddleAt(a, xv, yv, i)
    ensures yv[k] == State(a, xv, k + 1)
  {
    if k > 0 {
      StatesFollowRun(a, xv, yv, k - 1);
      assert MiddleAt(a, xv, yv, k);
    }
  }

  /** Tables that hold force an accepting run. */
  lemma RegularSound(n: nat, a: Dfa, xv: seq<int>)
    requires RegularCheck(a) && n >= 2 && |xv| == n
    ensures RegularAsWritten(n, a).Ok?
    ensures Admits(RegularAsWritten(n, a).value, a, xv) ==> Accepts(a, xv)
  {
    var p := RegularAsWritten(n, a).value;
    if Admits(p, a, xv) {
      var yv :| |yv| == n - 1 && YRange(yv, a.q) && AllTables(p.tables, xv, yv);
      PostedHolds(n, a, xv, yv);
      StatesFollowRun(a, xv, yv, n - 2);
      EndAccepts(a, xv, yv);
    }
  }

  /** An end transition out of the run's last state accepts the word. */
  lemma EndAccepts(a: Dfa, xv: seq<int>, yv: seq<int>)
    requires RegularCheck(a) && |xv| >= 2 && |yv| == |xv| - 1
    requires yv[|yv| - 1] == State(a, xv, |xv| - 1) && EndAt(a, xv, yv)
    ensures Accepts(a, xv)
  {
  }

  /** The states of a run, `y[k]` after the first `k + 1` symbols. */
  function RunStates(a: Dfa, xv: seq<int>): (yv: seq<int>)
    requires RegularCheck(a) && |xv| >= 1
    ensures |yv| == |xv| - 1
    ensures forall k :: 0 <= k < |yv| ==> yv[k] == State(a, xv, k + 1)
  {
    seq(|xv| - 1, (k: int) requires 0 <= k < |xv| - 1 => State(a, xv, k + 1))
  }

  /** A live step of the run is a live transition of the table. */
  lemma LiveStep(a: Dfa, xv: seq<int>, k: nat)
    requires RegularCheck(a) && k < |xv| && State(a, xv, k + 1) != 0
    ensures 1 <= State(a, xv, k) <= a.q && 1 <= xv[k] <= a.s
    ensures State(a, xv, k + 1) == a.d[State(a, xv, k) - 1][xv[k] - 1]
  {
  }

  /** The states of an accepted word's run meet every table's condition. */
  lemma RunMeetsTables(n: nat, a: Dfa, xv: seq<int>) returns (yv: seq<int>)
    requires RegularCheck(a) && n >= 2 && |xv| == n && Accepts(a, xv)
    ensures |yv| == n - 1 && YRange(yv, a.q)
    ensures StartAt(a, xv, yv) && EndAt(a, xv, yv)
    ensures forall i :: 1 <= i < n - 1 ==> MiddleAt(a, xv, yv, i)
  {
    DeadRejects(a);
    yv := RunStates(a, xv);
    forall k | 0 <= k < n - 1 ensures 1 <= yv[k] <= a.q {
      LiveBefore(a, xv, k + 1, n);
    }
    forall i | 1 <= i < n - 1 ensures MiddleAt(a, xv, yv, i) {
      LiveBefore(a, xv, i + 1, n);
      LiveStep(a, xv, i);
    }
    LiveBefore(a, xv, 1, n);
    LiveStep(a, xv, 0);
    assert StartAt(a, xv, yv);
    LiveStep(a, xv, n - 1);
  }

  /** The states of an accepting run satisfy the tables. */
  lemma RegularComplete(n: nat, a: Dfa, xv: seq<int>)
    requires RegularCheck(a) && n >= 2 && |xv| == n
    ensures RegularAsWritten(n, a).Ok?
    ensures Accepts(a, xv) ==> Admits(RegularAsWritten(n, a).value, a, xv)
  {
    PostedHolds(n, a, xv, xv[1..]);
    if Accepts(a, xv) {
      var yv := RunMeetsTables(n, a, xv);
      PostedHolds(n, a, xv, yv);
      assert YRange(yv, a.q) && AllTables(RegularAsWritten(n, a).value.tables, xv, yv);
    }
  }

  /** Two or more variables: the tables admit exactly the accepted words. */
  lemma RegularMeans(n: nat, a: Dfa, xv: seq<int>)
    requires RegularCheck(a) && n >= 2 && |xv| == n
    ensures RegularAsWritten(n, a).Ok?
    ensures Admits(RegularAsWritten(n, a).value, a, xv) <==> Accepts(a, xv)
  {
    RegularSound(n, a, xv);
    RegularComplete(n, a, xv);
  }

  /** A constraint on `x[0]` alone holds iff `x[0]` is one of its tuples. */
  lemma TableOnFirst(xv: seq<int>, yv: seq<int>, c: TableCon)
    requires c.vars == [X(0)] && |xv| == 1
    ensures TableHolds(xv, yv, c) <==> xv in c.tuples
  {
    assert seq(|c.vars|, m requires 0 <= m < |c.vars| => Val(xv, yv, c.vars[m])) == xv;
  }

  /** One variable, with short inputs handled: the table admits exactly the
      accepted one-symbol words. */
  lemma SingleMeans(a: Dfa, xv: seq<int>)
    requires RegularCheck(a) && |xv| == 1
    ensures RegularPost(1, a).Ok?
    ensures Admits(RegularPost(1, a).value, a, xv) <==> Accepts(a, xv)
  {
    var p := RegularPost(1, a).value;
    var c := TableCon([X(0)], AcceptedFirst(a, 0));
    assert p.tables == [c];
    OneSymbol(a, xv);
    if Accepts(a, xv) {
      var yv: seq<int> := [];
      TableOnFirst(xv, yv, c);
      assert YRange(yv, a.q) && AllTables(p.tables, xv, yv);
    }
    if Admits(p, a, xv) {
      var yw :| |yw| == p.ny && YRange(yw, a.q) && AllTables(p.tables, xv, yw);
      assert TableHolds(xv, yw, p.tables[0]);
      TableOnFirst(xv, yw, c);
    }
  }

  /** With short inputs handled, for every length the posting admits exactly
      the accepted words, and fails only when none is accepted. */
  lemma RegularPostMeans(n: nat, a: Dfa, xv: seq<int>)
    requires RegularCheck(a) && |xv| == n
    ensures RegularPost(n, a).Fail? ==> !Accepts(a, xv)
    ensures RegularPost(n, a).Ok? ==> (Admits(RegularPost(n, a).value, a, xv) <==> Accepts(a, xv))
  {
    if n >= 2 {
      RegularMeans(n, a, xv);
    } else if n == 1 {
      SingleMeans(a, xv);
    } else {
      var yv: seq<int> := [];
      assert Accept(a, a.q0) ==> YRange(yv, a.q) && AllTables([], xv, yv);
    }
  }
}
