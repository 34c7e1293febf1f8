/** The hash-consed node table of chuffed/mdd/MDD.cpp. Ids 0 and 1 are the
    FALSE and TRUE terminals; id `i >= 2` is the `(i - 2)`-th stored node.
    A node tests one variable: the value `v` follows the last edge whose
    `val` is at most `v`, or `low` when there is none. The node cache
    (`varcache`) maps each stored node to its id; since the table never
    stores a node twice, the model looks the node up in the table itself. */
module MddNodes {
  import opened Base

  // Messages of the fatal errors below.
  const StackOverrun := "insert: stack[start] read past the end of the stack"

  const MddFalse: nat := 0
  const MddTrue: nat := 1

  datatype Edge = Edge(val: int, dest: nat)

  datatype Node = Node(variable: nat, low: nat, edges: seq<Edge>)

  datatype Table = Table(nvars: nat, inner: seq<Node>)

  /** A node id together with the table it lives in. */
  datatype Out = Out(t: Table, r: nat)

  /** A list of edges together with the table their destinations live in. */
  datatype Outs = Outs(t: Table, es: seq<Edge>)

  /** An assignment of integer values to the variables. */
  type Point = nat -> int

  /** `nodes.size()`. */
  function Size(t: Table): nat
  {
    |t.inner| + 2
  }

  function Get(t: Table, r: nat): Node
    requires 2 <= r < Size(t)
  {
    t.inner[r - 2]
  }

  // ---------------------------------------------------------------------
  // Edge lists

  function Vals(es: seq<Edge>): (vs: seq<int>)
    ensures |vs| == |es|
  {
    seq(|es|, k requires 0 <= k < |es| => es[k].val)
  }

  predicate Sorted(es: seq<Edge>)
  {
    forall i, j :: 0 <= i < j < |es| ==> es[i].val < es[j].val
  }

  /** How many leading values are at most `v`. */
  function Steps(vs: seq<int>, v: int): (n: nat)
    ensures n <= |vs|
  {
    if |vs| == 0 || vs[0] > v then 0 else 1 + Steps(vs[1..], v)
  }

  /** The destination value `v` takes from a node with `low` and `es`. */
  function Follow(low: nat, es: seq<Edge>, v: int): (c: nat)
    ensures c == low || exists k :: 0 <= k < |es| && c == es[k].dest
  {
    var n := Steps(Vals(es), v);
    if n == 0 then low else es[n - 1].dest
  }

  lemma FollowUnfold(low: nat, es: seq<Edge>, v: int)
    ensures Follow(low, es, v) ==
      if |es| == 0 || es[0].val > v then low else Follow(es[0].dest, es[1..], v)
  {
    if |es| > 0 {
      assert Vals(es)[1..] == Vals(es[1..]);
    }
  }

  /** On a sorted list, the value of an edge follows that edge. */
  lemma {:induction false} FollowAt(low: nat, es: seq<Edge>, k: nat)
    requires Sorted(es) && k < |es|
    ensures Follow(low, es, es[k].val) == es[k].dest
    decreases k
  {
    FollowUnfold(low, es, es[k].val);
    if k > 0 {
      FollowAt(es[0].dest, es[1..], k - 1);
    } else if |es| > 1 {
      FollowUnfold(es[0].dest, es[1..], es[0].val);
    }
  }

  // ---------------------------------------------------------------------
  // Well-formedness

  /** `r` is a terminal or a node on a variable after `u`. */
  predicate Above(t: Table, r: nat, u: int)
  {
    r < 2 || (r < Size(t) && Get(t, r).variable > u)
  }

  /** A node may be stored with id `id`: its children are older nodes on
      later variables, and its edges are sorted by value. */
  predicate NodeOk(t: Table, n: Node, id: nat)
  {
    n.variable < t.nvars && n.low < id && Above(t, n.low, n.variable) && Sorted(n.edges) &&
    forall k :: 0 <= k < |n.edges| ==> n.edges[k].dest < id && Above(t, n.edges[k].dest, n.variable)
  }

  predicate Wf(t: Table)
  {
    (forall i :: 0 <= i < |t.inner| ==> NodeOk(t, t.inner[i], i + 2)) &&
    (forall i, j :: 0 <= i < j < |t.inner| ==> t.inner[i] != t.inner[j])
  }

  /** `t2` is `t` with nodes appended. */
  predicate Extends(t: Table, t2: Table)
  {
    t2.nvars == t.nvars && |t.inner| <= |t2.inner| &&
    forall i :: 0 <= i < |t.inner| ==> t2.inner[i] == t.inner[i]
  }

  lemma AboveExtends(t: Table, t2: Table)
    requires Extends(t, t2)
    ensures forall r: nat, u: int :: Above(t, r, u) ==> Above(t2, r, u)
  {
    forall r: nat, u: int | Above(t, r, u) ensures Above(t2, r, u) {
      if r >= 2 {
        assert Get(t2, r) == Get(t, r);
      }
    }
  }

  /** `o` is a well-formed extension of `t` holding a valid id. */
  predicate Grows(t: Table, o: Out)
  {
    Wf(o.t) && Extends(t, o.t) && o.r < Size(o.t)
  }

  // ---------------------------------------------------------------------
  // Meaning

  /** The Boolean function node `r` denotes, at the point `xs`. */
  predicate Eval(t: Table, r: nat, xs: Point)
    requires Wf(t) && r < Size(t)
    decreases r
  {
    if r < 2 then r == MddTrue
    else
      var n := Get(t, r);
      Eval(t, Follow(n.low, n.edges, xs(n.variable)), xs)
  }

  /** Appending nodes changes the meaning of no existing id. */
  lemma {:induction false} EvalExtends(t: Table, t2: Table, r: nat, xs: Point)
    requires Wf(t) && Wf(t2) && Extends(t, t2) && r < Size(t)
    ensures Eval(t2, r, xs) == Eval(t, r, xs)
    decreases r
  {
    if r >= 2 {
      var n := Get(t, r);
      assert Get(t2, r) == n;
      EvalExtends(t, t2, Follow(n.low, n.edges, xs(n.variable)), xs);
    }
  }

  /** `xs` with `variable` set to `v`. */
  function Set(xs: Point, variable: nat, v: int): (ys: Point)
    ensures ys(variable) == v && forall u :: u != variable ==> ys(u) == xs(u)
  {
    (u: nat) => if u == variable then v else xs(u)
  }

  /** A node above `variable` does not depend on it. */
  lemma {:induction false} EvalSet(t: Table, r: nat, variable: nat, v: int, xs: Point)
    requires Wf(t) && r < Size(t) && Above(t, r, variable)
    ensures Eval(t, r, Set(xs, variable, v)) == Eval(t, r, xs)
    decreases r
  {
    if r >= 2 {
      var n := Get(t, r);
      assert Set(xs, variable, v)(n.variable) == xs(n.variable);
      var c := Follow(n.low, n.edges, xs(n.variable));
      EvalSet(t, c, variable, v, xs);
    }
  }

  // ---------------------------------------------------------------------
  // insert

  /** Skip the leading edges that go to `low`. */
  function DropLow(low: nat, es: seq<Edge>): (r: seq<Edge>)
    ensures |r| <= |es| && r == es[|es| - |r|..]
    ensures |r| > 0 ==> r[0].dest != low
    ensures forall k :: 0 <= k < |es| - |r| ==> es[k].dest == low
  {
    if |es| > 0 && es[0].dest == low then DropLow(low, es[1..]) else es
  }

  /** Keep the first edge of each run with the same destination. */
  function Dedup(es: seq<Edge>): (r: seq<Edge>)
    ensures |r| <= |es|
    ensures |es| > 0 ==> |r| > 0 && r[0] == es[0]
    ensures forall k :: 0 <= k < |r| ==> r[k] in es
    ensures forall k :: 0 <= k < |r| - 1 ==> r[k].dest != r[k + 1].dest
    decreases |es|
  {
    if |es| <= 1 then es
    else if es[1].dest == es[0].dest then Dedup([es[0]] + es[2..])
    else [es[0]] + Dedup(es[1..])
  }

  lemma {:induction false} DedupSorted(es: seq<Edge>)
    requires Sorted(es)
    ensures Sorted(Dedup(es))
    decreases |es|
  {
    if |es| > 1 {
      if es[1].dest == es[0].dest {
        DedupSorted([es[0]] + es[2..]);
      } else {
        var d := Dedup(es[1..]);
        DedupSorted(es[1..]);
        forall k | 0 <= k < |d| ensures es[0].val < d[k].val {
          assert d[k] in es[1..];
        }
      }
    }
  }

  /** The edges `insert` keeps. */
  function Collapse(low: nat, es: seq<Edge>): seq<Edge>
  {
    Dedup(DropLow(low, es))
  }

  lemma {:induction false} DropLowFollow(low: nat, es: seq<Edge>, v: int)
    requires Sorted(es)
    ensures Follow(low, DropLow(low, es), v) == Follow(low, es, v)
    decreases |es|
  {
    if |es| > 0 && es[0].dest == low {
      DropLowFollow(low, es[1..], v);
      FollowUnfold(low, es, v);
      FollowUnfold(low, es[1..], v);
    }
  }

  lemma {:induction false} DedupFollow(p: nat, es: seq<Edge>, v: int)
    requires Sorted(es)
    ensures Follow(p, Dedup(es), v) == Follow(p, es, v)
    decreases |es|
  {
    if |es| > 1 {
      FollowUnfold(p, es, v);
      FollowUnfold(es[0].dest, es[1..], v);
      if es[1].dest == es[0].dest {
        var es2 := [es[0]] + es[2..];
        DedupFollow(p, es2, v);
        FollowUnfold(p, es2, v);
        assert es2[1..] == es[2..];
        FollowUnfold(es[0].dest, es[2..], v);
      } else {
        var d := Dedup(es[1..]);
        DedupFollow(es[0].dest, es[1..], v);
        FollowUnfold(p, [es[0]] + d, v);
        assert ([es[0]] + d)[1..] == d;
      }
    }
  }

  /** Collapsing edges changes no value's destination. */
  lemma CollapseFollow(low: nat, es: seq<Edge>, v: int)
    requires Sorted(es)
    ensures Follow(low, Collapse(low, es), v) == Follow(low, es, v)
  {
    var d := DropLow(low, es);
    assert Sorted(d);
    DropLowFollow(low, es, v);
    DedupFollow(low, d, v);
  }

  /** What `insert` needs of its arguments to keep the table well-formed. */
  predicate Fits(t: Table, variable: nat, low: nat, es: seq<Edge>)
  {
    variable < t.nvars && low < Size(t) && Above(t, low, variable) && Sorted(es) &&
    forall k :: 0 <= k < |es| ==> es[k].dest < Size(t) && Above(t, es[k].dest, variable)
  }

  /** The position of `n` in `s` from `i` on, if any. */
  function Find(s: seq<Node>, n: Node, i: nat): (r: Option<nat>)
    requires i <= |s|
    ensures r.Some? ==> i <= r.value < |s| && s[r.value] == n
    ensures r.None? ==> forall j :: i <= j < |s| ==> s[j] != n
    decreases |s| - i
  {
    if i == |s| then None else if s[i] == n then Some(i) else Find(s, n, i + 1)
  }

  /** Old nodes stay well placed in a longer table. */
  lemma NodeOkExtends(t: Table, t2: Table, n: Node, id: nat)
    requires Extends(t, t2) && id <= Size(t) && NodeOk(t, n, id)
    ensures NodeOk(t2, n, id)
  {
    forall c: nat | c < id && Above(t, c, n.variable) ensures Above(t2, c, n.variable) {
      if c >= 2 {
        assert Get(t2, c) == Get(t, c);
      }
    }
  }

  /** The collapsed node may take the next id. */
  lemma CollapseFits(t: Table, variable: nat, low: nat, es: seq<Edge>)
    requires Fits(t, variable, low, es)
    ensures NodeOk(t, Node(variable, low, Collapse(low, es)), Size(t))
  {
    var kept := Collapse(low, es);
    DedupSorted(DropLow(low, es));
    forall k | 0 <= k < |kept|
      ensures kept[k].dest < Size(t) && Above(t, kept[k].dest, variable)
    {
      KeptFits(t, variable, low, es, k);
    }
  }

  /** Each kept edge is one of the original edges, so it fits too. */
  lemma KeptFits(t: Table, variable: nat, low: nat, es: seq<Edge>, k: nat)
    requires Fits(t, variable, low, es) && k < |Collapse(low, es)|
    ensures Collapse(low, es)[k].dest < Size(t) && Above(t, Collapse(low, es)[k].dest, variable)
  {
    var dropped := DropLow(low, es);
    var e := Collapse(low, es)[k];
    assert e in dropped;
    EdgeFits(t, variable, low, es, |es| - |dropped|, e);
  }

  /** An edge of a suffix of fitting edges fits. */
  lemma EdgeFits(t: Table, variable: nat, low: nat, es: seq<Edge>, m: nat, e: Edge)
    requires Fits(t, variable, low, es) && m <= |es| && e in es[m..]
    ensures e.dest < Size(t) && Above(t, e.dest, variable)
  {
    var j :| m <= j < |es| && es[j] == e;
  }

  /** `nodes.push_back(act)`: store a node not yet stored. */
  function Append(t: Table, n: Node): (o: Out)
    requires Wf(t) && NodeOk(t, n, Size(t))
    requires forall i :: 0 <= i < |t.inner| ==> t.inner[i] != n
    ensures Grows(t, o) && o.t.inner == t.inner + [n] && o.r == Size(t) && Get(o.t, o.r) == n
  {
    var t2 := Table(t.nvars, t.inner + [n]);
    forall i | 0 <= i < |t2.inner| ensures NodeOk(t2, t2.inner[i], i + 2) {
      if i < |t.inner| {
        NodeOkExtends(t, t2, t.inner[i], i + 2);
      } else {
        NodeOkExtends(t, t2, n, Size(t));
      }
    }
    Out(t2, Size(t))
  }

  /** The id of `n`: that of an identical stored node, or the next id
      once `n` is appended. */
  function Store(t: Table, n: Node): (o: Out)
    requires Wf(t) && NodeOk(t, n, Size(t))
    ensures Grows(t, o) && 2 <= o.r && Get(o.t, o.r) == n
    ensures o.t == t || (o.t.inner == t.inner + [n] && o.r == Size(t))
    ensures (exists i :: 2 <= i < Size(t) && Get(t, i) == n) ==> o.t == t
  {
    match Find(t.inner, n, 0)
    case Some(i) => Out(t, i + 2)
    case None => Append(t, n)
  }

  /** `insert(var, low, start, expand)`, with the edges pushed since
      `start` as `es`: collapse them; without edges and without `expand`
      the node is `low`; otherwise return the id of an identical stored
      node, or store it under the next id. */
  function Insert(t: Table, variable: nat, low: nat, es: seq<Edge>, expand: bool): (o: Out)
    requires Wf(t) && Fits(t, variable, low, es)
    ensures Grows(t, o)
    ensures if |Collapse(low, es)| == 0 && !expand then o == Out(t, low)
      else 2 <= o.r && Get(o.t, o.r) == Node(variable, low, Collapse(low, es))
    ensures o.t == t || (o.t.inner == t.inner + [Node(variable, low, Collapse(low, es))] && o.r == Size(t))
    ensures (exists i :: 2 <= i < Size(t) && Get(t, i) == Node(variable, low, Collapse(low, es))) ==> o.t == t
  {
    var kept := Collapse(low, es);
    if |kept| == 0 && !expand then Out(t, low)
    else
      CollapseFits(t, variable, low, es);
      Store(t, Node(variable, low, kept))
  }

  /** A stored node means what its edges mean. */
  lemma StoredMeans(t: Table, r: nat, n: Node, xs: Point)
    requires Wf(t) && 2 <= r < Size(t) && Get(t, r) == n
    ensures Eval(t, r, xs) == Eval(t, Follow(n.low, n.edges, xs(n.variable)), xs)
  {
  }

  /** The node `insert` returns means what the edges it was given mean. */
  lemma InsertMeans(t: Table, variable: nat, low: nat, es: seq<Edge>, expand: bool, xs: Point)
    requires Wf(t) && Fits(t, variable, low, es)
    ensures var o := Insert(t, variable, low, es, expand);
      Eval(o.t, o.r, xs) == Eval(t, Follow(low, es, xs(variable)), xs)
  {
    var o := Insert(t, variable, low, es, expand);
    var kept := Collapse(low, es);
    CollapseFollow(low, es, xs(variable));
    if |kept| == 0 && !expand {
      assert Follow(low, kept, xs(variable)) == low;
    } else {
      EvalExtends(t, o.t, Follow(low, es, xs(variable)), xs);
      StoredMeans(o.t, o.r, Node(variable, low, kept), xs);
    }
  }

  /** `insert` as written: with nothing kept and no `expand` it returns
      `stack[start].dest`, which lies past the end of the stack when no
      edge was pushed since `start`. */
  function InsertAsWritten(t: Table, variable: nat, low: nat, es: seq<Edge>, expand: bool): (r: Res<Out>)
    requires Wf(t) && Fits(t, variable, low, es)
    ensures r.Fatal? <==> |es| == 0 && !expand
    ensures r.Ok? ==> r.value == Insert(t, variable, low, es, expand)
    ensures !r.Fail?
  {
    if |Collapse(low, es)| == 0 && !expand then
      if |es| == 0 then Fatal(StackOverrun)
      else
        assert DropLow(low, es) == [];
        Ok(Out(t, es[0].dest))
    else Ok(Insert(t, variable, low, es, expand))
  }

  /** Two edge lists with the same values pick the same position for
      every value: `-1` for `low`, else the index of the edge taken. */
  lemma FollowMapped(low: nat, es: seq<Edge>, low2: nat, es2: seq<Edge>, v: int) returns (k: int)
    requires |es| == |es2| && forall i :: 0 <= i < |es| ==> es[i].val == es2[i].val
    ensures -1 <= k < |es|
    ensures k == -1 ==> Follow(low, es, v) == low && Follow(low2, es2, v) == low2
    ensures k >= 0 ==> Follow(low, es, v) == es[k].dest && Follow(low2, es2, v) == es2[k].dest
  {
    assert Vals(es) == Vals(es2);
    k := Steps(Vals(es), v) - 1;
  }
}
