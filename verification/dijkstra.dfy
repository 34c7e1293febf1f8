/** `Dijkstra::run` of chuffed/support/dijkstra.cpp: single-source shortest
    path labelling in which the label of a node is the time at which it is
    finished, its own duration included. Edge weights, durations, the
    filters on edges and nodes and the order in which the priority queue
    hands out its entries are the subclass hooks of the source; here they
    are parameters. */
module Dijkstra {
  import opened Base

  // Messages of the fatal errors below.
  const CostUnset := "cost[other] != -1"

  /** Nodes `0..nbNodes`; edge `e` runs from `en[e].0` to `en[e].1`;
      `out[n]` lists the edges leaving `n`. */
  datatype Graph = Graph(nbNodes: nat, en: seq<(nat, nat)>, out: seq<seq<nat>>)

  /** Every listed out-edge exists, leaves the node that lists it and
      enters a node of the graph. */
  predicate GraphOk(g: Graph)
  {
    |g.out| == g.nbNodes &&
    forall n, i :: 0 <= n < g.nbNodes && 0 <= i < |g.out[n]| ==>
      g.out[n][i] < |g.en| && g.en[g.out[n][i]].0 == n && g.en[g.out[n][i]].1 < g.nbNodes
  }

  /** The hooks: `weight(e)` (used to reject negative edges), `weight(e,
      t)` (the cost of `e` when leaving at time `t`), `duration(n)`,
      `ignore_edge`, `ignore_node`, and the queue's choice of the next
      entry (taken modulo the queue length). */
  datatype Hooks = Hooks(
    weight: nat -> int,
    weightAt: (nat, int) -> int,
    duration: nat -> int,
    ignoreEdge: nat -> bool,
    ignoreNode: nat -> bool,
    pick: seq<Entry> -> nat)

  /** A queue entry: a node and the label it had when pushed. */
  datatype Entry = Entry(node: nat, cost: int)

  /** The state of a run: `pred`, `cost`, `has_kids`, the visited nodes
      in visiting order, and the queue. */
  datatype Search = Search(pred: seq<int>, cost: seq<int>, hasKids: seq<bool>, visited: seq<nat>, queue: seq<Entry>)

  predicate Sized(g: Graph, s: Search)
  {
    |s.pred| == g.nbNodes && |s.cost| == g.nbNodes && |s.hasKids| == g.nbNodes
  }

  predicate Distinct(xs: seq<nat>)
  {
    forall i, j :: 0 <= i < j < |xs| ==> xs[i] != xs[j]
  }

  /** The label `costN` of `n` is reached from `p`, labelled `costP`, over
      the usable edge `e`. */
  predicate Via(g: Graph, h: Hooks, p: nat, e: nat, n: nat, costP: int, costN: int)
  {
    e < |g.en| && g.en[e] == (p, n) && !h.ignoreEdge(e) && h.weight(e) >= 0 &&
    costN == costP + h.weightAt(e, costP) + h.duration(n)
  }

  /** Node `n`'s label was set from its predecessor: a visited node with
      children, through one of its out-edges. */
  ghost predicate Justified(g: Graph, h: Hooks, s: Search, n: nat)
    requires GraphOk(g) && Sized(g, s) && n < g.nbNodes
  {
    var p := s.pred[n];
    0 <= p < g.nbNodes && p in s.visited && s.hasKids[p] && !h.ignoreNode(n) &&
    exists i :: 0 <= i < |g.out[p]| && Via(g, h, p, g.out[p][i], n, s.cost[p], s.cost[n])
  }

  /** `p` was visited before `n`. */
  ghost predicate Earlier(xs: seq<nat>, p: nat, n: nat)
  {
    exists i, j :: 0 <= i < j < |xs| && xs[i] == p && xs[j] == n
  }

  /** The bookkeeping of a run: the source labels itself, visits are
      distinct and start at the source, visited and queued nodes are
      labelled, and apart from the source a node has a predecessor exactly
      when it has a label. */
  ghost predicate Shape(g: Graph, h: Hooks, source: nat, s: Search)
  {
    GraphOk(g) && source < g.nbNodes && Sized(g, s) &&
    s.pred[source] == source && s.cost[source] == h.duration(source) &&
    (|s.visited| > 0 ==> s.visited[0] == source) &&
    Distinct(s.visited) &&
    (forall k :: 0 <= k < |s.visited| ==> s.visited[k] < g.nbNodes && s.pred[s.visited[k]] != -1) &&
    (forall k :: 0 <= k < |s.queue| ==> s.queue[k].node < g.nbNodes && s.pred[s.queue[k].node] != -1) &&
    (forall n :: 0 <= n < g.nbNodes && n != source ==> (s.pred[n] == -1 <==> s.cost[n] == -1))
  }

  /** Every label other than the source's was set through an edge. */
  ghost predicate AllJustified(g: Graph, h: Hooks, source: nat, s: Search)
    requires GraphOk(g) && Sized(g, s)
  {
    forall n :: 0 <= n < g.nbNodes && n != source && s.pred[n] != -1 ==> Justified(g, h, s, n)
  }

  /** A visited node's predecessor was visited before it. */
  ghost predicate Ordered(g: Graph, source: nat, s: Search)
    requires Sized(g, s)
  {
    forall n :: 0 <= n < g.nbNodes && n != source && 0 <= s.pred[n] && n in s.visited ==> Earlier(s.visited, s.pred[n], n)
  }

  /** What holds of a run between two queue pops. */
  ghost predicate Core(g: Graph, h: Hooks, source: nat, s: Search)
  {
    Shape(g, h, source, s) && AllJustified(g, h, source, s) && Ordered(g, source, s)
  }

  ghost predicate Inv(g: Graph, h: Hooks, source: nat, s: Search)
  {
    Core(g, h, source, s) &&
    (|s.visited| == 0 ==> s.queue == [Entry(source, h.duration(source))])
  }

  /** The state before the first pop: only the source is labelled, by its
      own duration, and it is its own predecessor. */
  function Start(g: Graph, h: Hooks, source: nat): (s: Search)
    requires source < g.nbNodes
    ensures Sized(g, s) && s.visited == []
    ensures s.pred[source] == source && s.cost[source] == h.duration(source)
    ensures forall n :: 0 <= n < g.nbNodes && n != source ==> s.pred[n] == -1 && s.cost[n] == -1
    ensures forall n :: 0 <= n < g.nbNodes ==> !s.hasKids[n]
    ensures s.queue == [Entry(source, h.duration(source))]
  {
    Search(
      seq(g.nbNodes, n requires 0 <= n < g.nbNodes => if n == source then source else -1),
      seq(g.nbNodes, n requires 0 <= n < g.nbNodes => if n == source then h.duration(source) else -1),
      seq(g.nbNodes, n => false),
      [],
      [Entry(source, h.duration(source))])
  }

  lemma StartInv(g: Graph, h: Hooks, source: nat)
    requires GraphOk(g) && source < g.nbNodes
    ensures Inv(g, h, source, Start(g, h, source))
  {
  }

  /** The label `other` would get through edge `e` out of `curr`. */
  function Candidate(h: Hooks, s: Search, curr: nat, e: nat, other: nat): int
    requires curr < |s.cost|
  {
    s.cost[curr] + h.weightAt(e, s.cost[curr]) + h.duration(other)
  }

  /** The edge is passed over: ignored or negative, or its head is ignored
      or already visited. */
  predicate Skipped(g: Graph, h: Hooks, s: Search, e: nat, other: nat)
  {
    h.ignoreEdge(e) || h.weight(e) < 0 || h.ignoreNode(other) || other in s.visited
  }

  /** Scanning the `i`-th out-edge of `curr`: a head that is unlabelled, or
      whose label the edge strictly improves, gets the new label, `curr` as
      predecessor and a queue entry, and `curr` gets children. A new label
      of -1 fails the source's assertion. */
  function Relax(g: Graph, h: Hooks, s: Search, curr: nat, i: nat): (r: Res<Search>)
    requires GraphOk(g) && Sized(g, s) && curr < g.nbNodes && i < |g.out[curr]|
    ensures !r.Fail?
    ensures var e := g.out[curr][i]; var other := g.en[e].1; var c := Candidate(h, s, curr, e, other);
      var update := !Skipped(g, h, s, e, other) && (s.cost[other] == -1 || s.cost[other] > c);
      (r == Ok(s) <==> !update) &&
      (r.Fatal? <==> update && c == -1) &&
      (r.Ok? && update ==>
        r.value == s.(cost := s.cost[other := c], pred := s.pred[other := curr],
                      hasKids := s.hasKids[curr := true], queue := s.queue + [Entry(other, c)]))
  {
    var e := g.out[curr][i];
    var other := g.en[e].1;
    if h.ignoreEdge(e) || h.weight(e) < 0 then Ok(s)
    else if h.ignoreNode(other) then Ok(s)
    else if other in s.visited then Ok(s)
    else
      var c := s.cost[curr] + h.weightAt(e, s.cost[curr]) + h.duration(other);
      if s.cost[other] == -1 || s.cost[other] > c then
        if c == -1 then Fatal(CostUnset)
        else
          var s2 := s.(cost := s.cost[other := c], pred := s.pred[other := curr],
                       hasKids := s.hasKids[curr := true], queue := s.queue + [Entry(other, c)]);
          assert |s2.queue| > |s.queue|;
          Ok(s2)
      else Ok(s)
  }

  /** Scans the out-edges of `curr` from the `i`-th on. */
  function Scan(g: Graph, h: Hooks, s: Search, curr: nat, i: nat): (r: Res<Search>)
    requires GraphOk(g) && Sized(g, s) && curr < g.nbNodes && i <= |g.out[curr]|
    ensures !r.Fail?
    ensures r.Ok? ==> Sized(g, r.value) && r.value.visited == s.visited
    decreases |g.out[curr]| - i
  {
    if i == |g.out[curr]| then Ok(s)
    else
      match Relax(g, h, s, curr, i)
      case Ok(s2) => Scan(g, h, s2, curr, i + 1)
      case Fatal(msg) => Fatal(msg)
  }

  /** The labelled node `other` keeps its justification when its own and
      its predecessor's labels stay and the predecessor stays visited with
      children. */
  lemma JustifiedKept(g: Graph, h: Hooks, s: Search, s2: Search, n: nat)
    requires GraphOk(g) && Sized(g, s) && Sized(g, s2) && n < g.nbNodes && Justified(g, h, s, n)
    requires s2.pred[n] == s.pred[n] && s2.cost[n] == s.cost[n]
    requires s2.cost[s.pred[n]] == s.cost[s.pred[n]] && s.pred[n] in s2.visited && s2.hasKids[s.pred[n]]
    ensures Justified(g, h, s2, n)
  {
    var p := s.pred[n];
    var i :| 0 <= i < |g.out[p]| && Via(g, h, p, g.out[p][i], n, s.cost[p], s.cost[n]);
    assert Via(g, h, p, g.out[p][i], n, s2.cost[p], s2.cost[n]);
  }

  /** Relaxing an out-edge of a visited node keeps the run's invariant. */
  lemma RelaxKeeps(g: Graph, h: Hooks, source: nat, s: Search, curr: nat, i: nat)
    requires Core(g, h, source, s) && curr in s.visited && i < |g.out[curr]|
    requires Relax(g, h, s, curr, i).Ok?
    ensures Core(g, h, source, Relax(g, h, s, curr, i).value)
  {
    var s2 := Relax(g, h, s, curr, i).value;
    if s2 != s {
      var e := g.out[curr][i];
      var other := g.en[e].1;
      var c := Candidate(h, s, curr, e, other);
      assert s.visited[0] == source;
      RelaxShape(g, h, source, s, s2, curr, other, c);
      RelaxJustified(g, h, source, s, s2, curr, i, other, c);
    }
  }

  lemma RelaxShape(g: Graph, h: Hooks, source: nat, s: Search, s2: Search, curr: nat, other: nat, c: int)
    requires Shape(g, h, source, s) && curr in s.visited && other < g.nbNodes && other !in s.visited && other != source
    requires c != -1
    requires s2 == s.(cost := s.cost[other := c], pred := s.pred[other := curr],
                      hasKids := s.hasKids[curr := true], queue := s.queue + [Entry(other, c)])
    ensures Shape(g, h, source, s2)
  {
  }

  lemma RelaxJustified(g: Graph, h: Hooks, source: nat, s: Search, s2: Search, curr: nat, i: nat, other: nat, c: int)
    requires GraphOk(g) && Sized(g, s) && AllJustified(g, h, source, s) && curr in s.visited
    requires curr < g.nbNodes && i < |g.out[curr]| && other !in s.visited && other != source
    requires Via(g, h, curr, g.out[curr][i], other, s.cost[curr], c) && !h.ignoreNode(other)
    requires s2 == s.(cost := s.cost[other := c], pred := s.pred[other := curr],
                      hasKids := s.hasKids[curr := true], queue := s.queue + [Entry(other, c)])
    ensures AllJustified(g, h, source, s2) && Ordered(g, source, s2) == Ordered(g, source, s)
  {
    assert curr != other;
    assert Via(g, h, curr, g.out[curr][i], other, s2.cost[curr], s2.cost[other]);
    forall n | 0 <= n < g.nbNodes && n != source && s2.pred[n] != -1
      ensures Justified(g, h, s2, n)
    {
      if n != other {
        JustifiedKept(g, h, s, s2, n);
      }
    }
  }

  /** Scanning every out-edge of a visited node keeps the invariant. */
  lemma {:induction false} ScanKeeps(g: Graph, h: Hooks, source: nat, s: Search, curr: nat, i: nat)
    requires Core(g, h, source, s) && curr in s.visited && i <= |g.out[curr]|
    requires Scan(g, h, s, curr, i).Ok?
    ensures Core(g, h, source, Scan(g, h, s, curr, i).value)
    decreases |g.out[curr]| - i
  {
    if i < |g.out[curr]| {
      RelaxKeeps(g, h, source, s, curr, i);
      ScanKeeps(g, h, source, Relax(g, h, s, curr, i).value, curr, i + 1);
    }
  }

  /** Taking entry `k` off the queue keeps the invariant's core. */
  lemma PopKeeps(g: Graph, h: Hooks, source: nat, s: Search, k: nat)
    requires Core(g, h, source, s) && k < |s.queue|
    ensures Core(g, h, source, s.(queue := s.queue[..k] + s.queue[k + 1..]))
  {
    var s2 := s.(queue := s.queue[..k] + s.queue[k + 1..]);
    forall n | 0 <= n < g.nbNodes && n != source && s2.pred[n] != -1
      ensures Justified(g, h, s2, n)
    {
      JustifiedKept(g, h, s, s2, n);
    }
    forall j | 0 <= j < |s2.queue| ensures s2.queue[j].node < g.nbNodes && s2.pred[s2.queue[j].node] != -1 {
      if j < k {
        assert s2.queue[j] == s.queue[j];
      } else {
        assert s2.queue[j] == s.queue[j + 1];
      }
    }
  }

  /** Marking a labelled, unvisited node visited keeps the invariant's
      core, provided the first node visited is the source. */
  lemma VisitKeeps(g: Graph, h: Hooks, source: nat, s: Search, curr: nat)
    requires Core(g, h, source, s) && curr < g.nbNodes && s.pred[curr] != -1 && curr !in s.visited
    requires |s.visited| == 0 ==> curr == source
    ensures Core(g, h, source, s.(visited := s.visited + [curr]))
  {
    var s2 := s.(visited := s.visited + [curr]);
    VisitShape(g, h, source, s, curr);
    forall n | 0 <= n < g.nbNodes && n != source && s2.pred[n] != -1
      ensures Justified(g, h, s2, n)
    {
      JustifiedKept(g, h, s, s2, n);
    }
    VisitOrdered(g, h, source, s, curr);
  }

  lemma VisitShape(g: Graph, h: Hooks, source: nat, s: Search, curr: nat)
    requires Shape(g, h, source, s) && curr < g.nbNodes && s.pred[curr] != -1 && curr !in s.visited
    requires |s.visited| == 0 ==> curr == source
    ensures Shape(g, h, source, s.(visited := s.visited + [curr]))
  {
  }

  lemma VisitOrdered(g: Graph, h: Hooks, source: nat, s: Search, curr: nat)
    requires GraphOk(g) && Sized(g, s) && AllJustified(g, h, source, s) && Ordered(g, source, s)
    requires curr < g.nbNodes
    ensures Ordered(g, source, s.(visited := s.visited + [curr]))
  {
    var s2 := s.(visited := s.visited + [curr]);
    forall n | 0 <= n < g.nbNodes && n != source && 0 <= s2.pred[n] && n in s2.visited
      ensures Earlier(s2.visited, s2.pred[n], n)
    {
      if n in s.visited {
        var i, j :| 0 <= i < j < |s.visited| && s.visited[i] == s.pred[n] && s.visited[j] == n;
        assert s2.visited[i] == s.visited[i] && s2.visited[j] == s.visited[j];
      } else {
        assert n == curr && Justified(g, h, s, n);
        var i :| 0 <= i < |s.visited| && s.visited[i] == s.pred[n];
        assert s2.visited[i] == s.pred[n] && s2.visited[|s.visited|] == n;
      }
    }
  }

  /** One pass of the main loop: pop an entry and, when its node is not yet
      visited, visit it and scan its out-edges. */
  function Round(g: Graph, h: Hooks, s: Search): (r: Res<Search>)
    requires GraphOk(g) && Sized(g, s) && |s.queue| > 0
    requires forall k :: 0 <= k < |s.queue| ==> s.queue[k].node < g.nbNodes
    ensures !r.Fail?
    ensures r.Ok? ==> Sized(g, r.value)
    ensures r.Ok? ==> (|r.value.visited| == |s.visited| && |r.value.queue| < |s.queue|) ||
                      |r.value.visited| == |s.visited| + 1
  {
    var k := h.pick(s.queue) % |s.queue|;
    var curr := s.queue[k].node;
    var popped := s.(queue := s.queue[..k] + s.queue[k + 1..]);
    if curr in s.visited then Ok(popped)
    else Scan(g, h, popped.(visited := s.visited + [curr]), curr, 0)
  }

  lemma RoundKeeps(g: Graph, h: Hooks, source: nat, s: Search)
    requires Inv(g, h, source, s) && |s.queue| > 0
    requires Round(g, h, s).Ok?
    ensures Inv(g, h, source, Round(g, h, s).value)
  {
    var k := h.pick(s.queue) % |s.queue|;
    var curr := s.queue[k].node;
    var popped := s.(queue := s.queue[..k] + s.queue[k + 1..]);
    PopKeeps(g, h, source, s, k);
    if curr !in s.visited {
      VisitKeeps(g, h, source, popped, curr);
      ScanKeeps(g, h, source, popped.(visited := s.visited + [curr]), curr, 0);
    }
  }

  /** `path` follows predecessors from its first node to its last. */
  predicate PredPath(s: Search, path: seq<nat>)
  {
    |path| >= 1 &&
    forall k :: 0 <= k < |path| - 1 ==> path[k] < |s.pred| && s.pred[path[k]] == path[k + 1]
  }

  /** The predecessor of a labelled node other than the source is a
      labelled node visited before it. */
  lemma PredEarlier(g: Graph, h: Hooks, source: nat, s: Search, n: nat, j: nat) returns (i: nat)
    requires Core(g, h, source, s) && n < g.nbNodes && s.pred[n] != -1 && n != source
    requires (j < |s.visited| && s.visited[j] == n) || (j == |s.visited| && n !in s.visited)
    ensures i < j && s.visited[i] == s.pred[n] && s.pred[s.pred[n]] != -1
  {
    assert Justified(g, h, s, n);
    i :| 0 <= i < |s.visited| && s.visited[i] == s.pred[n];
    if j < |s.visited| {
      var i2, j2 :| 0 <= i2 < j2 < |s.visited| && s.visited[i2] == s.pred[n] && s.visited[j2] == n;
      assert j2 == j && i2 == i;
    }
  }

  /** Following predecessors from a labelled node that is visited at
      position `j` (or unvisited, with `j` the number of visits) ends at
      the source: each step goes to a node visited earlier. */
  lemma {:induction false} ReachesSourceFrom(g: Graph, h: Hooks, source: nat, s: Search, n: nat, j: nat) returns (path: seq<nat>)
    requires Core(g, h, source, s) && n < g.nbNodes && s.pred[n] != -1
    requires (j < |s.visited| && s.visited[j] == n) || (j == |s.visited| && n !in s.visited)
    ensures PredPath(s, path) && path[0] == n && path[|path| - 1] == source
    decreases j
  {
    if n == source {
      path := [n];
    } else {
      var i := PredEarlier(g, h, source, s, n, j);
      var rest := ReachesSourceFrom(g, h, source, s, s.visited[i], i);
      path := ConsPath(s, n, rest);
    }
  }

  /** A step to the predecessor extends a predecessor path. */
  lemma ConsPath(s: Search, n: nat, rest: seq<nat>) returns (path: seq<nat>)
    requires PredPath(s, rest) && n < |s.pred| && s.pred[n] == rest[0]
    ensures path == [n] + rest && PredPath(s, path) && path[|path| - 1] == rest[|rest| - 1]
  {
    path := [n] + rest;
    assert forall k :: 1 <= k < |path| ==> path[k] == rest[k - 1];
  }

  /** The predecessors form a tree rooted at the source: from every
      labelled node they lead back to it. */
  lemma ReachesSource(g: Graph, h: Hooks, source: nat, s: Search, n: nat)
    requires Core(g, h, source, s) && n < g.nbNodes && s.pred[n] != -1
    ensures exists path :: PredPath(s, path) && path[0] == n && path[|path| - 1] == source
  {
    if n in s.visited {
      var j :| 0 <= j < |s.visited| && s.visited[j] == n;
      var path := ReachesSourceFrom(g, h, source, s, n, j);
    } else {
      var path := ReachesSourceFrom(g, h, source, s, n, |s.visited|);
    }
  }

  /** `Dijkstra::run`: pops entries while the queue is not empty and fewer
      than `nb_nodes` nodes have been visited. */
  method Run(g: Graph, h: Hooks, source: nat) returns (r: Res<Search>)
    requires GraphOk(g) && source < g.nbNodes
    ensures !r.Fail?
    ensures r.Ok? ==> Inv(g, h, source, r.value)
    ensures r.Ok? ==> r.value.pred[source] == source && r.value.cost[source] == h.duration(source)
    ensures r.Ok? ==> Distinct(r.value.visited) && |r.value.visited| <= g.nbNodes
    ensures r.Ok? ==> forall n :: 0 <= n < g.nbNodes && n != source && h.ignoreNode(n) ==> r.value.pred[n] == -1
    ensures r.Ok? ==> forall n :: 0 <= n < g.nbNodes && n != source && r.value.pred[n] != -1 ==>
      var p := r.value.pred[n];
      0 <= p < g.nbNodes && p in r.value.visited && r.value.hasKids[p] &&
      exists i :: 0 <= i < |g.out[p]| && Via(g, h, p, g.out[p][i], n, r.value.cost[p], r.value.cost[n])
    ensures r.Ok? ==> |r.value.queue| == 0 || |r.value.visited| == g.nbNodes
  {
    var s := Start(g, h, source);
    StartInv(g, h, source);
    while |s.queue| > 0 && |s.visited| < g.nbNodes
      invariant Inv(g, h, source, s) && |s.visited| <= g.nbNodes
      decreases g.nbNodes - |s.visited|, |s.queue|
    {
      var next := Round(g, h, s);
      match next
      case Fatal(msg) =>
        return Fatal(msg);
      case Ok(s2) =>
        RoundKeeps(g, h, source, s);
        s := s2;
    }
    r := Ok(s);
  }
}
