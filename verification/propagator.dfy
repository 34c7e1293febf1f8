/** The propagator scaffolding of chuffed/core/propagator.h: registration,
    the per-priority propagation queues, the default hooks, the layout of
    reason clauses, and the "check the guard, then commit" discipline of the
    `TL_SET` and `setDom` macros. */
module Propagation {
  import opened Base
  import opened IntVars

  /** A registered propagator: its id, queue priority, the persistent
      `satisfied` flag and the transient `in_queue` flag. */
  datatype Prop = Prop(propId: nat, priority: nat, satisfied: bool, inQueue: bool)

  /** The engine's registry `propagators` and the queues `p_queue[priority]`,
      which hold propagator ids. */
  datatype Engine = Engine(props: seq<Prop>, queues: seq<seq<nat>>)

  /** Ids are registry positions, priorities name existing queues, queues hold
      only flagged propagators of their own priority, and nothing is queued twice. */
  predicate Consistent(e: Engine)
  {
    (forall i :: 0 <= i < |e.props| ==> e.props[i].propId == i && e.props[i].priority < |e.queues|) &&
    (forall q, k :: 0 <= q < |e.queues| && 0 <= k < |e.queues[q]| ==>
      e.queues[q][k] < |e.props| && e.props[e.queues[q][k]].inQueue &&
      e.props[e.queues[q][k]].priority == q) &&
    (forall q, k, l :: 0 <= q < |e.queues| && 0 <= k < l < |e.queues[q]| ==> e.queues[q][k] != e.queues[q][l])
  }

  /** `Propagator()`: the new propagator's id is the number registered before it. */
  function Register(e: Engine): (r: (Engine, nat))
    requires |e.queues| > 0
    ensures r.1 == |e.props| && |r.0.props| == |e.props| + 1
    ensures r.0.props[..|e.props|] == e.props
    ensures !r.0.props[r.1].satisfied && !r.0.props[r.1].inQueue && r.0.props[r.1].propId == r.1
    ensures r.0.queues == e.queues
    ensures Consistent(e) ==> Consistent(r.0)
  {
    var id := |e.props|;
    (e.(props := e.props + [Prop(id, 0, false, false)]), id)
  }

  /** `pushInQueue`: enqueue once, however often it is called. */
  function PushInQueue(e: Engine, id: nat): (r: Engine)
    requires id < |e.props| && e.props[id].priority < |e.queues|
    ensures |r.props| == |e.props| && |r.queues| == |e.queues|
    ensures r.props[id] == e.props[id].(inQueue := true)
    ensures forall j :: 0 <= j < |e.props| && j != id ==> r.props[j] == e.props[j]
    ensures e.props[id].inQueue ==> r == e
    ensures !e.props[id].inQueue ==>
      r.queues[e.props[id].priority] == e.queues[e.props[id].priority] + [id] &&
      forall q :: 0 <= q < |e.queues| && q != e.props[id].priority ==> r.queues[q] == e.queues[q]
    ensures Consistent(e) ==> Consistent(r)
  {
    var p := e.props[id];
    if p.inQueue then e
    else
      var r := Engine(e.props[id := p.(inQueue := true)], e.queues[p.priority := e.queues[p.priority] + [id]]);
      assert Consistent(e) ==> forall k :: 0 <= k < |e.queues[p.priority]| ==> e.queues[p.priority][k] != id;
      r
  }

  /** A second push changes nothing. */
  lemma PushInQueueIdempotent(e: Engine, id: nat)
    requires id < |e.props| && e.props[id].priority < |e.queues|
    ensures PushInQueue(PushInQueue(e, id), id) == PushInQueue(e, id)
  {
  }

  /** The default `wakeup(i, c)` ignores the position and the events and just enqueues. */
  function DefaultWakeup(e: Engine, id: nat, pos: nat, events: set<Event>): (r: Engine)
    requires id < |e.props| && e.props[id].priority < |e.queues|
    ensures |r.props| == |e.props| && |r.queues| == |e.queues|
    ensures r.props[id].inQueue
    ensures forall j :: 0 <= j < |e.props| && j != id ==> r.props[j] == e.props[j]
    ensures r.props[id] == e.props[id].(inQueue := true)
    ensures e.props[id].inQueue ==> r == e
    ensures !e.props[id].inQueue ==>
      r.queues[e.props[id].priority] == e.queues[e.props[id].priority] + [id] &&
      forall q :: 0 <= q < |e.queues| && q != e.props[id].priority ==> r.queues[q] == e.queues[q]
    ensures r == PushInQueue(e, id)
  {
    PushInQueue(e, id)
  }

  /** The default `clearPropState` resets the queue flag and nothing else. */
  function DefaultClearPropState(e: Engine, id: nat): (r: Engine)
    requires id < |e.props|
    ensures |r.props| == |e.props| && r.queues == e.queues
    ensures !r.props[id].inQueue
    ensures r.props[id].satisfied == e.props[id].satisfied && r.props[id].priority == e.props[id].priority
    ensures r.props[id].propId == e.props[id].propId
    ensures forall j :: 0 <= j < |e.props| && j != id ==> r.props[j] == e.props[j]
  {
    e.(props := e.props[id := e.props[id].(inQueue := false)])
  }

  /** The default `checkSatisfied` neither marks the propagator nor costs anything. */
  function DefaultCheckSatisfied(p: Prop): (r: (Prop, nat))
    ensures r.0 == p && r.1 == 0
  {
    (p, 0)
  }

  // ---------------------------------------------------------------------
  // Reason clauses

  /** A reason clause; slot 0 is left for the propagated literal. */
  type Reason = seq<Option<Lit>>

  /** `Reason_new(ps)`: a clause one longer than `ps`, pushed on the reason
      bucket `rtrail.last()` of the current decision level. */
  function ReasonNew(ps: seq<Lit>, rtrail: seq<seq<Reason>>): (r: (Reason, seq<seq<Reason>>))
    requires |rtrail| > 0
    ensures |r.0| == |ps| + 1 && r.0[0].None?
    ensures forall i :: 0 <= i < |ps| ==> r.0[i + 1] == Some(ps[i])
    ensures |r.1| == |rtrail| && r.1[..|rtrail| - 1] == rtrail[..|rtrail| - 1]
    ensures r.1[|rtrail| - 1] == rtrail[|rtrail| - 1] + [r.0]
  {
    var c := [None] + Wrap(ps);
    (c, rtrail[|rtrail| - 1 := rtrail[|rtrail| - 1] + [c]])
  }

  function Wrap(ps: seq<Lit>): (r: seq<Option<Lit>>)
    ensures |r| == |ps| && forall i :: 0 <= i < |ps| ==> r[i] == Some(ps[i])
  {
    if |ps| == 0 then [] else [Some(ps[0])] + Wrap(ps[1..])
  }

  // ---------------------------------------------------------------------
  // Guarded commits

  datatype DomOp = OpSetMin | OpSetMax | OpSetVal | OpRemVal

  /** `op##NotR(v)`: whether the operation would change the domain. */
  predicate NotR(x: IntVar, op: DomOp, v: int)
  {
    match op
    case OpSetMin => SetMinNotR(x, v)
    case OpSetMax => SetMaxNotR(x, v)
    case OpSetVal => SetValNotR(x, v)
    case OpRemVal => RemValNotR(x, v)
  }

  /** The values an operation lets through. */
  predicate Allows(op: DomOp, v: int, w: int)
  {
    match op
    case OpSetMin => w >= v
    case OpSetMax => w <= v
    case OpSetVal => w == v
    case OpRemVal => w != v
  }

  function Apply(x: IntVar, op: DomOp, v: int, finishedInit: bool): Res<IntVar>
    requires Valid(x) && NotR(x, op, v)
  {
    match op
    case OpSetMin => SetMin(x, v)
    case OpSetMax => SetMax(x, v)
    case OpSetVal => SetVal(x, v)
    case OpRemVal => RemVal(x, v, finishedInit)
  }

  /** `TL_SET(x, op, v)`: a no-op unless the guard holds; `Fail` (the
      `TL_FAIL()` of model construction) exactly when no value survives. */
  function TLSet(x: IntVar, op: DomOp, v: int, finishedInit: bool): (r: Res<IntVar>)
    requires Valid(x)
    ensures !NotR(x, op, v) ==> r == Ok(x)
    ensures r.Fail? <==> forall w :: InDom(x, w) ==> !Allows(op, v, w)
    ensures r.Fatal? <==> op == OpRemVal && InDom(x, v) && !IsFixed(x) && x.vals.None? && !finishedInit
    ensures r.Ok? ==> Valid(r.value)
    ensures r.Ok? && (op != OpRemVal || x.vals.Some?) ==>
      forall w :: InDom(r.value, w) <==> InDom(x, w) && Allows(op, v, w)
  {
    assert InDom(x, x.min) && InDom(x, x.max);
    if NotR(x, op, v) then Apply(x, op, v, finishedInit) else Ok(x)
  }

  /** The reason actually handed to the narrowing operation by `setDom`. */
  datatype ReasonArg = NotCalled | NullReason | Given(lits: seq<Lit>)

  /** `setDom(x, op, v, reason…)`: `Fail` is the enclosing `propagate`
      returning false; the reason is built only in lazy mode. */
  function SetDom(x: IntVar, op: DomOp, v: int, lazy: bool, reason: seq<Lit>, finishedInit: bool)
    : (r: (Res<IntVar>, ReasonArg))
    requires Valid(x)
    ensures r.0 == TLSet(x, op, v, finishedInit)
    ensures r.1.NotCalled? <==> !NotR(x, op, v)
    ensures NotR(x, op, v) && lazy ==> r.1 == Given(reason)
    ensures NotR(x, op, v) && !lazy ==> r.1 == NullReason
  {
    if NotR(x, op, v) then
      (Apply(x, op, v, finishedInit), if lazy then Given(reason) else NullReason)
    else (Ok(x), NotCalled)
  }
}
