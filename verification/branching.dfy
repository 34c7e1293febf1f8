/** The search-strategy tree of chuffed/branching/branching.cpp: a group of
    branchings that remembers when it is exhausted, sticks with the child it
    last chose, and otherwise picks the first unfinished child, a random one,
    or one with the best score. Children are seen through what the group asks
    of them: whether they are finished and what they score. The random draw of
    `engine.rnd` is an arbitrary `pick` the contracts hold for. */
module Branching {
  import opened Base
  import opened IntVars

  // Messages of the fatal errors below.
  const NoValueSelection := "The value selection branching is not yet supported"

  /** The variable-selection strategies a group or a view distinguishes; the
      remaining ones of `VarBranch` are folded into `VarOther`. */
  datatype VarBranch =
    | VarInorder | VarRandom
    | VarMinMin | VarMinMax | VarMaxMin | VarMaxMax
    | VarSizeMin | VarSizeMax | VarDegreeMin | VarDegreeMax
    | VarActivity | VarRegretMinMax | VarOther

  /** The value-selection strategies of a search annotation; `ValOther`
      stands for those without a preferred value (random, split by interval…). */
  datatype ValBranch = ValDefault | ValMin | ValMax | ValMedian | ValSplitMin | ValSplitMax | ValOther

  /** The state of a `BranchGroup`: its strategy, whether it may remember its
      choice (`terminal` groups never do), the memo `fin` and the child `cur`
      it is working on (-1 for none). */
  datatype Group = Group(varBranch: VarBranch, terminal: bool, fin: bool, cur: int)

  /** A new group: not finished and working on no child. */
  function NewGroup(vb: VarBranch, terminal: bool): (g: Group)
    ensures !g.fin && g.cur < 0 && g.varBranch == vb && g.terminal == terminal
  {
    Group(vb, terminal, false, -1)
  }

  predicate AllFinished(childFin: seq<bool>)
  {
    forall i :: 0 <= i < |childFin| ==> childFin[i]
  }

  /** `finished()`: once `fin` is set the children are not consulted again;
      otherwise the group is finished exactly when every child is, and then
      remembers it. */
  function Finished(g: Group, childFin: seq<bool>): (r: (bool, Group))
    ensures r.0 <==> g.fin || AllFinished(childFin)
    ensures r.1 == g.(fin := r.0)
  {
    if g.fin then (true, g)
    else if AllFinished(childFin) then (true, g.(fin := true))
    else (false, g)
  }

  /** A finished group stays finished, whatever its children report later. */
  lemma FinishedSticks(g: Group, childFin: seq<bool>, later: seq<bool>)
    requires Finished(g, childFin).0
    ensures Finished(Finished(g, childFin).1, later) == (true, Finished(g, childFin).1)
  {
  }

  // ---------------------------------------------------------------------
  // Scores

  function Sum(s: seq<real>): real
  {
    if |s| == 0 then 0.0 else s[0] + Sum(s[1..])
  }

  /** Some element is at most the average: `|s| * s[i] <= Sum(s)`. */
  lemma {:induction false} SumHasLow(s: seq<real>) returns (i: nat)
    requires |s| > 0
    ensures i < |s| && (|s| as real) * s[i] <= Sum(s)
  {
    if |s| == 1 {
      return 0;
    }
    var t := s[1..];
    var n := |t| as real;
    assert Sum(s) == s[0] + Sum(t) && |s| as real == n + 1.0;
    var j := SumHasLow(t);
    assert t[j] == s[j + 1];
    if s[0] <= t[j] {
      assert n * s[0] <= n * t[j];
      i := 0;
    } else {
      i := j + 1;
    }
  }

  /** Some element is at least the average. */
  lemma {:induction false} SumHasHigh(s: seq<real>) returns (i: nat)
    requires |s| > 0
    ensures i < |s| && (|s| as real) * s[i] >= Sum(s)
  {
    if |s| == 1 {
      return 0;
    }
    var t := s[1..];
    var n := |t| as real;
    assert Sum(s) == s[0] + Sum(t) && |s| as real == n + 1.0;
    var j := SumHasHigh(t);
    assert t[j] == s[j + 1];
    if s[0] >= t[j] {
      assert n * s[0] >= n * t[j];
      i := 0;
    } else {
      i := j + 1;
    }
  }

  /** `getScore`: the mean of the children's scores. */
  function Mean(scores: seq<real>): (r: real)
    requires |scores| > 0
    ensures r * (|scores| as real) == Sum(scores)
  {
    Sum(scores) / (|scores| as real)
  }

  /** Dividing a bound by a positive count. */
  lemma ScaleDown(n: real, a: real, total: real)
    requires n > 0.0
    ensures n * a <= total ==> a <= total / n
    ensures n * a >= total ==> a >= total / n
  {
    assert total == n * (total / n);
    assert n * a - total == n * (a - total / n);
  }

  /** The mean is at least the lowest score... */
  lemma MeanAboveSome(scores: seq<real>)
    requires |scores| > 0
    ensures exists i :: 0 <= i < |scores| && scores[i] <= Mean(scores)
  {
    var i := SumHasLow(scores);
    ScaleDown(|scores| as real, scores[i], Sum(scores));
  }

  /** ...and at most the highest. */
  lemma MeanBelowSome(scores: seq<real>)
    requires |scores| > 0
    ensures exists i :: 0 <= i < |scores| && scores[i] >= Mean(scores)
  {
    var i := SumHasHigh(scores);
    ScaleDown(|scores| as real, scores[i], Sum(scores));
  }

  // ---------------------------------------------------------------------
  // Choosing a child

  /** The initial `best` of the scored selection: a child scoring below it is
      never chosen. */
  const Floor: real := -1.0e100

  predicate Eligible(childFin: seq<bool>, scores: seq<real>, j: int)
    requires |scores| >= |childFin|
  {
    0 <= j < |childFin| && !childFin[j] && scores[j] >= Floor
  }

  /** An unfinished child whose score no other eligible child beats. */
  predicate IsBest(childFin: seq<bool>, scores: seq<real>, j: int)
    requires |scores| >= |childFin|
  {
    Eligible(childFin, scores, j) &&
    forall k :: 0 <= k < |childFin| && Eligible(childFin, scores, k) ==> scores[k] <= scores[j]
  }

  predicate Increasing(s: seq<nat>)
  {
    forall a, b :: 0 <= a < b < |s| ==> s[a] < s[b]
  }

  /** The scan collecting `moves`: the best-scoring unfinished children, in
      order. Finished children are skipped before they are scored. */
  method BestMoves(childFin: seq<bool>, scores: seq<real>) returns (moves: seq<nat>)
    requires |scores| >= |childFin|
    ensures Increasing(moves)
    ensures forall k :: 0 <= k < |moves| ==> IsBest(childFin, scores, moves[k])
    ensures forall j :: IsBest(childFin, scores, j) ==> j in moves
  {
    var best := Floor;
    moves := [];
    var i := 0;
    while i < |childFin|
      invariant 0 <= i <= |childFin|
      invariant best >= Floor
      invariant Increasing(moves)
      invariant forall k :: 0 <= k < |moves| ==> moves[k] < i
      invariant forall k :: 0 <= k < |moves| ==> Eligible(childFin, scores, moves[k]) && scores[moves[k]] == best
      invariant forall j :: 0 <= j < i && Eligible(childFin, scores, j) && scores[j] == best ==> j in moves
      invariant forall j :: 0 <= j < i && Eligible(childFin, scores, j) ==> scores[j] <= best
      invariant best == Floor || exists j :: 0 <= j < i && Eligible(childFin, scores, j) && scores[j] == best
    {
      if !childFin[i] {
        var s := scores[i];
        if s >= best {
          if s > best {
            best := s;
            moves := [];
          }
          moves := moves + [i];
        }
      }
      i := i + 1;
    }
  }

  /** The group keeps working on the child it remembered. */
  predicate Sticky(g: Group, childFin: seq<bool>)
    requires g.cur < |childFin|
  {
    g.cur >= 0 && !childFin[g.cur]
  }

  /** The outcome of `branch()`: `Done` is the null decision; `Delegate(i)`
      hands the decision to child `i`. */
  datatype Choice = Done | Delegate(child: nat)

  /** `BranchGroup::branch`, given what each child reports. A remembered child
      that is still unfinished is kept; otherwise the group selects by its
      strategy, with `branchRandom` (`so.branch_random`) breaking ties by
      `pick`, and remembers its choice unless it is terminal. */
  method Branch(g: Group, childFin: seq<bool>, scores: seq<real>, branchRandom: bool, pick: nat)
    returns (c: Choice, g': Group)
    requires |scores| >= |childFin| && g.cur < |childFin|
    ensures g'.varBranch == g.varBranch && g'.terminal == g.terminal && g'.fin == g.fin
    ensures Sticky(g, childFin) ==> c == Delegate(g.cur as nat) && g' == g
    ensures c.Delegate? ==> c.child < |childFin| && !childFin[c.child]
    ensures c.Delegate? && g.terminal ==> g' == g
    ensures c.Delegate? && !g.terminal ==> g'.cur == c.child
    ensures c.Done? ==> g' == g
    ensures g.varBranch == VarInorder || g.varBranch == VarRandom ==> (c.Done? <==> AllFinished(childFin))
    ensures g.varBranch == VarInorder && c.Delegate? && !Sticky(g, childFin) ==>
      forall j :: 0 <= j < c.child ==> childFin[j]
    ensures g.varBranch != VarInorder && g.varBranch != VarRandom ==>
      (c.Done? <==> !Sticky(g, childFin) && forall j :: 0 <= j < |childFin| ==> !Eligible(childFin, scores, j))
    ensures g.varBranch != VarInorder && g.varBranch != VarRandom && c.Delegate? && !Sticky(g, childFin) ==>
      IsBest(childFin, scores, c.child) &&
      (!branchRandom ==> forall j :: 0 <= j < c.child ==> !IsBest(childFin, scores, j))
  {
    g' := g;
    if Sticky(g, childFin) {
      return Delegate(g.cur as nat), g;
    }
    var chosen: nat;
    if g.varBranch == VarInorder {
      var i := 0;
      while i < |childFin| && childFin[i]
        invariant 0 <= i <= |childFin|
        invariant forall j :: 0 <= j < i ==> childFin[j]
      {
        i := i + 1;
      }
      if i == |childFin| {
        return Done, g;
      }
      chosen := i;
    } else if g.varBranch == VarRandom {
      var moves := Unfinished(childFin);
      if |moves| == 0 {
        return Done, g;
      }
      chosen := moves[pick % |moves|];
    } else {
      var moves := BestMoves(childFin, scores);
      if |moves| == 0 {
        SomeBest(childFin, scores);
        return Done, g;
      }
      chosen := moves[0];
      if branchRandom {
        chosen := moves[pick % |moves|];
      }
    }
    c := Delegate(chosen);
    if !g.terminal {
      g' := g.(cur := chosen);
    }
  }

  /** If some child is eligible then some child is best. */
  lemma SomeBest(childFin: seq<bool>, scores: seq<real>)
    requires |scores| >= |childFin|
    ensures (exists j :: Eligible(childFin, scores, j)) ==> exists b :: IsBest(childFin, scores, b)
  {
    var found := false;
    var b := 0;
    var k := 0;
    while k < |childFin|
      invariant 0 <= k <= |childFin|
      invariant found ==> Eligible(childFin, scores, b)
      invariant !found ==> forall m :: 0 <= m < k ==> !Eligible(childFin, scores, m)
      invariant found ==> forall m :: 0 <= m < k && Eligible(childFin, scores, m) ==> scores[m] <= scores[b]
    {
      if Eligible(childFin, scores, k) && (!found || scores[k] > scores[b]) {
        b := k;
        found := true;
      }
      k := k + 1;
    }
    if found {
      assert IsBest(childFin, scores, b);
    }
  }

  /** The `moves` of random selection: every unfinished child, in order. */
  function Unfinished(childFin: seq<bool>): (r: seq<nat>)
    ensures Increasing(r)
    ensures forall k :: 0 <= k < |r| ==> r[k] < |childFin| && !childFin[r[k]]
    ensures forall j :: 0 <= j < |childFin| && !childFin[j] ==> j in r
  {
    if |childFin| == 0 then []
    else
      var last := |childFin| - 1;
      var init := childFin[..last];
      assert forall j :: 0 <= j < last ==> init[j] == childFin[j];
      var rest := Unfinished(init);
      if childFin[last] then rest else rest + [last]
  }

  /** When every score reaches `Floor` (true of the views' scores), the scored
      selection returns the null decision only when every child is finished. */
  lemma ScoredDoneOnlyWhenFinished(childFin: seq<bool>, scores: seq<real>)
    requires |scores| >= |childFin|
    requires forall j :: 0 <= j < |childFin| ==> scores[j] >= Floor
    ensures (forall j :: 0 <= j < |childFin| ==> !Eligible(childFin, scores, j)) <==> AllFinished(childFin)
  {
    assert forall j :: 0 <= j < |childFin| ==> (Eligible(childFin, scores, j) <==> !childFin[j]);
  }

  // ---------------------------------------------------------------------
  // Building groups

  /** `createBranch`: a value strategy other than the default overwrites the
      preferred value of every child; an unsupported one is an error. The
      result is a terminal group over the children. */
  function CreateBranch(prefs: seq<PreferredVal>, vb: VarBranch, val: ValBranch): (r: Res<(seq<PreferredVal>, Group)>)
    ensures !r.Fail?
    ensures r.Fatal? <==> val == ValOther
    ensures r.Ok? ==> r.value.1 == NewGroup(vb, true) && |r.value.0| == |prefs|
    ensures r.Ok? && val == ValDefault ==> r.value.0 == prefs
    ensures r.Ok? && val != ValDefault ==>
      forall i :: 0 <= i < |prefs| ==> ToPreferred(val) == Some(r.value.0[i])
  {
    if val == ValDefault then Ok((prefs, NewGroup(vb, true)))
    else
      match ToPreferred(val)
      case None => Fatal(NoValueSelection)
      case Some(p) => Ok((seq(|prefs|, _ => p), NewGroup(vb, true)))
  }

  /** The value preference a value strategy asks of a variable. */
  function ToPreferred(val: ValBranch): (r: Option<PreferredVal>)
    ensures r.None? <==> val == ValDefault || val == ValOther
    ensures val == ValMin <==> r == Some(PvMin)
    ensures val == ValMax <==> r == Some(PvMax)
    ensures val == ValMedian <==> r == Some(PvMedian)
    ensures val == ValSplitMin <==> r == Some(PvSplitMin)
    ensures val == ValSplitMax <==> r == Some(PvSplitMax)
  {
    match val
    case ValMin => Some(PvMin)
    case ValMax => Some(PvMax)
    case ValMedian => Some(PvMedian)
    case ValSplitMin => Some(PvSplitMin)
    case ValSplitMax => Some(PvSplitMax)
    case _ => None
  }

  /** `PriorityBranchGroup`: finished-ness and the decision come from the
      annotations (the per-child search strategies) while the scores come
      from the children `x`; the choice is the same selection as a plain
      group's, made over the annotations. */
  method PriorityBranch(g: Group, annFin: seq<bool>, xScores: seq<real>, branchRandom: bool, pick: nat)
    returns (c: Choice, g': Group)
    requires |xScores| >= |annFin| && g.cur < |annFin|
    ensures c.Delegate? ==> c.child < |annFin| && !annFin[c.child]
    ensures Sticky(g, annFin) ==> c == Delegate(g.cur as nat) && g' == g
    ensures g.varBranch != VarInorder && g.varBranch != VarRandom && c.Delegate? && !Sticky(g, annFin) ==>
      IsBest(annFin, xScores, c.child)
    ensures c.Done? <==> (if g.varBranch == VarInorder || g.varBranch == VarRandom then AllFinished(annFin)
                          else !Sticky(g, annFin) && forall j :: 0 <= j < |annFin| ==> !Eligible(annFin, xScores, j))
  {
    c, g' := Branch(g, annFin, xScores, branchRandom, pick);
  }
}
