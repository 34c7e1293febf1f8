/** The Boolean view of chuffed/vars/bool-view.cpp: a literal of the SAT
    substrate seen as a 0/1 variable. It is true when the literal is true, so
    its lower bound rises when the literal becomes true and its upper bound
    falls when the literal's negation does. */
module BoolViews {
  import opened Base
  import opened Branching

  // Messages of the fatal errors below.
  const NoViewSelector := "selector not supported by Boolean views"

  /** `WatchElem(prop_id, pos)`: who to wake, and as which of its arguments. */
  datatype WatchElem = WatchElem(propId: nat, pos: nat)

  /** `toInt(p)`: the watch list of an atom is `2 v + sign`. */
  function LitIndex(l: Lit): (i: nat)
    requires l.Atom?
    ensures i / 2 == l.v && (i % 2 == 1 <==> l.sign)
  {
    2 * l.v + (if l.sign then 1 else 0)
  }

  /** The two watch lists of a variable are the lists of a literal and of its negation. */
  lemma LitIndexNeg(l: Lit)
    requires l.Atom?
    ensures LitIndex(Neg(l)) != LitIndex(l) && LitIndex(Neg(l)) / 2 == LitIndex(l) / 2
  {
  }

  /** Whether the propagator asked to hear of the view becoming true (its
      lower bound rising) or false (its upper bound falling). */
  predicate WantsTrue(eflags: set<Event>)  { EvL in eflags || EvF in eflags }
  predicate WantsFalse(eflags: set<Event>) { EvU in eflags || EvF in eflags }

  /** `attach(p, pos, eflags)` on the view of `lit`: the watch is pushed on
      the list of `lit` for a lower-bound or fixing event and on the list of
      `~lit` for an upper-bound or fixing event; no other list changes. */
  function Attach(watches: seq<seq<WatchElem>>, lit: Lit, we: WatchElem, eflags: set<Event>)
    : (r: seq<seq<WatchElem>>)
    requires lit.Atom? && 2 * lit.v + 1 < |watches|
    ensures |r| == |watches|
    ensures forall i :: 0 <= i < |watches| && i != LitIndex(lit) && i != LitIndex(Neg(lit)) ==> r[i] == watches[i]
    ensures r[LitIndex(lit)] == watches[LitIndex(lit)] + (if WantsTrue(eflags) then [we] else [])
    ensures r[LitIndex(Neg(lit))] == watches[LitIndex(Neg(lit))] + (if WantsFalse(eflags) then [we] else [])
  {
    var s := if lit.sign then 1 else 0;
    var w1 := if WantsTrue(eflags) then watches[2 * lit.v + s := watches[2 * lit.v + s] + [we]] else watches;
    if WantsFalse(eflags) then w1[2 * lit.v + (1 - s) := w1[2 * lit.v + (1 - s)] + [we]] else w1
  }

  /** A fixing event lands on both lists of the variable. */
  lemma AttachFixedBoth(watches: seq<seq<WatchElem>>, lit: Lit, we: WatchElem, eflags: set<Event>)
    requires lit.Atom? && 2 * lit.v + 1 < |watches| && EvF in eflags
    ensures var r := Attach(watches, lit, we, eflags);
      r[LitIndex(lit)] == watches[LitIndex(lit)] + [we] &&
      r[LitIndex(Neg(lit))] == watches[LitIndex(Neg(lit))] + [we]
  {
  }

  // ---------------------------------------------------------------------
  // Branching scores

  /** The values the view can still take. */
  function Possible(b: LBool): set<real>
  {
    match b
    case LUndef => {0.0, 1.0}
    case LTrue => {1.0}
    case LFalse => {0.0}
  }

  /** `getScore(vb)` for a view whose literal currently has value `b`;
      `degree` is the length of the watch list of the view's literal and
      `activity` the substrate's activity of its variable. Selectors a view
      cannot score are an error. */
  function GetScore(b: LBool, vb: VarBranch, degree: nat, activity: real): (r: Res<real>)
    ensures !r.Fail?
    ensures r.Fatal? <==> vb == VarInorder || vb == VarRandom || vb == VarOther
    ensures vb == VarMinMin || vb == VarMinMax ==>
      r.Ok? && var lo := if vb == VarMinMin then -r.value else r.value;
        lo in Possible(b) && forall d :: d in Possible(b) ==> lo <= d
    ensures vb == VarMaxMin || vb == VarMaxMax ==>
      r.Ok? && var hi := if vb == VarMaxMin then -r.value else r.value;
        hi in Possible(b) && forall d :: d in Possible(b) ==> d <= hi
    ensures vb == VarSizeMin ==> r == Ok(1.0 - |Possible(b)| as real)
    ensures vb == VarSizeMax || vb == VarRegretMinMax ==> r == Ok(|Possible(b)| as real - 1.0)
    ensures vb == VarDegreeMin ==> r == Ok(-(degree as real))
    ensures vb == VarDegreeMax ==> r == Ok(degree as real)
    ensures vb == VarActivity ==> r == Ok(activity)
  {
    var fixed := b != LUndef;
    var min := if b == LTrue then 1.0 else 0.0;
    var max := if b == LFalse then 0.0 else 1.0;
    assert |Possible(b)| == (if fixed then 1 else 2) by {
      if !fixed { assert Possible(b) == {0.0} + {1.0}; }
    }
    match vb
    case VarMinMin => Ok(-min)
    case VarMinMax => Ok(min)
    case VarMaxMin => Ok(-max)
    case VarMaxMax => Ok(max)
    case VarSizeMin => Ok(if fixed then 0.0 else -1.0)
    case VarSizeMax => Ok(if fixed then 0.0 else 1.0)
    case VarDegreeMin => Ok(-(degree as real))
    case VarDegreeMax => Ok(degree as real)
    case VarActivity => Ok(activity)
    case VarRegretMinMax => Ok(if fixed then 0.0 else 1.0)
    case _ => Fatal(NoViewSelector)
  }

  /** Every score of a view reaches the initial `best` of a scored
      selection, so a group of views never passes over an unfinished one. */
  lemma ScoresAboveFloor(b: LBool, vb: VarBranch, degree: nat, activity: real)
    requires activity >= 0.0 && degree as real <= 1.0e100
    ensures GetScore(b, vb, degree, activity).Ok? ==> GetScore(b, vb, degree, activity).value >= Floor
  {
  }
}
