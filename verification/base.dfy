/** Vocabulary shared by every part of the solver model: optional values,
    outcomes of domain operations, literals of the SAT substrate, three-valued
    Booleans, domain events and C++ integer division. */
module Base {

  datatype Option<T> = None | Some(value: T)

  /** Outcome of an operation that can wipe out a domain (`Fail`, the C++
      `false` return), succeed with a new value (`Ok`), or hit one of the
      solver's fatal checks (`NEVER`, `NOT_SUPPORTED`, `CHUFFED_ERROR`, a
      failing `assert`). */
  datatype Res<T> = Fail | Ok(value: T) | Fatal(msg: string)

  /** A literal of the SAT substrate: a constant (`lit_True`/`lit_False`) or a
      propositional variable with a polarity. */
  datatype Lit = Const(b: bool) | Atom(v: nat, sign: bool)

  /** A total assignment of the propositional variables. */
  type Asg = nat -> bool

  predicate Holds(a: Asg, l: Lit)
  {
    match l
    case Const(b) => b
    case Atom(v, s) => a(v) == s
  }

  /** `~l`: negation flips the polarity and never allocates. */
  function Neg(l: Lit): (r: Lit)
    ensures r.Atom? <==> l.Atom?
    ensures forall a: Asg :: Holds(a, r) == !Holds(a, l)
  {
    match l
    case Const(b) => Const(!b)
    case Atom(v, s) => Atom(v, !s)
  }

  lemma NegInvolutive(l: Lit)
    ensures Neg(Neg(l)) == l
  {
  }

  type Clause = seq<Lit>

  predicate ClauseHolds(a: Asg, c: Clause)
  {
    exists i :: 0 <= i < |c| && Holds(a, c[i])
  }

  predicate AllHold(a: Asg, cs: seq<Clause>)
  {
    forall j :: 0 <= j < |cs| ==> ClauseHolds(a, cs[j])
  }

  /** A disjunction of two clauses joined end to end. */
  lemma ConcatHolds(a: Asg, c: Clause, d: Clause)
    ensures ClauseHolds(a, c + d) <==> ClauseHolds(a, c) || ClauseHolds(a, d)
  {
    if ClauseHolds(a, c + d) {
      var n :| 0 <= n < |c + d| && Holds(a, (c + d)[n]);
      if n >= |c| {
        assert Holds(a, d[n - |c|]);
      }
    }
    if ClauseHolds(a, c) {
      var n :| 0 <= n < |c| && Holds(a, c[n]);
      assert Holds(a, (c + d)[n]);
    }
    if ClauseHolds(a, d) {
      var n :| 0 <= n < |d| && Holds(a, d[n]);
      assert Holds(a, (c + d)[|c| + n]);
    }
  }

  /** A conjunction of two clause lists joined end to end. */
  lemma AllHoldConcat(a: Asg, cs: seq<Clause>, ds: seq<Clause>)
    ensures AllHold(a, cs + ds) <==> AllHold(a, cs) && AllHold(a, ds)
  {
    var e := cs + ds;
    forall j | 0 <= j < |ds| ensures e[|cs| + j] == ds[j] { }
    forall j | 0 <= j < |cs| ensures e[j] == cs[j] { }
    if AllHold(a, cs) && AllHold(a, ds) {
      forall j | 0 <= j < |e| ensures ClauseHolds(a, e[j]) {
        if j >= |cs| { assert e[j] == ds[j - |cs|]; }
      }
    }
  }

  /** A clause with one more literal at its end. */
  lemma SnocHolds(a: Asg, c: Clause, l: Lit)
    ensures ClauseHolds(a, c + [l]) <==> ClauseHolds(a, c) || Holds(a, l)
  {
    ConcatHolds(a, c, [l]);
    assert [l][0] == l;
  }

  /** The value of a Boolean view as the SAT substrate currently sees it. */
  datatype LBool = LUndef | LTrue | LFalse

  /** A Boolean value the three-valued `b` still allows. */
  predicate Admits(b: LBool, bv: bool) { b == LUndef || (b == LTrue) == bv }

  /** Domain event classes: any change, lower bound, upper bound, fixed. */
  datatype Event = EvC | EvL | EvU | EvF

  function Abs(a: int): int
  {
    if a < 0 then -a else a
  }

  /** C++ `/` on integers: the quotient is truncated toward zero (Dafny's own
      `/` is Euclidean, which differs for negative operands). */
  function CDiv(a: int, b: int): (q: int)
    requires b != 0
    ensures a >= 0 ==> 0 <= a - q * b < Abs(b)
    ensures a < 0 ==> -Abs(b) < a - q * b <= 0
  {
    if a >= 0 then
      (if b > 0 then a / b else -(a / -b))
    else
      (if b > 0 then -((-a) / b) else (-a) / (-b))
  }
}
