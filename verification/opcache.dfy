/** The direct-mapped operation cache of chuffed/mdd/opcache.cpp. A key
    `(op, a, b)` hashes to a slot of `indices`; the slot names an entry of
    `entries`, which is trusted only when it is below `members` and records
    the same hash. Both arrays start as uninitialised memory, so the model
    lets them hold anything. The hash function itself (MurmurHash3) is a
    parameter; only its reduction modulo `tablesz` is modelled. */
module OpCaches {

  const UINT_MAX: nat := 0xFFFF_FFFF

  datatype Entry = Entry(hash: nat, op: int, a: nat, b: nat, res: nat)

  datatype OpCache = OpCache(tablesz: nat, indices: seq<nat>, entries: seq<Entry>, members: nat)

  /** The raw 32-bit hash of a key. */
  type RawHash = (int, nat, nat) -> nat

  /** Both arrays have `tablesz` slots. */
  predicate Sized(c: OpCache)
  {
    c.tablesz >= 1 && |c.indices| == c.tablesz && |c.entries| == c.tablesz
  }

  /** `OpCache(sz)`, with whatever the two allocations contain. */
  function NewCache(sz: nat, indices: seq<nat>, entries: seq<Entry>): (c: OpCache)
    requires sz >= 1 && |indices| == sz && |entries| == sz
    ensures Sized(c) && Inv(c) && c.members == 0
  {
    OpCache(sz, indices, entries, 0)
  }

  /** `hash(op, a, b)`. */
  function Hash(c: OpCache, h: RawHash, op: int, a: nat, b: nat): (r: nat)
    requires Sized(c)
    ensures r < c.tablesz
  {
    h(op, a, b) % c.tablesz
  }

  /** The entry a slot names, when it is trusted. */
  predicate Trusted(c: OpCache, hval: nat)
    requires Sized(c) && hval < c.tablesz
  {
    c.indices[hval] < c.members && c.indices[hval] < |c.entries| && c.entries[c.indices[hval]].hash == hval
  }

  /** Entry `e` holds exactly the key `(op, a, b)`. */
  predicate Holds(e: Entry, op: int, a: nat, b: nat)
  {
    e.op == op && e.a == a && e.b == b
  }

  /** `check(op, a, b)`: the stored result, or `UINT_MAX` on a miss. */
  function Check(c: OpCache, h: RawHash, op: int, a: nat, b: nat): (r: nat)
    requires Sized(c) && c.members <= c.tablesz
    ensures r != UINT_MAX ==>
      (exists e :: 0 <= e < c.members && Holds(c.entries[e], op, a, b) && c.entries[e].res == r)
  {
    var hval := Hash(c, h, op, a, b);
    var index := c.indices[hval];
    if index < c.members && c.entries[index].hash == hval && Holds(c.entries[index], op, a, b)
    then c.entries[index].res
    else UINT_MAX
  }

  /** `insert(op, a, b, res)`: reuse the slot's trusted entry, or allocate
      `entries[members]`, and overwrite it with the key and result. */
  function Insert(c: OpCache, h: RawHash, op: int, a: nat, b: nat, res: nat): (r: OpCache)
    requires Sized(c) && Inv(c)
    ensures Sized(r) && Inv(r) && r.tablesz == c.tablesz
    ensures r.members == c.members || r.members == c.members + 1
    ensures r.members <= r.tablesz
  {
    var hval := Hash(c, h, op, a, b);
    var e := Entry(hval, op, a, b, res);
    if !Trusted(c, hval) then
      AllocationFits(c, hval);
      var r := c.(indices := c.indices[hval := c.members], entries := c.entries[c.members := e], members := c.members + 1);
      AllocationKeepsInv(c, hval, e);
      r
    else
      var r := c.(entries := c.entries[c.indices[hval] := e]);
      assert forall i :: 0 <= i < r.members ==> r.entries[i].hash == c.entries[i].hash;
      r
  }

  /** Every allocated entry is named by the slot of its own hash; so no
      two entries share a hash. */
  predicate Inv(c: OpCache)
  {
    c.members <= c.tablesz && c.members <= |c.entries| &&
    forall e :: 0 <= e < c.members ==>
      c.entries[e].hash < c.tablesz && c.entries[e].hash < |c.indices| && c.indices[c.entries[e].hash] == e
  }

  // ---------------------------------------------------------------------
  // Cardinality

  function Elems(s: seq<nat>): (r: set<nat>)
    ensures forall x :: x in r <==> exists i :: 0 <= i < |s| && s[i] == x
  {
    if |s| == 0 then {} else Elems(s[..|s| - 1]) + {s[|s| - 1]}
  }

  function Below(n: nat): (r: set<nat>)
    ensures forall x: nat :: x in r <==> x < n
    ensures |r| == n
  {
    if n == 0 then {} else Below(n - 1) + {n - 1}
  }

  lemma {:induction false} DistinctCard(s: seq<nat>)
    requires forall i, j :: 0 <= i < j < |s| ==> s[i] != s[j]
    ensures |Elems(s)| == |s|
  {
    if |s| > 0 {
      var p := s[..|s| - 1];
      DistinctCard(p);
      assert s[|s| - 1] !in Elems(p);
    }
  }

  lemma {:induction false} SubsetCard(x: set<nat>, y: set<nat>)
    requires x <= y
    ensures |x| <= |y|
    decreases x
  {
    if x != {} {
      var v :| v in x;
      SubsetCard(x - {v}, y - {v});
    }
  }

  /** Distinct values below `n` number at most `n`. */
  lemma Pigeon(s: seq<nat>, n: nat)
    requires forall i :: 0 <= i < |s| ==> s[i] < n
    requires forall i, j :: 0 <= i < j < |s| ==> s[i] != s[j]
    ensures |s| <= n
  {
    DistinctCard(s);
    SubsetCard(Elems(s), Below(n));
  }

  /** A slot without a trusted entry is owned by no allocated entry, so
      there is room for one more. */
  lemma AllocationFits(c: OpCache, hval: nat)
    requires Sized(c) && Inv(c) && hval < c.tablesz && !Trusted(c, hval)
    ensures c.members < c.tablesz
    ensures forall e :: 0 <= e < c.members ==> c.entries[e].hash != hval
  {
    var hs := seq(c.members, e requires 0 <= e < c.members => c.entries[e].hash) + [hval];
    forall i, j | 0 <= i < j < |hs| ensures hs[i] != hs[j] {
      if j < c.members {
        assert c.indices[hs[i]] == i && c.indices[hs[j]] == j;
      }
    }
    Pigeon(hs, c.tablesz);
  }

  lemma AllocationKeepsInv(c: OpCache, hval: nat, e: Entry)
    requires Sized(c) && Inv(c) && hval < c.tablesz && c.members < c.tablesz && e.hash == hval
    requires forall i :: 0 <= i < c.members ==> c.entries[i].hash != hval
    ensures Inv(c.(indices := c.indices[hval := c.members], entries := c.entries[c.members := e], members := c.members + 1))
  {
  }

  // ---------------------------------------------------------------------
  // Properties

  /** A key just inserted is found with its result. */
  lemma InsertThenCheck(c: OpCache, h: RawHash, op: int, a: nat, b: nat, res: nat)
    requires Sized(c) && Inv(c)
    ensures Check(Insert(c, h, op, a, b, res), h, op, a, b) == res
  {
  }

  /** Inserting one key never makes another key's lookup return anything
      but what it returned before or a miss. */
  lemma InsertKeepsOthers(c: OpCache, h: RawHash, op: int, a: nat, b: nat, res: nat, op2: int, a2: nat, b2: nat)
    requires Sized(c) && Inv(c) && (op2, a2, b2) != (op, a, b)
    ensures var r := Check(Insert(c, h, op, a, b, res), h, op2, a2, b2);
      r == Check(c, h, op2, a2, b2) || r == UINT_MAX
  {
    var hval := Hash(c, h, op, a, b);
    var h2 := Hash(c, h, op2, a2, b2);
    if !Trusted(c, hval) {
      AllocationFits(c, hval);
    }
  }

  /** Inserting into a cache reached from a fresh one by insertions keeps
      every lookup honest and `members` within the table. */
  lemma InsertsKeepInv(c: OpCache, h: RawHash, keys: seq<(int, nat, nat, nat)>)
    requires Sized(c) && Inv(c)
    ensures Sized(InsertAll(c, h, keys)) && Inv(InsertAll(c, h, keys))
    ensures c.members <= InsertAll(c, h, keys).members <= c.tablesz
    decreases |keys|
  {
    if |keys| > 0 {
      var k := keys[0];
      InsertsKeepInv(Insert(c, h, k.0, k.1, k.2, k.3), h, keys[1..]);
    }
  }

  /** A sequence of insertions. */
  function InsertAll(c: OpCache, h: RawHash, keys: seq<(int, nat, nat, nat)>): (r: OpCache)
    requires Sized(c) && Inv(c)
    ensures Sized(r) && Inv(r) && r.tablesz == c.tablesz
    decreases |keys|
  {
    if |keys| == 0 then c
    else
      var k := keys[0];
      InsertAll(Insert(c, h, k.0, k.1, k.2, k.3), h, keys[1..])
  }
}
