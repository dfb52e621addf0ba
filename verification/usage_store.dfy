/**
  The entity-usage store the index lives in: at most one record per
  (usage id, asset id) pair, with node metadata. Its calls are modelled as
  operations played against an immutable map.
 */
module UsageStore {

  /** The store's composite key. */
  datatype Pair = Pair(usageId: string, assetId: string)

  /** The metadata a record carries; `dimensions` is the JSON text of the dimension values. */
  datatype Meta = Meta(nodeIdentifier: string, workspace: string, dimensions: string, nodeType: string)

  type Store = map<Pair, Meta>

  /** One call into the store: upsert a pair, delete a pair, delete every pair of an asset. */
  datatype Op = Register(pair: Pair, meta: Meta) | Unregister(pair: Pair) | UnregisterEntity(assetId: string)

  /** Whether an operation can change the record stored under `p`. */
  predicate Touches(op: Op, p: Pair)
  {
    match op
    case Register(q, _) => q == p
    case Unregister(q) => q == p
    case UnregisterEntity(id) => p.assetId == id
  }

  /** The store's contract for one call: upsert, idempotent delete, delete by asset. */
  function Step(s: Store, op: Op): (r: Store)
    ensures forall p :: !Touches(op, p) ==> (p in r <==> p in s)
    ensures forall p :: !Touches(op, p) && p in s ==> r[p] == s[p]
    ensures op.Register? ==> op.pair in r && r[op.pair] == op.meta
    ensures op.Unregister? ==> op.pair !in r
    ensures op.UnregisterEntity? ==> forall p :: p in r ==> p.assetId != op.assetId
  {
    match op
    case Register(p, m) => s[p := m]
    case Unregister(p) => s - {p}
    case UnregisterEntity(id) => map p | p in s && p.assetId != id :: s[p]
  }

  /** Plays a sequence of calls against the store, in order. */
  function Apply(s: Store, ops: seq<Op>): Store
    decreases |ops|
  {
    if |ops| == 0 then s else Apply(Step(s, ops[0]), ops[1..])
  }

  lemma {:induction false} ApplyConcat(s: Store, a: seq<Op>, b: seq<Op>)
    ensures Apply(s, a + b) == Apply(Apply(s, a), b)
    decreases |a|
  {
    if |a| == 0 {
      assert a + b == b;
    } else {
      assert (a + b)[1..] == a[1..] + b;
      ApplyConcat(Step(s, a[0]), a[1..], b);
    }
  }

  /** A record no call touches keeps its presence and its metadata. */
  lemma {:induction false} ApplyFrame(s: Store, ops: seq<Op>, p: Pair)
    requires forall i :: 0 <= i < |ops| ==> !Touches(ops[i], p)
    ensures p in Apply(s, ops) <==> p in s
    ensures p in s ==> Apply(s, ops)[p] == s[p]
    decreases |ops|
  {
    if |ops| > 0 {
      assert !Touches(ops[0], p);
      ApplyFrame(Step(s, ops[0]), ops[1..], p);
    }
  }

  /** Every call is an upsert under usage id `usageId` with metadata `m`. */
  predicate RegistersUnder(ops: seq<Op>, usageId: string, m: Meta)
  {
    forall i :: 0 <= i < |ops| ==> ops[i].Register? && ops[i].pair.usageId == usageId && ops[i].meta == m
  }

  /** Every call deletes one pair whose usage id is in `usageIds`. */
  predicate UnregistersUnder(ops: seq<Op>, usageIds: set<string>)
  {
    forall i :: 0 <= i < |ops| ==> ops[i].Unregister? && ops[i].pair.usageId in usageIds
  }

  predicate AllRegister(ops: seq<Op>)
  {
    forall i :: 0 <= i < |ops| ==> ops[i].Register?
  }

  function RegisteredPairs(ops: seq<Op>): set<Pair>
  {
    set i | 0 <= i < |ops| && ops[i].Register? :: ops[i].pair
  }

  function UnregisteredPairs(ops: seq<Op>): set<Pair>
  {
    set i | 0 <= i < |ops| && ops[i].Unregister? :: ops[i].pair
  }

  lemma RegisteredPairsConcat(a: seq<Op>, b: seq<Op>)
    ensures RegisteredPairs(a + b) == RegisteredPairs(a) + RegisteredPairs(b)
  {
    var ab := a + b;
    forall p | p in RegisteredPairs(ab) ensures p in RegisteredPairs(a) + RegisteredPairs(b) {
      var i :| 0 <= i < |ab| && ab[i].Register? && ab[i].pair == p;
      if i >= |a| { assert b[i - |a|] == ab[i]; }
    }
    forall p | p in RegisteredPairs(a) ensures p in RegisteredPairs(ab) {
      var i :| 0 <= i < |a| && a[i].Register? && a[i].pair == p;
      assert ab[i] == a[i];
    }
    forall p | p in RegisteredPairs(b) ensures p in RegisteredPairs(ab) {
      var i :| 0 <= i < |b| && b[i].Register? && b[i].pair == p;
      assert ab[|a| + i] == b[i];
    }
  }

  lemma UnregisteredPairsConcat(a: seq<Op>, b: seq<Op>)
    ensures UnregisteredPairs(a + b) == UnregisteredPairs(a) + UnregisteredPairs(b)
  {
    var ab := a + b;
    forall p | p in UnregisteredPairs(ab) ensures p in UnregisteredPairs(a) + UnregisteredPairs(b) {
      var i :| 0 <= i < |ab| && ab[i].Unregister? && ab[i].pair == p;
      if i >= |a| { assert b[i - |a|] == ab[i]; }
    }
    forall p | p in UnregisteredPairs(a) ensures p in UnregisteredPairs(ab) {
      var i :| 0 <= i < |a| && a[i].Unregister? && a[i].pair == p;
      assert ab[i] == a[i];
    }
    forall p | p in UnregisteredPairs(b) ensures p in UnregisteredPairs(ab) {
      var i :| 0 <= i < |b| && b[i].Unregister? && b[i].pair == p;
      assert ab[|a| + i] == b[i];
    }
  }

  /** `s` with every pair of `ps` upserted to metadata `m`. */
  function Upsert(s: Store, ps: set<Pair>, m: Meta): (r: Store)
    ensures r.Keys == s.Keys + ps
    ensures forall p :: p in ps ==> r[p] == m
    ensures forall p :: p in s && p !in ps ==> r[p] == s[p]
  {
    map p | p in s.Keys + ps :: if p in ps then m else s[p]
  }

  lemma UpsertAfterPut(s: Store, p: Pair, ps: set<Pair>, m: Meta)
    ensures Upsert(s[p := m], ps, m) == Upsert(s, {p} + ps, m)
  {
    var l := Upsert(s[p := m], ps, m);
    var r := Upsert(s, {p} + ps, m);
    assert l.Keys == r.Keys;
    forall q | q in l.Keys ensures l[q] == r[q] {
    }
  }

  /** Upserts that share one metadata value amount to one `Upsert` of the pairs they name. */
  lemma {:induction false} ApplyRegisters(s: Store, ops: seq<Op>, usageId: string, m: Meta)
    requires RegistersUnder(ops, usageId, m)
    ensures Apply(s, ops) == Upsert(s, RegisteredPairs(ops), m)
    decreases |ops|
  {
    if |ops| == 0 {
      assert RegisteredPairs(ops) == {};
    } else {
      ApplyRegisters(Step(s, ops[0]), ops[1..], usageId, m);
      assert ops == [ops[0]] + ops[1..];
      RegisteredPairsConcat([ops[0]], ops[1..]);
      assert RegisteredPairs([ops[0]]) == {ops[0].pair};
      UpsertAfterPut(s, ops[0].pair, RegisteredPairs(ops[1..]), m);
    }
  }

  /** Deletes amount to removing the set of pairs they name, in any order. */
  lemma {:induction false} ApplyUnregisters(s: Store, ops: seq<Op>)
    requires forall i :: 0 <= i < |ops| ==> ops[i].Unregister?
    ensures Apply(s, ops) == s - UnregisteredPairs(ops)
    decreases |ops|
  {
    if |ops| == 0 {
      assert UnregisteredPairs(ops) == {};
    } else {
      ApplyUnregisters(Step(s, ops[0]), ops[1..]);
      assert ops == [ops[0]] + ops[1..];
      UnregisteredPairsConcat([ops[0]], ops[1..]);
      assert UnregisteredPairs([ops[0]]) == {ops[0].pair};
    }
  }

  /** Deletes followed by upserts that share one metadata value: the deleted pairs go, then the upserted pairs are written. */
  lemma UnregisterThenRegister(s: Store, dels: seq<Op>, ups: seq<Op>, usageId: string, m: Meta)
    requires forall i :: 0 <= i < |dels| ==> dels[i].Unregister?
    requires RegistersUnder(ups, usageId, m)
    ensures Apply(s, dels + ups) == Upsert(s - UnregisteredPairs(dels), RegisteredPairs(ups), m)
  {
    ApplyConcat(s, dels, ups);
    ApplyUnregisters(s, dels);
    ApplyRegisters(s - UnregisteredPairs(dels), ups, usageId, m);
  }

  /** Upserts alone add exactly the pairs they name to the store's key set. */
  lemma {:induction false} ApplyRegistersKeys(s: Store, ops: seq<Op>)
    requires AllRegister(ops)
    ensures Apply(s, ops).Keys == s.Keys + RegisteredPairs(ops)
    ensures forall p :: p in s && p !in RegisteredPairs(ops) ==> Apply(s, ops)[p] == s[p]
    decreases |ops|
  {
    if |ops| == 0 {
      assert RegisteredPairs(ops) == {};
    } else {
      ApplyRegistersKeys(Step(s, ops[0]), ops[1..]);
      assert ops == [ops[0]] + ops[1..];
      RegisteredPairsConcat([ops[0]], ops[1..]);
      assert RegisteredPairs([ops[0]]) == {ops[0].pair};
    }
  }

  /** Calls under other usage ids leave every record of usage id `u` as it was. */
  lemma ApplyOutsideKeys(s: Store, ops: seq<Op>, usageIds: set<string>, p: Pair)
    requires forall i :: 0 <= i < |ops| ==> (ops[i].Register? || ops[i].Unregister?) && ops[i].pair.usageId in usageIds
    requires p.usageId !in usageIds
    ensures p in Apply(s, ops) <==> p in s
    ensures p in s ==> Apply(s, ops)[p] == s[p]
  {
    forall i | 0 <= i < |ops| ensures !Touches(ops[i], p) {
    }
    ApplyFrame(s, ops, p);
  }

  /** `listByAsset`: the pairs recorded for one asset. */
  function UsagesOf(s: Store, assetId: string): (ps: set<Pair>)
    ensures forall p :: p in ps <==> p in s && p.assetId == assetId
  {
    set p | p in s && p.assetId == assetId
  }
}
