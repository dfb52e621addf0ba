/**
  The building blocks of the incremental updater: resolving assets to their
  originals, registering the assets of a property value under a node's usage
  id, and unregistering them with or without counting the node's other
  references.

  The updater never reads the store, so each operation returns the store
  calls it makes, in order, and the message of the exception that ended it,
  if one did; `UsageStore.Apply` plays the calls against the store.
 */
module AssetIntegration {
  import opened Wrappers
  import opened Content
  import opened UsageStore
  import opened UsageKey
  import opened Classifier

  /** The store calls made, and the exception that ended the run early, if any. */
  datatype Writes = Writes(ops: seq<Op>, failure: Option<string>)

  /** Like `Writes`, together with the classifier cache after the run. */
  datatype Effect = Effect(cache: Cache, ops: seq<Op>, failure: Option<string>)

  /**
    The message a null entity id ends `registerUsage` with. The model assumes
    the entity-usage service declares its entity-id parameter as `string`, so
    that under strict types a null id is a type error; that service is not
    part of this model.
   */
  const NullEntityId := "entity id is null"

  /** Runs `b` after `a` unless `a` ended with an exception. */
  function Then(a: Writes, b: Writes): (r: Writes)
    ensures a.failure.Some? ==> r == a
    ensures a.failure.None? ==> r.ops == a.ops + b.ops && r.failure == b.failure
  {
    if a.failure.Some? then a else Writes(a.ops + b.ops, b.failure)
  }

  /**
    `resolveOriginalAssetIdentifier`: the persistence identifier of the asset,
    or of its original when it is a variant. Only a variant whose original
    cannot be loaded fails.
   */
  function ResolveOriginalAssetIdentifier(env: Env, ref: AssetRef): (r: Result<string, string>)
    ensures r.Failure? <==> ref.AssetObject? && ref.asset.isVariant && env.originalOf(ref.asset).Failure?
    ensures r.Success? && ref.AssetObject? && ref.asset.isVariant ==>
      r.value == env.identifierOf(AssetObject(env.originalOf(ref.asset).value))
    ensures r.Success? && !(ref.AssetObject? && ref.asset.isVariant) ==> r.value == env.identifierOf(ref)
  {
    match ref
    case AssetObject(a) =>
      if a.isVariant then
        match env.originalOf(a)
        case Failure(m) => Failure(m)
        case Success(o) => Success(env.identifierOf(AssetObject(o)))
      else Success(env.identifierOf(ref))
    case _ => Success(env.identifierOf(ref))
  }

  /** Usage is attributed to the original: a variant resolves to the same id as its original. */
  lemma VariantCollapsesToOriginal(env: Env, v: Asset, o: Asset)
    requires v.isVariant && !o.isVariant && env.originalOf(v) == Success(o)
    ensures ResolveOriginalAssetIdentifier(env, AssetObject(v)) == ResolveOriginalAssetIdentifier(env, AssetObject(o))
  {
  }

  /**
    The asset id `registerUsage` records: an asset object is resolved to its
    original's identifier; anything else is used verbatim, and null is refused.
   */
  function EntityIdOf(env: Env, ref: AssetRef): (r: Result<string, string>)
    ensures ref.AssetObject? ==> r == ResolveOriginalAssetIdentifier(env, ref)
    ensures ref.IdRef? ==> r == Success(ref.id)
    ensures ref.NullRef? ==> r.Failure?
  {
    match ref
    case AssetObject(_) => ResolveOriginalAssetIdentifier(env, ref)
    case IdRef(id) => Success(id)
    case NullRef => Failure(NullEntityId)
  }

  /** What `registerUsage` did: the usage id it returned and the store call it made. */
  datatype Registration = Registration(usageId: string, write: Op)

  /** The metadata recorded with every usage of a node. */
  function NodeMeta(env: Env, node: Node, typeName: string): Meta
  {
    Meta(node.identifier, node.workspace, env.jsonEncode(node.dimensions), typeName)
  }

  /**
    `registerUsage`: exactly one upsert, under the usage id of the node's
    identifier, dimensions and workspace, of the asset's id with the node's
    metadata; it returns that usage id.
   */
  function RegisterUsage(env: Env, nodeIdentifier: string, nodeTypeName: string, dimensions: Dimensions,
                         workspaceName: string, asset: AssetRef): (r: Result<Registration, string>)
    ensures r.Success? <==> EntityIdOf(env, asset).Success?
    ensures r.Success? ==> r.value.usageId == UsageId(env, nodeIdentifier, dimensions, workspaceName)
    ensures r.Success? ==> r.value.write == Register(Pair(r.value.usageId, EntityIdOf(env, asset).value),
                                                     Meta(nodeIdentifier, workspaceName, env.jsonEncode(dimensions), nodeTypeName))
  {
    match EntityIdOf(env, asset)
    case Failure(m) => Failure(m)
    case Success(assetId) =>
      var usageId := UsageId(env, nodeIdentifier, dimensions, workspaceName);
      Success(Registration(usageId, Register(Pair(usageId, assetId), Meta(nodeIdentifier, workspaceName, env.jsonEncode(dimensions), nodeTypeName))))
  }

  /**
    What one `registerUsage` call leaves in the store: the asset's record under
    the usage id of the identifier, dimensions and workspace, carrying that
    node's metadata, and no other record changed. A variant is recorded under
    its original's identifier, an id is recorded as it is, and the call fails
    exactly for a null asset or a variant whose original cannot be loaded.
   */
  lemma RegisterUsageEffect(env: Env, nodeIdentifier: string, nodeTypeName: string, dimensions: Dimensions,
                            workspaceName: string, asset: AssetRef, s: Store)
    ensures var r := RegisterUsage(env, nodeIdentifier, nodeTypeName, dimensions, workspaceName, asset);
            && (r.Failure? <==> asset.NullRef? || (asset.AssetObject? && asset.asset.isVariant && env.originalOf(asset.asset).Failure?))
            && (r.Success? ==>
                 var id := EntityIdOf(env, asset).value;
                 var p := Pair(UsageId(env, nodeIdentifier, dimensions, workspaceName), id);
                 var s' := Step(s, r.value.write);
                 && r.value.usageId == p.usageId
                 && p in s' && s'[p] == Meta(nodeIdentifier, workspaceName, env.jsonEncode(dimensions), nodeTypeName)
                 && UsagesOf(s', id) == UsagesOf(s, id) + {p}
                 && (forall q :: q != p ==> (q in s' <==> q in s) && (q in s ==> s'[q] == s[q]))
                 && (asset.IdRef? ==> id == asset.id)
                 && (asset.AssetObject? && asset.asset.isVariant ==> id == env.identifierOf(AssetObject(env.originalOf(asset.asset).value))))
  {
    var r := RegisterUsage(env, nodeIdentifier, nodeTypeName, dimensions, workspaceName, asset);
    if r.Success? {
      var id := EntityIdOf(env, asset).value;
      var p := Pair(UsageId(env, nodeIdentifier, dimensions, workspaceName), id);
      assert r.value.write == Register(p, Meta(nodeIdentifier, workspaceName, env.jsonEncode(dimensions), nodeTypeName));
    }
  }

  /**
    `registerUsage` for each element in turn: the i-th call registers the
    i-th element under the node's usage id; the first element that cannot be
    registered ends the run.
   */
  function RegisterAll(env: Env, node: Node, typeName: string, refs: seq<AssetRef>): (w: Writes)
    ensures RegistersUnder(w.ops, NodeUsageId(env, node), NodeMeta(env, node, typeName))
    ensures |w.ops| <= |refs|
    ensures forall i :: 0 <= i < |w.ops| ==>
      EntityIdOf(env, refs[i]).Success? && w.ops[i].pair.assetId == EntityIdOf(env, refs[i]).value
    ensures w.failure.None? ==> |w.ops| == |refs|
    ensures w.failure.Some? ==> |w.ops| < |refs| && EntityIdOf(env, refs[|w.ops|]).Failure?
    decreases |refs|
  {
    if |refs| == 0 then Writes([], None)
    else
      match RegisterUsage(env, node.identifier, typeName, node.dimensions, node.workspace, refs[0])
      case Failure(m) => Writes([], Some(m))
      case Success(reg) =>
        var rest := RegisterAll(env, node, typeName, refs[1..]);
        Writes([reg.write] + rest.ops, rest.failure)
  }

  /** `registerUsageInNode`: a single value is treated as a one-element list. */
  function RegisterUsageInNode(env: Env, node: Node, typeName: string, value: PropertyValue): (w: Writes)
    ensures RegistersUnder(w.ops, NodeUsageId(env, node), NodeMeta(env, node, typeName))
    ensures value.Scalar? && w.failure.None? ==>
      EntityIdOf(env, value.ref).Success? && w.ops == [Register(Pair(NodeUsageId(env, node), EntityIdOf(env, value.ref).value), NodeMeta(env, node, typeName))]
  {
    RegisterAll(env, node, typeName, Elements(value))
  }

  /** The ids a resolution function gives the elements it succeeds on. */
  ghost function IdsOf(f: AssetRef -> Result<string, string>, refs: seq<AssetRef>): set<string>
  {
    set i | 0 <= i < |refs| && f(refs[i]).Success? :: f(refs[i]).value
  }

  lemma IdsOfConcat(f: AssetRef -> Result<string, string>, a: seq<AssetRef>, b: seq<AssetRef>)
    ensures IdsOf(f, a + b) == IdsOf(f, a) + IdsOf(f, b)
  {
    var ab := a + b;
    forall id | id in IdsOf(f, ab) ensures id in IdsOf(f, a) + IdsOf(f, b) {
      var i :| 0 <= i < |ab| && f(ab[i]).Success? && f(ab[i]).value == id;
      if i >= |a| { assert ab[i] == b[i - |a|]; }
    }
    forall id | id in IdsOf(f, a) ensures id in IdsOf(f, ab) {
      var i :| 0 <= i < |a| && f(a[i]).Success? && f(a[i]).value == id;
      assert ab[i] == a[i];
    }
    forall id | id in IdsOf(f, b) ensures id in IdsOf(f, ab) {
      var i :| 0 <= i < |b| && f(b[i]).Success? && f(b[i]).value == id;
      assert ab[|a| + i] == b[i];
    }
  }

  /** The asset ids `registerUsage` records for a list of elements. */
  ghost function EntityIds(env: Env, refs: seq<AssetRef>): set<string>
  {
    IdsOf(r => EntityIdOf(env, r), refs)
  }

  /** The asset ids `resolveOriginalAssetIdentifier` gives a list of elements. */
  ghost function ResolvedIds(env: Env, refs: seq<AssetRef>): set<string>
  {
    IdsOf(r => ResolveOriginalAssetIdentifier(env, r), refs)
  }

  /** For asset objects, registering and unregistering resolve alike. */
  lemma ObjectIdsAgree(env: Env, refs: seq<AssetRef>)
    requires forall r :: r in refs ==> r.AssetObject?
    ensures EntityIds(env, refs) == ResolvedIds(env, refs)
  {
    forall i | 0 <= i < |refs| ensures EntityIdOf(env, refs[i]) == ResolveOriginalAssetIdentifier(env, refs[i]) {
      assert refs[i] in refs;
    }
  }

  /** The pairs of one usage id with each of a set of asset ids. */
  function PairsUnder(usageId: string, ids: set<string>): (ps: set<Pair>)
    ensures forall p :: p in ps <==> p.usageId == usageId && p.assetId in ids
  {
    set id | id in ids :: Pair(usageId, id)
  }

  /** A run that registered every element upserts exactly the element ids under the node's usage id. */
  lemma RegisterAllPairs(env: Env, node: Node, typeName: string, refs: seq<AssetRef>)
    requires RegisterAll(env, node, typeName, refs).failure.None?
    ensures RegisteredPairs(RegisterAll(env, node, typeName, refs).ops) == PairsUnder(NodeUsageId(env, node), EntityIds(env, refs))
  {
    var w := RegisterAll(env, node, typeName, refs);
    var k := NodeUsageId(env, node);
    var f := r => EntityIdOf(env, r);
    forall p | p in RegisteredPairs(w.ops) ensures p in PairsUnder(k, EntityIds(env, refs)) {
      var i :| 0 <= i < |w.ops| && w.ops[i].Register? && w.ops[i].pair == p;
      assert f(refs[i]).Success? && f(refs[i]).value == p.assetId;
    }
    forall p | p in PairsUnder(k, EntityIds(env, refs)) ensures p in RegisteredPairs(w.ops) {
      var i :| 0 <= i < |refs| && f(refs[i]).Success? && f(refs[i]).value == p.assetId;
      assert w.ops[i].pair == p;
    }
  }

  /**
    The removal rule of `unregisterUsageInNode`: remove when references were
    not counted, when the count map is empty, when the asset is not in it, or
    when its count is exactly one.
   */
  predicate Removable(references: Option<map<string, nat>>, assetId: string)
  {
    references.None? || |references.value| == 0 || assetId !in references.value || references.value[assetId] == 1
  }

  /** Resolves each element and deletes its pair under `usageId` when the removal rule allows. */
  function UnregisterEach(env: Env, usageId: string, refs: seq<AssetRef>, references: Option<map<string, nat>>): (w: Writes)
    ensures UnregistersUnder(w.ops, {usageId})
    ensures w.failure.None? <==> forall i :: 0 <= i < |refs| ==> ResolveOriginalAssetIdentifier(env, refs[i]).Success?
    decreases |refs|
  {
    if |refs| == 0 then Writes([], None)
    else
      match ResolveOriginalAssetIdentifier(env, refs[0])
      case Failure(m) => Writes([], Some(m))
      case Success(assetId) =>
        var rest := UnregisterEach(env, usageId, refs[1..], references);
        if Removable(references, assetId) then Writes([Unregister(Pair(usageId, assetId))] + rest.ops, rest.failure)
        else rest
  }

  /** A completed run deletes exactly the resolved ids the removal rule allows. */
  lemma {:induction false} UnregisterEachPairs(env: Env, usageId: string, refs: seq<AssetRef>, references: Option<map<string, nat>>)
    requires UnregisterEach(env, usageId, refs, references).failure.None?
    ensures UnregisteredPairs(UnregisterEach(env, usageId, refs, references).ops)
         == PairsUnder(usageId, set id | id in ResolvedIds(env, refs) && Removable(references, id))
    decreases |refs|
  {
    var f := r => ResolveOriginalAssetIdentifier(env, r);
    var w := UnregisterEach(env, usageId, refs, references);
    if |refs| == 0 {
      assert UnregisteredPairs(w.ops) == {};
    } else {
      var id := f(refs[0]).value;
      var rest := UnregisterEach(env, usageId, refs[1..], references);
      UnregisterEachPairs(env, usageId, refs[1..], references);
      assert refs == [refs[0]] + refs[1..];
      IdsOfConcat(f, [refs[0]], refs[1..]);
      assert IdsOf(f, [refs[0]]) == {id};
      if Removable(references, id) {
        var one := [Unregister(Pair(usageId, id))];
        UnregisteredPairsConcat(one, rest.ops);
        assert one[0].Unregister? && one[0].pair == Pair(usageId, id);
        assert UnregisteredPairs(one) == {Pair(usageId, id)};
      }
    }
  }

  /** A failed-free run of deletions without counting removes every resolved id. */
  lemma UnregisterEachUncounted(env: Env, usageId: string, refs: seq<AssetRef>)
    requires UnregisterEach(env, usageId, refs, None).failure.None?
    ensures UnregisteredPairs(UnregisterEach(env, usageId, refs, None).ops) == PairsUnder(usageId, ResolvedIds(env, refs))
  {
    UnregisterEachPairs(env, usageId, refs, None);
    assert (set id | id in ResolvedIds(env, refs) && Removable(None, id)) == ResolvedIds(env, refs);
  }

  /** The count recorded for `id`, or zero when it has none yet. */
  function Get(m: map<string, nat>, id: string): nat
  {
    if id in m then m[id] else 0
  }

  /** How many elements of `refs` resolve to `id`. */
  function CountOf(env: Env, refs: seq<AssetRef>, id: string): nat
    decreases |refs|
  {
    if |refs| == 0 then 0
    else (if ResolveOriginalAssetIdentifier(env, refs[0]) == Success(id) then 1 else 0) + CountOf(env, refs[1..], id)
  }

  /** How many times the node's present, non-empty properties among `names` reference `id`. */
  function Occurrences(env: Env, node: Node, names: seq<string>, id: string): nat
    decreases |names|
  {
    if |names| == 0 then 0
    else
      (if names[0] in node.properties && Truthy(node.properties[names[0]])
       then CountOf(env, Elements(node.properties[names[0]]), id) else 0)
      + Occurrences(env, node, names[1..], id)
  }

  /** The reference map's inner loop: adds one to the count of each element's resolved id. */
  function CountInto(env: Env, refs: seq<AssetRef>, acc: map<string, nat>): (r: Result<map<string, nat>, string>)
    ensures r.Success? ==> forall id :: Get(r.value, id) == Get(acc, id) + CountOf(env, refs, id)
    ensures r.Success? ==> forall id :: id in r.value <==> id in acc || CountOf(env, refs, id) > 0
    decreases |refs|
  {
    if |refs| == 0 then Success(acc)
    else
      match ResolveOriginalAssetIdentifier(env, refs[0])
      case Failure(m) => Failure(m)
      case Success(id) => CountInto(env, refs[1..], acc[id := Get(acc, id) + 1])
  }

  /**
    The reference map of `unregisterUsageInNode`: over the node's present,
    non-empty properties among `names`, how often each resolved asset id
    occurs.
   */
  function CountReferences(env: Env, node: Node, names: seq<string>, acc: map<string, nat>): (r: Result<map<string, nat>, string>)
    ensures r.Success? ==> forall id :: Get(r.value, id) == Get(acc, id) + Occurrences(env, node, names, id)
    ensures r.Success? ==> forall id :: id in r.value <==> id in acc || Occurrences(env, node, names, id) > 0
    decreases |names|
  {
    if |names| == 0 then Success(acc)
    else if names[0] !in node.properties || !Truthy(node.properties[names[0]]) then
      CountReferences(env, node, names[1..], acc)
    else
      match CountInto(env, Elements(node.properties[names[0]]), acc)
      case Failure(m) => Failure(m)
      case Success(acc') => CountReferences(env, node, names[1..], acc')
  }

  /**
    `unregisterUsageInNode`: deletes the value's assets under the node's usage
    id. With `checkAllReferences` and more than one asset property, an asset is
    kept when the node's current asset properties reference it more than once.
   */
  function UnregisterUsageInNode(env: Env, cache: Cache, node: Node, value: PropertyValue, checkAllReferences: bool): (e: Effect)
    ensures UnregistersUnder(e.ops, {NodeUsageId(env, node)})
  {
    match node.nodeType
    case None => Effect(cache, [], Some(NodeTypeNotFound))
    case Some(nt) =>
      var c := GetAssetPropertyNamesForNodeType(cache, nt);
      var usageId := NodeUsageId(env, node);
      if checkAllReferences && |c.names| > 1 then
        match CountReferences(env, node, c.names, map[])
        case Failure(m) => Effect(c.cache, [], Some(m))
        case Success(references) =>
          var w := UnregisterEach(env, usageId, Elements(value), Some(references));
          Effect(c.cache, w.ops, w.failure)
      else
        var w := UnregisterEach(env, usageId, Elements(value), None);
        Effect(c.cache, w.ops, w.failure)
  }

  /**
    The reference-counting rule: a completed call deletes the pair of an asset
    of the value exactly when references were not checked, the node has at
    most one asset property, or the node's asset properties reference the
    asset at most once; it deletes nothing else.
   */
  lemma UnregisterUsageInNodeRule(env: Env, cache: Cache, node: Node, value: PropertyValue, checkAllReferences: bool, id: string)
    requires node.nodeType.Some?
    ensures var e := UnregisterUsageInNode(env, cache, node, value, checkAllReferences);
            var c := GetAssetPropertyNamesForNodeType(cache, node.nodeType.value);
            && e.cache == c.cache
            && (e.failure.None? ==>
                 (Pair(NodeUsageId(env, node), id) in UnregisteredPairs(e.ops)
                  <==> id in ResolvedIds(env, Elements(value))
                       && (!checkAllReferences || |c.names| <= 1 || Occurrences(env, node, c.names, id) <= 1)))
  {
    var e := UnregisterUsageInNode(env, cache, node, value, checkAllReferences);
    var c := GetAssetPropertyNamesForNodeType(cache, node.nodeType.value);
    var usageId := NodeUsageId(env, node);
    if e.failure.None? {
      if checkAllReferences && |c.names| > 1 {
        var references := CountReferences(env, node, c.names, map[]).value;
        UnregisterEachPairs(env, usageId, Elements(value), Some(references));
        assert Get(references, id) == Occurrences(env, node, c.names, id);
      } else {
        UnregisterEachPairs(env, usageId, Elements(value), None);
      }
    }
  }

  /** Without counting, a completed call deletes every resolved asset of the value under the node's usage id. */
  lemma UnregisterWithoutCounting(env: Env, cache: Cache, node: Node, value: PropertyValue)
    requires node.nodeType.Some?
    ensures var e := UnregisterUsageInNode(env, cache, node, value, false);
            var w := UnregisterEach(env, NodeUsageId(env, node), Elements(value), None);
            && e.cache == GetAssetPropertyNamesForNodeType(cache, node.nodeType.value).cache
            && e.ops == w.ops && e.failure == w.failure
            && (e.failure.None? ==> UnregisteredPairs(e.ops) == PairsUnder(NodeUsageId(env, node), ResolvedIds(env, Elements(value))))
  {
    var w := UnregisterEach(env, NodeUsageId(env, node), Elements(value), None);
    if w.failure.None? {
      UnregisterEachUncounted(env, NodeUsageId(env, node), Elements(value));
    }
  }
}
