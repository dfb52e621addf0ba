/**
  The reference-counting rule of `unregisterUsageInNode` when a property
  changes. The handler runs after the new value is stored, so the count it
  takes is over the node's current values: an asset the changed property
  referenced and another property still references is counted once, and the
  `=== 1` rule deletes its record. This module states what the index should
  look like after the change, shows the rule as written breaking it, and
  proves a corrected rule (delete only what the node no longer references)
  keeps it.
 */
module ReferenceCountFix {
  import opened Wrappers
  import opened Content
  import opened UsageStore
  import opened UsageKey
  import opened Classifier
  import opened AssetIntegration
  import opened NodeEvents

  /** The asset ids the node's present, non-empty properties among `names` reference. */
  ghost function ReferencedIds(env: Env, node: Node, names: seq<string>): set<string>
  {
    ResolvedIds(env, Visited(node, names))
  }

  /** The store's records under one usage id. */
  function RecordsUnder(s: Store, usageId: string): (ps: set<Pair>)
    ensures forall p :: p in ps <==> p in s && p.usageId == usageId
  {
    set p | p in s && p.usageId == usageId
  }

  /** The index agrees with the node: one record per asset id its asset properties reference, and no other. */
  ghost predicate InSync(env: Env, s: Store, node: Node, names: seq<string>)
  {
    RecordsUnder(s, NodeUsageId(env, node)) == PairsUnder(NodeUsageId(env, node), ReferencedIds(env, node, names))
  }

  // ---------------------------------------------------------------- counting facts

  lemma {:induction false} CountOfPositive(env: Env, refs: seq<AssetRef>, id: string)
    ensures CountOf(env, refs, id) > 0 <==> id in ResolvedIds(env, refs)
    decreases |refs|
  {
    if |refs| > 0 {
      var f := r => ResolveOriginalAssetIdentifier(env, r);
      CountOfPositive(env, refs[1..], id);
      assert refs == [refs[0]] + refs[1..];
      IdsOfConcat(f, [refs[0]], refs[1..]);
      assert f(refs[0]).Success? ==> IdsOf(f, [refs[0]]) == {f(refs[0]).value};
      assert f(refs[0]).Failure? ==> IdsOf(f, [refs[0]]) == {};
    }
  }

  /** The reference count is positive exactly for the referenced ids. */
  lemma {:induction false} OccurrencesPositive(env: Env, node: Node, names: seq<string>, id: string)
    ensures Occurrences(env, node, names, id) > 0 <==> id in ReferencedIds(env, node, names)
    decreases |names|
  {
    var f := r => ResolveOriginalAssetIdentifier(env, r);
    if |names| == 0 {
      assert IdsOf(f, []) == {};
    } else {
      OccurrencesPositive(env, node, names[1..], id);
      var here := if names[0] in node.properties && Truthy(node.properties[names[0]]) then Elements(node.properties[names[0]]) else [];
      assert Visited(node, names) == here + Visited(node, names[1..]);
      IdsOfConcat(f, here, Visited(node, names[1..]));
      CountOfPositive(env, here, id);
      assert IdsOf(f, []) == {};
    }
  }

  /** A property holding `id` counts towards the node's references. */
  lemma {:induction false} OccurrencesAtLeast(env: Env, node: Node, names: seq<string>, name: string, id: string)
    requires name in names && name in node.properties && Truthy(node.properties[name])
    ensures Occurrences(env, node, names, id) >= CountOf(env, Elements(node.properties[name]), id)
    decreases |names|
  {
    if names[0] != name {
      OccurrencesAtLeast(env, node, names[1..], name, id);
    }
  }

  /** Two nodes whose properties differ only in `name`. */
  ghost predicate SameElsewhere(a: Node, b: Node, name: string)
  {
    forall n :: n != name ==> (n in a.properties <==> n in b.properties) && (n in a.properties ==> a.properties[n] == b.properties[n])
  }

  /** A reference not coming from `name` survives a change of `name`. */
  lemma {:induction false} ReferencedElsewhere(env: Env, a: Node, b: Node, names: seq<string>, name: string, id: string)
    requires SameElsewhere(a, b, name)
    requires Occurrences(env, a, names, id) > 0
    requires name !in a.properties || !Truthy(a.properties[name]) || id !in ResolvedIds(env, Elements(a.properties[name]))
    ensures Occurrences(env, b, names, id) > 0
    decreases |names|
  {
    if names[0] == name {
      if name in a.properties && Truthy(a.properties[name]) {
        CountOfPositive(env, Elements(a.properties[name]), id);
      }
      ReferencedElsewhere(env, a, b, names[1..], name, id);
    } else if Occurrences(env, a, names[1..], id) > 0 {
      ReferencedElsewhere(env, a, b, names[1..], name, id);
    }
  }

  /** A property whose declared type can hold assets is among the classified names. */
  lemma {:induction false} RegistrableIsClassified(declared: seq<PropertyDecl>, name: string)
    requires PropertyTypeCanBeRegistered(DeclaredType(declared, name))
    ensures name in AssetPropertyNames(declared)
    decreases |declared|
  {
    if |declared| > 0 && declared[0].name != name {
      RegistrableIsClassified(declared[1..], name);
      var i :| 0 <= i < |declared[1..]| && declared[1..][i].name == name && PropertyTypeCanBeRegistered(declared[1..][i].typeName);
      assert declared[i + 1] == declared[1..][i];
    }
  }

  // ---------------------------------------------------------------- corrected rule

  /** Deletes the pair of each element whose resolved id the node no longer references. */
  function UnregisterUnreferenced(env: Env, usageId: string, refs: seq<AssetRef>, references: map<string, nat>): (w: Writes)
    ensures UnregistersUnder(w.ops, {usageId})
    decreases |refs|
  {
    if |refs| == 0 then Writes([], None)
    else
      match ResolveOriginalAssetIdentifier(env, refs[0])
      case Failure(m) => Writes([], Some(m))
      case Success(assetId) =>
        var rest := UnregisterUnreferenced(env, usageId, refs[1..], references);
        if assetId !in references then Writes([Unregister(Pair(usageId, assetId))] + rest.ops, rest.failure)
        else rest
  }

  lemma {:induction false} UnregisterUnreferencedPairs(env: Env, usageId: string, refs: seq<AssetRef>, references: map<string, nat>)
    requires UnregisterUnreferenced(env, usageId, refs, references).failure.None?
    ensures UnregisteredPairs(UnregisterUnreferenced(env, usageId, refs, references).ops)
         == PairsUnder(usageId, set id | id in ResolvedIds(env, refs) && id !in references)
    decreases |refs|
  {
    var f := r => ResolveOriginalAssetIdentifier(env, r);
    var w := UnregisterUnreferenced(env, usageId, refs, references);
    if |refs| == 0 {
      assert UnregisteredPairs(w.ops) == {};
    } else {
      var id := f(refs[0]).value;
      var rest := UnregisterUnreferenced(env, usageId, refs[1..], references);
      UnregisterUnreferencedPairs(env, usageId, refs[1..], references);
      assert refs == [refs[0]] + refs[1..];
      IdsOfConcat(f, [refs[0]], refs[1..]);
      assert IdsOf(f, [refs[0]]) == {id};
      if id !in references {
        var one := [Unregister(Pair(usageId, id))];
        UnregisteredPairsConcat(one, rest.ops);
        assert one[0].Unregister? && one[0].pair == Pair(usageId, id);
        assert UnregisteredPairs(one) == {Pair(usageId, id)};
      }
    }
  }

  /** `unregisterUsageInNode` with the corrected rule: always count, delete only unreferenced assets. */
  function UnregisterUsageInNodeCorrected(env: Env, cache: Cache, node: Node, value: PropertyValue): (e: Effect)
    ensures UnregistersUnder(e.ops, {NodeUsageId(env, node)})
  {
    match node.nodeType
    case None => Effect(cache, [], Some(NodeTypeNotFound))
    case Some(nt) =>
      var c := GetAssetPropertyNamesForNodeType(cache, nt);
      match CountReferences(env, node, c.names, map[])
      case Failure(m) => Effect(c.cache, [], Some(m))
      case Success(references) =>
        var w := UnregisterUnreferenced(env, NodeUsageId(env, node), Elements(value), references);
        Effect(c.cache, w.ops, w.failure)
  }

  /** The corrected rule deletes an asset of the value exactly when no asset property of the node references it any more. */
  lemma UnregisterUsageInNodeCorrectedRule(env: Env, cache: Cache, node: Node, value: PropertyValue)
    requires node.nodeType.Some?
    ensures var e := UnregisterUsageInNodeCorrected(env, cache, node, value);
            var c := GetAssetPropertyNamesForNodeType(cache, node.nodeType.value);
            && e.cache == c.cache
            && (e.failure.None? ==>
                 UnregisteredPairs(e.ops)
                 == PairsUnder(NodeUsageId(env, node), set id | id in ResolvedIds(env, Elements(value)) && id !in ReferencedIds(env, node, c.names)))
  {
    var e := UnregisterUsageInNodeCorrected(env, cache, node, value);
    var c := GetAssetPropertyNamesForNodeType(cache, node.nodeType.value);
    if e.failure.None? {
      var references := CountReferences(env, node, c.names, map[]).value;
      UnregisterUnreferencedPairs(env, NodeUsageId(env, node), Elements(value), references);
      forall id ensures id in references <==> id in ReferencedIds(env, node, c.names) {
        OccurrencesPositive(env, node, c.names, id);
      }
    }
  }

  /** `nodePropertyChanged` with the corrected rule. */
  function NodePropertyChangedCorrected(env: Env, cache: Cache, node: Node, propertyName: string, oldValue: PropertyValue, newValue: PropertyValue): Effect
  {
    if oldValue == newValue then Effect(cache, [], None)
    else
      match node.nodeType
      case None => Effect(cache, [], Some(NodeTypeNotFound))
      case Some(nt) =>
        if !PropertyTypeCanBeRegistered(PropertyType(nt, propertyName)) then Effect(cache, [], None)
        else
          var u := if Truthy(oldValue) then UnregisterUsageInNodeCorrected(env, cache, node, oldValue) else Effect(cache, [], None);
          if u.failure.Some? then u
          else
            var w := if Truthy(newValue) then RegisterUsageInNode(env, node, nt.name, newValue) else Writes([], None);
            Effect(u.cache, u.ops + w.ops, w.failure)
  }

  /** The records the corrected rule deletes for `value`: those of its ids the node no longer references. */
  ghost function UnreferencedRemovals(env: Env, node: Node, names: seq<string>, value: PropertyValue): set<Pair>
  {
    PairsUnder(NodeUsageId(env, node), set id | id in ResolvedIds(env, Elements(value)) && id !in ReferencedIds(env, node, names))
  }

  /** The old value's part of a corrected change: deletes of the unreferenced ids under the node's usage id. */
  lemma ChangedOldValueCorrected(env: Env, cache: Cache, node: Node, nt: NodeType, oldValue: PropertyValue)
    requires node.nodeType == Some(nt)
    ensures var u := if Truthy(oldValue) then UnregisterUsageInNodeCorrected(env, cache, node, oldValue) else Effect(cache, [], None);
            && UnregistersUnder(u.ops, {NodeUsageId(env, node)})
            && (u.failure.None? ==>
                 UnregisteredPairs(u.ops)
                 == if Truthy(oldValue) then UnreferencedRemovals(env, node, GetAssetPropertyNamesForNodeType(cache, nt).names, oldValue) else {})
  {
    if Truthy(oldValue) {
      UnregisterUsageInNodeCorrectedRule(env, cache, node, oldValue);
    } else {
      assert UnregisteredPairs([]) == {};
    }
  }

  /** The corrected handler's effect on a completed run, as `NodePropertyChangedEffect` states it for the original. */
  lemma {:induction false} NodePropertyChangedCorrectedEffect(env: Env, cache: Cache, node: Node, nt: NodeType, propertyName: string,
                                                              oldValue: PropertyValue, newValue: PropertyValue, s: Store)
    requires node.nodeType == Some(nt) && oldValue != newValue && PropertyTypeCanBeRegistered(PropertyType(nt, propertyName))
    ensures var e := NodePropertyChangedCorrected(env, cache, node, propertyName, oldValue, newValue);
            && WritesUnder(e.ops, NodeUsageId(env, node))
            && (e.failure.None? ==>
                 var names := GetAssetPropertyNamesForNodeType(cache, nt).names;
                 var removed := if Truthy(oldValue) then UnreferencedRemovals(env, node, names, oldValue) else {};
                 var added := if Truthy(newValue) then PairsUnder(NodeUsageId(env, node), EntityIds(env, Elements(newValue))) else {};
                 Apply(s, e.ops) == Upsert(s - removed, added, NodeMeta(env, node, nt.name)))
  {
    var e := NodePropertyChangedCorrected(env, cache, node, propertyName, oldValue, newValue);
    var u := if Truthy(oldValue) then UnregisterUsageInNodeCorrected(env, cache, node, oldValue) else Effect(cache, [], None);
    var w := if Truthy(newValue) then RegisterUsageInNode(env, node, nt.name, newValue) else Writes([], None);
    ChangedOldValueCorrected(env, cache, node, nt, oldValue);
    ChangedNewValue(env, node, nt, newValue);
    if u.failure.Some? {
      assert e == u;
    } else {
      assert e == Effect(u.cache, u.ops + w.ops, w.failure);
      WritesUnderConcat(u.ops, w.ops, NodeUsageId(env, node), NodeMeta(env, node, nt.name));
      if e.failure.None? {
        UnregisterThenRegister(s, u.ops, w.ops, NodeUsageId(env, node), NodeMeta(env, node, nt.name));
      }
    }
  }

  /** The ids `value` contributes to a node's references when stored in an asset property. */
  ghost function ValueIds(env: Env, value: PropertyValue): set<string>
  {
    if Truthy(value) then ResolvedIds(env, Elements(value)) else {}
  }

  /**
    How a change of one asset property moves the node's references: a
    reference not held by the new value was already there, a reference not
    held by the old value stays, and the new value's ids are referenced.
   */
  lemma ReferencesAcrossChange(env: Env, node: Node, before: Node, names: seq<string>, name: string, id: string)
    requires SameElsewhere(node, before, name) && SameElsewhere(before, node, name)
    requires name in names && name in node.properties && name in before.properties
    ensures id in ReferencedIds(env, node, names) && id !in ValueIds(env, node.properties[name]) ==> id in ReferencedIds(env, before, names)
    ensures id in ReferencedIds(env, before, names) && id !in ValueIds(env, before.properties[name]) ==> id in ReferencedIds(env, node, names)
    ensures id in ValueIds(env, node.properties[name]) ==> id in ReferencedIds(env, node, names)
  {
    OccurrencesPositive(env, node, names, id);
    OccurrencesPositive(env, before, names, id);
    if Truthy(node.properties[name]) {
      CountOfPositive(env, Elements(node.properties[name]), id);
      OccurrencesAtLeast(env, node, names, name, id);
    }
    if id in ReferencedIds(env, node, names) && id !in ValueIds(env, node.properties[name]) {
      ReferencedElsewhere(env, node, before, names, name, id);
    }
    if id in ReferencedIds(env, before, names) && id !in ValueIds(env, before.properties[name]) {
      ReferencedElsewhere(env, before, node, names, name, id);
    }
  }

  /**
    Store arithmetic behind the sync proof: if the records under `usageId`
    matched the ids `before`, and the change deletes ids no longer referenced
    and upserts referenced ones, with every other id carried over, the records
    under `usageId` match the ids `now`.
   */
  lemma SyncStep(s: Store, usageId: string, before: set<string>, now: set<string>, removedIds: set<string>, addedIds: set<string>, m: Meta)
    requires RecordsUnder(s, usageId) == PairsUnder(usageId, before)
    requires removedIds !! now && addedIds <= now
    requires now <= before + addedIds && before <= now + removedIds
    ensures RecordsUnder(Upsert(s - PairsUnder(usageId, removedIds), PairsUnder(usageId, addedIds), m), usageId) == PairsUnder(usageId, now)
  {
    var r := Upsert(s - PairsUnder(usageId, removedIds), PairsUnder(usageId, addedIds), m);
    forall p: Pair | p.usageId == usageId ensures p in r <==> p.assetId in now {
      assert p in s <==> p in RecordsUnder(s, usageId);
    }
  }

  /**
    The corrected handler keeps the index in step with the node: if the store
    agreed with the node before the change, it agrees with the node after it,
    and no other usage id is touched. The new value's elements are asset
    objects, so registering and unregistering resolve them alike.
   */
  lemma CorrectedKeepsIndexInSync(env: Env, cache: Cache, node: Node, propertyName: string,
                                  oldValue: PropertyValue, newValue: PropertyValue, s: Store)
    requires node.nodeType.Some? && Coherent(cache, node.nodeType.value)
    requires oldValue != newValue && PropertyTypeCanBeRegistered(PropertyType(node.nodeType.value, propertyName))
    requires propertyName in node.properties && node.properties[propertyName] == newValue
    requires Truthy(newValue) ==> forall r :: r in Elements(newValue) ==> r.AssetObject?
    requires InSync(env, s, node.(properties := node.properties[propertyName := oldValue]), AssetPropertyNames(node.nodeType.value.declared))
    ensures var e := NodePropertyChangedCorrected(env, cache, node, propertyName, oldValue, newValue);
            e.failure.None? ==>
              && InSync(env, Apply(s, e.ops), node, AssetPropertyNames(node.nodeType.value.declared))
              && WritesUnder(e.ops, NodeUsageId(env, node))
  {
    var nt := node.nodeType.value;
    var names := AssetPropertyNames(nt.declared);
    var before := node.(properties := node.properties[propertyName := oldValue]);
    var usageId := NodeUsageId(env, node);
    var e := NodePropertyChangedCorrected(env, cache, node, propertyName, oldValue, newValue);
    CoherentLookupClassifies(cache, nt);
    RegistrableIsClassified(nt.declared, propertyName);
    NodePropertyChangedCorrectedEffect(env, cache, node, nt, propertyName, oldValue, newValue, s);
    if e.failure.None? {
      var refsNow := ReferencedIds(env, node, names);
      var refsBefore := ReferencedIds(env, before, names);
      var removedIds := if Truthy(oldValue) then set id | id in ResolvedIds(env, Elements(oldValue)) && id !in refsNow else {};
      var addedIds := if Truthy(newValue) then EntityIds(env, Elements(newValue)) else {};
      if Truthy(newValue) {
        ObjectIdsAgree(env, Elements(newValue));
      }
      assert addedIds == ValueIds(env, newValue);
      assert SameElsewhere(node, before, propertyName);
      assert SameElsewhere(before, node, propertyName);
      assert NodeUsageId(env, before) == usageId;
      forall id ensures (id in refsNow ==> id in refsBefore + addedIds)
                     && (id in refsBefore ==> id in refsNow + removedIds)
                     && (id in addedIds ==> id in refsNow) {
        ReferencesAcrossChange(env, node, before, names, propertyName, id);
      }
      SyncStep(s, usageId, refsBefore, refsNow, removedIds, addedIds, NodeMeta(env, node, nt.name));
      assert (if Truthy(oldValue) then UnreferencedRemovals(env, node, names, oldValue) else {}) == PairsUnder(usageId, removedIds);
      assert (if Truthy(newValue) then PairsUnder(usageId, EntityIds(env, Elements(newValue))) else {}) == PairsUnder(usageId, addedIds);
    }
  }

  // ---------------------------------------------------------------- the sibling counterexample

  /** A node type with two asset properties. */
  const TwoImages := NodeType("TwoImages", [PropertyDecl("a", AssetType), PropertyDecl("b", AssetType)])

  /** A node of that type after `a` was cleared, while `b` still holds `x`. */
  function SiblingNode(x: Asset): Node
  {
    Node("n", Some(TwoImages), "live", [], false, map["a" := Scalar(NullRef), "b" := Scalar(AssetObject(x))])
  }

  lemma TwoImagesNames()
    ensures AssetPropertyNames(TwoImages.declared) == ["a", "b"]
    ensures PropertyType(TwoImages, "a") == AssetType
  {
    var d := TwoImages.declared;
    assert d[1..][1..] == [];
    assert AssetPropertyNames(d[1..]) == ["b"];
  }

  lemma SiblingFacts(env: Env, x: Asset)
    requires !x.isVariant
    ensures var node := SiblingNode(x);
            var id := env.identifierOf(AssetObject(x));
            && Visited(node, ["a", "b"]) == [AssetObject(x)]
            && ReferencedIds(env, node, ["a", "b"]) == {id}
            && Occurrences(env, node, ["a", "b"], id) == 1
            && ResolvedIds(env, [AssetObject(x)]) == {id}
            && ResolvedIds(env, Visited(node.(properties := node.properties["a" := Scalar(AssetObject(x))]), ["a", "b"])) == {id}
  {
    var node := SiblingNode(x);
    var before := node.(properties := node.properties["a" := Scalar(AssetObject(x))]);
    var id := env.identifierOf(AssetObject(x));
    var f := r => ResolveOriginalAssetIdentifier(env, r);
    var names := ["a", "b"];
    assert names[1..] == ["b"] && names[1..][1..] == [];
    assert f(AssetObject(x)) == Success(id);
    assert [AssetObject(x)][1..] == [];
    assert CountOf(env, [AssetObject(x)], id) == 1;
    assert Visited(node, ["b"]) == [AssetObject(x)] + [];
    assert Visited(node, names) == [] + Visited(node, ["b"]);
    assert Visited(before, ["b"]) == [AssetObject(x)] + [];
    assert Visited(before, names) == [AssetObject(x)] + [AssetObject(x)];
    assert IdsOf(f, [AssetObject(x)]) == {id};
    IdsOfConcat(f, [AssetObject(x)], [AssetObject(x)]);
    assert Occurrences(env, node, ["b"], id) == 1;
  }

  /**
    The rule as written loses a usage the node still has: clearing `a` while
    `b` still holds the same asset deletes the asset's only record, so an
    index that agreed with the node before the change no longer does.
   */
  lemma SiblingReferenceDropped(env: Env, x: Asset)
    requires !x.isVariant
    ensures var node := SiblingNode(x);
            var before := node.(properties := node.properties["a" := Scalar(AssetObject(x))]);
            var names := AssetPropertyNames(TwoImages.declared);
            var id := env.identifierOf(AssetObject(x));
            var s := map[Pair(NodeUsageId(env, node), id) := NodeMeta(env, node, TwoImages.name)];
            var e := NodePropertyChanged(env, map[], node, "a", Scalar(AssetObject(x)), Scalar(NullRef));
            && InSync(env, s, before, names)
            && id in ReferencedIds(env, node, names)
            && e.failure.None?
            && Apply(s, e.ops) == map[]
            && !InSync(env, Apply(s, e.ops), node, names)
  {
    var node := SiblingNode(x);
    var names := AssetPropertyNames(TwoImages.declared);
    var id := env.identifierOf(AssetObject(x));
    var usageId := NodeUsageId(env, node);
    var s := map[Pair(usageId, id) := NodeMeta(env, node, TwoImages.name)];
    TwoImagesNames();
    SiblingFacts(env, x);
    var c := GetAssetPropertyNamesForNodeType(map[], TwoImages);
    assert c.names == names;
    assert ResolveOriginalAssetIdentifier(env, AssetObject(x)) == Success(id);
    assert [AssetObject(x)][1..] == [];
    var references := CountReferences(env, node, names, map[]);
    assert CountInto(env, [AssetObject(x)], map[]) == Success(map[id := 1]);
    assert references == Success(map[id := 1]);
    var w := UnregisterEach(env, usageId, [AssetObject(x)], Some(map[id := 1]));
    assert UnregisterEach(env, usageId, [], Some(map[id := 1])) == Writes([], None);
    assert w.ops == [Unregister(Pair(usageId, id))] + [] && w.failure.None?;
    var u := UnregisterUsageInNode(env, map[], node, Scalar(AssetObject(x)), true);
    assert u.ops == [Unregister(Pair(usageId, id))] && u.failure.None?;
    var e := NodePropertyChanged(env, map[], node, "a", Scalar(AssetObject(x)), Scalar(NullRef));
    assert e.ops == u.ops && e.failure.None?;
    assert Apply(s, e.ops) == Step(s, e.ops[0]);
    assert Apply(s, e.ops) == map[];
    assert Pair(usageId, id) in PairsUnder(usageId, ReferencedIds(env, node, names));
  }

  /** On the same change the corrected rule keeps the record, and the index still agrees with the node. */
  lemma SiblingReferenceKept(env: Env, x: Asset)
    requires !x.isVariant
    ensures var node := SiblingNode(x);
            var names := AssetPropertyNames(TwoImages.declared);
            var id := env.identifierOf(AssetObject(x));
            var s := map[Pair(NodeUsageId(env, node), id) := NodeMeta(env, node, TwoImages.name)];
            var e := NodePropertyChangedCorrected(env, map[], node, "a", Scalar(AssetObject(x)), Scalar(NullRef));
            && e.failure.None?
            && Apply(s, e.ops) == s
            && InSync(env, Apply(s, e.ops), node, names)
  {
    var node := SiblingNode(x);
    var names := AssetPropertyNames(TwoImages.declared);
    var id := env.identifierOf(AssetObject(x));
    var usageId := NodeUsageId(env, node);
    var s := map[Pair(usageId, id) := NodeMeta(env, node, TwoImages.name)];
    TwoImagesNames();
    SiblingFacts(env, x);
    assert ResolveOriginalAssetIdentifier(env, AssetObject(x)) == Success(id);
    assert [AssetObject(x)][1..] == [];
    var references := CountReferences(env, node, names, map[]);
    assert CountInto(env, [AssetObject(x)], map[]) == Success(map[id := 1]);
    assert references == Success(map[id := 1]);
    var w := UnregisterUnreferenced(env, usageId, [AssetObject(x)], map[id := 1]);
    assert UnregisterUnreferenced(env, usageId, [], map[id := 1]) == Writes([], None);
    assert w.ops == [] && w.failure.None?;
    var u := UnregisterUsageInNodeCorrected(env, map[], node, Scalar(AssetObject(x)));
    assert u.ops == [] && u.failure.None?;
    var e := NodePropertyChangedCorrected(env, map[], node, "a", Scalar(AssetObject(x)), Scalar(NullRef));
    assert e.ops == [] && e.failure.None?;
    assert RecordsUnder(s, usageId) == {Pair(usageId, id)};
  }
}
