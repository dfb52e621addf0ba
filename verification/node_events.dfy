/**
  The incremental updater's event handlers: asset removed, node added,
  removed and discarded, property changed, and before and after publishing.
  Each takes the classifier cache and returns an `Effect`: the new cache, the
  store calls made in order, and the exception that ended the handler, if any.
 */
module NodeEvents {
  import opened Wrappers
  import opened Content
  import opened UsageStore
  import opened UsageKey
  import opened Classifier
  import opened AssetIntegration

  /** The leading names the node has; the handlers stop at the first asset property the node lacks. */
  function PresentPrefix(node: Node, names: seq<string>): (p: seq<string>)
    ensures p <= names
    ensures forall i :: 0 <= i < |p| ==> p[i] in node.properties
    ensures |p| < |names| ==> names[|p|] !in node.properties
    decreases |names|
  {
    if |names| == 0 || names[0] !in node.properties then []
    else [names[0]] + PresentPrefix(node, names[1..])
  }

  /** The leading names the node has with a non-empty value; publishing also stops at the first empty one. */
  function NonEmptyPrefix(node: Node, names: seq<string>): (p: seq<string>)
    ensures p <= names
    ensures forall i :: 0 <= i < |p| ==> p[i] in node.properties && Truthy(node.properties[p[i]])
    ensures |p| < |names| ==> names[|p|] !in node.properties || !Truthy(node.properties[names[|p|]])
    decreases |names|
  {
    if |names| == 0 || names[0] !in node.properties || !Truthy(node.properties[names[0]]) then []
    else [names[0]] + NonEmptyPrefix(node, names[1..])
  }

  function Prefix(node: Node, names: seq<string>, stopAtEmpty: bool): seq<string>
  {
    if stopAtEmpty then NonEmptyPrefix(node, names) else PresentPrefix(node, names)
  }

  /** The elements of the node's present, non-empty properties among `names`, property by property. */
  function Visited(node: Node, names: seq<string>): (refs: seq<AssetRef>)
    ensures forall r :: r in refs ==>
      exists i :: 0 <= i < |names| && names[i] in node.properties && Truthy(node.properties[names[i]])
                  && r in Elements(node.properties[names[i]])
    decreases |names|
  {
    if |names| == 0 then []
    else
      var rest := Visited(node, names[1..]);
      assert forall i :: 1 <= i < |names| ==> names[i] == names[1..][i - 1];
      (if names[0] in node.properties && Truthy(node.properties[names[0]])
       then Elements(node.properties[names[0]]) else [])
      + rest
  }

  /** The elements of the target node's values for `names`, empty or not. */
  function TargetVisited(target: Node, names: seq<string>): seq<AssetRef>
    decreases |names|
  {
    if |names| == 0 then []
    else
      (if names[0] in target.properties then Elements(target.properties[names[0]]) else [])
      + TargetVisited(target, names[1..])
  }

  // ---------------------------------------------------------------- registration

  /** The loop of `nodeAdded` (and, stopping at empty values, of `afterNodePublishing`). */
  function RegisterProperties(env: Env, node: Node, typeName: string, names: seq<string>, stopAtEmpty: bool): Writes
    decreases |names|
  {
    if |names| == 0 || names[0] !in node.properties then Writes([], None)
    else
      var value := node.properties[names[0]];
      if !Truthy(value) then
        if stopAtEmpty then Writes([], None) else RegisterProperties(env, node, typeName, names[1..], stopAtEmpty)
      else
        Then(RegisterUsageInNode(env, node, typeName, value), RegisterProperties(env, node, typeName, names[1..], stopAtEmpty))
  }

  lemma {:induction false} RegisterAllConcat(env: Env, node: Node, typeName: string, a: seq<AssetRef>, b: seq<AssetRef>)
    ensures RegisterAll(env, node, typeName, a + b) == Then(RegisterAll(env, node, typeName, a), RegisterAll(env, node, typeName, b))
    decreases |a|
  {
    if |a| == 0 {
      assert a + b == b;
      assert [] + RegisterAll(env, node, typeName, b).ops == RegisterAll(env, node, typeName, b).ops;
    } else {
      assert (a + b)[0] == a[0];
      assert (a + b)[1..] == a[1..] + b;
      RegisterAllConcat(env, node, typeName, a[1..], b);
      var r := RegisterUsage(env, node.identifier, typeName, node.dimensions, node.workspace, a[0]);
      if r.Success? {
        var x := RegisterAll(env, node, typeName, a[1..]);
        var y := RegisterAll(env, node, typeName, b);
        if x.failure.None? {
          assert [r.value.write] + (x.ops + y.ops) == ([r.value.write] + x.ops) + y.ops;
        }
      }
    }
  }

  /** The property loop registers exactly the visited elements, one after the other. */
  lemma {:induction false} RegisterPropertiesFlattens(env: Env, node: Node, typeName: string, names: seq<string>, stopAtEmpty: bool)
    ensures RegisterProperties(env, node, typeName, names, stopAtEmpty)
         == RegisterAll(env, node, typeName, Visited(node, Prefix(node, names, stopAtEmpty)))
    decreases |names|
  {
    var p := Prefix(node, names, stopAtEmpty);
    if |names| == 0 || names[0] !in node.properties {
      assert p == [];
    } else {
      var value := node.properties[names[0]];
      var rest := Prefix(node, names[1..], stopAtEmpty);
      if !Truthy(value) && stopAtEmpty {
        assert p == [];
      } else {
        RegisterPropertiesFlattens(env, node, typeName, names[1..], stopAtEmpty);
        assert p == [names[0]] + rest;
        assert p[0] == names[0] && p[1..] == rest;
        if Truthy(value) {
          assert Visited(node, p) == Elements(value) + Visited(node, rest);
          RegisterAllConcat(env, node, typeName, Elements(value), Visited(node, rest));
        } else {
          assert Visited(node, p) == [] + Visited(node, rest);
          assert [] + Visited(node, rest) == Visited(node, rest);
        }
      }
    }
  }

  /**
    A completed property loop upserts, with the node's metadata, exactly one
    record under the node's usage id for each asset id of the visited
    elements; every call it makes is such an upsert.
   */
  lemma RegisterPropertiesEffect(env: Env, node: Node, typeName: string, names: seq<string>, stopAtEmpty: bool, s: Store)
    ensures var w := RegisterProperties(env, node, typeName, names, stopAtEmpty);
            && RegistersUnder(w.ops, NodeUsageId(env, node), NodeMeta(env, node, typeName))
            && (w.failure.None? ==>
                Apply(s, w.ops) == Upsert(s, PairsUnder(NodeUsageId(env, node), EntityIds(env, Visited(node, Prefix(node, names, stopAtEmpty)))),
                                          NodeMeta(env, node, typeName)))
  {
    var refs := Visited(node, Prefix(node, names, stopAtEmpty));
    RegisterPropertiesFlattens(env, node, typeName, names, stopAtEmpty);
    var w := RegisterAll(env, node, typeName, refs);
    if w.failure.None? {
      RegisterAllPairs(env, node, typeName, refs);
      ApplyRegisters(s, w.ops, NodeUsageId(env, node), NodeMeta(env, node, typeName));
    }
  }

  /** `nodeAdded`: registers every element of each non-empty asset property, stopping at the first one the node lacks. */
  function NodeAdded(env: Env, cache: Cache, node: Node): Effect
  {
    match node.nodeType
    case None => Effect(cache, [], Some(NodeTypeNotFound))
    case Some(nt) =>
      var c := GetAssetPropertyNamesForNodeType(cache, nt);
      var w := RegisterProperties(env, node, nt.name, c.names, false);
      Effect(c.cache, w.ops, w.failure)
  }

  /**
    `nodeAdded` only upserts records under the node's usage id with the node's
    metadata; when it completes, the new records are exactly the asset ids of
    the non-empty asset properties before the first one the node lacks.
   */
  lemma NodeAddedEffect(env: Env, cache: Cache, node: Node, s: Store)
    ensures var e := NodeAdded(env, cache, node);
            node.nodeType.None? ==> e == Effect(cache, [], Some(NodeTypeNotFound))
    ensures var e := NodeAdded(env, cache, node);
            node.nodeType.Some? ==>
              var nt := node.nodeType.value;
              var c := GetAssetPropertyNamesForNodeType(cache, nt);
              && e.cache == c.cache
              && RegistersUnder(e.ops, NodeUsageId(env, node), NodeMeta(env, node, nt.name))
              && (e.failure.None? ==>
                  Apply(s, e.ops) == Upsert(s, PairsUnder(NodeUsageId(env, node), EntityIds(env, Visited(node, PresentPrefix(node, c.names)))),
                                            NodeMeta(env, node, nt.name)))
  {
    if node.nodeType.Some? {
      var nt := node.nodeType.value;
      var c := GetAssetPropertyNamesForNodeType(cache, nt);
      RegisterPropertiesEffect(env, node, nt.name, c.names, false, s);
    }
  }

  /** `afterNodePublishing`: nothing for a removed node; otherwise like `nodeAdded`, but also stopping at the first empty value. */
  function AfterNodePublishing(env: Env, cache: Cache, node: Node): Effect
  {
    if node.removed then Effect(cache, [], None)
    else
      match node.nodeType
      case None => Effect(cache, [], Some(NodeTypeNotFound))
      case Some(nt) =>
        var c := GetAssetPropertyNamesForNodeType(cache, nt);
        var w := RegisterProperties(env, node, nt.name, c.names, true);
        Effect(c.cache, w.ops, w.failure)
  }

  /**
    After publishing, a removed node changes nothing and an untyped node aborts
    without writing; any other node gets one record per asset id of its leading
    non-empty asset properties, under its (new) usage id, and nothing else is
    written.
   */
  lemma AfterNodePublishingEffect(env: Env, cache: Cache, node: Node, s: Store)
    ensures node.removed ==> AfterNodePublishing(env, cache, node) == Effect(cache, [], None)
    ensures !node.removed && node.nodeType.None? ==> AfterNodePublishing(env, cache, node) == Effect(cache, [], Some(NodeTypeNotFound))
    ensures var e := AfterNodePublishing(env, cache, node);
            !node.removed && node.nodeType.Some? ==>
              var nt := node.nodeType.value;
              var c := GetAssetPropertyNamesForNodeType(cache, nt);
              && e.cache == c.cache
              && RegistersUnder(e.ops, NodeUsageId(env, node), NodeMeta(env, node, nt.name))
              && (e.failure.None? ==>
                  Apply(s, e.ops) == Upsert(s, PairsUnder(NodeUsageId(env, node), EntityIds(env, Visited(node, NonEmptyPrefix(node, c.names)))),
                                            NodeMeta(env, node, nt.name)))
  {
    if !node.removed && node.nodeType.Some? {
      var nt := node.nodeType.value;
      var c := GetAssetPropertyNamesForNodeType(cache, nt);
      RegisterPropertiesEffect(env, node, nt.name, c.names, true, s);
    }
  }

  // ---------------------------------------------------------------- removal

  lemma {:induction false} UnregisterEachConcat(env: Env, usageId: string, a: seq<AssetRef>, b: seq<AssetRef>, references: Option<map<string, nat>>)
    ensures UnregisterEach(env, usageId, a + b, references)
         == Then(UnregisterEach(env, usageId, a, references), UnregisterEach(env, usageId, b, references))
    decreases |a|
  {
    var y := UnregisterEach(env, usageId, b, references);
    if |a| == 0 {
      assert a + b == b;
      assert [] + y.ops == y.ops;
    } else {
      assert (a + b)[0] == a[0];
      assert (a + b)[1..] == a[1..] + b;
      UnregisterEachConcat(env, usageId, a[1..], b, references);
      var r := ResolveOriginalAssetIdentifier(env, a[0]);
      if r.Success? {
        var x := UnregisterEach(env, usageId, a[1..], references);
        if x.failure.None? {
          var op := Unregister(Pair(usageId, r.value));
          assert [op] + (x.ops + y.ops) == ([op] + x.ops) + y.ops;
        }
      }
    }
  }

  /** The loop of `nodeRemoved`: unregisters each non-empty property without reference counting. */
  function RemoveProperties(env: Env, cache: Cache, node: Node, names: seq<string>): Effect
    decreases |names|
  {
    if |names| == 0 || names[0] !in node.properties then Effect(cache, [], None)
    else
      var value := node.properties[names[0]];
      if !Truthy(value) then RemoveProperties(env, cache, node, names[1..])
      else
        var e := UnregisterUsageInNode(env, cache, node, value, false);
        if e.failure.Some? then e
        else
          var rest := RemoveProperties(env, e.cache, node, names[1..]);
          Effect(rest.cache, e.ops + rest.ops, rest.failure)
  }

  /** With the node's type already cached, the removal loop deletes the visited elements one after the other. */
  lemma {:induction false} RemovePropertiesFlattens(env: Env, cache: Cache, node: Node, names: seq<string>)
    requires node.nodeType.Some? && node.nodeType.value.name in cache
    ensures var w := UnregisterEach(env, NodeUsageId(env, node), Visited(node, PresentPrefix(node, names)), None);
            RemoveProperties(env, cache, node, names) == Effect(cache, w.ops, w.failure)
    decreases |names|
  {
    var usageId := NodeUsageId(env, node);
    var p := PresentPrefix(node, names);
    if |names| == 0 || names[0] !in node.properties {
      assert p == [];
    } else {
      var value := node.properties[names[0]];
      var rest := PresentPrefix(node, names[1..]);
      assert p == [names[0]] + rest;
      assert p[0] == names[0] && p[1..] == rest;
      if !Truthy(value) {
        RemovePropertiesFlattens(env, cache, node, names[1..]);
        assert Visited(node, p) == [] + Visited(node, rest);
        assert [] + Visited(node, rest) == Visited(node, rest);
      } else {
        UnregisterWithoutCounting(env, cache, node, value);
        RemovePropertiesFlattens(env, cache, node, names[1..]);
        assert Visited(node, p) == Elements(value) + Visited(node, rest);
        UnregisterEachConcat(env, usageId, Elements(value), Visited(node, rest), None);
      }
    }
  }

  /** `nodeRemoved`: unregisters every element of each non-empty asset property, without reference counting. */
  function NodeRemoved(env: Env, cache: Cache, node: Node): Effect
  {
    match node.nodeType
    case None => Effect(cache, [], Some(NodeTypeNotFound))
    case Some(nt) =>
      var c := GetAssetPropertyNamesForNodeType(cache, nt);
      RemoveProperties(env, c.cache, node, c.names)
  }

  /**
    `nodeRemoved` only deletes records under the node's usage id; when it
    completes, exactly the records of the asset ids of the non-empty asset
    properties before the first one the node lacks are gone.
   */
  lemma NodeRemovedEffect(env: Env, cache: Cache, node: Node, s: Store)
    ensures var e := NodeRemoved(env, cache, node);
            node.nodeType.None? ==> e == Effect(cache, [], Some(NodeTypeNotFound))
    ensures var e := NodeRemoved(env, cache, node);
            node.nodeType.Some? ==>
              var c := GetAssetPropertyNamesForNodeType(cache, node.nodeType.value);
              && e.cache == c.cache
              && UnregistersUnder(e.ops, {NodeUsageId(env, node)})
              && (e.failure.None? ==>
                  Apply(s, e.ops) == s - PairsUnder(NodeUsageId(env, node), ResolvedIds(env, Visited(node, PresentPrefix(node, c.names)))))
  {
    if node.nodeType.Some? {
      var c := GetAssetPropertyNamesForNodeType(cache, node.nodeType.value);
      var usageId := NodeUsageId(env, node);
      var refs := Visited(node, PresentPrefix(node, c.names));
      RemovePropertiesFlattens(env, c.cache, node, c.names);
      var w := UnregisterEach(env, usageId, refs, None);
      ApplyUnregisters(s, w.ops);
      if w.failure.None? {
        UnregisterEachUncounted(env, usageId, refs);
      }
    }
  }

  /** `nodeDiscarded`: handled exactly as `nodeRemoved`. */
  function NodeDiscarded(env: Env, cache: Cache, node: Node): Effect
  {
    NodeRemoved(env, cache, node)
  }

  /** Discarding a node deletes the same records as removing it, and nothing else. */
  lemma NodeDiscardedEffect(env: Env, cache: Cache, node: Node, s: Store)
    ensures var e := NodeDiscarded(env, cache, node);
            node.nodeType.Some? ==>
              var c := GetAssetPropertyNamesForNodeType(cache, node.nodeType.value);
              && UnregistersUnder(e.ops, {NodeUsageId(env, node)})
              && (e.failure.None? ==>
                  Apply(s, e.ops) == s - PairsUnder(NodeUsageId(env, node), ResolvedIds(env, Visited(node, PresentPrefix(node, c.names)))))
  {
    NodeRemovedEffect(env, cache, node, s);
  }

  /**
    Removing a node undoes adding it: when every visited element is an asset
    object (so registering and unregistering resolve it alike) and the store
    held none of the node's records, `nodeAdded` then `nodeRemoved` gives the
    store back unchanged.
   */
  lemma NodeRemovedUndoesNodeAdded(env: Env, cache: Cache, node: Node, s: Store)
    requires node.nodeType.Some?
    requires forall p :: p in s ==> p.usageId != NodeUsageId(env, node)
    requires var c := GetAssetPropertyNamesForNodeType(cache, node.nodeType.value);
             forall r :: r in Visited(node, PresentPrefix(node, c.names)) ==> r.AssetObject?
    ensures var added := NodeAdded(env, cache, node);
            var removed := NodeRemoved(env, added.cache, node);
            added.failure.None? && removed.failure.None? ==> Apply(Apply(s, added.ops), removed.ops) == s
  {
    var added := NodeAdded(env, cache, node);
    var removed := NodeRemoved(env, added.cache, node);
    var nt := node.nodeType.value;
    var c := GetAssetPropertyNamesForNodeType(cache, nt);
    var c2 := GetAssetPropertyNamesForNodeType(added.cache, nt);
    var usageId := NodeUsageId(env, node);
    var refs := Visited(node, PresentPrefix(node, c.names));
    NodeAddedEffect(env, cache, node, s);
    var s1 := Apply(s, added.ops);
    NodeRemovedEffect(env, added.cache, node, s1);
    assert c2.names == c.names;
    if added.failure.None? && removed.failure.None? {
      assert EntityIds(env, refs) == ResolvedIds(env, refs) by {
        forall i | 0 <= i < |refs| ensures EntityIdOf(env, refs[i]) == ResolveOriginalAssetIdentifier(env, refs[i]) {
          assert refs[i] in refs;
        }
      }
      var ps := PairsUnder(usageId, EntityIds(env, refs));
      var s2 := Apply(s1, removed.ops);
      assert s1 == Upsert(s, ps, NodeMeta(env, node, nt.name));
      assert s2 == s1 - ps;
      assert s2.Keys == s.Keys;
      forall p | p in s2 ensures s2[p] == s[p] {
        assert p !in ps;
      }
    }
  }

  // ---------------------------------------------------------------- asset removal

  /** `assetRemoved`: deletes every record of the asset's original, whatever its usage id. */
  function AssetRemoved(env: Env, cache: Cache, asset: Asset): Effect
  {
    match ResolveOriginalAssetIdentifier(env, AssetObject(asset))
    case Failure(m) => Effect(cache, [], Some(m))
    case Success(assetId) => Effect(cache, [UnregisterEntity(assetId)], None)
  }

  /**
    After `assetRemoved` completes, no record of the original asset's id is
    left, and every record of another asset is kept as it was.
   */
  lemma AssetRemovedEffect(env: Env, cache: Cache, asset: Asset, s: Store)
    ensures var e := AssetRemoved(env, cache, asset);
            && e.cache == cache
            && (e.failure.None? <==> ResolveOriginalAssetIdentifier(env, AssetObject(asset)).Success?)
            && (e.failure.None? ==>
                 var assetId := ResolveOriginalAssetIdentifier(env, AssetObject(asset)).value;
                 var r := Apply(s, e.ops);
                 && UsagesOf(r, assetId) == {}
                 && (forall p :: p in s && p.assetId != assetId ==> p in r && r[p] == s[p])
                 && (forall p :: p in r ==> p in s))
  {
    var e := AssetRemoved(env, cache, asset);
    if e.failure.None? {
      assert Apply(s, e.ops) == Step(s, e.ops[0]);
    }
  }

  // ---------------------------------------------------------------- publishing

  /** The usage ids a publish may unregister under: the node's, and the target node's when there is one. */
  function PublishUsageIds(env: Env, node: Node, target: Option<Node>): set<string>
  {
    {NodeUsageId(env, node)} + (if target.Some? then {NodeUsageId(env, target.value)} else {})
  }

  /** One pass of the `beforeNodePublishing` loop: the target copy's value for `name` (if it has one), then the node's. */
  function UnpublishOne(env: Env, cache: Cache, node: Node, target: Option<Node>, name: string): Effect
    requires name in node.properties
  {
    var first :=
      if target.Some? && name in target.value.properties
      then UnregisterUsageInNode(env, cache, target.value, target.value.properties[name], false)
      else Effect(cache, [], None);
    if first.failure.Some? then first
    else
      var second := UnregisterUsageInNode(env, first.cache, node, node.properties[name], false);
      Effect(second.cache, first.ops + second.ops, second.failure)
  }

  /** The loop of `beforeNodePublishing`. */
  function UnpublishProperties(env: Env, cache: Cache, node: Node, target: Option<Node>, names: seq<string>): Effect
    decreases |names|
  {
    if |names| == 0 || names[0] !in node.properties || !Truthy(node.properties[names[0]]) then Effect(cache, [], None)
    else
      var one := UnpublishOne(env, cache, node, target, names[0]);
      if one.failure.Some? then one
      else
        var rest := UnpublishProperties(env, one.cache, node, target, names[1..]);
        Effect(rest.cache, one.ops + rest.ops, rest.failure)
  }

  /** The records a completed `beforeNodePublishing` deletes. */
  ghost function UnpublishedPairs(env: Env, node: Node, target: Option<Node>, names: seq<string>): set<Pair>
  {
    var visited := NonEmptyPrefix(node, names);
    PairsUnder(NodeUsageId(env, node), ResolvedIds(env, Visited(node, visited)))
    + (if target.Some? then PairsUnder(NodeUsageId(env, target.value), ResolvedIds(env, TargetVisited(target.value, visited))) else {})
  }

  lemma PairsUnderUnion(usageId: string, a: set<string>, b: set<string>)
    ensures PairsUnder(usageId, a + b) == PairsUnder(usageId, a) + PairsUnder(usageId, b)
  {
  }

  /** The target copy's elements for `name`, empty or not. */
  function TargetRefs(target: Node, name: string): seq<AssetRef>
  {
    if name in target.properties then Elements(target.properties[name]) else []
  }

  /** One pass deletes, without counting, the target copy's ids under its usage id and the node's ids under the node's. */
  lemma UnpublishOneEffect(env: Env, cache: Cache, node: Node, target: Option<Node>, name: string)
    requires node.nodeType.Some? && node.nodeType.value.name in cache
    requires name in node.properties
    ensures var e := UnpublishOne(env, cache, node, target, name);
            && Extends(e.cache, cache)
            && UnregistersUnder(e.ops, PublishUsageIds(env, node, target))
            && (e.failure.None? ==> UnregisteredPairs(e.ops) == UnpublishedOne(env, node, target, name))
  {
    var ids := PublishUsageIds(env, node, target);
    var first :=
      if target.Some? && name in target.value.properties
      then UnregisterUsageInNode(env, cache, target.value, target.value.properties[name], false)
      else Effect(cache, [], None);
    if target.Some? && name in target.value.properties {
      if target.value.nodeType.Some? {
        UnregisterWithoutCounting(env, cache, target.value, target.value.properties[name]);
      }
    } else {
      assert UnregisteredPairs(first.ops) == {};
      assert target.Some? ==> ResolvedIds(env, TargetRefs(target.value, name)) == {};
    }
    assert Extends(first.cache, cache) && UnregistersUnder(first.ops, ids);
    if first.failure.None? {
      var second := UnregisterUsageInNode(env, first.cache, node, node.properties[name], false);
      UnregisterWithoutCounting(env, first.cache, node, node.properties[name]);
      UnregisteredPairsConcat(first.ops, second.ops);
    }
  }

  /** The pairs one pass deletes. */
  ghost function UnpublishedOne(env: Env, node: Node, target: Option<Node>, name: string): set<Pair>
    requires name in node.properties
  {
    PairsUnder(NodeUsageId(env, node), ResolvedIds(env, Elements(node.properties[name])))
    + (if target.Some? then PairsUnder(NodeUsageId(env, target.value), ResolvedIds(env, TargetRefs(target.value, name))) else {})
  }

  /** Unpublishing a leading non-empty property deletes its pairs, then those of the rest of the loop. */
  lemma UnpublishedPairsCons(env: Env, node: Node, target: Option<Node>, names: seq<string>)
    requires |names| > 0 && names[0] in node.properties && Truthy(node.properties[names[0]])
    ensures UnpublishedPairs(env, node, target, names)
         == UnpublishedOne(env, node, target, names[0]) + UnpublishedPairs(env, node, target, names[1..])
  {
    var f := r => ResolveOriginalAssetIdentifier(env, r);
    var name := names[0];
    var visited := NonEmptyPrefix(node, names);
    var restNames := NonEmptyPrefix(node, names[1..]);
    assert visited == [name] + restNames;
    assert visited[0] == name && visited[1..] == restNames;
    var value := node.properties[name];
    assert Visited(node, visited) == Elements(value) + Visited(node, restNames);
    IdsOfConcat(f, Elements(value), Visited(node, restNames));
    PairsUnderUnion(NodeUsageId(env, node), IdsOf(f, Elements(value)), IdsOf(f, Visited(node, restNames)));
    if target.Some? {
      var targetRefs := TargetRefs(target.value, name);
      assert TargetVisited(target.value, visited) == targetRefs + TargetVisited(target.value, restNames);
      IdsOfConcat(f, targetRefs, TargetVisited(target.value, restNames));
      PairsUnderUnion(NodeUsageId(env, target.value), IdsOf(f, targetRefs), IdsOf(f, TargetVisited(target.value, restNames)));
    }
  }

  lemma {:induction false} UnpublishPropertiesEffect(env: Env, cache: Cache, node: Node, target: Option<Node>, names: seq<string>)
    requires node.nodeType.Some? && node.nodeType.value.name in cache
    ensures var e := UnpublishProperties(env, cache, node, target, names);
            && Extends(e.cache, cache)
            && UnregistersUnder(e.ops, PublishUsageIds(env, node, target))
            && (e.failure.None? ==> UnregisteredPairs(e.ops) == UnpublishedPairs(env, node, target, names))
    decreases |names|
  {
    var e := UnpublishProperties(env, cache, node, target, names);
    if |names| == 0 || names[0] !in node.properties || !Truthy(node.properties[names[0]]) {
      assert NonEmptyPrefix(node, names) == [];
      assert UnregisteredPairs(e.ops) == {};
      assert IdsOf(r => ResolveOriginalAssetIdentifier(env, r), []) == {};
    } else {
      var one := UnpublishOne(env, cache, node, target, names[0]);
      UnpublishOneEffect(env, cache, node, target, names[0]);
      if one.failure.None? {
        var rest := UnpublishProperties(env, one.cache, node, target, names[1..]);
        UnpublishPropertiesEffect(env, one.cache, node, target, names[1..]);
        assert e == Effect(rest.cache, one.ops + rest.ops, rest.failure);
        UnregisteredPairsConcat(one.ops, rest.ops);
        if rest.failure.None? {
          UnpublishedPairsCons(env, node, target, names);
        }
      }
    }
  }

  /**
    `beforeNodePublishing`, with the target workspace's copy of the node (if
    any) passed in: for each leading non-empty asset property of the node, it
    unregisters, without reference counting, the target copy's value for that
    property and the node's own value.
   */
  function BeforeNodePublishing(env: Env, cache: Cache, node: Node, target: Option<Node>): Effect
  {
    match node.nodeType
    case None => Effect(cache, [], Some(NodeTypeNotFound))
    case Some(nt) =>
      var c := GetAssetPropertyNamesForNodeType(cache, nt);
      UnpublishProperties(env, c.cache, node, target, c.names)
  }

  /**
    `beforeNodePublishing` only deletes records under the node's or the target
    copy's usage id; when it completes, the deleted records are exactly those
    of the target copy's values and of the node's values for the node's leading
    non-empty asset properties.
   */
  lemma BeforeNodePublishingEffect(env: Env, cache: Cache, node: Node, target: Option<Node>, s: Store)
    ensures var e := BeforeNodePublishing(env, cache, node, target);
            node.nodeType.None? ==> e == Effect(cache, [], Some(NodeTypeNotFound))
    ensures var e := BeforeNodePublishing(env, cache, node, target);
            node.nodeType.Some? ==>
              var c := GetAssetPropertyNamesForNodeType(cache, node.nodeType.value);
              && Extends(e.cache, c.cache)
              && UnregistersUnder(e.ops, PublishUsageIds(env, node, target))
              && (e.failure.None? ==> Apply(s, e.ops) == s - UnpublishedPairs(env, node, target, c.names))
  {
    if node.nodeType.Some? {
      var c := GetAssetPropertyNamesForNodeType(cache, node.nodeType.value);
      UnpublishPropertiesEffect(env, c.cache, node, target, c.names);
      var e := BeforeNodePublishing(env, cache, node, target);
      ApplyUnregisters(s, e.ops);
    }
  }

  /** What the handlers look at depends only on the node's properties. */
  lemma {:induction false} SamePropertiesSameVisits(a: Node, b: Node, names: seq<string>)
    requires a.properties == b.properties
    ensures NonEmptyPrefix(a, names) == NonEmptyPrefix(b, names)
    ensures Visited(a, names) == Visited(b, names)
    decreases |names|
  {
    if |names| > 0 {
      SamePropertiesSameVisits(a, b, names[1..]);
    }
  }

  /**
    Publishing replaces the target copy's usage: `beforeNodePublishing` then
    `afterNodePublishing` of the published node (the node's content at the
    target copy's identifier, dimensions and workspace) deletes the target
    copy's and the source node's records for the published properties, then
    upserts the published values under the target's usage id.
   */
  lemma PublishReplacesTargetUsage(env: Env, cache: Cache, node: Node, target: Node, published: Node, s: Store)
    requires node.nodeType.Some? && published.nodeType == node.nodeType && !published.removed
    requires published.properties == node.properties
    requires published.identifier == target.identifier && published.dimensions == target.dimensions
    requires published.workspace == target.workspace
    ensures var before := BeforeNodePublishing(env, cache, node, Some(target));
            var after := AfterNodePublishing(env, before.cache, published);
            var nt := node.nodeType.value;
            var names := GetAssetPropertyNamesForNodeType(cache, nt).names;
            before.failure.None? && after.failure.None? ==>
              Apply(Apply(s, before.ops), after.ops)
              == Upsert(s - UnpublishedPairs(env, node, Some(target), names),
                        PairsUnder(NodeUsageId(env, target), EntityIds(env, Visited(node, NonEmptyPrefix(node, names)))),
                        NodeMeta(env, published, nt.name))
  {
    var nt := node.nodeType.value;
    var c := GetAssetPropertyNamesForNodeType(cache, nt);
    var before := BeforeNodePublishing(env, cache, node, Some(target));
    BeforeNodePublishingEffect(env, cache, node, Some(target), s);
    var s1 := Apply(s, before.ops);
    AfterNodePublishingEffect(env, before.cache, published, s1);
    var after := AfterNodePublishing(env, before.cache, published);
    if before.failure.None? && after.failure.None? {
      var c2 := GetAssetPropertyNamesForNodeType(before.cache, nt);
      assert c2.names == c.names;
      SamePropertiesSameVisits(published, node, c.names);
      var refs := Visited(node, NonEmptyPrefix(node, c.names));
      SamePropertiesSameVisits(published, node, NonEmptyPrefix(node, c.names));
      assert Visited(published, NonEmptyPrefix(published, c2.names)) == refs;
      assert NodeUsageId(env, published) == NodeUsageId(env, target);
      assert s1 == s - UnpublishedPairs(env, node, Some(target), c.names);
      assert Apply(s1, after.ops) == Upsert(s1, PairsUnder(NodeUsageId(env, target), EntityIds(env, refs)), NodeMeta(env, published, nt.name));
    }
  }

  // ---------------------------------------------------------------- property change

  /**
    `nodePropertyChanged`, called after the new value is stored on the node:
    nothing when the value did not change or the property's type cannot hold
    assets; otherwise unregister the old value with reference counting, then
    register the new one.
   */
  function NodePropertyChanged(env: Env, cache: Cache, node: Node, propertyName: string, oldValue: PropertyValue, newValue: PropertyValue): Effect
  {
    if oldValue == newValue then Effect(cache, [], None)
    else
      match node.nodeType
      case None => Effect(cache, [], Some(NodeTypeNotFound))
      case Some(nt) =>
        if !PropertyTypeCanBeRegistered(PropertyType(nt, propertyName)) then Effect(cache, [], None)
        else
          var u := if Truthy(oldValue) then UnregisterUsageInNode(env, cache, node, oldValue, true) else Effect(cache, [], None);
          if u.failure.Some? then u
          else
            var w := if Truthy(newValue) then RegisterUsageInNode(env, node, nt.name, newValue) else Writes([], None);
            Effect(u.cache, u.ops + w.ops, w.failure)
  }

  /** The records the reference-counted unregister of `value` deletes (as the repository counts). */
  ghost function CountedRemovals(env: Env, node: Node, names: seq<string>, value: PropertyValue): set<Pair>
  {
    PairsUnder(NodeUsageId(env, node),
               set id | id in ResolvedIds(env, Elements(value)) && (|names| <= 1 || Occurrences(env, node, names, id) <= 1))
  }

  lemma CountedRemovalPairs(env: Env, cache: Cache, node: Node, value: PropertyValue)
    requires node.nodeType.Some?
    requires UnregisterUsageInNode(env, cache, node, value, true).failure.None?
    ensures var names := GetAssetPropertyNamesForNodeType(cache, node.nodeType.value).names;
            UnregisteredPairs(UnregisterUsageInNode(env, cache, node, value, true).ops) == CountedRemovals(env, node, names, value)
  {
    var e := UnregisterUsageInNode(env, cache, node, value, true);
    var names := GetAssetPropertyNamesForNodeType(cache, node.nodeType.value).names;
    var usageId := NodeUsageId(env, node);
    forall p | p in UnregisteredPairs(e.ops) ensures p in CountedRemovals(env, node, names, value) {
      var i :| 0 <= i < |e.ops| && e.ops[i].Unregister? && e.ops[i].pair == p;
      assert p.usageId == usageId;
      UnregisterUsageInNodeRule(env, cache, node, value, true, p.assetId);
    }
    forall p | p in CountedRemovals(env, node, names, value) ensures p in UnregisteredPairs(e.ops) {
      UnregisterUsageInNodeRule(env, cache, node, value, true, p.assetId);
    }
  }

  /** Every call upserts or deletes one pair under `usageId`. */
  predicate WritesUnder(ops: seq<Op>, usageId: string)
  {
    forall i :: 0 <= i < |ops| ==> !ops[i].UnregisterEntity? && ops[i].pair.usageId == usageId
  }

  /** Deletes followed by upserts, all under one usage id, write only under it. */
  lemma WritesUnderConcat(dels: seq<Op>, ups: seq<Op>, usageId: string, m: Meta)
    requires UnregistersUnder(dels, {usageId}) && RegistersUnder(ups, usageId, m)
    ensures WritesUnder(dels + ups, usageId)
  {
    var ab := dels + ups;
    assert forall i :: |dels| <= i < |ab| ==> ab[i] == ups[i - |dels|];
  }

  /** The old value's part of a change: counted deletes under the node's usage id. */
  lemma ChangedOldValue(env: Env, cache: Cache, node: Node, nt: NodeType, oldValue: PropertyValue)
    requires node.nodeType == Some(nt)
    ensures var u := if Truthy(oldValue) then UnregisterUsageInNode(env, cache, node, oldValue, true) else Effect(cache, [], None);
            && Extends(u.cache, cache)
            && UnregistersUnder(u.ops, {NodeUsageId(env, node)})
            && (u.failure.None? ==>
                 UnregisteredPairs(u.ops)
                 == if Truthy(oldValue) then CountedRemovals(env, node, GetAssetPropertyNamesForNodeType(cache, nt).names, oldValue) else {})
  {
    if Truthy(oldValue) {
      UnregisterUsageInNodeRule(env, cache, node, oldValue, true, "");
      if UnregisterUsageInNode(env, cache, node, oldValue, true).failure.None? {
        CountedRemovalPairs(env, cache, node, oldValue);
      }
    } else {
      assert UnregisteredPairs([]) == {};
    }
  }

  /** The new value's part of a change: upserts of its entity ids under the node's usage id. */
  lemma ChangedNewValue(env: Env, node: Node, nt: NodeType, newValue: PropertyValue)
    ensures var w := if Truthy(newValue) then RegisterUsageInNode(env, node, nt.name, newValue) else Writes([], None);
            && RegistersUnder(w.ops, NodeUsageId(env, node), NodeMeta(env, node, nt.name))
            && (w.failure.None? ==>
                 RegisteredPairs(w.ops)
                 == if Truthy(newValue) then PairsUnder(NodeUsageId(env, node), EntityIds(env, Elements(newValue))) else {})
  {
    if Truthy(newValue) {
      if RegisterUsageInNode(env, node, nt.name, newValue).failure.None? {
        RegisterAllPairs(env, node, nt.name, Elements(newValue));
      }
    } else {
      assert RegisteredPairs([]) == {};
    }
  }

  /** The changed-value case: counted unregister of the old value, then registration of the new one. */
  lemma {:induction false} ChangedValueEffect(env: Env, cache: Cache, node: Node, nt: NodeType, propertyName: string,
                                              oldValue: PropertyValue, newValue: PropertyValue, s: Store)
    requires node.nodeType == Some(nt) && oldValue != newValue && PropertyTypeCanBeRegistered(PropertyType(nt, propertyName))
    ensures var e := NodePropertyChanged(env, cache, node, propertyName, oldValue, newValue);
            && Extends(e.cache, cache)
            && WritesUnder(e.ops, NodeUsageId(env, node))
            && (e.failure.None? ==>
                 var names := GetAssetPropertyNamesForNodeType(cache, nt).names;
                 var removed := if Truthy(oldValue) then CountedRemovals(env, node, names, oldValue) else {};
                 var added := if Truthy(newValue) then PairsUnder(NodeUsageId(env, node), EntityIds(env, Elements(newValue))) else {};
                 Apply(s, e.ops) == Upsert(s - removed, added, NodeMeta(env, node, nt.name)))
  {
    var e := NodePropertyChanged(env, cache, node, propertyName, oldValue, newValue);
    var u := if Truthy(oldValue) then UnregisterUsageInNode(env, cache, node, oldValue, true) else Effect(cache, [], None);
    var w := if Truthy(newValue) then RegisterUsageInNode(env, node, nt.name, newValue) else Writes([], None);
    ChangedOldValue(env, cache, node, nt, oldValue);
    ChangedNewValue(env, node, nt, newValue);
    if u.failure.Some? {
      assert e == u;
    } else {
      assert e == Effect(u.cache, u.ops + w.ops, w.failure);
      WritesUnderConcat(u.ops, w.ops, NodeUsageId(env, node), NodeMeta(env, node, nt.name));
      if e.failure.None? {
        UnregisterThenRegister(s, u.ops, w.ops, NodeUsageId(env, node), NodeMeta(env, node, nt.name));
      }
    }
  }

  /**
    `nodePropertyChanged` does nothing when the value is unchanged or the
    property cannot hold assets. Otherwise it touches only the node's usage id,
    and when it completes the store is the old store less the old value's
    records the reference-counting rule releases, with one record per asset
    id of the new value upserted.
   */
  lemma NodePropertyChangedEffect(env: Env, cache: Cache, node: Node, propertyName: string, oldValue: PropertyValue, newValue: PropertyValue, s: Store)
    ensures oldValue == newValue ==> NodePropertyChanged(env, cache, node, propertyName, oldValue, newValue) == Effect(cache, [], None)
    ensures oldValue != newValue && node.nodeType.None? ==>
              NodePropertyChanged(env, cache, node, propertyName, oldValue, newValue) == Effect(cache, [], Some(NodeTypeNotFound))
    ensures oldValue != newValue && node.nodeType.Some? && !PropertyTypeCanBeRegistered(PropertyType(node.nodeType.value, propertyName)) ==>
              NodePropertyChanged(env, cache, node, propertyName, oldValue, newValue) == Effect(cache, [], None)
    ensures var e := NodePropertyChanged(env, cache, node, propertyName, oldValue, newValue);
            && Extends(e.cache, cache)
            && WritesUnder(e.ops, NodeUsageId(env, node))
    ensures var e := NodePropertyChanged(env, cache, node, propertyName, oldValue, newValue);
            oldValue != newValue && node.nodeType.Some? && PropertyTypeCanBeRegistered(PropertyType(node.nodeType.value, propertyName))
            && e.failure.None? ==>
              var nt := node.nodeType.value;
              var names := GetAssetPropertyNamesForNodeType(cache, nt).names;
              var removed := if Truthy(oldValue) then CountedRemovals(env, node, names, oldValue) else {};
              var added := if Truthy(newValue) then PairsUnder(NodeUsageId(env, node), EntityIds(env, Elements(newValue))) else {};
              Apply(s, e.ops) == Upsert(s - removed, added, NodeMeta(env, node, nt.name))
  {
    if oldValue != newValue && node.nodeType.Some? && PropertyTypeCanBeRegistered(PropertyType(node.nodeType.value, propertyName)) {
      ChangedValueEffect(env, cache, node, node.nodeType.value, propertyName, oldValue, newValue, s);
    }
  }
}
