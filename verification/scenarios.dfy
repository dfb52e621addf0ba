/**
  A worked example of the incremental updater on one text node with one
  image property.
 */
module Scenarios {
  import opened Wrappers
  import opened Content
  import opened UsageStore
  import opened UsageKey
  import opened Classifier
  import opened AssetIntegration
  import opened NodeEvents

  const TextType := NodeType("Text", [PropertyDecl("image", AssetType)])

  /** Node N1 of type Text in workspace live, no dimensions, whose image is `a1`. */
  function TextNode(a1: Asset): Node
  {
    Node("N1", Some(TextType), "live", [], false, map["image" := Scalar(AssetObject(a1))])
  }

  /**
    Adding N1 records exactly the pair of its usage key and A1; clearing the
    image removes it again; removing A1 deletes its records under every usage
    key.
   */
  lemma TextNodeScenario(env: Env, a1: Asset, otherKey: string, m1: Meta, m2: Meta)
    requires !a1.isVariant
    ensures var n1 := TextNode(a1);
            var k := UsageId(env, "N1", [], "live");
            var id := env.identifierOf(AssetObject(a1));
            var added := NodeAdded(env, map[], n1);
            var s1 := Apply(map[], added.ops);
            var cleared := n1.(properties := map["image" := Scalar(NullRef)]);
            var changed := NodePropertyChanged(env, added.cache, cleared, "image", Scalar(AssetObject(a1)), Scalar(NullRef));
            var removed := AssetRemoved(env, changed.cache, a1);
            && added.failure.None? && s1.Keys == {Pair(k, id)}
            && changed.failure.None? && Apply(s1, changed.ops) == map[]
            && removed.failure.None?
            && Apply(map[Pair(k, id) := m1, Pair(otherKey, id) := m2], removed.ops) == map[]
  {
    var n1 := TextNode(a1);
    var k := UsageId(env, "N1", [], "live");
    var id := env.identifierOf(AssetObject(a1));
    var names := ["image"];
    assert TextType.declared[1..] == [];
    assert AssetPropertyNames(TextType.declared) == names;
    assert names[1..] == [];
    assert ResolveOriginalAssetIdentifier(env, AssetObject(a1)) == Success(id);
    var added := NodeAdded(env, map[], n1);
    NodeAddedEffect(env, map[], n1, map[]);
    assert [AssetObject(a1)][1..] == [];
    assert added.ops == [Register(Pair(k, id), NodeMeta(env, n1, "Text"))];
    assert Apply(map[], added.ops) == Step(map[], added.ops[0]);
    var s1 := Apply(map[], added.ops);
    var cleared := n1.(properties := map["image" := Scalar(NullRef)]);
    var changed := NodePropertyChanged(env, added.cache, cleared, "image", Scalar(AssetObject(a1)), Scalar(NullRef));
    assert PropertyType(TextType, "image") == AssetType;
    assert added.cache == map["Text" := names];
    assert NodeUsageId(env, cleared) == k;
    assert UnregisterEach(env, k, [AssetObject(a1)], None) == Writes([Unregister(Pair(k, id))] + [], None);
    assert UnregisterUsageInNode(env, added.cache, cleared, Scalar(AssetObject(a1)), true).ops == [Unregister(Pair(k, id))];
    assert changed.ops == [Unregister(Pair(k, id))] + [];
    assert Apply(s1, changed.ops) == Step(s1, changed.ops[0]);
    var removed := AssetRemoved(env, changed.cache, a1);
    var s := map[Pair(k, id) := m1, Pair(otherKey, id) := m2];
    AssetRemovedEffect(env, changed.cache, a1, s);
  }
}
