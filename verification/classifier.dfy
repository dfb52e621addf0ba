/**
  The property classifier: which declared properties of a node type can hold
  asset references, memoised per node-type name in a cache that is never
  invalidated.
 */
module Classifier {
  import opened Content

  const AssetType := "Neos\\Media\\Domain\\Model\\Asset"
  const AssetInterfaceType := "Neos\\Media\\Domain\\Model\\AssetInterface"
  const ImageInterfaceType := "Neos\\Media\\Domain\\Model\\ImageInterface"
  const AssetArrayType := "array<" + AssetType + ">"

  /** `propertyTypeCanBeRegistered`: the four type strings that hold assets. */
  predicate PropertyTypeCanBeRegistered(propertyType: string)
  {
    propertyType == AssetType
    || propertyType == AssetInterfaceType
    || propertyType == ImageInterfaceType
    || propertyType == AssetArrayType
  }

  /** The names of the declared properties whose type can hold assets, in declaration order. */
  function AssetPropertyNames(declared: seq<PropertyDecl>): (names: seq<string>)
    ensures |names| <= |declared|
    ensures forall n :: n in names <==>
      exists i :: 0 <= i < |declared| && declared[i].name == n && PropertyTypeCanBeRegistered(declared[i].typeName)
  {
    if |declared| == 0 then []
    else
      var rest := AssetPropertyNames(declared[1..]);
      assert forall i :: 1 <= i < |declared| ==> declared[i] == declared[1..][i - 1];
      if PropertyTypeCanBeRegistered(declared[0].typeName) then [declared[0].name] + rest else rest
  }

  /**
    The classification keeps declaration order: classifying two runs of
    declarations one after the other gives the two results one after the other.
   */
  lemma {:induction false} AssetPropertyNamesConcat(a: seq<PropertyDecl>, b: seq<PropertyDecl>)
    ensures AssetPropertyNames(a + b) == AssetPropertyNames(a) + AssetPropertyNames(b)
    decreases |a|
  {
    if |a| == 0 {
      assert a + b == b;
    } else {
      assert (a + b)[0] == a[0];
      assert (a + b)[1..] == a[1..] + b;
      AssetPropertyNamesConcat(a[1..], b);
    }
  }

  /** The per-type memo: node-type name to its asset property names. */
  type Cache = map<string, seq<string>>

  /** The classifier's answer and the cache after the call. */
  datatype Classified = Classified(names: seq<string>, cache: Cache)

  /** `big` holds every entry of `small` unchanged. */
  predicate Extends(big: Cache, small: Cache)
  {
    small.Keys <= big.Keys && forall k :: k in small ==> big[k] == small[k]
  }

  /**
    `getAssetPropertyNamesForNodeType`: a cached answer is returned as is and
    the cache is left alone; otherwise the type is classified and the answer
    is stored under the type's name, leaving every other entry unchanged.
   */
  function GetAssetPropertyNamesForNodeType(cache: Cache, nt: NodeType): (r: Classified)
    ensures nt.name in r.cache && r.cache[nt.name] == r.names
    ensures r.cache.Keys == cache.Keys + {nt.name}
    ensures Extends(r.cache, cache)
    ensures nt.name in cache ==> r.names == cache[nt.name] && r.cache == cache
    ensures nt.name !in cache ==> r.names == AssetPropertyNames(nt.declared)
  {
    if nt.name in cache then Classified(cache[nt.name], cache)
    else
      var names := AssetPropertyNames(nt.declared);
      Classified(names, cache[nt.name := names])
  }

  lemma ExtendsTransitive(a: Cache, b: Cache, c: Cache)
    requires Extends(a, b) && Extends(b, c)
    ensures Extends(a, c)
  {
  }

  /**
    A repeated lookup is answered from the cache: the same names come back and
    the cache does not change, even when the schema passed in has changed.
   */
  lemma RepeatLookupHitsCache(cache: Cache, nt: NodeType, later: NodeType)
    requires later.name == nt.name
    ensures var first := GetAssetPropertyNamesForNodeType(cache, nt);
            GetAssetPropertyNamesForNodeType(first.cache, later) == first
  {
  }

  /** The cache agrees with a node type's own schema wherever it holds that type's name. */
  predicate Coherent(cache: Cache, nt: NodeType)
  {
    nt.name in cache ==> cache[nt.name] == AssetPropertyNames(nt.declared)
  }

  /**
    While the cache is coherent with the schema (schemas do not change during a
    run), the memoised answer is exactly the classification of the schema.
   */
  lemma CoherentLookupClassifies(cache: Cache, nt: NodeType)
    requires Coherent(cache, nt)
    ensures GetAssetPropertyNamesForNodeType(cache, nt).names == AssetPropertyNames(nt.declared)
    ensures Coherent(GetAssetPropertyNamesForNodeType(cache, nt).cache, nt)
  {
  }
}
