/**
  The reconciler (`asset-usage update`): snapshot the index, scan every node
  and confirm or add each usage it finds, collect error rows for variants
  whose original cannot be loaded, then delete every usage that was never
  confirmed. Also the guarded manual unregister command.
 */
module Reconciler {
  import opened Wrappers
  import opened Content
  import opened UsageStore
  import opened UsageKey
  import opened Classifier
  import opened AssetIntegration
  import opened NodeEvents

  /** One row of the "Added usages" table. */
  datatype AddedRow = AddedRow(usageId: string, assetId: string, nodeIdentifier: string, dimensions: string, workspace: string, nodeType: string)

  /** One row of the reference-error table. */
  datatype ErrorRow = ErrorRow(nodeIdentifier: string, property: string, message: string)

  /**
    One element met during the scan: an element with its key (an id, or null),
    found in `node` of type `typeName`; or a variant whose original could not
    be loaded.
   */
  datatype Item = Found(node: Node, typeName: string, ref: AssetRef) | Unresolvable(row: ErrorRow)

  /** Asset objects are replaced by their identifier before an element is looked up. */
  predicate Scanned(item: Item)
  {
    item.Found? ==> !item.ref.AssetObject?
  }

  /**
    The key the scan uses for an element: an asset object becomes the
    identifier of its original; an id or null is used as it is.
   */
  function ScanKey(env: Env, ref: AssetRef): (r: Result<AssetRef, string>)
    ensures r.Success? ==> !r.value.AssetObject?
    ensures r.Failure? <==> ResolveOriginalAssetIdentifier(env, ref).Failure?
    ensures ref.AssetObject? && r.Success? ==> r.value == IdRef(ResolveOriginalAssetIdentifier(env, ref).value)
    ensures !ref.AssetObject? ==> r == Success(ref)
  {
    match ref
    case AssetObject(_) =>
      (match ResolveOriginalAssetIdentifier(env, ref)
       case Failure(m) => Failure(m)
       case Success(id) => Success(IdRef(id)))
    case _ => Success(ref)
  }

  function ElementItem(env: Env, node: Node, typeName: string, property: string, ref: AssetRef): Item
  {
    match ScanKey(env, ref)
    case Failure(m) => Unresolvable(ErrorRow(node.identifier, property, m))
    case Success(key) => Found(node, typeName, key)
  }

  /** For each element `Visited` lists, the name of the property it came from. */
  function Origins(node: Node, names: seq<string>): (o: seq<string>)
    ensures |o| == |Visited(node, names)|
    ensures forall i :: 0 <= i < |o| ==>
      && o[i] in names && o[i] in node.properties && Truthy(node.properties[o[i]])
      && Visited(node, names)[i] in Elements(node.properties[o[i]])
    decreases |names|
  {
    if |names| == 0 then []
    else
      var name := names[0];
      var here := if name in node.properties && Truthy(node.properties[name]) then Elements(node.properties[name]) else [];
      var rest := Origins(node, names[1..]);
      var v := Visited(node, names);
      var vr := Visited(node, names[1..]);
      assert v == here + vr;
      var o := seq(|here|, _ => name) + rest;
      forall i | 0 <= i < |o|
        ensures o[i] in names && o[i] in node.properties && Truthy(node.properties[o[i]]) && v[i] in Elements(node.properties[o[i]])
      {
        if i < |here| {
          assert o[i] == name && v[i] == here[i];
        } else {
          var j := i - |here|;
          assert o[i] == rest[j] && v[i] == vr[j];
          assert rest[j] in names[1..];
          assert names == [name] + names[1..];
        }
      }
      o
  }

  /**
    The items of one node: every element of every present, non-empty asset
    property, in order. Unlike the event handlers, the scan moves on past a
    missing or empty property.
   */
  function NodeItems(env: Env, node: Node, typeName: string, names: seq<string>): (items: seq<Item>)
    ensures |items| == |Visited(node, names)|
    ensures forall i :: 0 <= i < |items| ==>
      && Scanned(items[i])
      && (items[i].Found? <==> ScanKey(env, Visited(node, names)[i]).Success?)
      && (items[i].Found? ==> items[i] == Found(node, typeName, ScanKey(env, Visited(node, names)[i]).value))
      && (items[i].Unresolvable? ==>
            items[i].row.nodeIdentifier == node.identifier && items[i].row.property == Origins(node, names)[i]
            && items[i].row.message == ScanKey(env, Visited(node, names)[i]).error)
    decreases |names|
  {
    if |names| == 0 then []
    else
      var name := names[0];
      var here := if name in node.properties && Truthy(node.properties[name]) then Elements(node.properties[name]) else [];
      var mine := seq(|here|, i requires 0 <= i < |here| => ElementItem(env, node, typeName, name, here[i]));
      var rest := NodeItems(env, node, typeName, names[1..]);
      assert Visited(node, names) == here + Visited(node, names[1..]);
      assert Origins(node, names) == seq(|here|, _ => name) + Origins(node, names[1..]);
      assert forall i :: 1 <= i < |names| ==> names[i] == names[1..][i - 1];
      mine + rest
  }

  /**
    The nodes' items in scan order, with the classifier cache threaded
    through; nodes whose type cannot be resolved are skipped.
   */
  datatype Trace = Trace(items: seq<Item>, cache: Cache)

  function TraceOf(env: Env, cache: Cache, nodes: seq<Node>): (t: Trace)
    ensures Extends(t.cache, cache)
    ensures forall i :: 0 <= i < |t.items| ==> Scanned(t.items[i])
    decreases |nodes|
  {
    if |nodes| == 0 then Trace([], cache)
    else
      match nodes[0].nodeType
      case None => TraceOf(env, cache, nodes[1..])
      case Some(nt) =>
        var c := GetAssetPropertyNamesForNodeType(cache, nt);
        var rest := TraceOf(env, c.cache, nodes[1..]);
        ExtendsTransitive(rest.cache, c.cache, cache);
        Trace(NodeItems(env, nodes[0], nt.name, c.names) + rest.items, rest.cache)
  }

  /**
    The memo makes a scan repeatable: starting from any cache that extends
    the one a scan ended with, the same nodes give the same items.
   */
  lemma {:induction false} TraceStable(env: Env, first: Cache, later: Cache, nodes: seq<Node>)
    requires Extends(later, TraceOf(env, first, nodes).cache)
    ensures TraceOf(env, later, nodes).items == TraceOf(env, first, nodes).items
    decreases |nodes|
  {
    if |nodes| > 0 && nodes[0].nodeType.None? {
      TraceStable(env, first, later, nodes[1..]);
    } else if |nodes| > 0 {
      var nt := nodes[0].nodeType.value;
      var c1 := GetAssetPropertyNamesForNodeType(first, nt);
      var c2 := GetAssetPropertyNamesForNodeType(later, nt);
      var rest1 := TraceOf(env, c1.cache, nodes[1..]);
      assert rest1.cache == TraceOf(env, first, nodes).cache;
      assert nt.name in later && later[nt.name] == c1.names;
      assert c2.names == c1.names && c2.cache == later;
      TraceStable(env, c1.cache, later, nodes[1..]);
    }
  }

  // ---------------------------------------------------------------- the scan

  /** The key an element is looked up under in the snapshot: its id, with a null element looked up under the empty key. */
  function ArrayKey(ref: AssetRef): string
  {
    match ref
    case IdRef(id) => id
    case _ => ""
  }

  function ItemPair(env: Env, item: Item): Pair
    requires item.Found?
  {
    Pair(NodeUsageId(env, item.node), ArrayKey(item.ref))
  }

  /**
    The scan's state: the snapshot pairs not yet confirmed, the store calls
    made, the rows added and the error rows, and the exception that ended the
    command, if any.
   */
  datatype Scan = Scan(unconfirmed: set<Pair>, ops: seq<Op>, added: seq<AddedRow>, errors: seq<ErrorRow>, failure: Option<string>)

  /** One element: report an error row, confirm a known pair, or register the missing pair and report it. */
  function Process(env: Env, known: Store, st: Scan, item: Item): Scan
  {
    match item
    case Unresolvable(row) => st.(errors := st.errors + [row])
    case Found(node, typeName, ref) =>
      var p := Pair(NodeUsageId(env, node), ArrayKey(ref));
      if p in known then st.(unconfirmed := st.unconfirmed - {p})
      else
        match RegisterUsage(env, node.identifier, typeName, node.dimensions, node.workspace, ref)
        case Failure(m) => st.(failure := Some(m))
        case Success(reg) =>
          st.(ops := st.ops + [reg.write],
              added := st.added + [AddedRow(reg.usageId, ArrayKey(ref), node.identifier, env.jsonEncode(node.dimensions), node.workspace, typeName)])
  }

  /** The elements in order, until the first exception. */
  function FoldItems(env: Env, known: Store, st: Scan, items: seq<Item>): (r: Scan)
    ensures r.unconfirmed <= st.unconfirmed
    ensures st.failure.Some? ==> r == st
    decreases |items|
  {
    if |items| == 0 || st.failure.Some? then st
    else FoldItems(env, known, Process(env, known, st, items[0]), items[1..])
  }

  lemma {:induction false} FoldItemsConcat(env: Env, known: Store, st: Scan, a: seq<Item>, b: seq<Item>)
    ensures FoldItems(env, known, st, a + b) == FoldItems(env, known, FoldItems(env, known, st, a), b)
    decreases |a|
  {
    if |a| == 0 {
      assert a + b == b;
    } else if st.failure.None? {
      assert (a + b)[0] == a[0] && (a + b)[1..] == a[1..] + b;
      FoldItemsConcat(env, known, Process(env, known, st, a[0]), a[1..], b);
    }
  }

  /** The reconciler's node loop, literally: skip untyped nodes and nodes without asset properties, stop at an exception. */
  datatype Pass = Pass(cache: Cache, scan: Scan)

  function ScanNodes(env: Env, known: Store, cache: Cache, st: Scan, nodes: seq<Node>): (r: Pass)
    ensures r.scan.unconfirmed <= st.unconfirmed
    decreases |nodes|
  {
    if |nodes| == 0 || st.failure.Some? then Pass(cache, st)
    else
      match nodes[0].nodeType
      case None => ScanNodes(env, known, cache, st, nodes[1..])
      case Some(nt) =>
        var c := GetAssetPropertyNamesForNodeType(cache, nt);
        if |c.names| == 0 then ScanNodes(env, known, c.cache, st, nodes[1..])
        else ScanNodes(env, known, c.cache, FoldItems(env, known, st, NodeItems(env, nodes[0], nt.name, c.names)), nodes[1..])
  }

  /** The node loop processes exactly the trace's items, in order. */
  lemma {:induction false} ScanFollowsTrace(env: Env, known: Store, cache: Cache, st: Scan, nodes: seq<Node>)
    ensures ScanNodes(env, known, cache, st, nodes).scan == FoldItems(env, known, st, TraceOf(env, cache, nodes).items)
    ensures ScanNodes(env, known, cache, st, nodes).scan.failure.None? ==>
              ScanNodes(env, known, cache, st, nodes).cache == TraceOf(env, cache, nodes).cache
    decreases |nodes|
  {
    if |nodes| > 0 && st.failure.None? {
      match nodes[0].nodeType
      case None =>
        ScanFollowsTrace(env, known, cache, st, nodes[1..]);
      case Some(nt) =>
        var c := GetAssetPropertyNamesForNodeType(cache, nt);
        var mine := NodeItems(env, nodes[0], nt.name, c.names);
        var rest := TraceOf(env, c.cache, nodes[1..]);
        FoldItemsConcat(env, known, st, mine, rest.items);
        if |c.names| == 0 {
          assert mine == [];
          assert mine + rest.items == rest.items;
        }
        ScanFollowsTrace(env, known, c.cache, FoldItems(env, known, st, mine), nodes[1..]);
    }
  }

  // ---------------------------------------------------------------- what the scan should do

  /** The pairs the items name. */
  function FoundPairs(env: Env, items: seq<Item>): set<Pair>
    decreases |items|
  {
    if |items| == 0 then {}
    else (if items[0].Found? then {ItemPair(env, items[0])} else {}) + FoundPairs(env, items[1..])
  }

  /** The occurrences, in order, of elements whose pair is not in the snapshot. */
  function Missing(env: Env, known: Store, items: seq<Item>): (m: seq<Item>)
    ensures forall i :: 0 <= i < |m| ==> m[i].Found? && ItemPair(env, m[i]) !in known
    ensures (forall i :: 0 <= i < |items| ==> Scanned(items[i])) ==> forall i :: 0 <= i < |m| ==> Scanned(m[i])
    decreases |items|
  {
    if |items| == 0 then []
    else
      var rest := Missing(env, known, items[1..]);
      assert forall i :: 1 <= i < |items| ==> items[i] == items[1..][i - 1];
      if items[0].Found? && ItemPair(env, items[0]) !in known then [items[0]] + rest else rest
  }

  /** The error rows, in order. */
  function ErrorsOf(items: seq<Item>): seq<ErrorRow>
    decreases |items|
  {
    if |items| == 0 then []
    else (if items[0].Unresolvable? then [items[0].row] else []) + ErrorsOf(items[1..])
  }

  function AddedRowOf(env: Env, item: Item): AddedRow
    requires item.Found?
  {
    var n := item.node;
    AddedRow(NodeUsageId(env, n), ArrayKey(item.ref), n.identifier, env.jsonEncode(n.dimensions), n.workspace, item.typeName)
  }

  function RegisterOf(env: Env, item: Item): Op
    requires item.Found?
  {
    Register(ItemPair(env, item), NodeMeta(env, item.node, item.typeName))
  }

  function AddedRows(env: Env, m: seq<Item>): seq<AddedRow>
    requires forall i :: 0 <= i < |m| ==> m[i].Found?
  {
    seq(|m|, i requires 0 <= i < |m| => AddedRowOf(env, m[i]))
  }

  function RegisterOps(env: Env, m: seq<Item>): seq<Op>
    requires forall i :: 0 <= i < |m| ==> m[i].Found?
  {
    seq(|m|, i requires 0 <= i < |m| => RegisterOf(env, m[i]))
  }

  /** The scan succeeds unless a missing element is a null id. */
  predicate Registrable(m: seq<Item>)
    requires forall i :: 0 <= i < |m| ==> m[i].Found?
  {
    forall i :: 0 <= i < |m| ==> m[i].ref.IdRef?
  }

  /** The scan stops exactly when a missing element is a null id. */
  lemma {:induction false} FoldItemsFailure(env: Env, known: Store, st: Scan, items: seq<Item>)
    requires st.failure.None?
    requires forall i :: 0 <= i < |items| ==> Scanned(items[i])
    ensures FoldItems(env, known, st, items).failure.None? <==> Registrable(Missing(env, known, items))
    decreases |items|
  {
    if |items| > 0 {
      var x := items[0];
      var rest := items[1..];
      var m := Missing(env, known, items);
      var mr := Missing(env, known, rest);
      assert forall i :: 0 <= i < |rest| ==> rest[i] == items[i + 1];
      if x.Found? && ItemPair(env, x) !in known {
        assert m == [x] + mr;
        if x.ref.IdRef? {
          FoldItemsFailure(env, known, Process(env, known, st, x), rest);
          assert Registrable(m) <==> Registrable(mr) by {
            forall i | 0 <= i < |mr| ensures mr[i] == m[i + 1] { }
          }
        } else {
          assert !m[0].ref.IdRef?;
        }
      } else {
        FoldItemsFailure(env, known, Process(env, known, st, x), rest);
      }
    }
  }

  /** One element's effect on a scan that goes on. */
  lemma ProcessEffect(env: Env, known: Store, st: Scan, x: Item)
    requires Scanned(x) && Process(env, known, st, x).failure.None?
    ensures var st' := Process(env, known, st, x);
            var missing := x.Found? && ItemPair(env, x) !in known;
            && st'.unconfirmed == st.unconfirmed - (if x.Found? && ItemPair(env, x) in known then {ItemPair(env, x)} else {})
            && st'.ops == st.ops + (if missing then [RegisterOf(env, x)] else [])
            && st'.added == st.added + (if missing then [AddedRowOf(env, x)] else [])
            && st'.errors == st.errors + (if x.Unresolvable? then [x.row] else [])
  {
  }

  /** A completed run confirms the found pairs of the snapshot and reports the error rows in order. */
  lemma {:induction false} FoldItemsConfirms(env: Env, known: Store, st: Scan, items: seq<Item>)
    requires st.failure.None?
    requires forall i :: 0 <= i < |items| ==> Scanned(items[i])
    requires FoldItems(env, known, st, items).failure.None?
    ensures var r := FoldItems(env, known, st, items);
            && r.unconfirmed == st.unconfirmed - (FoundPairs(env, items) * known.Keys)
            && r.errors == st.errors + ErrorsOf(items)
    decreases |items|
  {
    if |items| > 0 {
      var x := items[0];
      var st' := Process(env, known, st, x);
      var rest := items[1..];
      assert forall i :: 0 <= i < |rest| ==> rest[i] == items[i + 1];
      assert st'.failure.None?;
      ProcessEffect(env, known, st, x);
      FoldItemsConfirms(env, known, st', rest);
      assert ErrorsOf(items) == (if x.Unresolvable? then [x.row] else []) + ErrorsOf(rest);
      assert FoundPairs(env, items) == (if x.Found? then {ItemPair(env, x)} else {}) + FoundPairs(env, rest);
    }
  }

  lemma AppendAssociates<T>(a: seq<T>, b: seq<T>, c: seq<T>)
    ensures (a + b) + c == a + (b + c)
  {
  }

  /** Register calls and added rows distribute over concatenation. */
  lemma MissingRowsConcat(env: Env, a: seq<Item>, b: seq<Item>)
    requires forall i :: 0 <= i < |a| ==> a[i].Found?
    requires forall i :: 0 <= i < |b| ==> b[i].Found?
    ensures RegisterOps(env, a + b) == RegisterOps(env, a) + RegisterOps(env, b)
    ensures AddedRows(env, a + b) == AddedRows(env, a) + AddedRows(env, b)
  {
    var ab := a + b;
    assert forall i :: |a| <= i < |ab| ==> ab[i] == b[i - |a|];
  }

  /** The missing occurrences of a non-empty run: the head when it is missing, then those of the rest. */
  lemma MissingCons(env: Env, known: Store, items: seq<Item>)
    requires |items| > 0
    ensures var x := items[0];
            Missing(env, known, items)
            == (if x.Found? && ItemPair(env, x) !in known then [x] else []) + Missing(env, known, items[1..])
  {
  }

  /** A completed run registers and reports each missing occurrence in order. */
  lemma {:induction false} FoldItemsRegisters(env: Env, known: Store, st: Scan, items: seq<Item>)
    requires st.failure.None?
    requires forall i :: 0 <= i < |items| ==> Scanned(items[i])
    requires FoldItems(env, known, st, items).failure.None?
    ensures var r := FoldItems(env, known, st, items);
            var m := Missing(env, known, items);
            && r.ops == st.ops + RegisterOps(env, m)
            && r.added == st.added + AddedRows(env, m)
    decreases |items|
  {
    if |items| == 0 {
      assert Missing(env, known, items) == [];
      assert RegisterOps(env, []) == [] && AddedRows(env, []) == [];
      assert FoldItems(env, known, st, items) == st;
    } else {
      var x := items[0];
      var st' := Process(env, known, st, x);
      var rest := items[1..];
      var missing := x.Found? && ItemPair(env, x) !in known;
      var head := if missing then [x] else [];
      var mr := Missing(env, known, rest);
      assert forall i :: 0 <= i < |rest| ==> rest[i] == items[i + 1];
      assert st'.failure.None?;
      assert FoldItems(env, known, st, items) == FoldItems(env, known, st', rest);
      var r := FoldItems(env, known, st', rest);
      ProcessEffect(env, known, st, x);
      FoldItemsRegisters(env, known, st', rest);
      MissingCons(env, known, items);
      MissingRowsConcat(env, head, mr);
      var ops1 := RegisterOps(env, head);
      var rows1 := AddedRows(env, head);
      assert ops1 == if missing then [RegisterOf(env, x)] else [];
      assert rows1 == if missing then [AddedRowOf(env, x)] else [];
      assert r.ops == (st.ops + ops1) + RegisterOps(env, mr);
      assert r.added == (st.added + rows1) + AddedRows(env, mr);
      assert Missing(env, known, items) == head + mr;
      assert RegisterOps(env, Missing(env, known, items)) == ops1 + RegisterOps(env, mr);
      assert AddedRows(env, Missing(env, known, items)) == rows1 + AddedRows(env, mr);
      AppendAssociates(st.ops, ops1, RegisterOps(env, mr));
      AppendAssociates(st.added, rows1, AddedRows(env, mr));
    }
  }

  /**
    A run of items the scan completes confirms every found pair of the
    snapshot, registers and reports one row per missing occurrence (a pair
    missing twice is added twice), and reports one error row per
    unresolvable variant, all in order.
   */
  lemma FoldItemsEffect(env: Env, known: Store, st: Scan, items: seq<Item>)
    requires st.failure.None?
    requires forall i :: 0 <= i < |items| ==> Scanned(items[i])
    requires FoldItems(env, known, st, items).failure.None?
    ensures var r := FoldItems(env, known, st, items);
            var m := Missing(env, known, items);
            && r.unconfirmed == st.unconfirmed - (FoundPairs(env, items) * known.Keys)
            && r.ops == st.ops + RegisterOps(env, m)
            && r.added == st.added + AddedRows(env, m)
            && r.errors == st.errors + ErrorsOf(items)
  {
    FoldItemsConfirms(env, known, st, items);
    FoldItemsRegisters(env, known, st, items);
  }

  /** The pairs of the missing occurrences are the found pairs outside the snapshot. */
  lemma {:induction false} MissingPairs(env: Env, known: Store, items: seq<Item>)
    ensures var m := Missing(env, known, items);
            RegisteredPairs(RegisterOps(env, m)) == FoundPairs(env, items) - known.Keys
    ensures AllRegister(RegisterOps(env, Missing(env, known, items)))
    decreases |items|
  {
    var m := Missing(env, known, items);
    var ops := RegisterOps(env, m);
    if |items| == 0 {
      assert RegisteredPairs(ops) == {};
    } else {
      MissingPairs(env, known, items[1..]);
      var mr := Missing(env, known, items[1..]);
      if items[0].Found? && ItemPair(env, items[0]) !in known {
        assert ops == [RegisterOf(env, items[0])] + RegisterOps(env, mr);
        RegisteredPairsConcat([RegisterOf(env, items[0])], RegisterOps(env, mr));
        var one := [RegisterOf(env, items[0])];
        assert one[0].Register? && one[0].pair == ItemPair(env, items[0]);
        assert RegisteredPairs(one) == {ItemPair(env, items[0])};
      }
    }
  }

  // ---------------------------------------------------------------- the command

  /** What `update` leaves behind: the cache, the store, and the three tables; removed rows keyed by their pair. */
  datatype Report = Report(cache: Cache, store: Store, added: seq<AddedRow>, removed: map<Pair, Meta>, errors: seq<ErrorRow>, failure: Option<string>)

  /**
    `updateCommand`: snapshot the index; scan; unless the scan was ended by an
    exception, delete every snapshot pair that was not confirmed, reporting it
    with the metadata it had in the snapshot.
   */
  function Update(env: Env, cache: Cache, store: Store, nodes: seq<Node>): Report
  {
    var pass := ScanNodes(env, store, cache, Scan(store.Keys, [], [], [], None), nodes);
    var st := pass.scan;
    var afterScan := Apply(store, st.ops);
    if st.failure.Some? then Report(pass.cache, afterScan, st.added, map[], st.errors, st.failure)
    else
      Report(pass.cache,
             map p | p in afterScan && p !in st.unconfirmed :: afterScan[p],
             st.added,
             map p | p in st.unconfirmed :: store[p],
             st.errors,
             None)
  }

  /** The scan `update` runs, against the trace of the content. */
  lemma UpdateScan(env: Env, cache: Cache, store: Store, nodes: seq<Node>)
    ensures var pass := ScanNodes(env, store, cache, Scan(store.Keys, [], [], [], None), nodes);
            var t := TraceOf(env, cache, nodes);
            var m := Missing(env, store, t.items);
            && (pass.scan.failure.None? <==> Registrable(m))
            && (pass.scan.failure.None? ==>
                 && pass.cache == t.cache
                 && pass.scan.ops == RegisterOps(env, m)
                 && pass.scan.unconfirmed == store.Keys - FoundPairs(env, t.items)
                 && pass.scan.added == AddedRows(env, m)
                 && pass.scan.errors == ErrorsOf(t.items))
  {
    var t := TraceOf(env, cache, nodes);
    var st0 := Scan(store.Keys, [], [], [], None);
    ScanFollowsTrace(env, store, cache, st0, nodes);
    FoldItemsFailure(env, store, st0, t.items);
    if FoldItems(env, store, st0, t.items).failure.None? {
      FoldItemsEffect(env, store, st0, t.items);
    }
  }

  /**
    What `update` does, against the trace of the content: it fails exactly
    when a missing element is a null id. Otherwise the index ends with
    exactly the pairs found in the content; snapshot records it keeps have
    their old metadata; it reports one added row per missing occurrence,
    every snapshot pair not found as removed, with its snapshot metadata,
    and one error row per unresolvable variant.
   */
  lemma UpdateEffect(env: Env, cache: Cache, store: Store, nodes: seq<Node>)
    ensures var r := Update(env, cache, store, nodes);
            var t := TraceOf(env, cache, nodes);
            var m := Missing(env, store, t.items);
            && (r.failure.None? <==> Registrable(m))
            && (r.failure.None? ==>
                 && r.cache == t.cache
                 && r.store.Keys == FoundPairs(env, t.items)
                 && (forall p :: p in r.store && p in store ==> r.store[p] == store[p])
                 && (forall p :: p in r.store && p !in store ==> exists i :: 0 <= i < |m| && RegisterOf(env, m[i]) == Register(p, r.store[p]))
                 && r.removed.Keys == store.Keys - FoundPairs(env, t.items)
                 && (forall p :: p in r.removed ==> r.removed[p] == store[p])
                 && r.added == AddedRows(env, m)
                 && r.errors == ErrorsOf(t.items))
  {
    var t := TraceOf(env, cache, nodes);
    var r := Update(env, cache, store, nodes);
    var m := Missing(env, store, t.items);
    UpdateScan(env, cache, store, nodes);
    if r.failure.None? {
      var ops := RegisterOps(env, m);
      MissingPairs(env, store, t.items);
      SweepEffect(store, ops, FoundPairs(env, t.items));
      forall p | p in r.store && p !in store
        ensures exists i :: 0 <= i < |m| && RegisterOf(env, m[i]) == Register(p, r.store[p])
      {
        var i :| 0 <= i < |ops| && ops[i] == Register(p, r.store[p]);
        assert RegisterOf(env, m[i]) == ops[i];
      }
    }
  }

  /**
    The sweep after a completed scan: with the upserts of the missing pairs
    played, dropping the unconfirmed snapshot pairs leaves exactly the found
    pairs, and the removed rows are the unconfirmed pairs with their snapshot
    metadata.
   */
  lemma SweepEffect(store: Store, ops: seq<Op>, found: set<Pair>)
    requires AllRegister(ops) && RegisteredPairs(ops) == found - store.Keys
    ensures var afterScan := Apply(store, ops);
            var unconfirmed := store.Keys - found;
            var kept := map p | p in afterScan && p !in unconfirmed :: afterScan[p];
            var removed := map p | p in unconfirmed :: store[p];
            && kept.Keys == found
            && (forall p :: p in kept && p in store ==> kept[p] == store[p])
            && (forall p :: p in kept && p !in store ==> exists i :: 0 <= i < |ops| && ops[i] == Register(p, kept[p]))
            && removed.Keys == store.Keys - found
            && (forall p :: p in removed ==> removed[p] == store[p])
  {
    var afterScan := Apply(store, ops);
    ApplyRegistersKeys(store, ops);
    forall p | p in afterScan && p !in store
      ensures exists i :: 0 <= i < |ops| && ops[i] == Register(p, afterScan[p])
    {
      RegisteredValue(store, ops, p);
    }
  }

  /** A key the upserts add holds the metadata of one of them. */
  lemma {:induction false} RegisteredValue(s: Store, ops: seq<Op>, p: Pair)
    requires AllRegister(ops)
    requires p in Apply(s, ops) && p !in s
    ensures exists i :: 0 <= i < |ops| && ops[i] == Register(p, Apply(s, ops)[p])
    decreases |ops|
  {
    if |ops| == 0 {
      assert false;
    } else {
      var s1 := Step(s, ops[0]);
      if p in s1 {
        if p in s {
          assert false;
        }
        assert p == ops[0].pair;
        if forall i :: 0 <= i < |ops[1..]| ==> !Touches(ops[1..][i], p) {
          ApplyFrame(s1, ops[1..], p);
          assert ops[0] == Register(p, Apply(s, ops)[p]);
        } else {
          var i :| 0 <= i < |ops[1..]| && Touches(ops[1..][i], p);
          assert ops[i + 1] == ops[1..][i];
          assert ops[1..][i].pair == p;
          RegisteredLast(s1, ops[1..], p);
          var j :| 0 <= j < |ops[1..]| && ops[1..][j] == Register(p, Apply(s1, ops[1..])[p]);
          assert ops[j + 1] == ops[1..][j];
        }
      } else {
        RegisteredValue(s1, ops[1..], p);
        var j :| 0 <= j < |ops[1..]| && ops[1..][j] == Register(p, Apply(s1, ops[1..])[p]);
        assert ops[j + 1] == ops[1..][j];
      }
    }
  }

  /** When an upsert of `p` is among the calls, the final record of `p` is one of them. */
  lemma {:induction false} RegisteredLast(s: Store, ops: seq<Op>, p: Pair)
    requires AllRegister(ops)
    requires exists i :: 0 <= i < |ops| && ops[i].pair == p
    ensures p in Apply(s, ops)
    ensures exists i :: 0 <= i < |ops| && ops[i] == Register(p, Apply(s, ops)[p])
    decreases |ops|
  {
    var s1 := Step(s, ops[0]);
    if ops[0].pair != p || exists i :: 0 <= i < |ops[1..]| && ops[1..][i].pair == p {
      if ops[0].pair != p {
        var i :| 0 <= i < |ops| && ops[i].pair == p;
        assert ops[1..][i - 1] == ops[i];
      }
      RegisteredLast(s1, ops[1..], p);
      var j :| 0 <= j < |ops[1..]| && ops[1..][j] == Register(p, Apply(s1, ops[1..])[p]);
      assert ops[j + 1] == ops[1..][j];
    } else {
      forall i | 0 <= i < |ops[1..]| ensures !Touches(ops[1..][i], p) {
        assert ops[1..][i].Register?;
      }
      ApplyFrame(s1, ops[1..], p);
    }
  }

  /** Every found pair is among the found pairs. */
  lemma {:induction false} FoundPairsContain(env: Env, items: seq<Item>, i: int)
    requires 0 <= i < |items| && items[i].Found?
    ensures ItemPair(env, items[i]) in FoundPairs(env, items)
    decreases |items|
  {
    if i > 0 {
      FoundPairsContain(env, items[1..], i - 1);
    }
  }

  /** Once the index holds every found pair, nothing is missing. */
  lemma {:induction false} NothingMissing(env: Env, known: Store, items: seq<Item>)
    requires FoundPairs(env, items) <= known.Keys
    ensures Missing(env, known, items) == []
    decreases |items|
  {
    if |items| > 0 {
      if items[0].Found? {
        FoundPairsContain(env, items, 0);
      }
      assert FoundPairs(env, items[1..]) <= FoundPairs(env, items);
      NothingMissing(env, known, items[1..]);
    }
  }

  /**
    `update` converges in one run: running it again over the same content,
    with the cache and index the first run left, adds nothing, removes
    nothing, leaves the index as it was and reports the same error rows.
   */
  lemma UpdateIdempotent(env: Env, cache: Cache, store: Store, nodes: seq<Node>)
    ensures var r1 := Update(env, cache, store, nodes);
            var r2 := Update(env, r1.cache, r1.store, nodes);
            r1.failure.None? ==>
              && r2.failure.None?
              && r2.store == r1.store
              && r2.added == []
              && r2.removed == map[]
              && r2.errors == r1.errors
  {
    var r1 := Update(env, cache, store, nodes);
    UpdateEffect(env, cache, store, nodes);
    if r1.failure.None? {
      var t1 := TraceOf(env, cache, nodes);
      TraceStable(env, cache, r1.cache, nodes);
      assert TraceOf(env, r1.cache, nodes).items == t1.items;
      NothingMissing(env, r1.store, t1.items);
      UpdateEffect(env, r1.cache, r1.store, nodes);
      var r2 := Update(env, r1.cache, r1.store, nodes);
      assert r2.failure.None?;
      assert r2.store.Keys == r1.store.Keys;
      assert r2.removed.Keys == {};
    }
  }

  /**
    The counts in the closing log line: one added usage per missing
    occurrence, one removed usage per snapshot pair the content no longer has.
   */
  lemma UpdateCounts(env: Env, cache: Cache, store: Store, nodes: seq<Node>)
    ensures var r := Update(env, cache, store, nodes);
            var t := TraceOf(env, cache, nodes);
            r.failure.None? ==>
              && |r.added| == |Missing(env, store, t.items)|
              && |r.removed| == |store.Keys - FoundPairs(env, t.items)|
  {
    var r := Update(env, cache, store, nodes);
    UpdateEffect(env, cache, store, nodes);
    if r.failure.None? {
      assert |r.removed| == |r.removed.Keys|;
    }
  }

  /**
    The snapshot is never updated during the scan, so a pair missing from it
    and met twice is registered twice and reported twice.
   */
  lemma DuplicateMissingPairAddedTwice(env: Env, known: Store, st: Scan, node: Node, typeName: string, assetId: string)
    requires st.failure.None?
    requires Pair(NodeUsageId(env, node), assetId) !in known
    ensures var x := Found(node, typeName, IdRef(assetId));
            var r := FoldItems(env, known, st, [x, x]);
            && r.failure.None?
            && r.ops == st.ops + [RegisterOf(env, x), RegisterOf(env, x)]
            && r.added == st.added + [AddedRowOf(env, x), AddedRowOf(env, x)]
  {
    var x := Found(node, typeName, IdRef(assetId));
    var items := [x, x];
    assert items[1..] == [x] && items[1..][1..] == [];
    assert ItemPair(env, x) !in known;
    assert Missing(env, known, [x]) == [x] + [];
    assert Missing(env, known, items) == [x] + [x];
    FoldItemsFailure(env, known, st, items);
    FoldItemsEffect(env, known, st, items);
  }

  // ---------------------------------------------------------------- manual unregister

  /** PHP truthiness of a string argument. */
  predicate TruthyString(s: string)
  {
    s != "" && s != "0"
  }

  /** `unregisterUsageCommand`: delete one pair, only when both arguments are truthy. */
  function UnregisterUsageCommand(store: Store, usageId: string, entityId: string): (r: Store)
    ensures TruthyString(usageId) && TruthyString(entityId) ==> r == store - {Pair(usageId, entityId)}
    ensures !(TruthyString(usageId) && TruthyString(entityId)) ==> r == store
  {
    if TruthyString(usageId) && TruthyString(entityId) then Step(store, Unregister(Pair(usageId, entityId)))
    else store
  }

  /** The manual unregister touches no other record and repeating it changes nothing more. */
  lemma UnregisterUsageCommandFrame(store: Store, usageId: string, entityId: string)
    ensures var r := UnregisterUsageCommand(store, usageId, entityId);
            && (forall p :: p != Pair(usageId, entityId) ==> (p in r <==> p in store) && (p in r ==> r[p] == store[p]))
            && UnregisterUsageCommand(r, usageId, entityId) == r
  {
  }
}
