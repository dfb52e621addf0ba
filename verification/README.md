# Asset usage index for Neos content nodes, in Dafny

This project models the core of the Flowpack Neos asset-usage package. The
package keeps an index of which content nodes use which media assets. Each
record in the index is a pair (usage id, asset id) with metadata about the node.
The usage id is the MD5 of `identifier|json(dimensions)|workspace`.

The index is kept up to date in two ways, and the project models both:

- **The incremental updater** (`AssetIntegrationService`) reacts to content
  events: asset removed, node added, removed or discarded, property changed,
  and before and after publishing.
- **The reconciler** (`asset-usage update`) rebuilds the index from the whole
  content tree. It takes a snapshot of the index, confirms or adds every usage
  it finds, reports variants it cannot resolve, and deletes every usage it
  never confirmed. The manual `unregister-usage` command is modelled with it.

Modules, from the leaves up:

- `Wrappers`: `Option` and `Result`.
- `Content`:
  - nodes, node types and asset references (null, an id, or an asset object);
  - PHP truthiness of property values;
  - the single-or-list rule;
  - `Env`, which holds the collaborators the core calls but cannot see.
- `UsageStore`: the entity-usage service's contract (upsert, delete, delete by
  asset), and `Apply`, which plays a sequence of store calls.
- `UsageKey`: `getUsageId`, and the proof that the joined key input is
  unambiguous.
- `Classifier`: asset-capable property types, and the per-type memo cache,
  which is passed in and returned explicitly.
- `AssetIntegration`: asset resolution, `registerUsage`,
  `registerUsageInNode`, and `unregisterUsageInNode` with its
  reference-counting rule.
- `NodeEvents`: the seven event handlers, with the loops written exactly as
  the code runs them.
- `ReferenceCountFix`: the finding below. It holds the counterexample and the
  corrected rule, with proofs for both.
- `Reconciler`: the scan, the sweep, the reports, and the manual unregister.
- `Scenarios`: a worked example of one text node with one image.

The updater never reads the index. So each handler returns an `Effect`:

- the classifier cache after the call;
- the store calls made, in order;
- the message of the exception that ended the handler, if one did.

The lemmas apply the calls to an arbitrary store with `UsageStore.Apply`.

Behaviours of the code that the model keeps as written:

- `nodeAdded`, `nodeRemoved`, `beforeNodePublishing` and
  `afterNodePublishing` use `return`, not `continue`, when the node lacks an
  asset property (Classes/Service/AssetIntegrationService.php lines 273, 260,
  189 and 84). Later properties are therefore skipped.
- The two publishing handlers also `return` at the first empty value (lines
  193 and 88).
- A variant whose original cannot be loaded throws. The exception ends the
  handler, so later elements are not processed.
- The reconciler never updates its snapshot during the scan. A missing pair
  met twice is therefore registered twice and reported twice.
- The reconciler scans every node it is given, whether or not the node is
  removed.
- The reference-counting rule deletes when `count === 1`, and it counts the
  node's current values. The comments at lines 212 ("an asset might be
  referenced twice by the same node") and 237 (remove the usage only if it
  will no longer be used) give the intent. See the Findings section.

## Model

| member | source | states |
|---|---|---|
| UsageKey.SplitKeyInputInverts | Classes/Service/AssetIntegrationService.php:176-179 | when neither the identifier nor the workspace name contains `\|`, the hashed string splits back into identifier, dimensions JSON and workspace name |
| UsageKey.KeyInputInjective | Classes/Service/AssetIntegrationService.php:176-179 | when neither identifier nor workspace name contains `\|`, equal hashed strings have equal identifiers, equal dimensions JSON and equal workspace names; so for such triples equal usage ids need an MD5 collision or equal JSON encodings |
| UsageKey.SeparatorInIdentifierIsAmbiguous | Classes/Service/AssetIntegrationService.php:176-179 | the separator condition is needed: `a\|b` with dimensions `c` and `a` with dimensions `b\|c` give the same hashed string |
| Classifier.AssetPropertyNames | Classes/Service/AssetIntegrationService.php:100-106 | a name is classified exactly when some declared property with that name has one of the four asset types; there are never more names than declarations |
| Classifier.AssetPropertyNamesConcat | Classes/Service/AssetIntegrationService.php:100-106 | classification keeps declaration order: classifying two runs of declarations gives the two results concatenated |
| Classifier.GetAssetPropertyNamesForNodeType | Classes/Service/AssetIntegrationService.php:94-111 | a cached answer comes back with the cache unchanged; otherwise the schema is classified and stored under the type name, and no other entry changes |
| Classifier.RepeatLookupHitsCache | Classes/Service/AssetIntegrationService.php:96-98 | a second lookup of the same type name is answered from the memo, even when the schema passed in has changed |
| Classifier.CoherentLookupClassifies | Classes/Service/AssetIntegrationService.php:94-111 | while the cache agrees with the schema, the memo's answer is the schema's classification, and the cache still agrees afterwards |
| AssetIntegration.ResolveOriginalAssetIdentifier | Classes/Service/AssetIntegrationService.php:68-74 | a variant resolves to its original's identifier and anything else to its own; resolution fails only when a variant's original cannot be loaded |
| AssetIntegration.VariantCollapsesToOriginal | Classes/Service/AssetIntegrationService.php:68-74 | a variant and its original resolve to the same id |
| AssetIntegration.ObjectIdsAgree | Classes/Service/AssetIntegrationService.php:157-161 | for asset objects, the ids `registerUsage` records are the ids the unregistering side resolves, so a later removal finds the records |
| AssetIntegration.RegisterUsageEffect | Classes/Service/AssetIntegrationService.php:150-174 | fails exactly for a null reference or a variant whose original cannot be loaded; otherwise the store then holds (usage id, entity id) with the node's metadata, the asset's usages grow by exactly that pair, every other record is unchanged, an id is used verbatim and a variant is recorded under its original's id |
| AssetIntegration.RegisterAll | Classes/Service/AssetIntegrationService.php:125-140 | the i-th call upserts the i-th element under the node's usage id; the run stops at the first element that cannot be registered, and all elements are written when none fails |
| AssetIntegration.RegisterAllPairs | Classes/Service/AssetIntegrationService.php:125-140 | a completed run upserts exactly the pairs of the node's usage id with the elements' entity ids |
| AssetIntegration.UnregisterEachPairs | Classes/Service/AssetIntegrationService.php:236-248 | a completed run deletes exactly the pairs whose resolved ids the removal rule allows |
| AssetIntegration.CountReferences | Classes/Service/AssetIntegrationService.php:214-234 | the reference map counts, for each id, how often the node's present, non-empty asset properties resolve to it |
| AssetIntegration.UnregisterUsageInNodeRule | Classes/Service/AssetIntegrationService.php:204-249 | a completed call deletes (K, id) exactly when id comes from the value and one of these holds: counting is off, the node has at most one asset property, or the node references id at most once |
| AssetIntegration.UnregisterWithoutCounting | Classes/Service/AssetIntegrationService.php:204-249 | without counting, a completed call deletes every resolved asset of the value under the node's usage id |
| NodeEvents.PresentPrefix | Classes/Service/AssetIntegrationService.php:271-274 | the result is a prefix of the names, every name in it is a property of the node, and the name right after it, if there is one, is not |
| NodeEvents.NonEmptyPrefix | Classes/Service/AssetIntegrationService.php:82-89 | the result is a prefix of the names, every name in it is a property of the node with a non-empty value, and the name right after it, if there is one, is missing or has an empty value |
| NodeEvents.RegisterPropertiesFlattens | Classes/Service/AssetIntegrationService.php:269-280 | the property loop is equivalent to registering the visited elements one after another |
| NodeEvents.NodeAddedEffect | Classes/Service/AssetIntegrationService.php:269-280 | an untyped node aborts; otherwise only upserts under the node's usage id with its metadata are made; a completed run upserts exactly the ids of the non-empty properties before the first missing one |
| NodeEvents.AfterNodePublishingEffect | Classes/Service/AssetIntegrationService.php:76-92 | a removed node changes nothing; an untyped node that is not removed aborts with no store calls; otherwise only upserts under the node's usage id with its metadata are made, and a completed run upserts exactly the ids of the non-empty properties before the first missing or empty one |
| NodeEvents.RemovePropertiesFlattens | Classes/Service/AssetIntegrationService.php:256-267 | the removal loop is equivalent to deleting the visited elements without counting |
| NodeEvents.NodeRemovedEffect | Classes/Service/AssetIntegrationService.php:256-267 | only deletes under the node's usage id; a completed run removes exactly the resolved ids of the non-empty properties before the first missing one |
| NodeEvents.NodeDiscardedEffect | Classes/Service/AssetIntegrationService.php:251-254 | discarding deletes the same records as removing |
| NodeEvents.NodeRemovedUndoesNodeAdded | Classes/Service/AssetIntegrationService.php:256-280 | when the values are asset objects and the node had no records, adding then removing the node gives back the original store |
| NodeEvents.AssetRemovedEffect | Classes/Service/AssetIntegrationService.php:51-60 | a completed call leaves no record of the original's id and keeps every other record unchanged; it fails exactly when resolution fails |
| NodeEvents.UnpublishOneEffect | Classes/Service/AssetIntegrationService.php:195-200 | one pass deletes, without counting, the target copy's ids under the target's usage id and the node's ids under the node's, and nothing else |
| NodeEvents.UnpublishPropertiesEffect | Classes/Service/AssetIntegrationService.php:187-201 | the loop deletes only under the node's or the target's usage id; a completed loop deletes the target's values and the node's values for the leading non-empty properties, without counting |
| NodeEvents.BeforeNodePublishingEffect | Classes/Service/AssetIntegrationService.php:181-202 | the store after a completed call is the old store minus exactly those pairs |
| NodeEvents.PublishReplacesTargetUsage | Classes/Service/AssetIntegrationService.php:76-92 | before-publishing then after-publishing removes the target's and the source's old pairs, then upserts the published values under the target's usage id |
| NodeEvents.NodePropertyChangedEffect | Classes/Service/AssetIntegrationService.php:288-301 | no-op when old equals new or the type cannot hold assets; otherwise writes only under the node's usage id; a completed call gives the store minus the old value's counted removals, with the new value's ids upserted |
| ReferenceCountFix.SiblingReferenceDropped | Classes/Service/AssetIntegrationService.php:238-248 | clearing `a` while `b` still holds the same asset deletes that asset's only record under the rule as written, so an index that agreed with the node no longer does |
| ReferenceCountFix.UnregisterUsageInNodeCorrectedRule | Classes/Service/AssetIntegrationService.php:204-249 | the corrected rule deletes an asset of the value exactly when the node's asset properties no longer reference it |
| ReferenceCountFix.NodePropertyChangedCorrectedEffect | Classes/Service/AssetIntegrationService.php:288-301 | the corrected handler's store effect, in the same form as `NodePropertyChangedEffect` |
| ReferenceCountFix.CorrectedKeepsIndexInSync | Classes/Service/AssetIntegrationService.php:288-301 | if the index agreed with the node before a property change, it agrees after the corrected handler, and no other usage id is touched |
| ReferenceCountFix.SiblingReferenceKept | Classes/Service/AssetIntegrationService.php:288-301 | on the sibling example, the corrected handler keeps the record |
| Reconciler.ScanKey | Classes/Command/AssetUsageCommandController.php:149-164 | an asset object becomes its original's identifier, and a failed variant lookup is reported; ids and null pass through unchanged |
| Reconciler.NodeItems | Classes/Command/AssetUsageCommandController.php:133-164 | one item per element of each present, non-empty asset property, with missing or empty properties skipped; an unresolvable variant becomes an error row naming the node and the property that element came from |
| Reconciler.Origins | Classes/Command/AssetUsageCommandController.php:133-164 | each element the property loop visits is paired with a property name of the node's type whose value is present and non-empty and holds that element |
| Reconciler.TraceStable | Classes/Command/AssetUsageCommandController.php:127 | with the memo from an earlier scan (or any extension of it), the same nodes give the same items |
| Reconciler.ScanFollowsTrace | Classes/Command/AssetUsageCommandController.php:121-206 | the node loop, which skips untyped nodes and nodes without asset properties, processes exactly the trace's items in order |
| Reconciler.FoldItems | Classes/Command/AssetUsageCommandController.php:110 | the unconfirmed set only shrinks, so it always stays inside the snapshot |
| Reconciler.FoldItemsFailure | Classes/Command/AssetUsageCommandController.php:177-188 | the scan throws exactly when a pair missing from the snapshot has a null id |
| Reconciler.FoldItemsEffect | Classes/Command/AssetUsageCommandController.php:166-203 | a completed run confirms the found snapshot pairs; it registers and reports each missing occurrence and reports each error row, all in order |
| Reconciler.UpdateScan | Classes/Command/AssetUsageCommandController.php:104-206 | the scan fails exactly when a missing pair has a null id; otherwise it upserts the missing occurrences, leaves unconfirmed exactly the snapshot pairs not found, and collects the added and error rows of the trace |
| Reconciler.SweepEffect | Classes/Command/AssetUsageCommandController.php:224-243 | dropping the unconfirmed pairs after the upserts leaves exactly the found pairs; kept snapshot records keep their metadata; the removed rows are the unconfirmed pairs with their snapshot metadata |
| Reconciler.UpdateEffect | Classes/Command/AssetUsageCommandController.php:95-243 | after a completed run the index holds exactly the pairs found in the content; kept records keep their metadata; removed rows are the snapshot pairs not found, with their snapshot metadata |
| Reconciler.UpdateIdempotent | Classes/Command/AssetUsageCommandController.php:95-243 | a second run with the cache and index the first run left adds nothing, removes nothing, leaves the index unchanged and reports the same errors |
| Reconciler.UpdateCounts | Classes/Command/AssetUsageCommandController.php:268 | added count = number of missing occurrences; removed count = number of snapshot pairs not found |
| Reconciler.DuplicateMissingPairAddedTwice | Classes/Command/AssetUsageCommandController.php:177-197 | a missing pair met twice is registered twice and reported twice |
| Reconciler.UnregisterUsageCommand | Classes/Command/AssetUsageCommandController.php:71-76 | deletes the pair when both arguments are truthy (not "" and not "0"); otherwise leaves the store as it was |
| Reconciler.UnregisterUsageCommandFrame | Classes/Command/AssetUsageCommandController.php:71-76 | no other record changes, and repeating the command changes nothing more |
| Scenarios.TextNodeScenario | Classes/Service/AssetIntegrationService.php:51-301 | adding text node N1 (image A1) records exactly {(K, A1)}; clearing the image empties the store; removing A1 deletes its records under every usage id |

## Left out

- The package wiring (`Package.php`) and the aspect that switches off Neos's own usage strategy. These are integration concerns.
- The read strategy `AssetUsageInNodePropertiesStrategy`. The only query kept is `UsageStore.UsagesOf`, which lists the usages of one asset.
- `findAllCommand`, CLI tables, progress output and logging. This includes the sweep's warning, which names a stale `$nodeIdentifier` from the scan loop.
- MD5, `json_encode`, `getIdentifierByObject` and `getOriginalAsset` are opaque functions in `Env`. `getIdentifierByObject` is taken to always return a string; the null it gives for an unknown object is not modelled.
- A non-object element is passed to the service's resolution as is. The resulting id is whatever `getIdentifierByObject` returns for it, which `Env` leaves opaque.
- The content-context lookup in `beforeNodePublishing`. The target workspace's copy of the node is passed in as an `Option<Node>`.
- Doctrine iteration. The reconciler is given the nodes as a sequence.
- Concurrency between the updater and the reconciler.
- The entity-usage service raising errors. Store calls always succeed. The only exceptions modelled are these:
  - an unresolvable node type;
  - a variant whose original cannot be loaded;
  - a null entity id passed to `registerUsage` (see the next line).
- The entity-usage service is not part of this model. The failure on a null entity id assumes that its `registerUsage` declares the entity id as `string`, so that under `strict_types` a null is a type error. `Reconciler.FoldItemsFailure`, `Reconciler.UpdateScan` and `Reconciler.UpdateEffect` state that the scan fails exactly when a missing element is a null id; that rests on this assumption.
- UsageKey.KeyInputInjective: holds only when neither the node identifier nor the workspace name contains `|`, and it concludes equal dimensions JSON strings, not equal dimensions, because `json_encode` is opaque in `Env`. `UsageKey.SeparatorInIdentifierIsAmbiguous` shows the first condition is needed.
- PHP `===` on asset objects compares identity. The model compares values.
- PHP arrays turn all-digit string keys into integer keys. This is not modelled. It changes no lookup, such as the one at Classes/Command/AssetUsageCommandController.php:177. Usage ids are 32-character MD5 strings, too large for an integer key, so they stay strings.
- Reconciler.UpdateEffect: the sweep at Classes/Command/AssetUsageCommandController.php:225-227 passes `array_keys($assets)` to `unregisterUsage`. For an all-digit entity id, such as one recorded from the id reference `"123"`, that key is an integer. Under the `string` parameter assumed for the entity-usage service above, the call would be a type error that stops the sweep there. The model removes that record like any other, so `Reconciler.UpdateEffect` and `Reconciler.UpdateIdempotent` promise a completed sweep in that case too.
- Property names within a node type are assumed distinct, as PHP array keys are.
- Removed rows are a map keyed by pair. Their order is not modelled.
- Reconciler.UpdateEffect: when a null id ends the scan, it does not describe the partial index left behind.
- NodeEvents.NodeAddedEffect: when a handler throws, it states only which records could have been touched, not how far the loop got. `AssetIntegration.RegisterAll` states that position. The same holds for the other handler effect lemmas.

## Findings

| source | as written | input that shows it | evidently intended | confidence | as-written member | corrected member |
|---|---|---|---|---|---|---|
| Classes/Service/AssetIntegrationService.php:238-248 | `unregisterUsageInNode` counts references over the node's current property values and deletes when the count `=== 1`. `nodePropertyChanged` is emitted after the new value is stored, so the changed property no longer counts | a node type with asset properties `a` and `b`, both holding asset X; `a` is set to null; `nodePropertyChanged(node, "a", X, null)` deletes (K, X) although `b` still references X | delete a usage only when no asset property of the node still references the asset, as the comments at lines 212 and 237 say | medium: assumes the host emits the event after storing the value; not executed | ReferenceCountFix.SiblingReferenceDropped | ReferenceCountFix.CorrectedKeepsIndexInSync |
