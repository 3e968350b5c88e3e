# Metric catalog model

A Dafny model of the metric catalog of a plugin-based telemetry framework
(`control/metrics.go`). The catalog is a registry of metric types keyed by
namespace (a sequence of path segments such as `["intel","cpu","load"]`). Several
versions of one metric, contributed by different plugins, can coexist. The model
covers four things:

- **Metric entry** (`MetricTypes`). This is `metricType`: version resolution (its own
  version if positive, else the owning plugin's, else `-1`), the subscription counter
  that cannot go below zero, and the `/ns/.../version` key.
- **Selection helpers** (`Resolution`, `KeyList`). These are `getLatest`, `getVersion`,
  `appendIfMissing` and `getMetricKey`.
- **Namespace tree** (`NamespaceTree`). The trie's code is not part of this model, so
  the tree is held abstractly: a map from a namespace to the non-empty sequence of entries
  stored there. Adding is last-write-wins per (namespace, resolved version), since the
  trie keeps one entry per version under each namespace.
- **Catalog façade** (`Catalog`). This is `metricCatalog`: `Add`, `AddLoadedMetricType`,
  `Get`/`get`, `GetPlugin`, `Subscribe`, `Unsubscribe`, `Remove`, and the `Next`/`Item`
  cursor. Each call is one atomic transition from a catalog value to a new one.
  `CatalogProperties` relates several calls to one another.

Entries are values. The position of an entry in its namespace's sequence stands for the
`*metricType` reference that `get` returns. This lets `Subscribe`/`Unsubscribe` update exactly the
resolved entry. Errors are the tags `MetricNotFound` and `NegativeSubCount`. Go's `panic`
cases become preconditions:

- `get` dereferences `Plugin` while scanning for a version. The tree hands the entries
  out in no fixed order, so `get` is safe only when every entry at that namespace has a
  plugin (`Catalog.CanResolve`, justified by `Resolution.ScanSafeInEveryOrder`).
- `AddLoadedMetricType` panics when the plugin has no policy tree; this is `hasPolicyTree`.
- `Item` indexes `keys[currentIter-1]`; this needs `1 <= currentIter <= |keys|`.

Notes on behaviour the model keeps from the code:

- `getVersion` compares the owning PLUGIN's version, not the entry's resolved version.
  Take an entry with its own version 3 from a version-1 plugin. When the namespace holds
  several entries, `Get(ns, 3)` never returns it, and `Get(ns, 1)` returns it when it is
  the first entry there whose plugin has version 1. When it is the only entry, it is
  returned for any requested version.
- `Item` finds the entries by splitting the dotted key on `"."`. The key reads back as the
  namespace only when the namespace is non-empty and no segment contains a dot
  (the contract of `KeyList.GetMetricKey`). Otherwise two namespaces can share a key
  (`KeyList.MetricKeyCollisions`).
- `Remove` leaves the key list and the cursor alone. A removed namespace is still
  enumerated, and `Item` then reports no entries for it.
- In the two-plugin scenario (A at version 1, B at version 2), `Unsubscribe` at version 1
  does not lower any counter. A's entry starts with no subscribers, so the call fails with
  `NegativeSubCount` and changes nothing (`CatalogProperties.TwoPluginUnsubscribeFails`).

## Model

| member | source | states |
|---|---|---|
| MetricTypes.MetricType.Version | control/metrics.go:100-108 | The resolved version is the entry's own version when positive. Otherwise it is -1 without a plugin, else the plugin's version. |
| MetricTypes.MetricType.Subscribe | control/metrics.go:84-86 | The counter goes up by exactly one, and no other field changes. |
| MetricTypes.MetricType.Unsubscribe | control/metrics.go:88-94 | Fails with NegativeSubCount exactly when the counter is 0, and then the entry is unchanged. Otherwise the counter drops by exactly one. The counter is a nat, so it is never negative. |
| MetricTypes.SubscribeThenUnsubscribe | control/metrics.go:84-94 | Subscribe then Unsubscribe succeeds and gives back the original entry. |
| MetricTypes.UnsubscribeThenSubscribe | control/metrics.go:84-94 | A successful Unsubscribe is undone by Subscribe. |
| MetricTypes.VersionIgnoresSubscriptions | control/metrics.go:100-108 | Changing the counter never changes the resolved version. |
| MetricTypes.MetricType.Key | control/metrics.go:64-66 | Cut at its last '/', the key gives the namespace string and a canonical decimal (no leading zero, no "-0") that parses back to the resolved version. |
| MetricTypes.MetricType.NamespaceAsString | control/metrics.go:72-74 | For a non-empty namespace without '/' in any segment, splitting the namespace string on '/' gives "" followed by the segments. |
| GoStrings.Join | control/metrics.go:73 | strings.Join: no text for no parts; otherwise the first part is a prefix and the length is the parts' total plus one separator between neighbours. When no part holds the separator, it occurs exactly when there are two or more parts. |
| GoStrings.Split | control/metrics.go:201 | strings.Split: at least one piece, no piece holds the separator, and joining the pieces with it gives the string back. |
| GoStrings.SplitJoin | control/metrics.go:281-283 | Splitting a joined non-empty list whose parts hold no separator gives the list back. |
| GoStrings.IntToDecimal | control/metrics.go:65 | The %d text of an int is non-empty, starts with '-' exactly for a negative int, starts with '0' only when it is "0", has no zero after the minus, parses back to that int and holds no '/'. |
| GoStrings.CanonicalIsDecimal | control/metrics.go:65 | Any canonical text that parses is the %d text of its value, so the contract of IntToDecimal determines its result completely. |
| Resolution.GetLatest | control/metrics.go:285-294 | On a non-empty sequence, returns a position whose resolved version is >= every element's. It is the earliest such position, because only a strictly greater version moves the choice. |
| Resolution.EarliestLatestUnique | control/metrics.go:285-294 | At most one position is the earliest of maximal version, so getLatest's choice is fully determined by the order. |
| Resolution.GetVersion | control/metrics.go:305-312 | Returns the first position whose plugin has version `ver`. Returns none exactly when no entry's plugin has that version. |
| Resolution.ScanSafeInEveryOrder | control/metrics.go:305-312 | The scan avoids a missing plugin in every order of the entries exactly when every entry has a plugin. |
| Resolution.AllPluginsMakeScanSafe | control/metrics.go:305-312 | When every entry has a plugin, the scan never dereferences a missing one. |
| Resolution.SelectionIgnoresOtherFields | control/metrics.go:285-312 | Both selections depend only on each position's resolved version and plugin. |
| KeyList.AppendIfMissing | control/metrics.go:296-303 | Keeps the old list as a prefix, contains the key, and grows by at most one. It is the old list when the key is present, and the old list plus the key otherwise. |
| KeyList.AppendIfMissingIdempotent | control/metrics.go:296-303 | Appending the same key twice equals appending it once. |
| KeyList.AppendIfMissingKeepsDistinct | control/metrics.go:296-303 | A duplicate-free list stays duplicate-free, and a new key lands last. |
| KeyList.GetMetricKey | control/metrics.go:281-283 | Splitting the dotted key on '.' gives back the namespace when it is non-empty and dot-free. |
| KeyList.MetricKeyCollisions | control/metrics.go:281-283 | Without those conditions distinct namespaces share a key: ["a.b"] and ["a","b"], and [] and [""]. |
| NamespaceTree.Get | control/metrics.go:258-261 | Lookup succeeds exactly when the namespace is stored, and then returns exactly the stored sequence. On a valid tree that sequence is non-empty and holds only entries of that namespace. |
| NamespaceTree.Insert | control/metrics.go:168 | Afterwards the entry is stored at its namespace. Entries of other versions stay, and the same-version entry is displaced. Other namespaces and the tree invariant are kept. |
| NamespaceTree.Remove | control/metrics.go:193 | Drops exactly that namespace and keeps the invariant. |
| Catalog.NewCatalog | control/metrics.go:129-137 | Starts with an empty tree, no keys and the cursor at 0, and satisfies the catalog invariant. |
| Catalog.Add | control/metrics.go:160-169 | The key list gains the dotted key only if it is new (prefix kept, duplicate-free). The entry is stored at its namespace. Entries of other versions there survive and the same-version entry is displaced. No namespace other than the entry's appears, other namespaces are unchanged, and the cursor does not move. |
| Catalog.AddLoadedMetricType | control/metrics.go:139-152 | Requires a policy tree. Stores an entry owned by the plugin with zero subscribers, whose resolved version is the descriptor's version if positive, else the plugin's. Its effect is Add's: the key is appended only when new, the cursor stays, no other namespace appears or changes, entries of other versions survive and the same-version entry is displaced. |
| Catalog.Resolve | control/metrics.go:257-279 | Not found when the namespace is absent. The only entry, whatever the version. With several: the first plugin-version match for ver >= 0 (not found iff none), or the earliest of highest version for ver < 0. |
| Catalog.Get | control/metrics.go:257-279 | The result is the entry at the position Resolve picks, so with several entries and ver >= 0 it is the FIRST whose plugin has that version, and it exists iff one does. For ver < 0 it exists and has the highest resolved version there. |
| Catalog.GetPlugin | control/metrics.go:249-255 | Succeeds exactly when Get does, and then returns that entry's plugin. |
| Catalog.Subscribe | control/metrics.go:222-234 | When get fails, the catalog is unchanged and MetricNotFound is returned. Otherwise only the resolved entry's counter changes, by +1. |
| Catalog.Unsubscribe | control/metrics.go:236-247 | When get fails or the resolved counter is 0, the catalog is unchanged and the error is returned. Otherwise only that counter changes, by -1. |
| Catalog.Remove | control/metrics.go:191-195 | Only the tree changes: the namespace is gone, other namespaces are kept, and the keys and cursor are untouched. |
| Catalog.Next | control/metrics.go:210-220 | Answers true exactly when the cursor was before the last key, and then advances it by one. Otherwise it resets the cursor to 0. |
| Catalog.Item | control/metrics.go:197-208 | Returns the key under the cursor and exactly the entries the tree holds at the namespace that key splits into on '.', or none when nothing is stored there. |
| CatalogProperties.OperationsPreserveValid | control/metrics.go:122-137 | Add, Remove, Next, Subscribe and Unsubscribe all keep the catalog invariant: every stored namespace holds a non-empty set of its own entries with distinct resolved versions, keys are distinct, and the cursor is at most the number of keys. |
| CatalogProperties.CounterMoveKeepsResolution | control/metrics.go:223-247 | Changing one counter changes neither which (namespace, version) requests can resolve nor what they resolve to. |
| CatalogProperties.SubscribeThenUnsubscribeRestores | control/metrics.go:222-247 | Subscribe then Unsubscribe with the same arguments restores the catalog exactly, or both fail with MetricNotFound and change nothing. This relies on the leaf order staying the same between the two calls. |
| CatalogProperties.RemovedNamespaceStaysEnumerable | control/metrics.go:191-208 | After Remove the namespace is not found, yet its key is still visited and Item reports no entries for it. |
| CatalogProperties.NextAdvances | control/metrics.go:213-220 | While keys remain, each Next answers true and moves the cursor by exactly one. |
| CatalogProperties.EnumerationCycle | control/metrics.go:210-220 | From cursor 0 with N keys, N calls of Next answer true, the next answers false, and the catalog is back where it started. |
| CatalogProperties.ItemAfterKthNext | control/metrics.go:197-220 | After the k-th Next from the start, Item returns the k-th key. |
| CatalogProperties.AddedMetricIsEnumerated | control/metrics.go:160-208 | After Add of a dot-free namespace, some number of Next calls brings Item to its key, and the entries reported there include the added entry. |
| CatalogProperties.AddThenGetLatest | control/metrics.go:160-177 | After Add, Get with version -1 at that namespace succeeds with a resolved version at least the added entry's. |
| CatalogProperties.TwoPluginContents | control/metrics.go:139-169 | Loading /intel/cpu/load from plugin A (v1) then plugin B (v2) records one key and stores both entries, A's then B's in the model's insertion order. |
| CatalogProperties.TwoPluginLatest | control/metrics.go:257-294 | In that catalog the latest is B's entry. |
| CatalogProperties.TwoPluginByVersion | control/metrics.go:257-312 | In that catalog version 1 selects A's entry, and version 3 is not found. |
| CatalogProperties.TwoPluginUnsubscribeFails | control/metrics.go:236-247 | Unsubscribing A's unsubscribed entry fails with NegativeSubCount and changes nothing. |
| CatalogProperties.TwoPluginSubscribe | control/metrics.go:222-234 | Subscribing by version 2 gives B's entry one subscriber and leaves A's entry as it was. |

## Left out

- Locking: every catalog method except `Next` and `Item` takes the mutex (`AddLoadedMetricType` and `GetPlugin` only inside the `Add` and `Get` they call). `Next` and `Item` take none, so enumeration is not synchronised with `Add`/`Remove`. The model treats every call, these two included, as one atomic transition.
- Trie internals: the trie's `Add`, `Get`, `Remove`, `Fetch` and `DeleteByPlugin` are not part of this model. The tree is an abstract map. No node pruning is modelled.
- `Fetch` (control/metrics.go:179-189) is not modelled. It only forwards to the trie's subtree fetch, whose behaviour is not part of this model.
- `RmUnloadedPluginMetrics` (control/metrics.go:154-158) is not modelled. It only forwards to the trie's `DeleteByPlugin`, which is not part of this model.
- Policy lookup: `AddLoadedMetricType` resolves a config policy from the plugin's policy tree through a foreign library. Only the missing-tree panic is kept, as the `hasPolicyTree` precondition.
- Opaque payloads: timestamps, config data, policy, source, data, `newMetricType`, `metricCatalogItem` and the plain field getters carry no logic and are omitted.
- Error text: the formatted messages are reduced to the tags `MetricNotFound` and `NegativeSubCount`.
- Integer width: Go's `int` is modelled as an unbounded integer. A counter overflow after 2^63 subscriptions is not modelled.
- Dot-joined keys: the key round trip in `Item` is stated only for non-empty namespaces whose segments contain no '.'.
- Trie insertion: the trie's `Add` is modelled as last-write-wins per (namespace, resolved version), matching its leaf map from version to entry. Its code is not part of this model.
- Leaf order: a stored leaf keeps one fixed order, insertion order with replacement in place. The trie reads its version map back in an unordered traversal and may give another order on each call. When entries at one namespace share a plugin version, the entry that `Get` picks for that version is therefore fixed in the model but not in the Go code. Resolved versions at one namespace are distinct, so the latest entry does not depend on the order, and `CanResolve` asks for a plugin on every entry so that it does not either. `SubscribeThenUnsubscribeRestores` and the two-plugin scenario lemmas rely on this fixed order.
