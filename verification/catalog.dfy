/**
  The catalog façade (`metricCatalog`): the namespace tree, the ordered list of dotted keys
  seen so far, and the enumeration cursor. Each operation is one atomic transition from a
  catalog value to a new one. In the Go code every method except `Next` and `Item` takes
  the catalog's mutex; those two take none, so enumeration is not synchronised with `Add`
  or `Remove`. Locking is not modelled.
*/
module Catalog {
  import opened Results
  import opened GoStrings
  import opened MetricTypes
  import NamespaceTree
  import opened Resolution
  import opened KeyList

  datatype MetricCatalog = MetricCatalog(
    tree: NamespaceTree.Tree,
    keys: seq<string>,
    currentIter: nat)

  /** What every reachable catalog satisfies. */
  predicate Valid(c: MetricCatalog)
  {
    && NamespaceTree.Valid(c.tree)
    && Distinct(c.keys)
    && c.currentIter <= |c.keys|
  }

  /** `newMetricCatalog`: an empty tree, no keys, cursor at the start. */
  function NewCatalog(): (c: MetricCatalog)
    ensures Valid(c)
    ensures c.tree == map[] && |c.keys| == 0 && c.currentIter == 0
  {
    MetricCatalog(NamespaceTree.Empty, [], 0)
  }

  /**
    `Add`: records the namespace's dotted key if it is new (first-seen order, no
    duplicates), then stores the entry in the tree. The cursor does not move.
  */
  function Add(c: MetricCatalog, m: MetricType): (r: MetricCatalog)
    requires NamespaceTree.Valid(c.tree)
    ensures NamespaceTree.Valid(r.tree)
    ensures Valid(c) ==> Valid(r)
    ensures r.currentIter == c.currentIter
    ensures |c.keys| <= |r.keys| <= |c.keys| + 1 && r.keys[..|c.keys|] == c.keys
    ensures GetMetricKey(m.namespace) in r.keys
    ensures GetMetricKey(m.namespace) in c.keys ==> r.keys == c.keys
    ensures GetMetricKey(m.namespace) !in c.keys ==> r.keys == c.keys + [GetMetricKey(m.namespace)]
    ensures r.tree.Keys == c.tree.Keys + {m.namespace}
    ensures m.namespace in r.tree && m in r.tree[m.namespace]
    ensures forall ns :: ns in c.tree && ns != m.namespace ==> ns in r.tree && r.tree[ns] == c.tree[ns]
    ensures forall e :: e in r.tree[m.namespace] ==>
      e == m || (m.namespace in c.tree && e in c.tree[m.namespace] && e.Version() != m.Version())
    ensures m.namespace in c.tree ==>
      forall e :: e in c.tree[m.namespace] && e.Version() != m.Version() ==> e in r.tree[m.namespace]
  {
    AppendIfMissingKeepsDistinct(c.keys, GetMetricKey(m.namespace));
    MetricCatalog(
      NamespaceTree.Insert(c.tree, m),
      AppendIfMissing(c.keys, GetMetricKey(m.namespace)),
      c.currentIter)
  }

  /** What a plugin advertises for one metric. */
  datatype MetricDescriptor = MetricDescriptor(namespace: seq<string>, version: int)

  /** The resolved version of an entry loaded by `lp` from descriptor `d`. */
  function NewVersion(lp: Plugin, d: MetricDescriptor): int
  {
    if d.version > 0 then d.version else lp.version
  }

  /**
    `AddLoadedMetricType`: builds an entry owned by `lp` with the descriptor's namespace and
    version and no subscribers, and adds it. For a plugin without a policy tree the Go code
    panics, hence the precondition.
  */
  function AddLoadedMetricType(c: MetricCatalog, lp: Plugin, d: MetricDescriptor): (r: MetricCatalog)
    requires NamespaceTree.Valid(c.tree)
    requires lp.hasPolicyTree
    ensures NamespaceTree.Valid(r.tree)
    ensures Valid(c) ==> Valid(r)
    ensures r.currentIter == c.currentIter
    ensures r.keys == AppendIfMissing(c.keys, GetMetricKey(d.namespace))
    ensures GetMetricKey(d.namespace) in r.keys
    ensures r.tree.Keys == c.tree.Keys + {d.namespace}
    ensures d.namespace in r.tree
    ensures forall ns :: ns in c.tree && ns != d.namespace ==> r.tree[ns] == c.tree[ns]
    ensures forall e :: e in r.tree[d.namespace] ==>
      e == MetricType(Some(lp), d.namespace, d.version, 0)
      || (d.namespace in c.tree && e in c.tree[d.namespace] && e.Version() != NewVersion(lp, d))
    ensures d.namespace in c.tree ==>
      forall e :: e in c.tree[d.namespace] && e.Version() != NewVersion(lp, d) ==> e in r.tree[d.namespace]
    ensures exists e ::
              && e in r.tree[d.namespace]
              && e.plugin == Some(lp) && e.subscriptions == 0 && e.namespace == d.namespace
              && e.Version() == NewVersion(lp, d)
  {
    var m := MetricType(Some(lp), d.namespace, d.version, 0);
    var r := Add(c, m);
    assert m in r.tree[d.namespace];
    r
  }

  /**
    The conditions under which `get` runs without crashing whatever order the tree hands
    the entries out in: when it scans for a plugin version, every entry there has a plugin
    (`Resolution.ScanSafeInEveryOrder`).
  */
  predicate CanResolve(c: MetricCatalog, ns: seq<string>, ver: int)
  {
    ns in c.tree && |c.tree[ns]| > 1 && ver >= 0 ==> AllPlugins(c.tree[ns])
  }

  /**
    The selection step of `get`, as a position in the entries stored at `ns`:
    not found when the tree has nothing there; the only entry whatever the version asked;
    among several, the first whose plugin has version `ver` when `ver >= 0`, or the
    earliest of highest resolved version when `ver < 0`.
  */
  function Resolve(c: MetricCatalog, ns: seq<string>, ver: int): (r: Result<nat>)
    requires NamespaceTree.Valid(c.tree) && CanResolve(c, ns, ver)
    ensures r.Err? ==> r.error == MetricNotFound
    ensures r.Ok? ==> ns in c.tree && r.value < |c.tree[ns]|
    ensures ns !in c.tree ==> r.Err?
    ensures ns in c.tree && |c.tree[ns]| == 1 ==> r == Ok(0)
    ensures ns in c.tree && |c.tree[ns]| > 1 && ver >= 0 ==>
      && (r.Ok? <==> exists j :: 0 <= j < |c.tree[ns]| && PluginMatches(c.tree[ns][j], ver))
      && (r.Ok? ==> PluginMatches(c.tree[ns][r.value], ver))
      && (r.Ok? ==> forall j :: 0 <= j < r.value ==> !PluginMatches(c.tree[ns][j], ver))
    ensures ns in c.tree && |c.tree[ns]| > 1 && ver < 0 ==>
      r.Ok? && IsEarliestLatest(c.tree[ns], r.value)
  {
    match NamespaceTree.Get(c.tree, ns)
    case Err(e) => Err(e)
    case Ok(mts) =>
      if |mts| > 1 then
        if ver >= 0 then
          AllPluginsMakeScanSafe(mts, ver);
          match GetVersion(mts, ver)
          case None => Err(MetricNotFound)
          case Some(k) => Ok(k)
        else Ok(GetLatest(mts))
      else Ok(0)
  }

  /**
    `Get`/`get`: the entry stored at `ns` for the requested version. A negative version
    asks for the latest, and the result then has the highest resolved version at `ns`.
  */
  function Get(c: MetricCatalog, ns: seq<string>, ver: int): (r: Result<MetricType>)
    requires NamespaceTree.Valid(c.tree) && CanResolve(c, ns, ver)
    ensures r.Err? ==> r.error == MetricNotFound
    ensures r.Ok? ==> ns in c.tree && r.value in c.tree[ns] && r.value.namespace == ns
    ensures ns !in c.tree ==> r.Err?
    ensures ns in c.tree && |c.tree[ns]| == 1 ==> r == Ok(c.tree[ns][0])
    ensures ns in c.tree && ver < 0 ==>
      r.Ok? && forall e :: e in c.tree[ns] ==> e.Version() <= r.value.Version()
    ensures ns in c.tree && |c.tree[ns]| > 1 && ver >= 0 ==>
      (r.Ok? <==> exists e :: e in c.tree[ns] && PluginMatches(e, ver))
    ensures ns in c.tree && |c.tree[ns]| > 1 && ver >= 0 && r.Ok? ==> PluginMatches(r.value, ver)
    ensures r.Ok? <==> Resolve(c, ns, ver).Ok?
    ensures r.Ok? ==> r.value == c.tree[ns][Resolve(c, ns, ver).value]
  {
    match Resolve(c, ns, ver)
    case Err(e) => Err(e)
    case Ok(k) =>
      assert c.tree[ns][k] in c.tree[ns];
      Ok(c.tree[ns][k])
  }

  /** `GetPlugin`: the owning plugin of the entry `Get` resolves to, or its error. */
  function GetPlugin(c: MetricCatalog, ns: seq<string>, ver: int): (r: Result<Option<Plugin>>)
    requires NamespaceTree.Valid(c.tree) && CanResolve(c, ns, ver)
    ensures r.Ok? <==> Get(c, ns, ver).Ok?
    ensures r.Ok? ==> r.value == Get(c, ns, ver).value.plugin
    ensures r.Err? ==> r.error == MetricNotFound
  {
    match Get(c, ns, ver)
    case Err(e) => Err(e)
    case Ok(m) => Ok(m.plugin)
  }

  /**
    `c2` is `c` with exactly one counter moved by `delta`: the one at position `k` of `ns`.
    Keys, cursor, every other namespace, every other position and every other field of
    that entry are as before.
  */
  predicate CounterMoved(c: MetricCatalog, c2: MetricCatalog, ns: seq<string>, k: nat, delta: int)
  {
    && c2.keys == c.keys
    && c2.currentIter == c.currentIter
    && c2.tree.Keys == c.tree.Keys
    && ns in c.tree && ns in c2.tree
    && (forall n :: n in c.tree && n != ns ==> n in c2.tree && c2.tree[n] == c.tree[n])
    && |c2.tree[ns]| == |c.tree[ns]|
    && k < |c.tree[ns]|
    && (forall j :: 0 <= j < |c.tree[ns]| && j != k ==> c2.tree[ns][j] == c.tree[ns][j])
    && c2.tree[ns][k].subscriptions == c.tree[ns][k].subscriptions + delta
    && c2.tree[ns][k].(subscriptions := c.tree[ns][k].subscriptions) == c.tree[ns][k]
  }

  /** Replaces the entry at position `k` of `ns` by one that differs only in its counter. */
  function SetEntry(c: MetricCatalog, ns: seq<string>, k: nat, e: MetricType): (r: MetricCatalog)
    requires NamespaceTree.Valid(c.tree) && ns in c.tree && k < |c.tree[ns]|
    requires e.(subscriptions := c.tree[ns][k].subscriptions) == c.tree[ns][k]
    ensures NamespaceTree.Valid(r.tree)
    ensures CounterMoved(c, r, ns, k, e.subscriptions - c.tree[ns][k].subscriptions)
  {
    var old_ := c.tree[ns][k];
    VersionIgnoresSubscriptions(old_, e.subscriptions);
    var leaf := c.tree[ns][k := e];
    assert forall j :: 0 <= j < |leaf| ==> leaf[j].Version() == c.tree[ns][j].Version();
    c.(tree := c.tree[ns := leaf])
  }

  /**
    `Subscribe`: when `get` fails its error is returned and the catalog is unchanged;
    otherwise the resolved entry, and only it, gains one subscriber.
  */
  function Subscribe(c: MetricCatalog, ns: seq<string>, ver: int): (r: (MetricCatalog, Outcome))
    requires NamespaceTree.Valid(c.tree) && CanResolve(c, ns, ver)
    ensures NamespaceTree.Valid(r.0.tree)
    ensures Resolve(c, ns, ver).Err? ==> r == (c, Fail(MetricNotFound))
    ensures Resolve(c, ns, ver).Ok? ==>
      r.1 == Pass && CounterMoved(c, r.0, ns, Resolve(c, ns, ver).value, 1)
  {
    match Resolve(c, ns, ver)
    case Err(e) => (c, Fail(e))
    case Ok(k) => (SetEntry(c, ns, k, c.tree[ns][k].Subscribe()), Pass)
  }

  /**
    `Unsubscribe`: when `get` fails its error is returned; when the resolved entry has no
    subscribers NegativeSubCount is returned; in both cases nothing changes. Otherwise
    the resolved entry, and only it, loses one subscriber.
  */
  function Unsubscribe(c: MetricCatalog, ns: seq<string>, ver: int): (r: (MetricCatalog, Outcome))
    requires NamespaceTree.Valid(c.tree) && CanResolve(c, ns, ver)
    ensures NamespaceTree.Valid(r.0.tree)
    ensures Resolve(c, ns, ver).Err? ==> r == (c, Fail(MetricNotFound))
    ensures Resolve(c, ns, ver).Ok? && c.tree[ns][Resolve(c, ns, ver).value].subscriptions == 0 ==>
      r == (c, Fail(NegativeSubCount))
    ensures Resolve(c, ns, ver).Ok? && c.tree[ns][Resolve(c, ns, ver).value].subscriptions > 0 ==>
      r.1 == Pass && CounterMoved(c, r.0, ns, Resolve(c, ns, ver).value, -1)
  {
    match Resolve(c, ns, ver)
    case Err(e) => (c, Fail(e))
    case Ok(k) =>
      var (m, outcome) := c.tree[ns][k].Unsubscribe();
      if outcome.Fail? then (c, outcome)
      else (SetEntry(c, ns, k, m), Pass)
  }

  /**
    `Remove`: drops the namespace from the tree. The key list and the cursor are left
    alone, so the removed namespace's key is still enumerated.
  */
  function Remove(c: MetricCatalog, ns: seq<string>): (r: MetricCatalog)
    requires NamespaceTree.Valid(c.tree)
    ensures NamespaceTree.Valid(r.tree)
    ensures r.keys == c.keys && r.currentIter == c.currentIter
    ensures ns !in r.tree
    ensures forall n :: n in c.tree && n != ns ==> n in r.tree && r.tree[n] == c.tree[n]
    ensures r.tree.Keys == c.tree.Keys - {ns}
  {
    c.(tree := NamespaceTree.Remove(c.tree, ns))
  }

  /**
    `Next`: advances the cursor and reports whether it still points at a key; past the
    last key it resets the cursor to the start and reports false.
  */
  function Next(c: MetricCatalog): (r: (MetricCatalog, bool))
    ensures r.0.tree == c.tree && r.0.keys == c.keys
    ensures r.1 <==> c.currentIter < |c.keys|
    ensures r.1 ==> r.0.currentIter == c.currentIter + 1
    ensures !r.1 ==> r.0.currentIter == 0
  {
    var iter := c.currentIter + 1;
    if iter > |c.keys| then (c.(currentIter := 0), false)
    else (c.(currentIter := iter), true)
  }

  /**
    `Item`: the key under the cursor and the entries the tree currently holds at the
    namespace obtained by splitting that key on '.' (none when the tree has nothing there).
    Calling it before the first `Next` indexes position -1, where the Go code panics.
  */
  function Item(c: MetricCatalog): (r: (string, seq<MetricType>))
    requires 1 <= c.currentIter <= |c.keys|
    ensures r.0 == c.keys[c.currentIter - 1]
    ensures var ns := Split(r.0, '.'); r.1 == (if ns in c.tree then c.tree[ns] else [])
    ensures NamespaceTree.Valid(c.tree) ==> forall e :: e in r.1 ==> e.namespace == Split(r.0, '.')
  {
    var key := c.keys[c.currentIter - 1];
    var ns := Split(key, '.');
    match NamespaceTree.Get(c.tree, ns)
    case Err(_) => (key, [])
    case Ok(mts) => (key, mts)
  }
}
