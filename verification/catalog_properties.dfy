/**
  Properties that relate several catalog operations: subscription round trips, the
  stale key left by `Remove`, the `Next`/`Item` enumeration protocol, and a worked
  two-plugin scenario.
*/
module CatalogProperties {
  import opened Results
  import opened GoStrings
  import opened MetricTypes
  import NamespaceTree
  import opened Resolution
  import opened KeyList
  import opened Catalog

  /** Moving one counter changes neither which calls can resolve nor what they resolve to. */
  lemma CounterMoveKeepsResolution(
    c: MetricCatalog, c2: MetricCatalog, ns: seq<string>, k: nat, delta: int, n: seq<string>, ver: int)
    requires NamespaceTree.Valid(c.tree) && NamespaceTree.Valid(c2.tree)
    requires CounterMoved(c, c2, ns, k, delta)
    ensures CanResolve(c2, n, ver) <==> CanResolve(c, n, ver)
    ensures CanResolve(c, n, ver) ==> Resolve(c2, n, ver) == Resolve(c, n, ver)
  {
    if n == ns {
      var a, b := c.tree[ns], c2.tree[ns];
      VersionIgnoresSubscriptions(b[k], a[k].subscriptions);
      assert a[k].plugin == b[k].plugin;
      assert SameSelectionData(a, b);
      SelectionIgnoresOtherFields(a, b, ver);
    }
  }

  /** Every catalog operation keeps the catalog invariant: valid tree, distinct keys, cursor in range. */
  lemma OperationsPreserveValid(c: MetricCatalog, m: MetricType, ns: seq<string>, ver: int)
    requires Valid(c)
    ensures Valid(Add(c, m))
    ensures Valid(Remove(c, ns))
    ensures Valid(Next(c).0)
    ensures CanResolve(c, ns, ver) ==> Valid(Subscribe(c, ns, ver).0) && Valid(Unsubscribe(c, ns, ver).0)
  {
  }

  /**
    Catalog `Subscribe` then `Unsubscribe` with the same arguments: when the first fails so
    does the second and nothing changes; otherwise both succeed and the catalog is back
    where it started.
  */
  lemma SubscribeThenUnsubscribeRestores(c: MetricCatalog, ns: seq<string>, ver: int)
    requires NamespaceTree.Valid(c.tree) && CanResolve(c, ns, ver)
    ensures var (c1, o1) := Subscribe(c, ns, ver);
      && CanResolve(c1, ns, ver)
      && (o1.Fail? ==> c1 == c && Unsubscribe(c1, ns, ver) == (c, Fail(MetricNotFound)))
      && (o1.Pass? ==> Unsubscribe(c1, ns, ver) == (c, Pass))
  {
    var (c1, o1) := Subscribe(c, ns, ver);
    if o1.Pass? {
      var k := Resolve(c, ns, ver).value;
      CounterMoveKeepsResolution(c, c1, ns, k, 1, ns, ver);
      var e := c1.tree[ns][k];
      assert e == c.tree[ns][k].Subscribe();
      SubscribeThenUnsubscribe(c.tree[ns][k]);
      var c2 := Unsubscribe(c1, ns, ver).0;
      assert c2.tree[ns] == c.tree[ns];
      assert c2.tree == c.tree;
    }
  }

  /**
    After `Remove(ns)` the namespace cannot be resolved, yet its key stays in the list, and
    visiting it with `Item` reports no entries.
  */
  lemma RemovedNamespaceStaysEnumerable(c: MetricCatalog, ns: seq<string>, ver: int)
    requires NamespaceTree.Valid(c.tree)
    requires c.currentIter <= |c.keys|
    requires |ns| > 0 && NoSep(ns, '.')
    requires 1 <= c.currentIter && c.keys[c.currentIter - 1] == GetMetricKey(ns)
    ensures var r := Remove(c, ns);
      && CanResolve(r, ns, ver)
      && Get(r, ns, ver) == Err(MetricNotFound)
      && Item(r) == (GetMetricKey(ns), [])
  {
  }

  /** `n` successive calls of `Next`: the final catalog and each call's answer. */
  function NextN(c: MetricCatalog, n: nat): (r: (MetricCatalog, seq<bool>))
    ensures r.0.tree == c.tree && r.0.keys == c.keys
    ensures |r.1| == n
    decreases n
  {
    if n == 0 then (c, [])
    else
      var (c1, b) := Next(c);
      var (c2, bs) := NextN(c1, n - 1);
      (c2, [b] + bs)
  }

  /** While keys remain, each `Next` answers true and moves the cursor by exactly one. */
  lemma {:induction false} NextAdvances(c: MetricCatalog, n: nat)
    requires c.currentIter + n <= |c.keys|
    ensures NextN(c, n).0 == c.(currentIter := c.currentIter + n)
    ensures |NextN(c, n).1| == n
    ensures forall i :: 0 <= i < n ==> NextN(c, n).1[i]
    decreases n
  {
    if n > 0 {
      var c1 := c.(currentIter := c.currentIter + 1);
      assert Next(c) == (c1, true);
      NextAdvances(c1, n - 1);
      assert c1.(currentIter := c1.currentIter + (n - 1)) == c.(currentIter := c.currentIter + n);
    }
  }

  /**
    From the start, the first N calls of `Next` over N keys answer true, the next answers
    false, and the catalog is then exactly as it began (cursor reset).
  */
  lemma EnumerationCycle(c: MetricCatalog)
    requires c.currentIter == 0
    ensures var (c2, bs) := NextN(c, |c.keys| + 1);
      && c2 == c
      && |bs| == |c.keys| + 1
      && (forall i :: 0 <= i < |c.keys| ==> bs[i])
      && !bs[|c.keys|]
  {
    var n := |c.keys|;
    NextAdvances(c, n);
    NextLast(c, n);
    assert Next(NextN(c, n).0) == (c, false);
  }

  /** n+1 calls split as n calls followed by one more. */
  lemma {:induction false} NextLast(c: MetricCatalog, n: nat)
    requires c.currentIter + n <= |c.keys|
    ensures NextN(c, n + 1).0 == Next(NextN(c, n).0).0
    ensures NextN(c, n + 1).1 == NextN(c, n).1 + [Next(NextN(c, n).0).1]
    decreases n
  {
    var (c1, b) := Next(c);
    if n > 0 {
      NextLast(c1, n - 1);
      var bs := NextN(c1, n - 1).1;
      assert NextN(c, n + 1).1 == [b] + NextN(c1, n).1;
      assert [b] + (bs + [Next(NextN(c1, n - 1).0).1]) == ([b] + bs) + [Next(NextN(c1, n - 1).0).1];
    }
  }

  /** After the k-th `Next` from the start, `Item` reports the k-th key. */
  lemma ItemAfterKthNext(c: MetricCatalog, k: nat)
    requires c.currentIter == 0
    requires 1 <= k <= |c.keys|
    ensures NextN(c, k).0.currentIter == k
    ensures Item(NextN(c, k).0).0 == c.keys[k - 1]
  {
    NextAdvances(c, k);
  }

  /**
    A metric added to a catalog whose cursor is at the start is enumerated: some number
    of `Next` calls bring `Item` to its key, and the entries reported there include it.
  */
  lemma AddedMetricIsEnumerated(c: MetricCatalog, m: MetricType)
    requires NamespaceTree.Valid(c.tree) && c.currentIter == 0
    requires |m.namespace| > 0 && NoSep(m.namespace, '.')
    ensures var r := Add(c, m);
      exists k :: 1 <= k <= |r.keys|
        && NextN(r, k).0.currentIter == k
        && Item(NextN(r, k).0).0 == GetMetricKey(m.namespace)
        && m in Item(NextN(r, k).0).1
  {
    var r := Add(c, m);
    var key := GetMetricKey(m.namespace);
    var i :| 0 <= i < |r.keys| && r.keys[i] == key;
    NextAdvances(r, i + 1);
    var r2 := NextN(r, i + 1).0;
    assert r2 == r.(currentIter := i + 1);
    assert Split(key, '.') == m.namespace;
    assert Item(r2) == (key, r.tree[m.namespace]);
  }

  /** After adding an entry, asking for the latest at its namespace finds one at least as new. */
  lemma AddThenGetLatest(c: MetricCatalog, m: MetricType)
    requires NamespaceTree.Valid(c.tree)
    ensures var r := Add(c, m);
      && CanResolve(r, m.namespace, -1)
      && Get(r, m.namespace, -1).Ok?
      && Get(r, m.namespace, -1).value.Version() >= m.Version()
  {
  }

  /** The worked scenario: two plugins contribute `/intel/cpu/load`, A at version 1 and B at version 2. */
  const LoadNs: seq<string> := ["intel", "cpu", "load"]
  const PluginA := Plugin(1, 1, true)
  const PluginB := Plugin(2, 2, true)
  const EntryA := MetricType(Some(PluginA), LoadNs, 1, 0)
  const EntryB := MetricType(Some(PluginB), LoadNs, 2, 0)

  function TwoPluginCatalog(): MetricCatalog
  {
    AddLoadedMetricType(
      AddLoadedMetricType(NewCatalog(), PluginA, MetricDescriptor(LoadNs, 1)),
      PluginB, MetricDescriptor(LoadNs, 2))
  }

  /** The scenario's dotted key. */
  lemma LoadKey()
    ensures GetMetricKey(LoadNs) == "intel.cpu.load"
  {
    assert LoadNs[1..] == ["cpu", "load"] && LoadNs[1..][1..] == ["load"];
    assert Join(LoadNs, '.') == "intel" + "." + ("cpu" + "." + "load");
  }

  /** Loading A's entry into an empty catalog. */
  lemma FirstLoad()
    ensures var c1 := AddLoadedMetricType(NewCatalog(), PluginA, MetricDescriptor(LoadNs, 1));
      && Valid(c1)
      && c1.tree == map[LoadNs := [EntryA]]
      && c1.keys == ["intel.cpu.load"]
  {
    LoadKey();
    var c1 := AddLoadedMetricType(NewCatalog(), PluginA, MetricDescriptor(LoadNs, 1));
    assert c1 == Add(NewCatalog(), EntryA);
    assert c1.tree == map[LoadNs := [EntryA]];
  }

  /**
    Both loads share one key, and the namespace holds A's entry then B's. The order is the
    model's insertion order; the trie itself promises none.
  */
  lemma TwoPluginContents()
    ensures Valid(TwoPluginCatalog())
    ensures TwoPluginCatalog().keys == ["intel.cpu.load"]
    ensures TwoPluginCatalog().tree == map[LoadNs := [EntryA, EntryB]]
  {
    FirstLoad();
    LoadKey();
    var c1 := AddLoadedMetricType(NewCatalog(), PluginA, MetricDescriptor(LoadNs, 1));
    var c := TwoPluginCatalog();
    assert c == Add(c1, EntryB);
    assert c.tree == NamespaceTree.Insert(c1.tree, EntryB);
    assert EntryA.Version() == 1 && EntryB.Version() == 2;
    assert NamespaceTree.Upsert([EntryA], EntryB) == [EntryA] + NamespaceTree.Upsert([], EntryB);
    assert NamespaceTree.Upsert([], EntryB) == [EntryB];
    assert [EntryA] + [EntryB] == [EntryA, EntryB];
    assert NamespaceTree.Insert(c1.tree, EntryB) == c1.tree[LoadNs := NamespaceTree.Upsert([EntryA], EntryB)];
    assert c.tree == c1.tree[LoadNs := [EntryA, EntryB]];
  }

  /** Asking for the latest gives B's entry. */
  lemma TwoPluginLatest()
    ensures var c := TwoPluginCatalog();
      CanResolve(c, LoadNs, -1) && Get(c, LoadNs, -1) == Ok(EntryB)
  {
    TwoPluginContents();
    var c := TwoPluginCatalog();
    assert IsEarliestLatest(c.tree[LoadNs], 1);
    assert Resolve(c, LoadNs, -1) == Ok(1);
  }

  /** Asking for version 1 gives A's entry; version 3 gives nothing. */
  lemma TwoPluginByVersion()
    ensures var c := TwoPluginCatalog();
      && CanResolve(c, LoadNs, 1) && Get(c, LoadNs, 1) == Ok(EntryA)
      && CanResolve(c, LoadNs, 3) && Get(c, LoadNs, 3) == Err(MetricNotFound)
  {
    TwoPluginContents();
    var c := TwoPluginCatalog();
    var leaf := c.tree[LoadNs];
    assert PluginMatches(leaf[0], 1);
    assert Resolve(c, LoadNs, 1) == Ok(0);
    assert !PluginMatches(leaf[0], 3) && !PluginMatches(leaf[1], 3);
    assert Resolve(c, LoadNs, 3) == Err(MetricNotFound);
  }

  /** Unsubscribing A's entry, which has no subscribers, fails and changes nothing. */
  lemma TwoPluginUnsubscribeFails()
    ensures var c := TwoPluginCatalog();
      && CanResolve(c, LoadNs, 1)
      && Unsubscribe(c, LoadNs, 1) == (c, Fail(NegativeSubCount))
  {
    TwoPluginContents();
    var c := TwoPluginCatalog();
    var leaf := c.tree[LoadNs];
    assert PluginMatches(leaf[0], 1);
    assert Resolve(c, LoadNs, 1) == Ok(0);
    assert leaf[0].subscriptions == 0;
  }

  /** Subscribing by version 2 gives B's entry, and only it, one subscriber. */
  lemma TwoPluginSubscribe()
    ensures var c := TwoPluginCatalog();
      && CanResolve(c, LoadNs, 2)
      && Subscribe(c, LoadNs, 2).0.tree[LoadNs] == [EntryA, EntryB.(subscriptions := 1)]
  {
    TwoPluginContents();
    SubscribeToSecond(TwoPluginCatalog());
  }

  lemma SubscribeToSecond(c: MetricCatalog)
    requires c.tree == map[LoadNs := [EntryA, EntryB]]
    ensures CanResolve(c, LoadNs, 2)
    ensures Subscribe(c, LoadNs, 2).0.tree[LoadNs] == [EntryA, EntryB.(subscriptions := 1)]
  {
    var leaf := c.tree[LoadNs];
    assert NamespaceTree.ValidLeaf(LoadNs, leaf);
    assert !PluginMatches(leaf[0], 2) && PluginMatches(leaf[1], 2);
    assert Resolve(c, LoadNs, 2) == Ok(1);
    var r := Subscribe(c, LoadNs, 2).0;
    assert CounterMoved(c, r, LoadNs, 1, 1);
    assert r.tree[LoadNs][0] == EntryA;
    assert r.tree[LoadNs][1] == EntryB.(subscriptions := 1);
  }
}
