/**
  One metric entry (`metricType`): a namespace contributed by a plugin at some version,
  carrying a subscription counter. Timestamps, configuration, policy, source and data
  payloads play no part in the catalog's logic and are not modelled.
*/
module MetricTypes {
  import opened Results
  import opened GoStrings

  /** The owning plugin, referred to by identity; only its version is consulted. */
  datatype Plugin = Plugin(id: nat, version: int, hasPolicyTree: bool)

  /**
    A metric entry. `version` is the entry's own version (0 or less defers to the plugin).
    The counter is a `nat`: the zero check in `Unsubscribe` is what keeps it non-negative.
  */
  datatype MetricType = MetricType(
    plugin: Option<Plugin>,
    namespace: seq<string>,
    version: int,
    subscriptions: nat)
  {
    /** The resolved version: own version if positive, else the plugin's, else the sentinel -1. */
    function Version(): (v: int)
      ensures version > 0 ==> v == version
      ensures version <= 0 && plugin.None? ==> v == -1
      ensures version <= 0 && plugin.Some? ==> v == plugin.value.version
    {
      if version > 0 then version
      else if plugin.None? then -1
      else plugin.value.version
    }

    /** Adds one subscriber; nothing else about the entry changes. */
    function Subscribe(): (m: MetricType)
      ensures m.subscriptions == subscriptions + 1
      ensures m.(subscriptions := subscriptions) == this
    {
      this.(subscriptions := subscriptions + 1)
    }

    /**
      Removes one subscriber. At zero it fails with NegativeSubCount and returns the entry
      unchanged; otherwise the count drops by exactly one.
    */
    function Unsubscribe(): (r: (MetricType, Outcome))
      ensures r.1.Fail? <==> subscriptions == 0
      ensures r.1.Fail? ==> r.1.error == NegativeSubCount && r.0 == this
      ensures r.1.Pass? ==> r.0.subscriptions + 1 == subscriptions
      ensures r.0.(subscriptions := subscriptions) == this
    {
      if subscriptions == 0 then (this, Fail(NegativeSubCount))
      else (this.(subscriptions := subscriptions - 1), Pass)
    }

    /**
      `"/" + strings.Join(namespace, "/")`. Splitting it on '/' gives an empty leading
      segment followed by the namespace, when the namespace is non-empty and no segment
      contains '/'.
    */
    function NamespaceAsString(): (s: string)
      ensures |namespace| > 0 && NoSep(namespace, '/') ==> Split(s, '/') == [""] + namespace
    {
      var parts := [""] + namespace;
      assert parts[1..] == namespace;
      var s := "/" + Join(namespace, '/');
      if |namespace| > 0 && NoSep(namespace, '/') then
        assert Join(parts, '/') == s;
        SplitJoin(parts, '/');
        s
      else s
    }

    /**
      `fmt.Sprintf("/%s/%d", strings.Join(namespace, "/"), Version())`. The key is
      recoverable: cut at its last '/', it gives the namespace string and a canonical
      decimal (as `%d` writes it) that reads back as the resolved version.
    */
    function Key(): (k: string)
      ensures SplitLast(k, '/').Some?
      ensures SplitLast(k, '/').value.0 == NamespaceAsString()
      ensures ParseInt(SplitLast(k, '/').value.1) == Some(Version())
      ensures Canonical(SplitLast(k, '/').value.1)
    {
      var digits := IntToDecimal(Version());
      SplitLastAfter(NamespaceAsString(), '/', digits);
      NamespaceAsString() + "/" + digits
    }
  }

  /** The counter never takes part in version resolution. */
  lemma VersionIgnoresSubscriptions(m: MetricType, n: nat)
    ensures m.(subscriptions := n).Version() == m.Version()
  {
  }

  /** A subscribe followed by an unsubscribe succeeds and restores the entry exactly. */
  lemma SubscribeThenUnsubscribe(m: MetricType)
    ensures m.Subscribe().Unsubscribe() == (m, Pass)
  {
  }

  /** A successful unsubscribe is undone by a subscribe. */
  lemma UnsubscribeThenSubscribe(m: MetricType)
    requires m.Unsubscribe().1.Pass?
    ensures m.Unsubscribe().0.Subscribe() == m
  {
  }
}
