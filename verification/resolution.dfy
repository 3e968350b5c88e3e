/**
  The two selection helpers of the catalog: `getLatest` (highest resolved version, earliest
  on ties) and `getVersion` (first entry whose plugin has the requested version). Both
  return a position in the sequence the tree handed out, which stands for the
  `*metricType` reference the Go functions return.
*/
module Resolution {
  import opened Results
  import opened MetricTypes

  /** `k` is the earliest position of `c` holding a maximal resolved version. */
  predicate IsEarliestLatest(c: seq<MetricType>, k: nat)
  {
    && k < |c|
    && (forall j :: 0 <= j < |c| ==> c[j].Version() <= c[k].Version())
    && (forall j :: 0 <= j < k ==> c[j].Version() < c[k].Version())
  }

  /** At most one position is the earliest maximal one. */
  lemma EarliestLatestUnique(c: seq<MetricType>, k1: nat, k2: nat)
    requires IsEarliestLatest(c, k1) && IsEarliestLatest(c, k2)
    ensures k1 == k2
  {
    assert c[k1].Version() <= c[k2].Version() && c[k2].Version() <= c[k1].Version();
  }

  /** The scan of `getLatest` from position `i`, with `cur` the best seen so far. */
  function LatestFrom(c: seq<MetricType>, i: nat, cur: nat): (k: nat)
    requires cur < |c| && i <= |c|
    requires forall j :: 0 <= j < i ==> c[j].Version() <= c[cur].Version()
    requires forall j :: 0 <= j < cur ==> c[j].Version() < c[cur].Version()
    ensures IsEarliestLatest(c, k)
    decreases |c| - i
  {
    if i == |c| then cur
    else LatestFrom(c, i + 1, if c[i].Version() > c[cur].Version() then i else cur)
  }

  /**
    `getLatest`: starts from the first entry and moves only on a strictly greater version,
    so it lands on the earliest entry of maximal version.
  */
  function GetLatest(c: seq<MetricType>): (k: nat)
    requires |c| > 0
    ensures IsEarliestLatest(c, k)
  {
    LatestFrom(c, 0, 0)
  }

  /** The entry has a plugin and that plugin's version is `ver`. */
  predicate PluginMatches(m: MetricType, ver: int)
  {
    m.plugin.Some? && m.plugin.value.version == ver
  }

  /** Every entry before position `j` has a plugin, of a version other than `ver`. */
  predicate PassedOver(c: seq<MetricType>, ver: int, j: nat)
    requires j <= |c|
  {
    forall i :: 0 <= i < j ==> c[i].plugin.Some? && c[i].plugin.value.version != ver
  }

  /**
    The scan of `getVersion` never dereferences a missing plugin: every entry it reaches
    before stopping has one. (Otherwise the Go code dereferences nil and panics.)
  */
  predicate ScanSafe(c: seq<MetricType>, ver: int)
  {
    forall j :: 0 <= j < |c| && PassedOver(c, ver, j) ==> c[j].plugin.Some?
  }

  /** Every entry has a plugin. */
  predicate AllPlugins(c: seq<MetricType>)
  {
    forall j :: 0 <= j < |c| ==> c[j].plugin.Some?
  }

  /** Every plugin present makes every scan safe. */
  lemma AllPluginsMakeScanSafe(c: seq<MetricType>, ver: int)
    requires AllPlugins(c)
    ensures ScanSafe(c, ver)
  {
  }

  /**
    The tree hands a leaf out in no fixed order. The scan is safe in every order of the
    entries exactly when every entry has a plugin: an entry without one, put first, is
    dereferenced before anything else.
  */
  lemma {:induction false} ScanSafeInEveryOrder(c: seq<MetricType>, ver: int)
    ensures AllPlugins(c) <==> forall p :: multiset(p) == multiset(c) ==> ScanSafe(p, ver)
  {
    if AllPlugins(c) {
      forall p: seq<MetricType> | multiset(p) == multiset(c)
        ensures ScanSafe(p, ver)
      {
        forall j | 0 <= j < |p|
          ensures p[j].plugin.Some?
        {
          assert p[j] in multiset(p);
          var i :| 0 <= i < |c| && c[i] == p[j];
        }
        AllPluginsMakeScanSafe(p, ver);
      }
    } else {
      var i :| 0 <= i < |c| && c[i].plugin.None?;
      var p := [c[i]] + c[..i] + c[i + 1..];
      assert c == c[..i] + [c[i]] + c[i + 1..];
      assert multiset(p) == multiset(c);
      assert PassedOver(p, ver, 0) && p[0].plugin.None?;
      assert !ScanSafe(p, ver);
    }
  }

  function VersionFrom(c: seq<MetricType>, ver: int, i: nat): (r: Option<nat>)
    requires i <= |c| && ScanSafe(c, ver) && PassedOver(c, ver, i)
    ensures r.Some? ==> r.value < |c| && PassedOver(c, ver, r.value) && PluginMatches(c[r.value], ver)
    ensures r.None? ==> PassedOver(c, ver, |c|)
    decreases |c| - i
  {
    if i == |c| then None
    else if c[i].plugin.value.version == ver then Some(i)
    else VersionFrom(c, ver, i + 1)
  }

  /**
    `getVersion`: the first entry whose plugin version is `ver`; None (Go's
    errMetricNotFound) when no entry matches. The entry's own version is not consulted.
  */
  function GetVersion(c: seq<MetricType>, ver: int): (r: Option<nat>)
    requires ScanSafe(c, ver)
    ensures r.Some? ==> r.value < |c| && PluginMatches(c[r.value], ver)
    ensures r.Some? ==> forall j :: 0 <= j < r.value ==> !PluginMatches(c[j], ver)
    ensures r.None? <==> forall j :: 0 <= j < |c| ==> !PluginMatches(c[j], ver)
  {
    VersionFrom(c, ver, 0)
  }

  /** Two sequences that agree on every position's resolved version and plugin. */
  predicate SameSelectionData(a: seq<MetricType>, b: seq<MetricType>)
  {
    && |a| == |b|
    && (forall i :: 0 <= i < |a| ==> a[i].Version() == b[i].Version() && a[i].plugin == b[i].plugin)
  }

  /** Selection looks only at versions and plugins, never at counters or other fields. */
  lemma SelectionIgnoresOtherFields(a: seq<MetricType>, b: seq<MetricType>, ver: int)
    requires SameSelectionData(a, b)
    ensures |a| > 0 ==> GetLatest(a) == GetLatest(b)
    ensures ScanSafe(a, ver) <==> ScanSafe(b, ver)
    ensures ScanSafe(a, ver) ==> GetVersion(a, ver) == GetVersion(b, ver)
  {
  }
}
