/**
  The namespace tree (`MTTrie`), whose own code is not part of this model. It is held
  abstractly as a map from a namespace to the entries stored there, in no particular
  order. Adding is last-write-wins per (namespace, resolved version); removing drops a
  namespace. Subtree fetches, deletion by plugin and node pruning are not modelled.
*/
module NamespaceTree {
  import opened Results
  import opened MetricTypes

  type Namespace = seq<string>
  type Tree = map<Namespace, seq<MetricType>>

  /** No two entries of one namespace share a resolved version. */
  predicate DistinctVersions(leaf: seq<MetricType>)
  {
    forall i, j :: 0 <= i < j < |leaf| ==> leaf[i].Version() != leaf[j].Version()
  }

  /** A stored leaf: non-empty, every entry under that namespace, one entry per version. */
  predicate ValidLeaf(ns: Namespace, leaf: seq<MetricType>)
  {
    && |leaf| > 0
    && (forall i :: 0 <= i < |leaf| ==> leaf[i].namespace == ns)
    && DistinctVersions(leaf)
  }

  predicate Valid(t: Tree)
  {
    forall ns :: ns in t ==> ValidLeaf(ns, t[ns])
  }

  const Empty: Tree := map[]

  /** Exact-path lookup: every entry stored at `ns`, or MetricNotFound. */
  function Get(t: Tree, ns: Namespace): (r: Result<seq<MetricType>>)
    ensures r.Ok? <==> ns in t
    ensures r.Ok? ==> r.value == t[ns]
    ensures Valid(t) && r.Ok? ==> |r.value| > 0 && forall e :: e in r.value ==> e.namespace == ns
    ensures r.Err? ==> r.error == MetricNotFound
  {
    if ns in t then Ok(t[ns]) else Err(MetricNotFound)
  }

  /** Puts `m` in place of the entry with its resolved version, or appends it. */
  function Upsert(leaf: seq<MetricType>, m: MetricType): (r: seq<MetricType>)
    requires DistinctVersions(leaf)
    ensures DistinctVersions(r)
    ensures m in r
    ensures forall e :: e in r ==> e == m || (e in leaf && e.Version() != m.Version())
    ensures forall e :: e in leaf && e.Version() != m.Version() ==> e in r
  {
    if |leaf| == 0 then [m]
    else if leaf[0].Version() == m.Version() then [m] + leaf[1..]
    else [leaf[0]] + Upsert(leaf[1..], m)
  }

  /**
    Stores `m` under its namespace: afterwards it is there, entries of other versions are
    kept, the entry it displaces (same resolved version) is gone, and nothing else moves.
  */
  function Insert(t: Tree, m: MetricType): (r: Tree)
    requires Valid(t)
    ensures Valid(r)
    ensures r.Keys == t.Keys + {m.namespace}
    ensures forall ns :: ns in t && ns != m.namespace ==> r[ns] == t[ns]
    ensures m in r[m.namespace]
    ensures forall e :: e in r[m.namespace] ==>
      e == m || (m.namespace in t && e in t[m.namespace] && e.Version() != m.Version())
    ensures m.namespace in t ==>
      forall e :: e in t[m.namespace] && e.Version() != m.Version() ==> e in r[m.namespace]
  {
    var ns := m.namespace;
    var leaf := if ns in t then Upsert(t[ns], m) else [m];
    assert forall i :: 0 <= i < |leaf| ==> leaf[i] in leaf;
    t[ns := leaf]
  }

  /** Drops the namespace; every other namespace keeps its entries. */
  function Remove(t: Tree, ns: Namespace): (r: Tree)
    requires Valid(t)
    ensures Valid(r)
    ensures r.Keys == t.Keys - {ns}
    ensures forall n :: n in r ==> r[n] == t[n]
  {
    t - {ns}
  }
}
