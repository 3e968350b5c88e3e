/**
  The enumeration key list: `getMetricKey` turns a namespace into its dotted key, and
  `appendIfMissing` records a key the first time it is seen.
*/
module KeyList {
  import opened GoStrings

  /**
    `getMetricKey`: the namespace segments joined with '.'. The key reads back as the
    namespace under `strings.Split(key, ".")`, the lookup `Item` performs, when the
    namespace is non-empty and no segment contains '.'.
  */
  function GetMetricKey(ns: seq<string>): (key: string)
    ensures |ns| > 0 && NoSep(ns, '.') ==> Split(key, '.') == ns
  {
    if |ns| > 0 && NoSep(ns, '.') then
      SplitJoin(ns, '.');
      Join(ns, '.')
    else Join(ns, '.')
  }

  /** Without those conditions two namespaces can share one key. */
  lemma MetricKeyCollisions()
    ensures GetMetricKey(["a.b"]) == GetMetricKey(["a", "b"])
    ensures GetMetricKey([]) == GetMetricKey([""])
    ensures Split(GetMetricKey([]), '.') != []
  {
    assert GetMetricKey(["a", "b"]) == "a" + "." + "b";
  }

  /** No key appears twice. */
  predicate Distinct(keys: seq<string>)
  {
    forall i, j :: 0 <= i < j < |keys| ==> keys[i] != keys[j]
  }

  /**
    `appendIfMissing`: scans the list front to back and returns it unchanged on a match;
    otherwise appends the key at the end.
  */
  function AppendIfMissing(keys: seq<string>, key: string): (r: seq<string>)
    ensures |keys| <= |r| <= |keys| + 1
    ensures r[..|keys|] == keys
    ensures key in r
    ensures key in keys ==> r == keys
    ensures key !in keys ==> r == keys + [key]
  {
    if |keys| == 0 then [key]
    else if keys[0] == key then keys
    else [keys[0]] + AppendIfMissing(keys[1..], key)
  }

  /** Recording a key twice is the same as recording it once. */
  lemma AppendIfMissingIdempotent(keys: seq<string>, key: string)
    ensures AppendIfMissing(AppendIfMissing(keys, key), key) == AppendIfMissing(keys, key)
  {
  }

  /** A duplicate-free list stays duplicate-free, and the appended key lands last. */
  lemma AppendIfMissingKeepsDistinct(keys: seq<string>, key: string)
    ensures Distinct(keys) ==> Distinct(AppendIfMissing(keys, key))
    ensures key !in keys ==> AppendIfMissing(keys, key)[|keys|] == key
  {
  }
}
