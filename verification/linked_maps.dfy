/** Insertion-ordered string maps: Java's LinkedHashMap and PHP's arrays. Storing under a
    new key appends an entry; storing under an existing key replaces the value in place and
    keeps the key's original position. */
module LinkedMaps {
  import opened Wrappers
  import opened Headers

  type Entries = seq<Header>

  function Keys(e: Entries): (ks: seq<string>)
    ensures |ks| == |e|
    ensures forall i :: 0 <= i < |e| ==> ks[i] == e[i].name
  {
    seq(|e|, i requires 0 <= i < |e| => e[i].name)
  }

  predicate DistinctKeys(e: Entries) {
    forall i, j :: 0 <= i < j < |e| ==> e[i].name != e[j].name
  }

  /** The value stored under `k`: the first entry with that key. */
  function Get(e: Entries, k: string): (r: Option<string>)
    ensures r.Some? <==> k in Keys(e)
    ensures r.Some? ==> exists i :: 0 <= i < |e| && e[i] == Header(k, r.value)
    decreases |e|
  {
    if |e| == 0 then None
    else if e[0].name == k then Some(e[0].value)
    else
      var r := Get(e[1..], k);
      assert Keys(e) == [e[0].name] + Keys(e[1..]);
      assert forall i :: 1 <= i < |e| ==> e[i] == e[1..][i - 1];
      r
  }

  /** `map.put(k, v)` / `$array[k] = v`: a new key is appended, an existing key keeps its
      position. */
  function Put(e: Entries, k: string, v: string): (r: Entries)
    ensures Keys(r) == if k in Keys(e) then Keys(e) else Keys(e) + [k]
    decreases |e|
  {
    if |e| == 0 then [Header(k, v)]
    else if e[0].name == k then [Header(k, v)] + e[1..]
    else
      var rest := Put(e[1..], k, v);
      assert Keys(e) == [e[0].name] + Keys(e[1..]);
      assert Keys([e[0]] + rest) == [e[0].name] + Keys(rest);
      [e[0]] + rest
  }

  /** The map laws: reading back the stored key gives the stored value, every other key
      reads as before. */
  lemma {:induction false} GetPut(e: Entries, k: string, v: string, k': string)
    ensures Get(Put(e, k, v), k') == if k' == k then Some(v) else Get(e, k')
    decreases |e|
  {
    if |e| > 0 && e[0].name != k {
      GetPut(e[1..], k, v, k');
      assert ([e[0]] + Put(e[1..], k, v))[1..] == Put(e[1..], k, v);
    }
  }

  /** Storing never creates a duplicate key. */
  lemma PutKeepsDistinct(e: Entries, k: string, v: string)
    requires DistinctKeys(e)
    ensures DistinctKeys(Put(e, k, v))
  {
    var r := Put(e, k, v);
    forall i, j | 0 <= i < j < |r|
      ensures r[i].name != r[j].name
    {
      assert Keys(r)[i] == r[i].name && Keys(r)[j] == r[j].name;
      if k !in Keys(e) {
        assert Keys(r)[..|e|] == Keys(e);
        if j < |e| {
          assert Keys(e)[i] == e[i].name && Keys(e)[j] == e[j].name;
        } else {
          assert Keys(e)[i] == e[i].name;
        }
      } else {
        assert Keys(e)[i] == e[i].name && Keys(e)[j] == e[j].name;
      }
    }
  }

  /** Storing every field in order, as a loop of assignments does. */
  function PutAll(base: Entries, hs: seq<Header>): Entries
    decreases |hs|
  {
    if |hs| == 0 then base
    else
      var last := hs[|hs| - 1];
      Put(PutAll(base, hs[..|hs| - 1]), last.name, last.value)
  }

  /** After a series of stores, each key reads as in a plain dictionary built from the same
      fields (the last store wins), and keys never stored read as before. */
  lemma {:induction false} GetPutAll(base: Entries, hs: seq<Header>, k: string)
    ensures Get(PutAll(base, hs), k)
              == if k in LastWins(hs, Identity, Identity) then Some(LastWins(hs, Identity, Identity)[k]) else Get(base, k)
    decreases |hs|
  {
    if |hs| > 0 {
      var last := hs[|hs| - 1];
      GetPutAll(base, hs[..|hs| - 1], k);
      GetPut(PutAll(base, hs[..|hs| - 1]), last.name, last.value, k);
    }
  }

  /** Storing keeps keys distinct. */
  lemma {:induction false} PutAllKeepsDistinct(base: Entries, hs: seq<Header>)
    requires DistinctKeys(base)
    ensures DistinctKeys(PutAll(base, hs))
    decreases |hs|
  {
    if |hs| > 0 {
      PutAllKeepsDistinct(base, hs[..|hs| - 1]);
      PutKeepsDistinct(PutAll(base, hs[..|hs| - 1]), hs[|hs| - 1].name, hs[|hs| - 1].value);
    }
  }
}
