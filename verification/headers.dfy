/** An incoming request as the web frameworks hand it over, and the case-insensitive header
    lookup they offer. Header field names are case-insensitive (section 5.1 of RFC 9110);
    when a name occurs more than once, the lookup answers with the first field, in arrival
    order. */
module Headers {
  import opened Wrappers
  import opened Text

  datatype Header = Header(name: string, value: string)

  /** A request as a receiver sees it. `path` is the string the receiver signs; servers
      derive it differently (with or without the query string, decoded or not), and that
      derivation is not modelled. */
  datatype Request = Request(verb: string, path: string, headers: seq<Header>, body: string)

  /** The value of the first field whose name equals `name` up to ASCII case. */
  function Lookup(hs: seq<Header>, name: string): Option<string>
    decreases |hs|
  {
    if |hs| == 0 then None
    else if Lower(hs[0].name) == Lower(name) then Some(hs[0].value)
    else Lookup(hs[1..], name)
  }

  /** The lookup finds a value exactly when some field has the name up to case, and then
      it is the value of the first such field. */
  lemma {:induction false} LookupFindsFirst(hs: seq<Header>, name: string)
    ensures Lookup(hs, name).Some? <==> exists i :: 0 <= i < |hs| && Lower(hs[i].name) == Lower(name)
    ensures Lookup(hs, name).Some? ==>
              exists i :: 0 <= i < |hs| && Lower(hs[i].name) == Lower(name)
                          && hs[i].value == Lookup(hs, name).value
                          && forall j :: 0 <= j < i ==> Lower(hs[j].name) != Lower(name)
    decreases |hs|
  {
    if |hs| > 0 && Lower(hs[0].name) != Lower(name) {
      LookupFindsFirst(hs[1..], name);
      assert forall i :: 1 <= i < |hs| ==> hs[i] == hs[1..][i - 1];
      if Lookup(hs, name).Some? {
        var k :| 0 <= k < |hs[1..]| && Lower(hs[1..][k].name) == Lower(name)
                 && hs[1..][k].value == Lookup(hs, name).value
                 && forall j :: 0 <= j < k ==> Lower(hs[1..][j].name) != Lower(name);
        assert Lower(hs[k + 1].name) == Lower(name);
      }
    }
  }

  /** The value, or the empty string when no field has that name (the `?? ""` idiom and
      frameworks whose getter returns an empty string). */
  function LookupOrEmpty(hs: seq<Header>, name: string): string {
    Lookup(hs, name).GetOr("")
  }

  /** The lookup sees names only through their lower-case form. */
  lemma {:induction false} LookupIgnoresCase(hs: seq<Header>, a: string, b: string)
    requires Lower(a) == Lower(b)
    ensures Lookup(hs, a) == Lookup(hs, b)
    decreases |hs|
  {
    if |hs| > 0 {
      LookupIgnoresCase(hs[1..], a, b);
    }
  }

  /** True when no two fields share a name up to case. */
  predicate DistinctNames(hs: seq<Header>) {
    forall i, j :: 0 <= i < j < |hs| ==> Lower(hs[i].name) != Lower(hs[j].name)
  }

  function Identity(s: string): string {
    s
  }

  /** A dictionary built from the fields in arrival order, each stored under `key(name)`
      with `value(value)`: a later field overwrites an earlier one with the same key. */
  function LastWins(hs: seq<Header>, key: string -> string, value: string -> string): map<string, string>
    decreases |hs|
  {
    if |hs| == 0 then map[]
    else
      var last := hs[|hs| - 1];
      LastWins(hs[..|hs| - 1], key, value)[key(last.name) := value(last.value)]
  }

  /** The dictionary holds exactly the keys of the fields. */
  lemma {:induction false} LastWinsKeys(hs: seq<Header>, key: string -> string, value: string -> string)
    ensures forall k :: k in LastWins(hs, key, value) <==> exists i :: 0 <= i < |hs| && key(hs[i].name) == k
    decreases |hs|
  {
    if |hs| > 0 {
      var p := hs[..|hs| - 1];
      LastWinsKeys(p, key, value);
      assert LastWins(hs, key, value) == LastWins(p, key, value)[key(hs[|hs| - 1].name) := value(hs[|hs| - 1].value)];
      forall k | k in LastWins(hs, key, value)
        ensures exists i :: 0 <= i < |hs| && key(hs[i].name) == k
      {
        if k != key(hs[|hs| - 1].name) {
          var i :| 0 <= i < |p| && key(p[i].name) == k;
          assert hs[i] == p[i];
        }
      }
      forall k, i | 0 <= i < |hs| && key(hs[i].name) == k
        ensures k in LastWins(hs, key, value)
      {
        if i < |p| {
          assert hs[i] == p[i];
        }
      }
    }
  }

  /** Field `i` is the last field whose key is `k`. */
  predicate IsLastWithKey(hs: seq<Header>, key: string -> string, k: string, i: int) {
    0 <= i < |hs| && key(hs[i].name) == k && forall j :: i < j < |hs| ==> key(hs[j].name) != k
  }

  /** Under each key sits the value of the last field with that key. */
  lemma {:induction false} LastWinsValues(hs: seq<Header>, key: string -> string, value: string -> string)
    ensures forall k :: k in LastWins(hs, key, value) ==>
              exists i :: IsLastWithKey(hs, key, k, i) && LastWins(hs, key, value)[k] == value(hs[i].value)
    decreases |hs|
  {
    if |hs| > 0 {
      var p, n := hs[..|hs| - 1], |hs| - 1;
      var m, mp := LastWins(hs, key, value), LastWins(p, key, value);
      assert m == mp[key(hs[n].name) := value(hs[n].value)];
      assert forall k :: k in mp ==> exists i :: IsLastWithKey(p, key, k, i) && mp[k] == value(p[i].value) by {
        LastWinsValues(p, key, value);
      }
      forall k | k in m
        ensures exists i :: IsLastWithKey(hs, key, k, i) && m[k] == value(hs[i].value)
      {
        if k != key(hs[n].name) {
          var i :| IsLastWithKey(p, key, k, i) && mp[k] == value(p[i].value);
          LastOfPrefix(hs, key, k, i);
        } else {
          assert IsLastWithKey(hs, key, k, n);
        }
      }
    }
  }

  /** The last field with a key among all but the final field stays the last one when the
      final field has another key. */
  lemma LastOfPrefix(hs: seq<Header>, key: string -> string, k: string, i: int)
    requires |hs| > 0 && key(hs[|hs| - 1].name) != k
    requires IsLastWithKey(hs[..|hs| - 1], key, k, i)
    ensures IsLastWithKey(hs, key, k, i) && hs[i] == hs[..|hs| - 1][i]
  {
  }

  /** When no two fields share a key, each field is read back under its key. */
  lemma LastWinsReadBack(hs: seq<Header>, key: string -> string, value: string -> string, i: nat)
    requires i < |hs|
    requires forall a, b :: 0 <= a < b < |hs| ==> key(hs[a].name) != key(hs[b].name)
    ensures key(hs[i].name) in LastWins(hs, key, value)
    ensures LastWins(hs, key, value)[key(hs[i].name)] == value(hs[i].value)
  {
    LastWinsKeys(hs, key, value);
    LastWinsValues(hs, key, value);
  }

  /** A dictionary keyed by lower-cased names has only lower-case keys. */
  lemma LastWinsLowerKeys(hs: seq<Header>, value: string -> string)
    ensures forall k :: k in LastWins(hs, Lower, value) ==> IsLowerCase(k)
  {
    LastWinsKeys(hs, Lower, value);
    forall k | k in LastWins(hs, Lower, value)
      ensures IsLowerCase(k)
    {
      var i :| 0 <= i < |hs| && Lower(hs[i].name) == k;
      LowerIsLowerCase(hs[i].name);
    }
  }
}
