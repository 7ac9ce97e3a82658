/** PHP arrays with string keys: an ordered sequence of key/value entries.
    Assignment to an existing key keeps the key where it is, assignment to
    a new key appends it, `unset` drops the entry, and `ksort(.., SORT_STRING)`
    rearranges the entries by key. */
module OrderedMap {
  import opened Wrappers
  import Strings

  type Entries<V> = seq<(string, V)>

  /** `array_keys`. */
  function Keys<V>(m: Entries<V>): (r: seq<string>)
    ensures |r| == |m|
    ensures forall i :: 0 <= i < |m| ==> r[i] == m[i].0
  {
    if |m| == 0 then [] else [m[0].0] + Keys(m[1..])
  }

  lemma KeysAppend<V>(a: Entries<V>, b: Entries<V>)
    ensures Keys(a + b) == Keys(a) + Keys(b)
  {
  }

  /** `array_values`. */
  function Values<V>(m: Entries<V>): (r: seq<V>)
    ensures |r| == |m|
    ensures forall i :: 0 <= i < |m| ==> r[i] == m[i].1
  {
    if |m| == 0 then [] else [m[0].1] + Values(m[1..])
  }

  /** `foreach ($m as $k => $v) { $m[$k] = f($v); }`: every value replaced in
      place, keys and order kept. */
  function MapValues<V>(f: V -> V, m: Entries<V>): (r: Entries<V>)
    ensures |r| == |m|
    ensures forall i :: 0 <= i < |m| ==> r[i] == (m[i].0, f(m[i].1))
  {
    if |m| == 0 then [] else [(m[0].0, f(m[0].1))] + MapValues(f, m[1..])
  }

  /** After the in-place rewrite each key maps to the rewritten value it held. */
  lemma {:induction false} MapValuesLookup<V>(f: V -> V, m: Entries<V>, k: string)
    ensures Keys(MapValues(f, m)) == Keys(m)
    ensures Get(MapValues(f, m), k) == if HasKey(m, k) then Some(f(Get(m, k).value)) else None
  {
    if |m| > 0 {
      MapValuesLookup(f, m[1..], k);
    }
  }

  /** No key appears twice, as in every PHP array. */
  predicate Unique<V>(m: Entries<V>) {
    forall i, j :: 0 <= i < j < |m| ==> m[i].0 != m[j].0
  }

  /** `array_key_exists(k, m)`. */
  predicate HasKey<V>(m: Entries<V>, k: string) {
    k in Keys(m)
  }

  /** `m[k]`, or `None` for a missing key. */
  function Get<V>(m: Entries<V>, k: string): (r: Option<V>)
    ensures r.Some? <==> HasKey(m, k)
    ensures r.Some? ==> (k, r.value) in m
  {
    if |m| == 0 then None
    else if m[0].0 == k then Some(m[0].1)
    else Get(m[1..], k)
  }

  /** In an array without repeated keys, looking a key up finds exactly the
      entries it holds. */
  lemma {:induction false} GetMember<V>(m: Entries<V>, k: string, v: V)
    requires Unique(m)
    ensures Get(m, k) == Some(v) <==> (k, v) in m
  {
    if |m| > 0 && m[0].0 != k {
      assert Unique(m[1..]);
      GetMember(m[1..], k, v);
      assert (k, v) in m <==> (k, v) in m[1..] by {
        assert m == [m[0]] + m[1..];
      }
    } else if |m| > 0 && (k, v) in m {
      var i :| 0 <= i < |m| && m[i] == (k, v);
      assert i == 0;
    }
  }

  /** Two arrays without repeated keys that hold the same entries answer
      every lookup alike. */
  lemma SameEntriesSameLookup<V>(a: Entries<V>, b: Entries<V>, k: string)
    requires Unique(a) && Unique(b)
    requires multiset(a) == multiset(b)
    ensures Get(a, k) == Get(b, k)
  {
    if Get(a, k).Some? {
      var v := Get(a, k).value;
      GetMember(a, k, v);
      assert (k, v) in multiset(b);
      GetMember(b, k, v);
    } else if Get(b, k).Some? {
      var v := Get(b, k).value;
      GetMember(b, k, v);
      assert (k, v) in multiset(a);
      GetMember(a, k, v);
    }
  }

  /** `m[k] = v`: replace in place when the key exists, else append. */
  function Set<V>(m: Entries<V>, k: string, v: V): (r: Entries<V>)
    ensures HasKey(m, k) ==> Keys(r) == Keys(m)
    ensures !HasKey(m, k) ==> r == m + [(k, v)]
  {
    if |m| == 0 then [(k, v)]
    else if m[0].0 == k then [(k, v)] + m[1..]
    else [m[0]] + Set(m[1..], k, v)
  }

  /** After `m[k] = v`, `k` maps to `v` and every other key to what it did. */
  lemma {:induction false} SetLookup<V>(m: Entries<V>, k: string, v: V, k': string)
    ensures Get(Set(m, k, v), k') == if k' == k then Some(v) else Get(m, k')
  {
    if |m| > 0 && m[0].0 != k {
      SetLookup(m[1..], k, v, k');
    }
  }

  lemma SetUnique<V>(m: Entries<V>, k: string, v: V)
    requires Unique(m)
    ensures Unique(Set(m, k, v))
  {
    var r := Set(m, k, v);
    if HasKey(m, k) {
      assert forall i :: 0 <= i < |r| ==> r[i].0 == Keys(r)[i] == Keys(m)[i];
    } else {
      assert forall i :: 0 <= i < |m| ==> m[i].0 == Keys(m)[i];
    }
  }

  /** Assigning a key the value it already holds changes nothing. */
  lemma {:induction false} SetSame<V>(m: Entries<V>, k: string, v: V)
    requires Get(m, k) == Some(v)
    ensures Set(m, k, v) == m
  {
    if |m| > 0 && m[0].0 != k {
      SetSame(m[1..], k, v);
    }
  }

  /** `unset(m[k])`. */
  function Remove<V>(m: Entries<V>, k: string): (r: Entries<V>)
    ensures multiset(r) <= multiset(m)
  {
    if |m| == 0 then []
    else
      assert m == [m[0]] + m[1..];
      if m[0].0 == k then Remove(m[1..], k)
      else [m[0]] + Remove(m[1..], k)
  }

  /** After `unset(m[k])`, `k` is gone and every other key maps to what it did. */
  lemma {:induction false} RemoveLookup<V>(m: Entries<V>, k: string, k': string)
    ensures Get(Remove(m, k), k') == if k' == k then None else Get(m, k')
  {
    if |m| > 0 {
      RemoveLookup(m[1..], k, k');
    }
  }

  /** Removing a missing key changes nothing. */
  lemma {:induction false} RemoveAbsent<V>(m: Entries<V>, k: string)
    requires !HasKey(m, k)
    ensures Remove(m, k) == m
  {
    if |m| > 0 {
      RemoveAbsent(m[1..], k);
    }
  }

  lemma {:induction false} RemoveUnique<V>(m: Entries<V>, k: string)
    requires Unique(m)
    ensures Unique(Remove(m, k))
  {
    if |m| > 0 {
      RemoveUnique(m[1..], k);
      var r := Remove(m[1..], k);
      if m[0].0 != k {
        forall i | 0 <= i < |r|
          ensures r[i].0 != m[0].0
        {
          assert r[i] in multiset(m[1..]);
          var j :| 0 <= j < |m[1..]| && m[1..][j] == r[i];
          assert m[j + 1] == r[i];
        }
      }
    }
  }

  /** Entries strictly ascending by key, as `ksort` leaves an array. */
  predicate StrictlySorted<V>(m: Entries<V>) {
    forall i, j :: 0 <= i < j < |m| ==> Strings.Less(m[i].0, m[j].0)
  }

  /** Keys strictly ascending excludes a repeated key. */
  lemma SortedIsUnique<V>(m: Entries<V>)
    requires StrictlySorted(m)
    ensures Unique(m)
  {
    forall i, j | 0 <= i < j < |m|
      ensures m[i].0 != m[j].0
    {
      Strings.LessIrreflexive(m[i].0);
    }
  }

  /** Insert one entry in front of the first entry whose key is not below its key. */
  function Insert<V>(e: (string, V), m: Entries<V>): Entries<V> {
    if |m| == 0 || !Strings.Less(m[0].0, e.0) then [e] + m
    else [m[0]] + Insert(e, m[1..])
  }

  /** `ksort($m, SORT_STRING)` as an insertion sort. */
  function Sort<V>(m: Entries<V>): Entries<V> {
    if |m| == 0 then [] else Insert(m[0], Sort(m[1..]))
  }

  lemma {:induction false} InsertPermutes<V>(e: (string, V), m: Entries<V>)
    ensures multiset(Insert(e, m)) == multiset(m) + multiset{e}
  {
    if |m| > 0 && Strings.Less(m[0].0, e.0) {
      InsertPermutes(e, m[1..]);
      assert m == [m[0]] + m[1..];
    }
  }

  lemma {:induction false} SortPermutes<V>(m: Entries<V>)
    ensures multiset(Sort(m)) == multiset(m)
  {
    if |m| > 0 {
      SortPermutes(m[1..]);
      InsertPermutes(m[0], Sort(m[1..]));
      assert m == [m[0]] + m[1..];
    }
  }

  lemma {:induction false} InsertSorted<V>(e: (string, V), m: Entries<V>)
    requires StrictlySorted(m)
    requires forall i :: 0 <= i < |m| ==> m[i].0 != e.0
    ensures StrictlySorted(Insert(e, m))
  {
    if |m| == 0 {
    } else if !Strings.Less(m[0].0, e.0) {
      Strings.LessTotal(m[0].0, e.0);
      forall j | 0 < j < |m|
        ensures Strings.Less(e.0, m[j].0)
      {
        Strings.LessTransitive(e.0, m[0].0, m[j].0);
      }
    } else {
      InsertSorted(e, m[1..]);
      var r := Insert(e, m[1..]);
      InsertPermutes(e, m[1..]);
      forall j | 0 <= j < |r|
        ensures Strings.Less(m[0].0, r[j].0)
      {
        assert r[j] in multiset(m[1..]) + multiset{e};
        if r[j] != e {
          assert r[j] in m[1..];
        }
      }
    }
  }

  /** `ksort` leaves the entries strictly ascending by key, holding the same
      entries as before. */
  lemma {:induction false} SortCorrect<V>(m: Entries<V>)
    requires Unique(m)
    ensures StrictlySorted(Sort(m))
    ensures multiset(Sort(m)) == multiset(m)
    ensures |Sort(m)| == |m|
  {
    SortPermutes(m);
    assert |multiset(Sort(m))| == |multiset(m)|;
    if |m| > 0 {
      SortCorrect(m[1..]);
      var s := Sort(m[1..]);
      forall i | 0 <= i < |s|
        ensures s[i].0 != m[0].0
      {
        assert s[i] in multiset(m[1..]);
        var j :| 0 <= j < |m[1..]| && m[1..][j] == s[i];
        assert m[j + 1] == s[i];
      }
      InsertSorted(m[0], s);
    }
  }

  /** Sorting an array whose keys are already ascending changes nothing. */
  lemma {:induction false} SortSorted<V>(m: Entries<V>)
    requires StrictlySorted(m)
    ensures Sort(m) == m
  {
    if |m| > 0 {
      SortSorted(m[1..]);
      if |m| > 1 {
        Strings.LessAsymmetric(m[0].0, m[1].0);
      }
      assert m == [m[0]] + m[1..];
    }
  }

  /** Lookups in the sorted array agree with lookups in the original. */
  lemma SortLookup<V>(m: Entries<V>, k: string)
    requires Unique(m)
    ensures Get(Sort(m), k) == Get(m, k)
  {
    SortCorrect(m);
    SortedIsUnique(Sort(m));
    SameEntriesSameLookup(Sort(m), m, k);
  }
}
