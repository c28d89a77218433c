/**
 A parsed JSON dictionary as JavaScript holds it: its own keys in enumeration
 order and the string value of each key. The operations are the ones sync.js
 applies to such objects: assignment `obj[k] = v`, the `reduce` that rebuilds
 an object key by key, the object spread `{...a, ...b}`, and the sort-by-reduce
 that rebuilds a dictionary with its keys in ascending order.
 */
module Dicts {
  import opened StringOrder

  datatype Dict = Dict(keys: seq<string>, values: map<string, string>)
  {
    /** Each key is enumerated exactly once, and exactly the keys that have a value are. */
    predicate Valid()
    {
      && Distinct(keys)
      && (forall k :: k in keys ==> k in values)
      && (forall k :: k in values ==> k in keys)
    }
  }

  /** The object literal `{}`. */
  const Empty: Dict := Dict([], map[])

  /** `d[k] = v`: a key already present keeps its place in the enumeration, a new one goes last. */
  function Put(d: Dict, k: string, v: string): (r: Dict)
    requires d.Valid()
    ensures r.Valid()
    ensures r.values == d.values[k := v]
    ensures k in d.values ==> r.keys == d.keys
    ensures k !in d.values ==> r.keys == d.keys + [k]
  {
    if k in d.values then Dict(d.keys, d.values[k := v])
    else
      DistinctAppend(d.keys, k);
      Dict(d.keys + [k], d.values[k := v])
  }

  /**
   Assigns `acc[k] = src[k]` for each `k` of `ks` in turn: the callback of a
   `reduce` over a key list, and also what an object spread does with the
   keys of one operand.
   */
  function PutEach(acc: Dict, ks: seq<string>, src: map<string, string>): (r: Dict)
    requires acc.Valid()
    requires forall k :: k in ks ==> k in src
    ensures r.Valid()
    ensures forall k :: k in r.values <==> k in acc.values || k in ks
    ensures forall k :: k in ks ==> r.values[k] == src[k]
    ensures forall k :: k in acc.values && k !in ks ==> r.values[k] == acc.values[k]
    decreases |ks|
  {
    if ks == [] then acc
    else
      var next := Put(acc, ks[0], src[ks[0]]);
      var rest := ks[1..];
      assert forall k :: k in ks <==> k == ks[0] || k in rest;
      PutEach(next, rest, src)
  }

  lemma AppendFirst(a: seq<string>, s: seq<string>)
    requires s != []
    ensures a + s == (a + [s[0]]) + s[1..]
  {
    assert s == [s[0]] + s[1..];
  }

  /** Keys that are new and distinct are enumerated after the existing ones, in the order assigned. */
  lemma {:induction false} PutEachAppends(acc: Dict, ks: seq<string>, src: map<string, string>)
    requires acc.Valid()
    requires forall k :: k in ks ==> k in src
    requires Distinct(ks) && forall k :: k in ks ==> k !in acc.values
    ensures PutEach(acc, ks, src).keys == acc.keys + ks
    decreases |ks|
  {
    if ks != [] {
      var next := Put(acc, ks[0], src[ks[0]]);
      assert next.keys == acc.keys + [ks[0]];
      assert forall k :: k in ks[1..] ==> k in ks;
      PutEachAppends(next, ks[1..], src);
      AppendFirst(acc.keys, ks);
    }
  }

  /** Assigning every key of `src`, and only those, into `{}` copies `src`'s entries. */
  lemma PutEachCopies(ks: seq<string>, src: map<string, string>)
    requires forall k :: k in ks ==> k in src
    requires forall k :: k in src ==> k in ks
    ensures PutEach(Empty, ks, src).values == src
  {
    var r := PutEach(Empty, ks, src);
    assert r.values.Keys == src.Keys;
  }

  /** Assigning every key of `src` over `acc` gives `src`'s values precedence. */
  lemma PutEachOverrides(acc: Dict, ks: seq<string>, src: map<string, string>)
    requires acc.Valid()
    requires forall k :: k in ks ==> k in src
    requires forall k :: k in src ==> k in ks
    ensures PutEach(acc, ks, src).values == acc.values + src
  {
    var r := PutEach(acc, ks, src);
    assert r.values.Keys == (acc.values + src).Keys;
  }

  /** The object spread `{...a, ...b}`: every key of either operand, `b`'s value winning on shared keys. */
  function Spread(a: Dict, b: Dict): (r: Dict)
    requires a.Valid() && b.Valid()
    ensures r.Valid()
    ensures r.values == a.values + b.values
  {
    var left := PutEach(Empty, a.keys, a.values);
    PutEachCopies(a.keys, a.values);
    PutEachOverrides(left, b.keys, b.values);
    PutEach(left, b.keys, b.values)
  }

  /**
   `Object.keys(d).sort().reduce((acc, key) => { acc[key] = d[key]; return acc; }, {})`:
   a fresh dictionary with the same keys and values, enumerated in ascending order.
   */
  function SortDict(d: Dict): (r: Dict)
    requires d.Valid()
    ensures r.Valid()
    ensures r.values == d.values
    ensures StrictlyAscending(r.keys)
    ensures forall k :: k in r.keys <==> k in d.keys
  {
    var ks := Sort(d.keys);
    SortedKeys(d.keys);
    PutEachAppends(Empty, ks, d.values);
    PutEachCopies(ks, d.values);
    PutEach(Empty, ks, d.values)
  }

  /** The sorted key list holds the same keys, once each, in ascending order. */
  lemma SortedKeys(keys: seq<string>)
    requires Distinct(keys)
    ensures StrictlyAscending(Sort(keys)) && Distinct(Sort(keys))
    ensures forall k :: k in Sort(keys) <==> k in keys
  {
    var ks := Sort(keys);
    SortAscending(keys);
    AscendingDistinct(ks);
    assert forall k :: k in ks <==> k in multiset(keys);
  }

  /** Sorting forgets the enumeration order: dictionaries with the same entries sort to the same result. */
  lemma SortDictCanonical(d1: Dict, d2: Dict)
    requires d1.Valid() && d2.Valid()
    requires d1.values == d2.values
    ensures SortDict(d1) == SortDict(d2)
  {
    AscendingUnique(SortDict(d1).keys, SortDict(d2).keys);
  }

  /** Sorting a sorted dictionary again changes nothing. */
  lemma SortDictIdempotent(d: Dict)
    requires d.Valid()
    ensures SortDict(SortDict(d)) == SortDict(d)
  {
    var s := SortDict(d);
    AscendingUnique(SortDict(s).keys, s.keys);
  }

  /** A dictionary whose keys are already ascending is rebuilt exactly as it was. */
  lemma SortDictOfSorted(d: Dict)
    requires d.Valid() && StrictlyAscending(d.keys)
    ensures SortDict(d) == d
  {
    AscendingUnique(SortDict(d).keys, d.keys);
  }
}
