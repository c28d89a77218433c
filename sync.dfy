/**
 One step of the locale loop of sync.js: the source dictionary `en_US.json`
 is rebuilt with its keys in ascending order; then a target dictionary that
 exists is merged with it (the target's own entries win, source keys the
 target lacks are copied with the " (EN)" marker, and the result is re-sorted),
 while a target that does not exist is created from the source with every
 value marked.
 */
module Sync {
  import opened StringOrder
  import opened Dicts

  datatype Option<T> = None | Some(value: T)

  /** The marker appended to a source value copied into a target, space included. */
  const EnTag: string := " (EN)"

  /** The template literal `${v} (EN)`: the value, then the marker, from which the value can be read back. */
  function Tagged(v: string): (r: string)
    ensures |r| == |v| + |EnTag| && r[..|v|] == v && r[|v|..] == EnTag
  {
    v + EnTag
  }

  /**
   What the update of an existing target promises of the dictionary `r` it
   writes: ascending keys; the keys of the source and of the target, none
   dropped; the target's values untouched; the source's value, marked, for
   every key the target lacks.
   */
  ghost predicate IsMerged(original: Dict, target: Dict, r: Dict)
  {
    && r.Valid()
    && StrictlyAscending(r.keys)
    && (forall k :: k in r.values <==> k in original.values || k in target.values)
    && (forall k :: k in target.values ==> k in r.values && r.values[k] == target.values[k])
    && (forall k :: k in original.values && k !in target.values ==>
          k in r.values && r.values[k] == Tagged(original.values[k]))
  }

  /**
   What the creation of a missing target promises of the dictionary `r` it
   writes: the source's keys in the source's order, each with the source's
   value marked.
   */
  ghost predicate IsCreated(original: Dict, r: Dict)
  {
    && r.Valid()
    && r.keys == original.keys
    && (forall k :: k in r.values <==> k in original.values)
    && (forall k :: k in original.values ==> r.values[k] == Tagged(original.values[k]))
  }

  /**
   The values after the walk over the source's keys (lines 32-36) has visited
   the first `n` of them, starting from the values `base`.
   */
  ghost function MarkWalk(base: map<string, string>, original: Dict, target: Dict, n: nat): (m: map<string, string>)
    requires original.Valid() && n <= |original.keys|
    ensures forall k :: k in base ==> k in m
  {
    if n == 0 then base
    else
      var key := original.keys[n - 1];
      var prev := MarkWalk(base, original, target, n - 1);
      if key in target.values then prev else prev[key := Tagged(original.values[key])]
  }

  /** After visiting `n` source keys, the keys present are those of `base` and the visited ones the target lacks. */
  lemma {:induction false} MarkWalkDomain(base: map<string, string>, original: Dict, target: Dict, n: nat)
    requires original.Valid() && n <= |original.keys|
    ensures forall k :: k in MarkWalk(base, original, target, n) <==>
      k in base || (k in original.keys[..n] && k !in target.values)
  {
    if n > 0 {
      MarkWalkDomain(base, original, target, n - 1);
      TakeOneMore(original.keys, n - 1);
    }
  }

  /** After visiting `n` source keys, each of them the target lacks carries its marked source value. */
  lemma {:induction false} MarkWalkTagged(base: map<string, string>, original: Dict, target: Dict, n: nat)
    requires original.Valid() && n <= |original.keys|
    ensures forall k :: k in original.keys[..n] && k !in target.values ==>
      k in MarkWalk(base, original, target, n) && MarkWalk(base, original, target, n)[k] == Tagged(original.values[k])
  {
    if n > 0 {
      MarkWalkTagged(base, original, target, n - 1);
      TakeOneMore(original.keys, n - 1);
    }
  }

  /** After visiting `n` source keys, every other key of `base` keeps its value. */
  lemma {:induction false} MarkWalkUntouched(base: map<string, string>, original: Dict, target: Dict, n: nat)
    requires original.Valid() && n <= |original.keys|
    ensures forall k :: k in base && !(k in original.keys[..n] && k !in target.values) ==>
      k in MarkWalk(base, original, target, n) && MarkWalk(base, original, target, n)[k] == base[k]
  {
    if n > 0 {
      MarkWalkUntouched(base, original, target, n - 1);
      TakeOneMore(original.keys, n - 1);
    }
  }

  /**
   Lines 32-36: walk the source's keys and overwrite, in `merged`, each one
   the target does not own with the marked source value. Only keys already
   present are written, so the key order stays as it was.
   */
  method TagMissing(merged: Dict, original: Dict, target: Dict) returns (result: Dict)
    requires merged.Valid() && original.Valid()
    requires forall k :: k in original.values ==> k in merged.values
    ensures result.Valid() && result.keys == merged.keys
    ensures forall k :: k in result.values <==> k in merged.values
    ensures forall k :: k in result.values ==>
              result.values[k] == (if k in original.values && k !in target.values
                                   then Tagged(original.values[k]) else merged.values[k])
  {
    result := merged;
    var i := 0;
    while i < |original.keys|
      invariant 0 <= i <= |original.keys|
      invariant result.Valid() && result.keys == merged.keys
      invariant result.values == MarkWalk(merged.values, original, target, i)
    {
      var key := original.keys[i];
      if key !in target.values {
        result := Put(result, key, Tagged(original.values[key]));
      }
      i := i + 1;
    }
    MarkWalkDomain(merged.values, original, target, i);
    MarkWalkTagged(merged.values, original, target, i);
    MarkWalkUntouched(merged.values, original, target, i);
    assert original.keys[..i] == original.keys;
  }

  /**
   Lines 25-36: spread the source and then the target into a fresh object,
   rebuild it with sorted keys, then mark the source keys the target lacks.
   */
  method MergeTarget(original: Dict, target: Dict) returns (result: Dict)
    requires original.Valid() && target.Valid()
    ensures IsMerged(original, target, result)
  {
    var merged := Spread(original, target);
    var sortedMerged := SortDict(merged);
    result := TagMissing(sortedMerged, original, target);
  }

  /** Lines 44-47: assign the marked source value to each source key of a fresh object, in the source's key order. */
  method DefaultTarget(original: Dict) returns (result: Dict)
    requires original.Valid()
    ensures IsCreated(original, result)
  {
    result := Empty;
    var i := 0;
    while i < |original.keys|
      invariant 0 <= i <= |original.keys|
      invariant result.Valid() && result.keys == original.keys[..i]
      invariant forall k :: k in result.values <==> k in original.keys[..i]
      invariant forall k :: k in result.values ==> result.values[k] == Tagged(original.values[k])
    {
      var key := original.keys[i];
      DistinctNotBefore(original.keys, i);
      result := Put(result, key, Tagged(original.values[key]));
      TakeOneMore(original.keys, i);
      i := i + 1;
    }
    assert original.keys[..i] == original.keys;
  }

  /**
   Lines 10-53 for a single target locale: the source is rebuilt with sorted
   keys (the dictionary line 57 writes back), and the target is updated when
   `existing` holds its parsed content or created when it is `None`.
   */
  method SyncLocale(source: Dict, existing: Option<Dict>) returns (sorted: Dict, written: Dict)
    requires source.Valid()
    requires existing.Some? ==> existing.value.Valid()
    ensures sorted.Valid() && StrictlyAscending(sorted.keys) && sorted.values == source.values
    ensures IsMerged(sorted, if existing.Some? then existing.value else Empty, written)
    ensures existing.None? ==> IsCreated(sorted, written)
  {
    sorted := SortDict(source);
    if existing.Some? {
      written := MergeTarget(sorted, existing.value);
    } else {
      written := DefaultTarget(sorted);
      CreatedIffMergedIntoEmpty(sorted, written);
    }
  }

  /** The update's contract fixes the written dictionary completely. */
  lemma MergedUnique(original: Dict, target: Dict, r1: Dict, r2: Dict)
    requires IsMerged(original, target, r1) && IsMerged(original, target, r2)
    ensures r1 == r2
  {
    AscendingUnique(r1.keys, r2.keys);
    assert r1.values == r2.values;
  }

  /**
   Updating a target a second time with the same source changes nothing:
   every source key is now present, so nothing is marked again and no value
   gets a second marker.
   */
  lemma MergeIdempotent(original: Dict, target: Dict, r: Dict, again: Dict)
    requires IsMerged(original, target, r)
    requires IsMerged(original, r, again)
    ensures again == r
  {
    assert IsMerged(original, r, r);
    MergedUnique(original, r, r, again);
  }

  /**
   For a source whose keys are already ascending, creating a missing target
   writes exactly what updating an empty target would.
   */
  lemma CreatedIffMergedIntoEmpty(original: Dict, r: Dict)
    requires original.Valid() && StrictlyAscending(original.keys)
    ensures IsCreated(original, r) <==> IsMerged(original, Empty, r)
  {
    if IsMerged(original, Empty, r) {
      AscendingUnique(r.keys, original.keys);
    }
  }

  /** The dictionary of the example below satisfies the update's contract. */
  lemma TargetOnlyKeyExample()
    ensures IsMerged(Dict(["a", "b"], map["a" := "X", "b" := "Y"]),
                     Dict(["c", "a"], map["c" := "Cz", "a" := "Ax"]),
                     Dict(["a", "b", "c"], map["a" := "Ax", "b" := "Y (EN)", "c" := "Cz"]))
  {
    var keys := ["a", "b", "c"];
    assert Less("a", "b") && Less("b", "c") && Less("a", "c");
    assert StrictlyAscending(keys);
    AscendingDistinct(keys);
  }

  /**
   An update keeps a key the source does not have: with source
   {"a": "X", "b": "Y"} and target {"c": "Cz", "a": "Ax"}, the file written is
   {"a": "Ax", "b": "Y (EN)", "c": "Cz"}.
   */
  lemma TargetOnlyKeyKept(r: Dict)
    requires IsMerged(Dict(["a", "b"], map["a" := "X", "b" := "Y"]),
                      Dict(["c", "a"], map["c" := "Cz", "a" := "Ax"]), r)
    ensures r == Dict(["a", "b", "c"], map["a" := "Ax", "b" := "Y (EN)", "c" := "Cz"])
  {
    TargetOnlyKeyExample();
    MergedUnique(Dict(["a", "b"], map["a" := "X", "b" := "Y"]),
                 Dict(["c", "a"], map["c" := "Cz", "a" := "Ax"]),
                 r, Dict(["a", "b", "c"], map["a" := "Ax", "b" := "Y (EN)", "c" := "Cz"]));
  }
}
