/**
 * PHP arrays with string keys, as association lists in insertion order:
 * reading a key, and `$array[key] = value`, which overwrites in place.
 */
module Assoc {

  import opened Wrappers

  /** The value stored under `key`. */
  function Lookup<V>(named: seq<(string, V)>, key: string): Option<V> {
    if named == [] then None
    else if named[0].0 == key then Some(named[0].1)
    else Lookup(named[1..], key)
  }

  predicate HasKey<V>(named: seq<(string, V)>, key: string) {
    named != [] && (named[0].0 == key || HasKey(named[1..], key))
  }

  predicate UniqueKeys<V>(named: seq<(string, V)>) {
    named == [] || (!HasKey(named[1..], named[0].0) && UniqueKeys(named[1..]))
  }

  /** `$array[key] = value`: overwrite in place if the key is there, else append. */
  function Put<V>(named: seq<(string, V)>, key: string, value: V): (r: seq<(string, V)>)
    ensures forall k :: HasKey(r, k) <==> HasKey(named, k) || k == key
    ensures UniqueKeys(named) ==> UniqueKeys(r)
    ensures Lookup(r, key) == Some(value)
    ensures forall k :: k != key ==> Lookup(r, k) == Lookup(named, k)
    ensures !HasKey(named, key) ==> r == named + [(key, value)]
    ensures HasKey(named, key) ==> |r| == |named|
    ensures forall i :: 0 <= i < |named| ==> r[i].0 == named[i].0
  {
    if named == [] then [(key, value)]
    else if named[0].0 == key then [(key, value)] + named[1..]
    else [named[0]] + Put(named[1..], key, value)
  }

  /** A key is found exactly when it is present. */
  lemma {:induction false} LookupHasKey<V>(named: seq<(string, V)>, key: string)
    ensures Lookup(named, key).Some? <==> HasKey(named, key)
  {
    if named != [] && named[0].0 != key {
      LookupHasKey(named[1..], key);
    }
  }
}
