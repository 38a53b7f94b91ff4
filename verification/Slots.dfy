/** Fixed tables of keyed slots, in which one key value marks a free slot. */
module Slots {

  /** The first slot with this key, or the number of slots. */
  function IndexOf<K(==)>(keys: seq<K>, key: K): (i: nat)
    ensures i <= |keys|
    ensures i < |keys| ==> keys[i] == key
    ensures forall j :: 0 <= j < i ==> keys[j] != key
  {
    if keys == [] || keys[0] == key then 0 else 1 + IndexOf(keys[1..], key)
  }

  /** Where a key goes: to its own slot, or else to the first free one, or nowhere. */
  ghost predicate IsSlotFor<K>(keys: seq<K>, free: K, key: K, i: nat) {
    if key in keys then i < |keys| && keys[i] == key && forall j :: 0 <= j < i ==> keys[j] != key
    else if free in keys then i < |keys| && keys[i] == free && forall j :: 0 <= j < i ==> keys[j] != free
    else i == |keys|
  }

  function Taken<K>(keys: seq<K>, free: K): set<K> {
    set i | 0 <= i < |keys| && keys[i] != free :: keys[i]
  }

  function CountTaken<K(==)>(keys: seq<K>, free: K): (n: nat)
    ensures n <= |keys|
  {
    if keys == [] then 0 else (if keys[0] == free then 0 else 1) + CountTaken(keys[1..], free)
  }

  /** No key is in two slots. */
  ghost predicate Distinct<K>(keys: seq<K>, free: K) {
    forall i, j :: 0 <= i < j < |keys| && keys[i] != free ==> keys[i] != keys[j]
  }

  lemma {:induction false} CountIsCardinality<K>(keys: seq<K>, free: K)
    requires Distinct(keys, free)
    ensures |Taken(keys, free)| == CountTaken(keys, free)
    decreases |keys|
  {
    if keys != [] {
      var rest := keys[1..];
      assert forall i :: 0 <= i < |rest| ==> rest[i] == keys[i + 1];
      CountIsCardinality(rest, free);
      if keys[0] == free {
        assert Taken(keys, free) == Taken(rest, free) by {
          forall k | k in Taken(keys, free) ensures k in Taken(rest, free) {
            var i :| 0 <= i < |keys| && keys[i] != free && keys[i] == k;
            assert rest[i - 1] == k;
          }
        }
      } else {
        assert keys[0] !in Taken(rest, free);
        assert Taken(keys, free) == Taken(rest, free) + {keys[0]} by {
          forall k | k in Taken(keys, free) ensures k in Taken(rest, free) + {keys[0]} {
            var i :| 0 <= i < |keys| && keys[i] != free && keys[i] == k;
            assert i > 0 ==> rest[i - 1] == k;
          }
        }
      }
    }
  }

  /** There is a free slot exactly when fewer keys than slots are taken. */
  lemma {:induction false} FreeSlotIffBelowCapacity<K>(keys: seq<K>, free: K)
    ensures IndexOf(keys, free) < |keys| <==> CountTaken(keys, free) < |keys|
    decreases |keys|
  {
    if keys != [] {
      FreeSlotIffBelowCapacity(keys[1..], free);
    }
  }

  /** What one slot's change does to the keys taken. */
  lemma TakenAfterUpdate<K>(keys: seq<K>, free: K, i: nat, key: K)
    requires i < |keys| && Distinct(keys, free)
    requires keys[i] == free || keys[i] == key || key == free
    requires key != free ==> key !in keys || keys[i] == key
    ensures Distinct(keys[i := key], free)
    ensures Taken(keys[i := key], free) ==
            if key == free then Taken(keys, free) - {keys[i]} else Taken(keys, free) + {key}
  {
    var after := keys[i := key];
    forall k | k in Taken(keys, free) && (key == free ==> k != keys[i]) ensures k in Taken(after, free) {
      var j :| 0 <= j < |keys| && keys[j] != free && keys[j] == k;
      assert after[j] == k;
    }
    assert key != free ==> after[i] in Taken(after, free);
    forall k | k in Taken(after, free) && k != key ensures k in Taken(keys, free) {
      var j :| 0 <= j < |after| && after[j] != free && after[j] == k;
      assert keys[j] == k;
    }
  }

  /** A change of one slot does not move the other keys. */
  lemma IndexAfterUpdate<K>(keys: seq<K>, free: K, i: nat, key: K, k: K)
    requires i < |keys| && Distinct(keys, free) && Distinct(keys[i := key], free)
    requires k in Taken(keys, free) && k != keys[i] && k != key
    ensures IndexOf(keys[i := key], k) == IndexOf(keys, k)
  {
    var after := keys[i := key];
    var at := IndexOf(keys, k);
    assert after[at] == k;
    var at' := IndexOf(after, k);
    assert after[at'] == k && keys[at'] == k;
  }
}
