/**
 * The generic repository `Repository<T>`: one table of the store, held in
 * memory. `entries` maps each primary key to its entity, `keys` lists the keys
 * in ascending order, and `nextId` is the identity counter that generates the
 * keys of added entities. `GetAllAsync` is taken to return the rows in key
 * order, the order a scan of the clustered primary key gives; the query itself
 * asks for no order.
 */
module Repositories {
  import opened Common

  predicate Increasing(keys: seq<int>)
  {
    forall i, j :: 0 <= i < j < |keys| ==> keys[i] < keys[j]
  }

  /** The keys of `keys` other than `k`, in their order. */
  function Without(keys: seq<int>, k: int): (r: seq<int>)
    ensures forall x :: x in r <==> x in keys && x != k
  {
    if keys == [] then []
    else if keys[0] == k then Without(keys[1..], k)
    else [keys[0]] + Without(keys[1..], k)
  }

  /** Removing a key keeps the others in ascending order. */
  lemma {:induction false} WithoutIncreasing(keys: seq<int>, k: int)
    requires Increasing(keys)
    ensures Increasing(Without(keys, k))
  {
    if keys != [] {
      WithoutIncreasing(keys[1..], k);
      if keys[0] != k {
        var rest := Without(keys[1..], k);
        forall j | 0 <= j < |rest| ensures keys[0] < rest[j] {
          assert rest[j] in keys[1..];
        }
      }
    }
  }

  /** Removing a key that is not there changes nothing. */
  lemma {:induction false} WithoutAbsent(keys: seq<int>, k: int)
    requires k !in keys
    ensures Without(keys, k) == keys
  {
    if keys != [] {
      WithoutAbsent(keys[1..], k);
    }
  }

  /** The entities under `keys`, in the order of `keys`. */
  function InKeyOrder<T>(keys: seq<int>, entries: map<int, T>): (r: seq<T>)
    requires forall i :: 0 <= i < |keys| ==> keys[i] in entries
    ensures |r| == |keys|
    ensures forall i :: 0 <= i < |keys| ==> r[i] == entries[keys[i]]
  {
    if keys == [] then [] else [entries[keys[0]]] + InKeyOrder(keys[1..], entries)
  }

  /** A list of distinct keys has as many elements as its set of keys. */
  lemma {:induction false} IncreasingCardinality(keys: seq<int>)
    requires Increasing(keys)
    ensures |set k | k in keys| == |keys|
  {
    if keys != [] {
      IncreasingCardinality(keys[1..]);
      assert (set k | k in keys) == {keys[0]} + (set k | k in keys[1..]);
    }
  }

  class Repository<T(!new)> {
    /** The primary key of an entity, and the entity with its key replaced:
        what the ORM reads and writes back on the key property of `T`. */
    const keyOf: T -> int
    const withKey: (T, int) -> T

    var entries: map<int, T>
    var keys: seq<int>
    var nextId: int

    ghost predicate Valid()
      reads this
    {
      && (forall e, k :: keyOf(withKey(e, k)) == k)
      && (forall k :: k in entries ==> keyOf(entries[k]) == k)
      && Increasing(keys)
      && (forall k :: k in entries <==> k in keys)
      && (forall k :: k in entries ==> 0 < k < nextId)
      && 0 < nextId
    }

    /** An empty table whose first generated key is 1. */
    constructor (keyOf: T -> int, withKey: (T, int) -> T)
      requires forall e, k :: keyOf(withKey(e, k)) == k
      ensures Valid()
      ensures this.keyOf == keyOf && this.withKey == withKey
      ensures entries == map[] && keys == [] && nextId == 1
    {
      this.keyOf := keyOf;
      this.withKey := withKey;
      entries := map[];
      keys := [];
      nextId := 1;
    }

    /** `GetByIdAsync(id)` (`FindAsync`): the entity stored under `id`, or null. */
    function Find(id: int): (r: Option<T>)
      reads this
      requires Valid()
      ensures r.Some? <==> id in entries
      ensures r.Some? ==> r.value == entries[id] && keyOf(r.value) == id
    {
      if id in entries then Some(entries[id]) else None
    }

    /** `GetAllAsync()`: every stored entity, once; listed in ascending key
        order, the order taken for the unordered query. */
    function All(): (r: seq<T>)
      reads this
      requires Valid()
      ensures |r| == |entries|
      ensures forall i :: 0 <= i < |r| ==> keyOf(r[i]) in entries && entries[keyOf(r[i])] == r[i]
      ensures forall i, j :: 0 <= i < j < |r| ==> keyOf(r[i]) < keyOf(r[j])
    {
      AllFacts();
      InKeyOrder(keys, entries)
    }

    /** Every stored entity is listed by `All()`. */
    lemma AllHas(k: int)
      requires Valid() && k in entries
      ensures exists i :: 0 <= i < |All()| && All()[i] == entries[k]
    {
      AllFacts();
      var i :| 0 <= i < |keys| && keys[i] == k;
      assert All()[i] == entries[k];
    }

    lemma AllFacts()
      requires Valid()
      ensures forall i :: 0 <= i < |keys| ==> keys[i] in entries
      ensures |entries| == |keys|
      ensures forall k :: k in entries ==> exists i :: 0 <= i < |keys| && keys[i] == k
    {
      IncreasingCardinality(keys);
      assert forall k :: k in entries.Keys <==> k in keys;
      assert entries.Keys == set k | k in keys;
    }

    /** `AddAsync(entity)`: stores the entity under a freshly generated key and
        returns it with that key filled in. */
    method Add(entity: T) returns (saved: T)
      requires Valid()
      modifies this
      ensures Valid()
      ensures old(nextId) !in old(entries)
      ensures saved == withKey(entity, old(nextId)) && keyOf(saved) == old(nextId)
      ensures entries == old(entries)[old(nextId) := saved]
      ensures keys == old(keys) + [old(nextId)]
      ensures nextId == old(nextId) + 1
    {
      var id := nextId;
      assert forall i :: 0 <= i < |keys| ==> keys[i] in keys;
      assert forall i :: 0 <= i < |keys| ==> keys[i] in entries && keys[i] < id;
      saved := withKey(entity, id);
      entries := entries[id := saved];
      keys := keys + [id];
      nextId := nextId + 1;
    }

    /** `UpdateAsync(entity)`: overwrites the entry under the entity's key. For
        an entity whose key is not stored the model changes nothing and reports
        failure; the service never updates such an entity. */
    method Update(entity: T) returns (ok: bool)
      requires Valid()
      modifies this
      ensures Valid()
      ensures ok <==> keyOf(entity) in old(entries)
      ensures entries == if ok then old(entries)[keyOf(entity) := entity] else old(entries)
      ensures keys == old(keys) && nextId == old(nextId)
    {
      ok := keyOf(entity) in entries;
      if ok {
        entries := entries[keyOf(entity) := entity];
      }
    }

    /** `DeleteAsync(id)`: removes the entry under `id` if there is one, and is
        a no-op otherwise. */
    method Delete(id: int)
      requires Valid()
      modifies this
      ensures Valid()
      ensures entries == old(entries) - {id}
      ensures keys == Without(old(keys), id)
      ensures nextId == old(nextId)
    {
      if id in entries {
        WithoutIncreasing(keys, id);
        entries := entries - {id};
        keys := Without(keys, id);
      } else {
        WithoutAbsent(keys, id);
      }
    }
  }

  /** Deleting a key twice leaves the table as deleting it once does, and
      deleting a missing key leaves it as it was. */
  lemma {:induction false} DeleteIdempotent<T>(entries: map<int, T>, keys: seq<int>, id: int)
    requires forall k :: k in entries <==> k in keys
    ensures (entries - {id}) - {id} == entries - {id}
    ensures Without(Without(keys, id), id) == Without(keys, id)
    ensures id !in entries ==> entries - {id} == entries && Without(keys, id) == keys
  {
    WithoutAbsent(Without(keys, id), id);
    if id !in entries {
      WithoutAbsent(keys, id);
    }
  }
}
