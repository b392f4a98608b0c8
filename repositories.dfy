/**
 * The in-memory order repository (app/repositories/orders.py).
 *
 * The repository's dictionary is the map `db` from order id to order. A Python
 * dict also remembers the order in which its keys were first inserted, which
 * is the order `list` returns; `keys` records it. Overwriting an existing key
 * keeps its place, and removing a key drops it from the sequence.
 */
module Repositories {

  import opened Wrappers
  import opened Models

  /** No key occurs twice in ks. */
  ghost predicate Distinct(ks: seq<string>)
  {
    forall i, j :: 0 <= i < j < |ks| ==> ks[i] != ks[j]
  }

  /** In a sequence of distinct keys the first key does not occur again. */
  lemma HeadNotInTail(ks: seq<string>)
    requires Distinct(ks) && ks != []
    ensures Distinct(ks[1..]) && ks[0] !in ks[1..]
  {
    forall i | 0 <= i < |ks| - 1
      ensures ks[1..][i] != ks[0]
    {
      assert ks[1..][i] == ks[i + 1];
    }
  }

  /** Dropping position j of the tail is dropping position j + 1 of the whole. */
  lemma DropInTail(ks: seq<string>, j: int)
    requires 0 <= j < |ks| - 1
    ensures [ks[0]] + (ks[1..][..j] + ks[1..][j + 1..]) == ks[..j + 1] + ks[j + 2..]
  {
    assert ks[1..][..j] == ks[1..j + 1];
    assert ks[1..][j + 1..] == ks[j + 2..];
    assert [ks[0]] + ks[1..j + 1] == ks[..j + 1];
  }

  /**
   * ks with k removed, the other keys in their original order: the key
   * sequence a dict has after `pop(k)`.
   */
  function Without(ks: seq<string>, k: string): (r: seq<string>)
    ensures forall x :: x in r <==> x in ks && x != k
    ensures Distinct(ks) ==> Distinct(r)
    ensures k !in ks ==> r == ks
    ensures Distinct(ks) && k in ks ==>
      exists i :: 0 <= i < |ks| && ks[i] == k && r == ks[..i] + ks[i + 1..]
  {
    if ks == [] then []
    else
      var rest := Without(ks[1..], k);
      var r := if ks[0] == k then rest else [ks[0]] + rest;
      WithoutStep(ks, k, rest, r);
      r
  }

  /** One step of Without: its contract for ks follows from its contract for the tail. */
  lemma {:induction false} WithoutStep(ks: seq<string>, k: string, rest: seq<string>, r: seq<string>)
    requires ks != []
    requires forall x :: x in rest <==> x in ks[1..] && x != k
    requires Distinct(ks[1..]) ==> Distinct(rest)
    requires k !in ks[1..] ==> rest == ks[1..]
    requires Distinct(ks[1..]) && k in ks[1..] ==>
      exists i :: 0 <= i < |ks[1..]| && ks[1..][i] == k && rest == ks[1..][..i] + ks[1..][i + 1..]
    requires r == if ks[0] == k then rest else [ks[0]] + rest
    ensures forall x :: x in r <==> x in ks && x != k
    ensures Distinct(ks) ==> Distinct(r)
    ensures k !in ks ==> r == ks
    ensures Distinct(ks) && k in ks ==>
      exists i :: 0 <= i < |ks| && ks[i] == k && r == ks[..i] + ks[i + 1..]
  {
    assert ks == [ks[0]] + ks[1..];
    if Distinct(ks) {
      HeadNotInTail(ks);
      if ks[0] == k {
        assert r == ks[..0] + ks[0 + 1..];
      } else if k in ks {
        var j :| 0 <= j < |ks[1..]| && ks[1..][j] == k && rest == ks[1..][..j] + ks[1..][j + 1..];
        DropInTail(ks, j);
        assert ks[j + 1] == k;
      }
    }
  }

  /** The orders of db listed in the order of ks. */
  function ValuesInOrder(db: map<string, Order>, ks: seq<string>): (r: seq<Order>)
    requires forall k :: k in ks ==> k in db
    ensures |r| == |ks|
    ensures forall i :: 0 <= i < |ks| ==> r[i] == db[ks[i]]
  {
    if ks == [] then [] else [db[ks[0]]] + ValuesInOrder(db, ks[1..])
  }

  /** A sequence of distinct keys that lists exactly the keys of db is as long as db. */
  lemma {:induction false} KeysCount(db: map<string, Order>, ks: seq<string>)
    requires Distinct(ks)
    requires forall k :: k in db <==> k in ks
    ensures |db| == |ks|
  {
    if ks == [] {
      assert db.Keys == {};
    } else {
      var rest := db - {ks[0]};
      assert forall k :: k in rest <==> k in ks[1..] by {
        forall k ensures k in rest <==> k in ks[1..] {
          if k in ks[1..] {
            var i :| 0 <= i < |ks[1..]| && ks[1..][i] == k;
            assert ks[i + 1] == k;
          }
        }
      }
      KeysCount(rest, ks[1..]);
      assert db.Keys == rest.Keys + {ks[0]};
    }
  }

  class InMemoryOrderRepository {
    /** `_db`: the stored orders by id. */
    var db: map<string, Order>
    /** The keys of `db` in dict iteration (first insertion) order. */
    var keys: seq<string>

    ghost predicate Valid()
      reads this
    {
      Distinct(keys) && forall k :: k in db <==> k in keys
    }

    constructor ()
      ensures Valid()
      ensures db == map[] && keys == []
    {
      db := map[];
      keys := [];
    }

    /** Every stored order once, in insertion order of the ids. */
    method List() returns (r: seq<Order>)
      requires Valid()
      ensures |r| == |keys| == |db|
      ensures forall i :: 0 <= i < |r| ==> r[i] == db[keys[i]]
      ensures forall k :: k in db ==> db[k] in r
    {
      r := ValuesInOrder(db, keys);
      KeysCount(db, keys);
      forall k | k in db
        ensures db[k] in r
      {
        var i :| 0 <= i < |keys| && keys[i] == k;
        assert r[i] == db[k];
      }
    }

    /** The order stored under id, or None when there is none. */
    method Get(id: string) returns (r: Option<Order>)
      ensures r.Some? <==> id in db
      ensures r.Some? ==> r.value == db[id]
    {
      r := if id in db then Some(db[id]) else None;
    }

    /** Store order under its own id, replacing any order already there. */
    method Create(order: Order) returns (r: Order)
      requires Valid()
      modifies this
      ensures Valid()
      ensures r == order
      ensures db == old(db)[order.id := order]
      ensures keys == if order.id in old(db) then old(keys) else old(keys) + [order.id]
    {
      if order.id !in keys {
        keys := keys + [order.id];
      }
      db := db[order.id := order];
      r := order;
    }

    /** Replace the order stored under id; an unknown id changes nothing. */
    method Update(id: string, order: Order) returns (r: Option<Order>)
      requires Valid()
      modifies this
      ensures Valid()
      ensures keys == old(keys)
      ensures id !in old(db) ==> r == None && db == old(db)
      ensures id in old(db) ==> r == Some(order) && db == old(db)[id := order]
    {
      if id !in db {
        return None;
      }
      db := db[id := order];
      r := Some(order);
    }

    /** Remove the order stored under id, reporting whether there was one. */
    method Delete(id: string) returns (existed: bool)
      requires Valid()
      modifies this
      ensures Valid()
      ensures existed <==> id in old(db)
      ensures db == old(db) - {id}
      ensures keys == Without(old(keys), id)
    {
      existed := id in db;
      db := db - {id};
      keys := Without(keys, id);
    }
  }

  /** An order is visible to `get` right after `create`. */
  method CreateThenGet(repo: InMemoryOrderRepository, order: Order) returns (found: Option<Order>)
    requires repo.Valid()
    modifies repo
    ensures found == Some(order)
    ensures repo.db == old(repo.db)[order.id := order]
  {
    var _ := repo.Create(order);
    found := repo.Get(order.id);
  }

  /** Deleting twice: the second delete reports that nothing was there. */
  method DeleteTwice(repo: InMemoryOrderRepository, id: string) returns (first: bool, second: bool)
    requires repo.Valid()
    modifies repo
    ensures first <==> id in old(repo.db)
    ensures !second
    ensures repo.db == old(repo.db) - {id}
  {
    first := repo.Delete(id);
    second := repo.Delete(id);
  }

  /** `update` of an unknown id inserts nothing. */
  method UpdateUnknown(repo: InMemoryOrderRepository, id: string, order: Order) returns (r: Option<Order>, after: Option<Order>)
    requires repo.Valid() && id !in repo.db
    modifies repo
    ensures r == None && after == None
    ensures repo.db == old(repo.db)
  {
    r := repo.Update(id, order);
    after := repo.Get(id);
  }
}
