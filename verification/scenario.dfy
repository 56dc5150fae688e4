/**
 * A client of the hash table: two keys that collide in a table of five
 * slots, looked up and removed one after the other. The load limit 1
 * keeps the table from growing.
 */
module Scenario {
  import opened Chains
  import opened HashtableImplementation

  /** `hashCode()` of a small integer key: the key itself. */
  function IntHash(k: int): int32 {
    if -0x8000_0000 <= k < 0x8000_0000 then k as int32 else 0
  }

  /** Keys 3 and 8 share slot 3 of a five-slot table. */
  lemma Collide()
    ensures Slot(IntHash(3), 5) == Slot(IntHash(8), 5) == 3
  {
  }

  /** A table of five slots holding the colliding keys 3 and 8. */
  method CollidingTable() returns (t: Hashtable<int, string>)
    ensures fresh(t) && fresh(t.table) && t.Valid()
    ensures t.contents == map[3 := "three", 8 := "eight"]
  {
    t := new Hashtable<int, string>(5, 1, 1, IntHash);
    Collide();
    t.Put(3, "three");
    t.Put(8, "eight");
  }

  method CollidingLookups() {
    var t := CollidingTable();
    var a := t.Get(3);
    var b := t.Get(8);
    assert a == Some("three") && b == Some("eight");
    t.Put(8, "EIGHT");
    b := t.Get(8);
    assert b == Some("EIGHT") && t.Size() == 2;
  }

  method CollidingRemovals() {
    var t := CollidingTable();
    var r := t.Remove(3);
    assert r == Some("three");
    var c := t.ContainsKey(3);
    assert !c;
    r := t.Remove(8);
    assert r == Some("eight") && t.Size() == 0;
    r := t.Remove(8);
    assert r == None && t.Size() == 0;
  }
}
