/** Keys of the version counters: the type and id of an entity, joined by a NUL
    (the digest taken of the result is assumed free of collisions). */
module VersionKeys {

  type Key = string

  function EntityKey(auditableType: string, auditableID: string): Key {
    auditableType + "\0" + auditableID
  }

  /** Entities share a counter only if they are the same, as long as type names
      contain no NUL. */
  lemma KeysAreInjective(t1: string, id1: string, t2: string, id2: string)
    requires '\0' !in t1 && '\0' !in t2
    requires EntityKey(t1, id1) == EntityKey(t2, id2)
    ensures t1 == t2 && id1 == id2
  {
    var key := EntityKey(t1, id1);
    assert forall i :: 0 <= i < |t1| ==> key[i] == t1[i] && t1[i] != '\0';
    assert forall i :: 0 <= i < |t2| ==> key[i] == t2[i] && t2[i] != '\0';
    assert key[|t1|] == '\0' && key[|t2|] == '\0';
    assert |t1| == |t2|;
    assert t1 == key[..|t1|] && t2 == key[..|t2|];
    assert id1 == key[|t1| + 1..] && id2 == key[|t2| + 1..];
  }
}
