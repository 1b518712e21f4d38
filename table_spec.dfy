/**
 * The abstract effect of the hash table operations of hashTable.c, on the
 * table viewed as TABLE_SIZE chains of records (head first).
 */
module TableSpec {
  import opened Wrappers
  import opened HashTableTypes
  import opened OneAtATime

  /** The buckets of a table, index by index; each chain is listed head first. */
  type Table = seq<seq<Record>>

  /** The bucket a key goes to. */
  function Index(key: seq<bv8>): (i: nat)
    ensures i < TABLE_SIZE
  {
    HashIndex(key) as int
  }

  /**
   * What holds of every record that `insert` links into bucket `i`: its
   * `hash` field is `i` (hashTable.c:38), and its name is a whole C string
   * whose own bucket is `i`.
   */
  predicate BelongsTo(r: Record, i: int)
  {
    r.hash as int == i && ValidName(r.name) && Index(r.name) == i
  }

  /** The table invariant: TABLE_SIZE buckets, each record in its own bucket. */
  predicate TableInvariant(t: Table)
  {
    |t| == TABLE_SIZE &&
    forall i, j :: 0 <= i < |t| && 0 <= j < |t[i]| ==> BelongsTo(t[i][j], i)
  }

  /** The table once every bucket is NULL. */
  function EmptyTable(): (t: Table)
    ensures TableInvariant(t)
    ensures forall i :: 0 <= i < |t| ==> t[i] == []
  {
    seq(TABLE_SIZE, _ => [])
  }

  /**
   * The position of the first record of `chain` named `key` (`strcmp(...) == 0`),
   * or `|chain|` if there is none.
   */
  function MatchIndex(chain: seq<Record>, key: seq<bv8>): (j: nat)
    ensures j <= |chain|
    ensures forall m :: 0 <= m < j ==> chain[m].name != key
    ensures j < |chain| ==> chain[j].name == key
  {
    if chain == [] then 0
    else if chain[0].name == key then 0
    else 1 + MatchIndex(chain[1..], key)
  }

  /** The record the search loop returns: the first one in the chain named `key`. */
  function FindFirst(chain: seq<Record>, key: seq<bv8>): Option<Record>
  {
    if chain == [] then None
    else if chain[0].name == key then Some(chain[0])
    else FindFirst(chain[1..], key)
  }

  /** The chain after the delete loop: the first record named `key` unlinked. */
  function RemoveFirst(chain: seq<Record>, key: seq<bv8>): seq<Record>
  {
    if chain == [] then []
    else if chain[0].name == key then chain[1..]
    else [chain[0]] + RemoveFirst(chain[1..], key)
  }

  /** `search(key)`: the first record named `key` in bucket `hash(key)`, or NULL. */
  function Lookup(t: Table, key: seq<bv8>): Option<Record>
    requires |t| == TABLE_SIZE
  {
    FindFirst(t[Index(key)], key)
  }

  /** `insert(key, salary)`: a new record pushed on the head of bucket `hash(key)`. */
  function Inserted(t: Table, key: seq<bv8>, salary: u32): Table
    requires |t| == TABLE_SIZE
  {
    t[Index(key) := [Record(HashIndex(key), key, salary)] + t[Index(key)]]
  }

  /** `delete(key)`: the first record named `key` unlinked from bucket `hash(key)`. */
  function Deleted(t: Table, key: seq<bv8>): Table
    requires |t| == TABLE_SIZE
  {
    t[Index(key) := RemoveFirst(t[Index(key)], key)]
  }

  // ---------------------------------------------------------------------------
  // The chain functions against the first-match position

  /** The search loop returns exactly the record at the first match, or NULL if none. */
  lemma {:induction false} FindFirstAtMatch(chain: seq<Record>, key: seq<bv8>)
    ensures MatchIndex(chain, key) < |chain| ==>
              FindFirst(chain, key) == Some(chain[MatchIndex(chain, key)])
    ensures MatchIndex(chain, key) == |chain| <==> FindFirst(chain, key) == None
  {
    if chain != [] && chain[0].name != key {
      FindFirstAtMatch(chain[1..], key);
    }
  }

  /**
   * Delete unlinks exactly the record at the first match and keeps the others
   * in order; with no match the chain is unchanged.
   */
  lemma {:induction false} RemoveFirstAtMatch(chain: seq<Record>, key: seq<bv8>)
    ensures var j := MatchIndex(chain, key);
      RemoveFirst(chain, key) == if j < |chain| then chain[..j] + chain[j + 1..] else chain
  {
    if chain != [] && chain[0].name != key {
      RemoveFirstAtMatch(chain[1..], key);
      var j := MatchIndex(chain[1..], key);
      if j < |chain| - 1 {
        assert chain[..j + 1] == [chain[0]] + chain[1..][..j];
        assert chain[j + 2..] == chain[1..][j + 1..];
      } else {
        assert chain == [chain[0]] + chain[1..];
      }
    }
  }

  /** Delete shortens the chain by one exactly when some record is named `key`. */
  lemma RemoveFirstLength(chain: seq<Record>, key: seq<bv8>)
    ensures FindFirst(chain, key).Some? ==> |RemoveFirst(chain, key)| == |chain| - 1
    ensures FindFirst(chain, key).None? ==> RemoveFirst(chain, key) == chain
  {
    FindFirstAtMatch(chain, key);
    RemoveFirstAtMatch(chain, key);
  }

  /** Unlinking a record named `key` leaves the first record of every other name in place. */
  lemma {:induction false} RemoveFirstKeepsOthers(chain: seq<Record>, key: seq<bv8>, other: seq<bv8>)
    requires other != key
    ensures FindFirst(RemoveFirst(chain, key), other) == FindFirst(chain, other)
  {
    if chain != [] && chain[0].name != key {
      RemoveFirstKeepsOthers(chain[1..], key, other);
      assert ([chain[0]] + RemoveFirst(chain[1..], key))[1..] == RemoveFirst(chain[1..], key);
    }
  }

  // ---------------------------------------------------------------------------
  // The table invariant

  /** `insert` keeps every record in its own bucket (hashTable.c:38-42). */
  lemma InsertPreservesInvariant(t: Table, key: seq<bv8>, salary: u32)
    requires TableInvariant(t) && ValidName(key)
    ensures TableInvariant(Inserted(t, key, salary))
  {
    var t' := Inserted(t, key, salary);
    forall i, j | 0 <= i < |t'| && 0 <= j < |t'[i]|
      ensures BelongsTo(t'[i][j], i)
    {
      if i == Index(key) && j > 0 {
        assert t'[i][j] == t[i][j - 1];
      }
    }
  }

  /** Unlinking a record keeps only records of the chain. */
  lemma {:induction false} RemoveFirstSubset(chain: seq<Record>, key: seq<bv8>)
    ensures forall r :: r in RemoveFirst(chain, key) ==> r in chain
  {
    if chain != [] && chain[0].name != key {
      RemoveFirstSubset(chain[1..], key);
    }
  }

  /** `delete` keeps every record in its own bucket (hashTable.c:56-71). */
  lemma DeletePreservesInvariant(t: Table, key: seq<bv8>)
    requires TableInvariant(t)
    ensures TableInvariant(Deleted(t, key))
  {
    var t' := Deleted(t, key);
    RemoveFirstSubset(t[Index(key)], key);
    forall i, j | 0 <= i < |t'| && 0 <= j < |t'[i]|
      ensures BelongsTo(t'[i][j], i)
    {
      if i == Index(key) {
        assert t'[i][j] in t[i];
      }
    }
  }

  // ---------------------------------------------------------------------------
  // Search after insert, delete and init

  /** Newest wins: after `insert(key, salary)` a search for `key` yields that salary. */
  lemma LookupAfterInsert(t: Table, key: seq<bv8>, salary: u32)
    requires |t| == TABLE_SIZE
    ensures Lookup(Inserted(t, key, salary), key) == Some(Record(HashIndex(key), key, salary))
  {
  }

  /** Inserting `key` does not change what a search for any other name yields. */
  lemma LookupOtherAfterInsert(t: Table, key: seq<bv8>, salary: u32, other: seq<bv8>)
    requires |t| == TABLE_SIZE && other != key
    ensures Lookup(Inserted(t, key, salary), other) == Lookup(t, other)
  {
    var t' := Inserted(t, key, salary);
    if Index(other) == Index(key) {
      assert t'[Index(other)][1..] == t[Index(other)];
    }
  }

  /** Deleting `key` does not change what a search for any other name yields. */
  lemma LookupOtherAfterDelete(t: Table, key: seq<bv8>, other: seq<bv8>)
    requires |t| == TABLE_SIZE && other != key
    ensures Lookup(Deleted(t, key), other) == Lookup(t, other)
  {
    if Index(other) == Index(key) {
      RemoveFirstKeepsOthers(t[Index(key)], key, other);
    }
  }

  /** `delete(key)` right after `insert(key, salary)` restores the table exactly. */
  lemma DeleteAfterInsert(t: Table, key: seq<bv8>, salary: u32)
    requires |t| == TABLE_SIZE
    ensures Deleted(Inserted(t, key, salary), key) == t
  {
    var t' := Inserted(t, key, salary);
    assert RemoveFirst(t'[Index(key)], key) == t[Index(key)];
  }

  /**
   * A repeat insert does not overwrite: deleting the newer record for `key`
   * uncovers the older one again.
   */
  lemma DeleteUncoversOlder(t: Table, key: seq<bv8>, older: u32, newer: u32)
    requires |t| == TABLE_SIZE
    ensures var t' := Inserted(Inserted(t, key, older), key, newer);
      Lookup(t', key) == Some(Record(HashIndex(key), key, newer)) &&
      Lookup(Deleted(t', key), key) == Some(Record(HashIndex(key), key, older))
  {
    var t1 := Inserted(t, key, older);
    LookupAfterInsert(t1, key, newer);
    DeleteAfterInsert(t1, key, newer);
    LookupAfterInsert(t, key, older);
  }

  /**
   * Under the invariant, a search finds nothing exactly when no bucket holds a
   * record of that name, and what it finds carries the name and its bucket index.
   */
  lemma LookupComplete(t: Table, key: seq<bv8>)
    requires TableInvariant(t)
    ensures Lookup(t, key).None? <==>
              forall i, j :: 0 <= i < |t| && 0 <= j < |t[i]| ==> t[i][j].name != key
    ensures Lookup(t, key).Some? ==>
              Lookup(t, key).value.name == key && Lookup(t, key).value.hash == HashIndex(key)
  {
    var chain := t[Index(key)];
    FindFirstAtMatch(chain, key);
    var m := MatchIndex(chain, key);
    if m < |chain| {
      assert BelongsTo(chain[m], Index(key));
    } else {
      forall i, j | 0 <= i < |t| && 0 <= j < |t[i]|
        ensures t[i][j].name != key
      {
        assert BelongsTo(t[i][j], i);
        if i == Index(key) {
          assert chain[j].name != key;
        }
      }
    }
  }

  /** Nothing is found in a table straight after init or free. */
  lemma LookupEmpty(key: seq<bv8>)
    ensures Lookup(EmptyTable(), key) == None
  {
  }
}
