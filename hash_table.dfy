/**
 * The `HashTable` struct of hashTable.h and the operations of hashTable.c on
 * it. The bucket array is updated in place; each bucket's singly-linked
 * chain is held as a sequence of records, head first. The read/write lock
 * calls around each operation are balanced on every path and have no effect
 * on a single thread, so only the locks' life cycle is kept.
 */
module HashTables {
  import opened Wrappers
  import opened HashTableTypes
  import opened OneAtATime
  import opened TableSpec

  class HashTable {
    /** `hashRecord *buckets[TABLE_SIZE]`: each entry is the chain from that head pointer. */
    const buckets: array<seq<Record>>
    /** `pthread_rwlock_t locks[TABLE_SIZE]`: one lock per bucket. */
    const locks: array<LockState>

    /** The struct's fixed shape. */
    predicate Shape()
    {
      buckets.Length == TABLE_SIZE && locks.Length == TABLE_SIZE
    }

    /** The object invariant: the shape, and every record in its own bucket. */
    ghost predicate Valid()
      reads buckets
    {
      Shape() && TableInvariant(buckets[..])
    }

    /** Every lock has been initialised and not destroyed. */
    predicate Ready()
      reads locks
    {
      Shape() && forall i :: 0 <= i < locks.Length ==> locks[i] == Initialized
    }

    /** Storage for a table, its contents not yet initialised (as the C struct before `init_table`). */
    constructor ()
      ensures Shape() && fresh(buckets) && fresh(locks)
    {
      buckets := new seq<Record>[TABLE_SIZE];
      locks := new LockState[TABLE_SIZE];
    }

    /** `init_table`: every bucket NULL, every lock initialised. */
    method Init()
      requires Shape()
      modifies buckets, locks
      ensures Valid() && Ready()
      ensures buckets[..] == EmptyTable()
    {
      var i := 0;
      while i < TABLE_SIZE
        invariant 0 <= i <= TABLE_SIZE
        invariant forall j :: 0 <= j < i ==> buckets[j] == [] && locks[j] == Initialized
      {
        buckets[i] := [];
        locks[i] := Initialized;
        i := i + 1;
      }
      assert buckets[..] == EmptyTable();
    }

    /**
     * `insert`: a fresh record `{hash(key), key, salary}` becomes the head of
     * bucket `hash(key)`, in front of the old chain, without looking for an
     * earlier record of the same name. If the allocation fails (`allocOk` is
     * false) nothing changes. `strncpy(name, key, 50)` copies the whole key
     * and its terminator because the key has at most 49 bytes.
     */
    method Insert(key: seq<bv8>, salary: u32, allocOk: bool)
      requires Valid() && Ready() && ValidName(key)
      modifies buckets
      ensures Valid() && Ready()
      ensures allocOk ==> buckets[..] == Inserted(old(buckets[..]), key, salary)
      ensures allocOk ==>
        buckets[Index(key)] == [Record(HashIndex(key), key, salary)] + old(buckets[Index(key)])
      ensures allocOk ==> |buckets[Index(key)]| == |old(buckets[Index(key)])| + 1
      ensures forall i :: 0 <= i < TABLE_SIZE && i != Index(key) ==> buckets[i] == old(buckets[i])
      ensures !allocOk ==> buckets[..] == old(buckets[..])
    {
      var index := JenkinsOneAtATimeHash(key);
      CStringOfNoNul(key);
      if !allocOk {
        return;
      }
      var newRecord := Record(index, key, salary);
      buckets[index] := [newRecord] + buckets[index];
      InsertPreservesInvariant(old(buckets[..]), key, salary);
    }

    /**
     * `delete`: walks bucket `hash(key)` with `prev`/`current` and unlinks the
     * first record named `key`, either from the head (`prev == NULL`) or
     * from its predecessor; with no such record nothing changes.
     */
    method Delete(key: seq<bv8>)
      requires Valid() && Ready() && NoNul(key)
      modifies buckets
      ensures Valid() && Ready()
      ensures buckets[..] == Deleted(old(buckets[..]), key)
      ensures forall i :: 0 <= i < TABLE_SIZE && i != Index(key) ==> buckets[i] == old(buckets[i])
    {
      var index := JenkinsOneAtATimeHash(key);
      CStringOfNoNul(key);
      var chain := buckets[index];
      RemoveFirstAtMatch(chain, key);
      DeletePreservesInvariant(buckets[..], key);
      // `current` is chain[j]; `prev` is chain[j - 1] when j > 0
      var j := 0;
      while j < |chain|
        invariant 0 <= j <= |chain|
        invariant forall m :: 0 <= m < j ==> chain[m].name != key
        invariant buckets[..] == old(buckets[..])
      {
        if chain[j].name == key {
          assert MatchIndex(chain, key) == j;
          if j > 0 {
            buckets[index] := chain[..j] + chain[j + 1..];
          } else {
            buckets[index] := chain[1..];
          }
          return;
        }
        j := j + 1;
      }
      assert MatchIndex(chain, key) == |chain|;
    }

    /**
     * `search`: walks bucket `hash(key)` and returns (a copy of) the first
     * record named `key`, or `None` for NULL. The table is not changed.
     */
    method Search(key: seq<bv8>) returns (r: Option<Record>)
      requires Valid() && Ready() && NoNul(key)
      ensures r == Lookup(buckets[..], key)
      ensures r.Some? ==> r.value.name == key && r.value.hash == HashIndex(key)
      ensures r.None? <==>
        forall i, j :: 0 <= i < TABLE_SIZE && 0 <= j < |buckets[i]| ==> buckets[i][j].name != key
    {
      var index := JenkinsOneAtATimeHash(key);
      CStringOfNoNul(key);
      LookupComplete(buckets[..], key);
      var current := buckets[index];
      while current != []
        invariant FindFirst(current, key) == FindFirst(buckets[index], key)
      {
        if current[0].name == key {
          return Some(current[0]);
        }
        current := current[1..];
      }
      return None;
    }

    /** `free_table`: every chain dropped, every bucket NULL, every lock destroyed. */
    method FreeTable()
      requires Valid() && Ready()
      modifies buckets, locks
      ensures Valid()
      ensures buckets[..] == EmptyTable()
      ensures forall i :: 0 <= i < TABLE_SIZE ==> locks[i] == Destroyed
    {
      var i := 0;
      while i < TABLE_SIZE
        invariant 0 <= i <= TABLE_SIZE
        invariant forall j :: 0 <= j < i ==> buckets[j] == [] && locks[j] == Destroyed
      {
        buckets[i] := [];
        locks[i] := Destroyed;
        i := i + 1;
      }
      assert buckets[..] == EmptyTable();
    }
  }
}
