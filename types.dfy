/**
 * The declarations of hashTable.h: the table size, the record layout and
 * the per-bucket lock array of the `HashTable` struct.
 */
module HashTableTypes {

  /** `#define TABLE_SIZE 100`: the number of buckets and of locks. */
  const TABLE_SIZE: nat := 100

  /** `char name[50]`: the name buffer of a record, terminator included. */
  const NAME_SIZE: nat := 50

  /** The longest name that fits in the buffer together with its terminator. */
  const MAX_NAME_LEN: nat := NAME_SIZE - 1

  /** The C string terminator. */
  const NUL: bv8 := 0

  /** `uint32_t`: the type of the `hash` and `salary` fields. */
  newtype u32 = x: int | 0 <= x < 0x1_0000_0000

  /**
   * `hashRecord` without its `next` link: a bucket's chain of records is a
   * sequence, head first, so each node has exactly one successor and the
   * last one none.
   */
  datatype Record = Record(hash: u32, name: seq<bv8>, salary: u32)

  /** The bytes of a C string before its terminator contain no NUL. */
  predicate NoNul(s: seq<bv8>)
  {
    forall i :: 0 <= i < |s| ==> s[i] != NUL
  }

  /** A name that `strncpy(name, key, 50)` copies whole, terminator included. */
  predicate ValidName(s: seq<bv8>)
  {
    |s| <= MAX_NAME_LEN && NoNul(s)
  }

  /**
   * The life cycle of one `pthread_rwlock_t` of the `locks` array: created by
   * `pthread_rwlock_init`, ended by `pthread_rwlock_destroy`. Acquiring and
   * releasing are balanced within every operation, so in a sequential model
   * they leave this state as it was.
   */
  datatype LockState = Uninitialized | Initialized | Destroyed
}
