# A Dafny model of a bucketed name-to-salary hash table and its command reader

This project models the core of a small C program that keeps employee
records (name, salary) in a hash table of 100 buckets, and the reader that
turns command lines (`insert,<name>,<salary>`, `delete,<name>`,
`search,<name>`, `print`) into a command list.

- `types.dfy` (module `HashTableTypes`): the declarations of `hashTable.h`:
  `TABLE_SIZE = 100`, the 50-byte name buffer, `uint32_t` as the newtype `u32`,
  the record type, and the life cycle of the per-bucket read/write locks.
- `hash.dfy` (module `OneAtATime`): Bob Jenkins' one-at-a-time hash in wrapping
  32-bit arithmetic (`bv32`) over the unsigned bytes of a C string, reduced
  modulo the table size. `JenkinsOneAtATimeHash` runs the loop of the source
  over a byte buffer and stops at the first NUL. It is proved equal to the
  functional definition `HashIndex(CString(key))`.
- `table_spec.dfy` (module `TableSpec`): the abstract effect of each table
  operation on the table seen as 100 chains of records, head first.
  `Inserted` prepends a record. `Deleted` unlinks the first record with the
  name. `Lookup` finds the first record with the name. The lemmas state what
  these operations promise: the per-bucket invariant, newest-wins lookup,
  the exact insert-then-delete round trip, and that other names are not
  affected.
- `hash_table.dfy` (module `HashTables`): the `HashTable` struct as a class.
  Its bucket array is updated in place. `Init`, `Insert`, `Delete`, `Search`
  and `FreeTable` follow `init_table`, `insert`, `delete`, `search` and
  `free_table`, with the same loops except the inner node-freeing loop of
  `free_table`. Each is proved against the functions of `TableSpec`.
- `commands.dfy` (module `CommandParser`): `parse_command` of `test.c` on the
  global `commands` array and `command_count`. It also models the read loop
  that passes only lines longer than one byte. Lines are proved to parse back
  to the commands they were written from.
- `wrappers.dfy`: the `Option` type. `None` stands for a NULL record pointer.

The table is 100 singly linked chains, one per bucket, each kept in
insertion order with the newest record at the head; nothing is sorted.
Records are matched by name (`strcmp`), not by their stored hash. Inserting
a name that is already present does not overwrite: it adds a second record
in front of the first, which a later search finds first and a later delete
removes first. Each bucket has its own read/write lock.

`hashTable.c` uses `HASH_TABLE_SIZE`, which no file defines. The model takes
it to be `TABLE_SIZE`, which is 100.

## Model

| member | source | states |
|---|---|---|
| `OneAtATime.Step` | hashTable.c:16-18 | one round of the byte loop: add the unsigned byte, then `h += h << 10` and `h ^= h >> 6`, all wrapping at 32 bits; `MixExtend` ties it to the loop |
| `OneAtATime.Mix` | hashTable.c:14-20 | the running hash after the loop has consumed the bytes of a key, starting from 0; `JenkinsOneAtATimeHash` keeps it as its loop invariant |
| `OneAtATime.Finish` | hashTable.c:21-23 | the three finalising rounds `h += h << 3`, `h ^= h >> 11`, `h += h << 15`, wrapping at 32 bits |
| `OneAtATime.Digest` | hashTable.c:14-23 | the full 32-bit digest before the modulo; `DigestOfA` pins it to the published value for "a" |
| `OneAtATime.HashIndex` | hashTable.c:21-24 | the bucket index of a key is always below TABLE_SIZE |
| `OneAtATime.CString` | hashTable.c:15 | the string the hash loop reads is the NUL-free prefix of the buffer that ends at the first NUL or at the buffer's end |
| `OneAtATime.CStringAt` | hashTable.c:15-19 | a prefix with no NUL that stops at a NUL or at the end is exactly that string |
| `OneAtATime.CStringOfNoNul` | hashTable.c:15 | a key with no NUL is read whole |
| `OneAtATime.HashIgnoresTail` | hashTable.c:15-19 | bytes after the terminator do not affect the hash |
| `OneAtATime.MixExtend` | hashTable.c:15-20 | consuming one more byte is one more add/shift/xor round over the previous hash |
| `OneAtATime.DigestOfA` | hashTable.c:13-24 | the 32-bit digest of "a" is the published one-at-a-time value 0xca2e9442, so its bucket is 42 |
| `OneAtATime.JenkinsOneAtATimeHash` | hashTable.c:13-25 | the loop's result equals the functional hash of the C string in the buffer, and is below TABLE_SIZE |
| `TableSpec.Index` | hashTable.c:28 | every key's bucket is a valid index into the 100 buckets |
| `TableSpec.EmptyTable` | hashTable.c:6-10 | the all-NULL table has TABLE_SIZE empty buckets and satisfies the table invariant |
| `TableSpec.BelongsTo` | hashTable.c:38-41 | a record linked into bucket i has its hash field equal to i, a whole name of at most 49 bytes, and that name hashes to i |
| `TableSpec.TableInvariant` | hashTable.h:19-22 | 100 buckets, every record in the bucket it belongs to; kept by `InsertPreservesInvariant` and `DeletePreservesInvariant` and used by `LookupComplete` |
| `TableSpec.MatchIndex` | hashTable.c:84-85 | the first-match position: no earlier record carries the name, and the record there does (or there is none) |
| `TableSpec.FindFirst` | hashTable.c:83-92 | the record the search loop stops at: the first one in the chain named k, or NULL; `FindFirstAtMatch` pins it to the first-match position |
| `TableSpec.RemoveFirst` | hashTable.c:54-71 | the chain after the delete loop: the first record named k unlinked, head or middle; `RemoveFirstAtMatch` pins it to the first-match position |
| `TableSpec.Lookup` | hashTable.c:78-97 | the effect of `search`: `FindFirst` on bucket hash(k); see `LookupAfterInsert`, `LookupComplete` and `LookupEmpty` |
| `TableSpec.Inserted` | hashTable.c:38-42 | the effect of `insert`: {hash(k), k, s} pushed on the head of bucket hash(k); see `LookupAfterInsert`, `DeleteAfterInsert` and `InsertPreservesInvariant` |
| `TableSpec.Deleted` | hashTable.c:49-75 | the effect of `delete`: `RemoveFirst` on bucket hash(k); see `LookupOtherAfterDelete`, `DeleteAfterInsert` and `DeletePreservesInvariant` |
| `TableSpec.FindFirstAtMatch` | hashTable.c:83-97 | the search walk returns the record at the first match, and returns NULL exactly when no record matches |
| `TableSpec.RemoveFirstAtMatch` | hashTable.c:54-71 | the delete walk removes exactly the record at the first match and keeps the others in order, and with no match the chain is unchanged |
| `TableSpec.RemoveFirstLength` | hashTable.c:56-75 | delete shortens the bucket by one exactly when a record of that name exists, and otherwise changes nothing |
| `TableSpec.RemoveFirstKeepsOthers` | hashTable.c:56-71 | unlinking a record of one name leaves the first record of every other name where it was |
| `TableSpec.RemoveFirstSubset` | hashTable.c:58-63 | unlinking never adds a record to the chain |
| `TableSpec.InsertPreservesInvariant` | hashTable.c:38-42 | after insert, every record in bucket i still has hash i and a name that hashes to i |
| `TableSpec.DeletePreservesInvariant` | hashTable.c:54-71 | after delete, every record in bucket i still has hash i and a name that hashes to i |
| `TableSpec.LookupAfterInsert` | hashTable.c:41-42 | newest wins: after insert(k, s), search(k) yields {hash(k), k, s}, even when k was present |
| `TableSpec.LookupOtherAfterInsert` | hashTable.c:41-42 | inserting k does not change the result of a search for any other name, even one in the same bucket |
| `TableSpec.LookupOtherAfterDelete` | hashTable.c:56-71 | deleting k does not change the result of a search for any other name |
| `TableSpec.DeleteAfterInsert` | hashTable.c:49-75 | delete(k) right after insert(k, s) restores the whole table exactly |
| `TableSpec.DeleteUncoversOlder` | hashTable.c:38-42 | a repeat insert does not overwrite: after a later delete, the older record with its salary is found again |
| `TableSpec.LookupComplete` | hashTable.c:78-97 | under the invariant, search of one bucket is NULL exactly when no bucket holds the name, and a found record carries the name and hash(k) |
| `TableSpec.LookupEmpty` | hashTable.c:6-10 | nothing is found in a table after init or free |
| `HashTables.HashTable.constructor` | hashTable.h:19-22 | storage for TABLE_SIZE bucket heads and TABLE_SIZE locks |
| `HashTables.HashTable.Init` | hashTable.c:6-11 | every bucket becomes NULL and every lock initialised, so the table invariant holds |
| `HashTables.HashTable.Insert` | hashTable.c:27-47 | on success the new record is the head of bucket hash(k) and the old chain follows unchanged; the bucket grows by exactly one and no other bucket changes; if allocation fails nothing changes |
| `HashTables.HashTable.Delete` | hashTable.c:49-76 | the bucket becomes the chain with its first record of that name unlinked, no other bucket changes, and the invariant is kept |
| `HashTables.HashTable.Search` | hashTable.c:78-98 | returns the first record named k in bucket hash(k), or None exactly when no bucket holds k; the table is not changed |
| `HashTables.HashTable.FreeTable` | hashTable.c:100-113 | every bucket becomes NULL and every lock is destroyed |
| `CommandParser.StartsWith` | test.c:25 | `strncmp(line, word, n) == 0` on a NUL-free line: the first n bytes are the word; `Parse` tests it in the order of test.c:25, 30, 35 and 40 |
| `CommandParser.ScanUntil` | test.c:27 | `%[^,]` reads the longest prefix without a stop byte, and stops right before one or at the end |
| `CommandParser.ScanDigits` | test.c:27 | `%u` reads the longest run of decimal digits |
| `CommandParser.DecimalValue` | test.c:27 | the value `%u` assigns to a string of decimal digits, most significant first; `DecimalRoundTrip` makes it the inverse of writing n in decimal |
| `CommandParser.InsertName` | test.c:27 | the name field of an insert line: the bytes after `insert,` up to the next comma; `InsertLineFields` pins it down |
| `CommandParser.InsertDigits` | test.c:27 | the salary digits after the comma that ends the name; `InsertLineFields` pins it down |
| `CommandParser.ArgName` | test.c:32 | the name field of a delete or search line: the bytes after the comma up to a comma or newline; `ArgRoundTrip` pins it down |
| `CommandParser.DecimalRoundTrip` | test.c:27 | the decimal digits of n read back as n |
| `CommandParser.ScanUntilField` | test.c:32 | a field without stop bytes followed by a stop byte or the end is read whole |
| `CommandParser.ScanDigitsField` | test.c:27 | digits followed by a non-digit or the end are read whole |
| `CommandParser.Parse` | test.c:21-43 | a command exists exactly when the line starts with insert, delete, search or print; delete, search and print give salary 0; print gives an empty name; the other names are 1 to 49 bytes with no NUL |
| `CommandParser.InsertLineFields` | test.c:25-27 | in `insert,<name>,<digits>` the name is the text up to the next comma and the digits follow the comma after it |
| `CommandParser.InsertRoundTrip` | test.c:25-29 | parsing `insert,<name>,<salary>` followed by a non-digit gives CMD_INSERT with that name and salary |
| `CommandParser.ArgRoundTrip` | test.c:30-39 | parsing `delete,<name>` or `search,<name>` ended by nothing, a comma or a newline gives CMD_DELETE or CMD_SEARCH with that name and salary 0 |
| `CommandParser.PrintLine` | test.c:40-41 | any line starting with `print` gives CMD_PRINT with an empty name and salary 0 |
| `CommandParser.NonBlank` | test.c:71 | the lines for which `strlen(line) > 1`, in order; `NonBlankKeeps` and `NonBlankLength` pin it down |
| `CommandParser.Kept` | test.c:71-72 | what one turn of the read loop adds: the line's command if the line is longer than one byte, else nothing |
| `CommandParser.ReadAll` | test.c:69-73 | the commands the read loop collects, line by line; `ReadAllIsParseOfNonBlank` equates it with parsing the filtered lines |
| `CommandParser.NonBlankKeeps` | test.c:69-73 | the read loop's filter keeps exactly the lines longer than one byte |
| `CommandParser.NonBlankLength` | test.c:69-73 | the filter never yields more lines than it was given |
| `CommandParser.ReadAllIsParseOfNonBlank` | test.c:69-73 | collecting turn by turn gives the commands of exactly the lines the filter keeps, in order |
| `CommandParser.CommandList.constructor` | test.c:17-18 | the command list starts empty with room for MAX_COMMANDS entries |
| `CommandParser.CommandList.ParseCommand` | test.c:21-43 | appends the line's command, if it has one, after the earlier entries, which stay unchanged; the count grows by at most one |
| `CommandParser.CommandList.ReadLine` | test.c:71-72 | a line of at most one byte adds nothing; a longer one adds its command |
| `CommandParser.CommandList.ReadCommands` | test.c:69-73 | the list grows by the commands of the non-blank lines, in order |

## Left out

- `rwlock.c` and `rwlock.h`: a writer-preference lock for blocking, signalling and starvation avoidance. That is concurrency and liveness, and `hashTable.c` does not use it.
- The `pthread_rwlock_wrlock`, `pthread_rwlock_rdlock` and `pthread_rwlock_unlock` calls have no effect in a sequential model, because every exit path releases what it acquired. Only `pthread_rwlock_init` and `pthread_rwlock_destroy` are kept, as a lock state per bucket. Operations require an initialised lock and do not touch the lock state.
- All `printf` and `perror` output.
- `malloc` is either success or failure, given by the `allocOk` parameter of `Insert`. `free` drops a record from its chain.
- Nodes are not separate heap objects. A bucket's chain is a sequence, so these are not modelled: pointer aliasing, the splice `prev->next = current->next` as a write to a node, and the node-by-node loop of `free_table`. That loop only releases memory; the model sets the bucket to empty.
- `search` returns the record's value. The live pointer it returns in C, through which the caller could change the stored record, is not modelled.
- `JenkinsOneAtATimeHash`: each loop round and the final rounds apply the functions `Step` and `Finish`, which hold the same shift/add/xor statements as the source. The solver cannot prove the statements written out inline equal to them within the resource limit.
- `HashTables.HashTable.Insert`: requires the key to have at most 49 bytes. With a longer key, `strncpy(..., 50)` leaves the name without a terminator, and later `strcmp` calls on it read past the buffer.
- `test.c` `main`: file I/O, the `threads,<n>` header, and the dispatch loop. It calls `init_table("output.txt")`, `print_table`, `print_summary` and `table->output_file`, none of which `hashTable.h` declares. Only its blank-line filter is modelled, over a given sequence of lines. The 128-byte `fgets` buffer is not modelled.
- `CommandParser.Parse`: defined only on well-formed lines (`WellFormed`). The source goes wrong on the other lines, in these separate ways:
  - An insert line whose name field is missing or empty, or that does not continue with `insert,`, stops `sscanf` before `%[^,]`. The copy then reads the uninitialised local `name` (test.c:22, 27, 29).
  - An insert line whose name matches but whose salary does not (`insert,bob,x`, or `insert,bob`) does fill `name`. The uninitialised `salary` is then stored in the command (test.c:23, 27-28).
  - A delete or search line with a missing or empty name field leaves `name` uninitialised the same way (test.c:32-34, 37-39).
  - A name of 50 to 63 bytes is read whole into the local `name[64]`, but the `strcpy` overflows `Command.name[50]` (test.c:29, 34, 39).
  - A name of 64 or more bytes already overflows the local `name[64]` in `sscanf` (test.c:22, 27, 32, 37).
  - `%u` is modelled only as plain decimal digits right after the comma, with a value below 2^32. Leading blanks, a sign, and out-of-range values, where the conversion's result is not defined, are not modelled.
- `CommandParser.CommandList.ParseCommand`: requires room in `commands` (`command_count < 128`) whenever the line yields a command. The source does not check the bound.
