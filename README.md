# Verified model of a chained hashtable, a linked list and a pixel matrix

This project models, in Dafny, three small C components and proves their
behaviour:

- **The chained hashtable** (`hashtable/hashtable.c` and the generalised API
  of `hashtable/hashtable.h`).
  - Keys hash with djb2: start at 5381, then `hash * 33 + c` per byte,
    wrapping at 2^64.
  - Each key goes to bucket `hash % capacity`.
  - Each bucket holds a chain of entries. `set` replaces the value of an
    entry that already holds the key, and otherwise appends a new entry at
    the tail of the chain.
  - `get` walks the chain. `free` and `for_each` visit every bucket in index
    order, and every chain from head to tail.
  - The header revision adds:
    - byte-buffer keys and values,
    - an entry counter,
    - a load factor that triggers a resize (the model doubles the capacity),
    - `remove`.
- **The singly linked list** (`list/list.c`): `node_create`, tail
  `node_append` and `node_free`.
- **The pixel matrix** (`fire/fire.c`): a `width * height` buffer of 32-bit
  RGB words indexed `y * width + x`. Red, green and blue are packed into
  bits 16-23, 8-15 and 0-7.

Modules:

- `Hash` (`djb2.dfy`): the hash, as a recurrence and as the source's
  shift-and-add loop.
- `Buckets` (`buckets.dfy`): the parts both hashtable revisions share.
  - Chains are modelled as sequences of entries. A bucket array is a
    sequence of chains for the specification, and an `array` of chains for
    the methods.
  - The reference definitions are `Lookup`, `SetIn`, `RemoveIn`, `Flatten`
    (the traversal order) and `Rehash`. Their lemmas prove the invariants
    and the set/get/remove laws.
  - The loops of the source are methods proved against those definitions:
    `Find` (a chain walk), `Put` (the body of `set`) and `Walk` (the
    traversal).
- `StringHashtable` (`hashtable_c.dfy`): the `hashtable.c` table as a class
  with `size` and a bucket array, its `main` scenario, and a finding about
  the bucket index.
- `Hashtable` (`hashtable_h.dfy`): the `hashtable.h` table as a class with
  `cap`, `loadFactor`, `table` and `entries`. Its invariant says:
  - every entry sits in its key's bucket;
  - chains hold distinct keys;
  - `entries` is the number of stored entries.
- `LinkedList` (`list.dfy`): nodes as a class with `data` and `next`. A list
  is described by the ghost sequence of its nodes.
- `Fire` (`fire.dfy`): the packing functions, the `Matrix` class over an
  `array<bv32>`, and the bounds checks as written.

## Model

| member | source | states |
|---|---|---|
| Hash.CharValue | hashtable/hashtable.c:18-19 | a byte read through signed `char` into `int` lies in [-128, 128) and is congruent to the byte modulo 256 |
| Hash.ShiftLeft5 | hashtable/hashtable.c:20 | `hash << 5` on 64 bits has its low five bits clear, and equals `32 * hash` when no bit is shifted out |
| Hash.ShiftAddStep | hashtable/hashtable.c:20 | `((hash << 5) + hash) + c` with 64-bit wrap-around equals `(33 * hash + c) mod 2^64` |
| Hash.Djb2 | hashtable/hashtable.c:16-24 | the reference recurrence of the hash: 5381 for no bytes, then `hash * 33 + c` per byte, modulo 2^64; Hash.Djb2Snoc and Hash.HashDjb2 relate it to the C loop |
| Hash.Djb2Snoc | hashtable/hashtable.c:19-20 | appending one byte to a key advances its hash by exactly one round of the loop body |
| Hash.HashDjb2 | hashtable/hashtable.c:16-24 | the loop returns the djb2 recurrence of the key: 5381, then `hash * 33 + c` per byte, modulo 2^64 |
| Buckets.Bucket | hashtable/hashtable.c:59-60 | with at least one bucket, `hash % size` is a valid bucket index, below `size` |
| Buckets.Find | hashtable/hashtable.c:79-90 | the chain walk stops at the first entry holding the key, or at the end; the value it finds is the chain lookup, and no earlier entry holds the key |
| Buckets.Put | hashtable/hashtable.c:57-102 | the body of `set`: the bucket array afterwards is `SetIn` of the old one, and an entry was added exactly when the key was absent |
| Buckets.Walk | hashtable/hashtable.c:121-132 | the nested loops visit exactly the entries of `Flatten`, bucket by bucket and head to tail |
| Buckets.ChainLookup | hashtable/hashtable.c:104-115 | the chain walk of `get`: a value it returns is stored in the chain under the key |
| Buckets.ChainSet | hashtable/hashtable.c:57-102 | `set` on one chain: the chain then stores `(key, val)` and has grown by at most one entry |
| Buckets.ChainRemove | hashtable/hashtable.h:60-65 | `remove` on one chain only takes entries away: the result is a sub-multiset of the chain |
| Buckets.Lookup | hashtable/hashtable.c:104-115 | `get` on a table: a value it returns is stored under the key in the key's bucket |
| Buckets.SetIn | hashtable/hashtable.c:57-102 | `set` on a table: the number of buckets stays, only the key's bucket changes, and that bucket stores `(key, val)` |
| Buckets.RemoveIn | hashtable/hashtable.h:60-65 | `remove` on a table: the number of buckets stays, only the key's bucket changes, and it only loses entries |
| Buckets.Flatten | hashtable/hashtable.h:78-82 | the traversal order of `for_each` and `free`, bucket by bucket and head to tail; Buckets.FlattenMember and Buckets.Walk state what it holds |
| Buckets.Rehash | hashtable/hashtable.h:72-76 | a resize to `n` buckets yields `n` buckets; Buckets.RehashPreserves states what they hold |
| Buckets.Empty | hashtable/hashtable.c:50 | `calloc` leaves `n` buckets, every one an empty chain |
| Buckets.ChainLookupNone | hashtable/hashtable.c:109-114 | the chain walk returns NULL if and only if no entry of the chain holds the key |
| Buckets.ChainLookupAt | hashtable/hashtable.c:109-112 | the chain walk returns the value of the first entry holding the key |
| Buckets.ChainLookupMember | hashtable/hashtable.c:104-115 | in a chain with distinct keys, `get(k)` is `v` if and only if the entry `(k, v)` is in the chain |
| Buckets.ChainSetReplaces | hashtable/hashtable.c:79-89 | `set` of a present key replaces only that entry's value; chain length, key order and the other entries are unchanged |
| Buckets.ChainSetAppends | hashtable/hashtable.c:92-101 | `set` of an absent key appends `(key, val)` at the tail and keeps the earlier entries in order |
| Buckets.ChainSetLookup | hashtable/hashtable.c:57-102 | after `set(k, v)` on a chain, the lookup of `k` gives `v` and the lookup of every other key is unchanged |
| Buckets.ChainSetDistinct | hashtable/hashtable.c:79-101 | `set` never leaves two entries with equal keys in a chain |
| Buckets.ChainSetLength | hashtable/hashtable.h:43-47 | a chain grows by one entry for a new key and keeps its length for a present one |
| Buckets.ChainSetTwice | hashtable/hashtable.h:43-44 | two `set`s of the same key on a chain equal the second alone |
| Buckets.ChainRemoveAt | hashtable/hashtable.h:60-65 | `remove` unlinks exactly the entry holding the key and closes the gap |
| Buckets.ChainRemoveAbsent | hashtable/hashtable.h:60-65 | `remove` of a key the chain lacks leaves the chain unchanged |
| Buckets.ChainRemoveLength | hashtable/hashtable.h:60-65 | `remove` shortens a chain by one for a present key and by nothing otherwise |
| Buckets.ChainRemoveLookup | hashtable/hashtable.h:60-65 | after `remove(k)` on a chain with distinct keys, `k` is absent, other keys map as before, and keys stay distinct |
| Buckets.ChainRemoveAfterAppend | hashtable/hashtable.h:60-65 | `set` of a new key followed by `remove` of it restores the chain exactly |
| Buckets.SetInLookup | hashtable/hashtable.c:57-102 | after `set(k, v)` on a table, `get(k)` gives `v` and `get` of every other key is unchanged |
| Buckets.SetInWellFormed | hashtable/hashtable.c:57-102 | `set` keeps every entry in the bucket its key hashes to, and the keys of each chain distinct |
| Buckets.SetInCount | hashtable/hashtable.h:27 | `set` adds one stored entry for a new key and none for a present one |
| Buckets.SetInTwice | hashtable/hashtable.h:43-44 | two `set`s of the same key on a table equal the second alone |
| Buckets.RemoveInWellFormed | hashtable/hashtable.h:60-65 | `remove` keeps every entry in the bucket its key hashes to, and the keys of each chain distinct |
| Buckets.RemoveInLookup | hashtable/hashtable.h:60-65 | after `remove(k)` the table is well formed, `k` is absent, other keys map as before, and the entry count drops by one exactly when `k` was present |
| Buckets.RemoveInMiss | hashtable/hashtable.h:60-65 | `remove` of an absent key leaves the table unchanged |
| Buckets.RemoveInAfterSetIn | hashtable/hashtable.h:60-65 | `set` of a new key followed by `remove` of it restores the table exactly |
| Buckets.FlattenEmpty | hashtable/hashtable.h:30-36 | a freshly created table holds no entries |
| Buckets.FlattenUpdateLength | hashtable/hashtable.h:27 | replacing one chain changes the entry count by the difference of that chain's lengths |
| Buckets.FlattenMember | hashtable/hashtable.h:78-82 | the traversal holds an entry if and only if some bucket holds it |
| Buckets.FlattenPrefixDistinct | hashtable/hashtable.h:78-82 | in a well-formed table, the traversal of the first `m` buckets holds distinct keys, all hashing below `m` |
| Buckets.LookupIffTraversed | hashtable/hashtable.h:78-82 | a well-formed table's traversal holds each key once, and holds `(k, v)` if and only if `get(k)` is `v` |
| Buckets.InsertAllLookup | hashtable/hashtable.h:72-76 | re-inserting a sequence of entries into empty buckets maps each key to the last value given for it |
| Buckets.InsertAllWellFormed | hashtable/hashtable.h:72-76 | re-inserting entries into empty buckets builds a well-formed table |
| Buckets.InsertAllCount | hashtable/hashtable.h:72-76 | re-inserting entries with distinct keys stores every one of them |
| Buckets.InsertAllAppend | hashtable/hashtable.h:72-76 | re-inserting one sequence of entries and then another equals re-inserting their concatenation, so a resize can proceed chain by chain |
| Buckets.KeepAppend | hashtable/hashtable.h:72-76 | selecting the entries of one bucket from a concatenation is selecting from each part, in order |
| Buckets.InsertAllKeep | hashtable/hashtable.h:72-76 | inserting entries with distinct keys into empty buckets appends each at its chain's tail, so every bucket holds its entries in insertion order |
| Buckets.DoubledBucket | hashtable/hashtable.h:72-76 | a key's bucket in a table of `2m` buckets, taken modulo `m`, is its bucket in the table of `m` |
| Buckets.KeepFlattenPrefix | hashtable/hashtable.h:72-76 | among the first `j` old buckets traversed, only old bucket `b % m` contributes entries to new bucket `b`, and in its chain order |
| Buckets.RehashKeepsChainOrder | hashtable/hashtable.h:72-76 | after doubling, bucket `b` holds exactly the entries of old bucket `b % m` that now hash to `b`, in their old chain order |
| Buckets.RehashPreserves | hashtable/hashtable.h:72-76 | a resize keeps the invariants, the entry count and the key-to-value mapping |
| StringHashtable.Table.constructor | hashtable/hashtable.c:47-52 | `hashtable_create(size)` yields `size` buckets, all empty |
| StringHashtable.Table.Set | hashtable/hashtable.c:57-102 | only the key's bucket changes as `SetIn` says; afterwards `get(key)` is `val`, every other key maps as before, and the invariants hold |
| StringHashtable.Table.Get | hashtable/hashtable.c:104-115 | returns the value stored for the key, or NULL, and does not modify the table |
| StringHashtable.Table.Free | hashtable/hashtable.c:120-136 | releases every entry once, in traversal order; the released entries have distinct keys and are exactly the stored mapping |
| StringHashtable.Demo | hashtable/hashtable.c:151-171 | the nine `set`s of `main` followed by `get("nivek")` yield "NEWLOLOZ", whatever buckets the keys fall in |
| StringHashtable.BucketAsWritten | hashtable/hashtable.c:60 | storing the remainder in an `int` gives it back, or that value minus 2^32 |
| StringHashtable.BucketAsWrittenAgrees | hashtable/hashtable.c:59-60 | for at most INT_MAX buckets, the `int` index is the bucket |
| StringHashtable.BucketAsWrittenNegative | hashtable/hashtable.c:59-62 | for 4294967295 buckets, the key "bucket" gets the `int` index -185210411, while its bucket is 4109756885 |
| Hashtable.ExceedsLoadFactor | hashtable/hashtable.h:24-25 | the load `entries / cap` is higher than the factor exactly when `entries` exceeds `factor * cap` |
| Hashtable.Table.constructor | hashtable/hashtable.h:30-36 | `create(cap, loadfactor)` yields `cap` empty buckets, the given load factor and no entries |
| Hashtable.Table.Set | hashtable/hashtable.h:38-52 | `get(key)` becomes `val` and other keys are unchanged; the counter rises by one exactly for a new key; the table doubles exactly when a new key makes `entries / cap` higher than the load factor |
| Hashtable.Table.Get | hashtable/hashtable.h:54-58 | returns the entry holding the key if and only if the key is present, and NULL otherwise |
| Hashtable.Table.Remove | hashtable/hashtable.h:60-65 | true, with exactly that entry unlinked and the counter one lower, if and only if the key was present; false, with the table and counter unchanged, otherwise |
| Hashtable.Table.Resize | hashtable/hashtable.h:72-76 | the capacity doubles, and the mapping, entry count and invariants are kept; each new bucket `b` holds the entries of old bucket `b % cap` that now hash to `b`, in their old chain order (Buckets.RehashKeepsChainOrder); the handle the caller holds refers to the resized table |
| Hashtable.Rehashed | hashtable/hashtable.h:72-76 | the resize loops build a fresh array equal to every old entry re-inserted with `set`, in traversal order |
| Hashtable.PutChain | hashtable/hashtable.h:72-76 | the inner resize loop puts the entries of one old chain, head to tail, into the new buckets with the logic of `set` |
| Hashtable.Table.ForEach | hashtable/hashtable.h:78-82 | the callback runs once per stored entry, bucket by bucket and in chain order, and sees exactly the stored mapping |
| Hashtable.Table.Free | hashtable/hashtable.h:67-70 | releases exactly the stored entries, as many as the counter says |
| LinkedList.Node.constructor | list/list.c:10-15 | `node_create(d)` is a node holding `d` whose `next` is NULL |
| LinkedList.IsListUnique | list/list.c:5-8 | a head pointer determines the whole node sequence of its list |
| LinkedList.Append | list/list.c:17-34 | on a NULL list nothing is created or changed and NULL is returned; otherwise the list's data becomes the old data plus `d`, and the returned node is the new tail holding `d` with `next` NULL |
| LinkedList.Free | list/list.c:36-45 | the loop releases every node of the list exactly once, head to tail, and terminates |
| LinkedList.Demo | list/list.c:47-60 | creating "one" and appending "two" and "three" gives the list one, two, three |
| Fire.Pack | fire/fire.c:63-65 | the bitwise OR of `r << 16`, `g << 8` and `b` fits in 24 bits and unpacks to `r`, `g` and `b` |
| Fire.Red | fire/fire.c:72 | the red byte is bits 16-23 of the cell: shifted back left by 16 it equals the value masked with 0xFF0000 |
| Fire.Green | fire/fire.c:75 | the green byte is bits 8-15 of the cell: shifted back left by 8 it equals the value masked with 0x00FF00 |
| Fire.Blue | fire/fire.c:78 | the blue byte is bits 0-7 of the cell |
| Fire.PackUnpack | fire/fire.c:67-80 | unpacking and repacking a word keeps exactly its low 24 bits |
| Fire.IndexInBounds | fire/fire.c:52 | for `x < width` and `y < height`, `y * width + x` is below `width * height` |
| Fire.IndexInjective | fire/fire.c:55-61 | distinct cells of the grid have distinct indices |
| Fire.Matrix.Init | fire/fire.c:33-38 | `matrix_init(w, h)` records `w` and `h` and creates `w * h` cells, all zero |
| Fire.Matrix.Get | fire/fire.c:44-53 | for a row in the grid, the value read is cell `y * width + x` when `x < width`, and column 0 of the same row when `x == width`, which the modulo wraps |
| Fire.Matrix.Set | fire/fire.c:55-61 | writes only cell `y * width + x`: reading it back gives `val`, and every other cell is unchanged |
| Fire.Matrix.SetRgb | fire/fire.c:63-65 | stores the packed colour in the one cell, so its channels read back as `r`, `g`, `b` |
| Fire.Matrix.GetRgb | fire/fire.c:67-80 | for the cells `matrix_get` reads, including the wrapped `x == width`, writes bits 16-23, 8-15 and 0-7 of the cell to the non-NULL output cells, in that order |
| Fire.SetThenGetRgb | fire/fire.c:63-80 | after `matrix_setrgb(x, y, r, g, b)`, `matrix_getrgb(x, y)` yields exactly `r`, `g`, `b` |
| Fire.BoundsAsWritten | fire/fire.c:46-49 | the assertions of `matrix_get` and `matrix_set` as written: `0 <= x <= width` and `0 <= y <= height` |
| Fire.GetIndexAsWritten | fire/fire.c:44-53 | under those assertions, the index `matrix_get` reads lies inside the array if and only if `y < height` |
| Fire.SetIndexAsWritten | fire/fire.c:55-61 | under those assertions, the index `matrix_set` writes lies inside the array if and only if the grid is not empty and either the row is before the last or it is the last row and `x < width` |
| Fire.GetAsWrittenOutOfBounds | fire/fire.c:46-52 | `matrix_get(0, height)` passes the assertions and reads index `width * height`, one past the end |
| Fire.SetAsWrittenOutOfBounds | fire/fire.c:56-60 | `matrix_set(width, height - 1)` passes the assertions and writes index `width * height`; on an earlier row `x == width` overwrites column 0 of the next row |
| Fire.StrictBoundsInside | fire/fire.c:44-60 | with strict bounds, the get and set indices agree and stay inside the array |

## Left out

- Logging is not modelled. This covers the `printf` calls in `hashtable_set`, `hashtable_get` and `node_append`, and `hashtable_print`.
- The print loop of the list's `main` (list/list.c:52-55) is not modelled. It walks the list in the same order as `node_free`, which `LinkedList.Free` and `LinkedList.Demo` cover.
- Memory management is not modelled: `malloc`, `calloc`, `strdup`, `free` and allocation failure.
  - Keys and values are owned sequences, so duplicating them is the sequence itself.
  - Freeing is modelled as returning the released entries or data in release order.
- Chains are sequences of entry values, not linked `struct entry` objects.
  - Entry identity, and pointers into a chain, are not modelled.
  - Hashtable.Table.Get returns the entry by value.
- Hashtable.Table.Set, Hashtable.Table.Resize: `cap` and `entries` are unbounded. The 32-bit wrap-around of `unsigned int` is not modelled; doubling a capacity above 2^31 would wrap.
- Hashtable.Table.Set: the `float` load factor is an exact `real`, so IEEE rounding of `entries / cap` is not modelled. The comparison is the strict "higher than" of hashtable/hashtable.h:24-25.
- The two descriptions of the load factor disagree. The `set` comment at hashtable/hashtable.h:39-40 names 0.75, but the model uses the stored factor of hashtable/hashtable.h:24, which is what `create` configures.
- Hashtable.Table.Resize: the bodies of `remove`, `resize` and `for_each` are not in the header. These members are modelled from their comments.
  - The header does not say how much `hashtable_resize` grows the table; the model doubles the capacity.
  - Resize always doubles. The check of `entries / cap` against the load factor happens in Hashtable.Table.Set before it calls Resize, so it is not repeated inside Resize.
  - The model resizes only when the load is strictly higher than the stored factor (hashtable/hashtable.h:24-25).
- Hashtable.Table.Set, Hashtable.Table.Resize: `struct hashtable**` lets the C code hand the caller a new table. Here the caller's reference is the object itself, and a resize replaces its bucket array.
- The header does not show the body of `hashtable_set`. The model checks the load factor only after a new key is added; an update of an existing key leaves the count, and so the load, unchanged.
- Capacity 0: both constructors accept it, as `hashtable_create` does. Every operation that computes `hash % size` requires at least one bucket, since modulo zero is undefined behaviour in C.
- The header revision's hash function is not shown. The model hashes byte buffers with the same djb2 as hashtable/hashtable.c.
- Hash.CharValue assumes `char` is signed, as on x86-64. With unsigned `char`, bytes of 0x80 and above would contribute `c` instead of `c - 256`.
- NULL keys are not representable. The TODO at hashtable/hashtable.c:9 is not modelled.
  - `StringHashtable` keys are the bytes before the NUL terminator.
  - `Hashtable` keys carry their own length.
- for_each's callback is modelled only by the sequence of entries passed to it. What the callback does is outside the component.
- LinkedList: data pointers are an opaque type `D`. Freeing them is modelled as returning them in order.
- Fire.Matrix.Get, Fire.Matrix.GetRgb: these require `y < height` where the source asserts `y <= height`, since row `height` lies past the array (see Findings). They admit `x == width`, which fire/fire.c:51 wraps to column 0 on purpose, and they require a non-empty grid for that modulo.
- Fire.Matrix.Set, Fire.Matrix.SetRgb: these require `x < width` and `y < height`, stricter than the source's assertions (see Findings).
- Fire: `width` and `height` are naturals. The `int` fields, and a 32-bit overflow of `width * height`, are not modelled.
- Fire: `matrix_free`, `matrix_print`, `matrix_update`, `burn`, `color` and the SDL loop are not part of this model. They involve randomness, floating point and graphics output.
- fire/pgen.c, mcast/mcast.c, daemon/daemon.c and kbd/kbd.c are not part of this model. They are particle graphics, socket I/O, process plumbing and input-device polling.

## Findings

| source | as written | input that shows it | evidently intended | confidence | as-written member | corrected member |
|---|---|---|---|---|---|---|
| hashtable/hashtable.c:60 | `int bucket = hash % tbl->size;` stores an `unsigned long` remainder that can exceed INT_MAX in an `int`; the same line appears at hashtable/hashtable.c:106 | `hashtable_create(4294967295)` then `hashtable_set(tbl, "bucket", …)`: hash 6953366840195, remainder 4109756885, `int` index -185210411, before the bucket array | a bucket index in [0, size) | not executed | StringHashtable.BucketAsWrittenNegative | Buckets.Bucket |
| fire/fire.c:47-52 | `matrix_get` asserts `y <= m->height` | `matrix_get(m, 0, height)` reads index `width * height`, one past the array | `0 <= y < height` | not executed | Fire.GetAsWrittenOutOfBounds | Fire.Matrix.Get |
| fire/fire.c:57-60 | `matrix_set` asserts `x <= m->width` and `y <= m->height` and does not reduce `x` | `matrix_set(m, width, height - 1, v)` writes index `width * height`, one past the array | `0 <= x < width` and `0 <= y < height` | not executed | Fire.SetAsWrittenOutOfBounds | Fire.Matrix.Set |
