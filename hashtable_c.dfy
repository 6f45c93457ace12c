/**
  The string hashtable of hashtable/hashtable.c: a fixed number of buckets,
  keys and values that are NUL-terminated C strings, `set`, `get` and
  `free`. There is no entry counter and no resizing in this revision.

  A C string is modelled by the bytes before its terminator, so `strcmp`
  returning 0 is sequence equality and `strdup` is the sequence itself.
 */
module StringHashtable {
  import opened Hash
  import opened Buckets

  /** The bytes of a C string before its terminating NUL. */
  type CString = s: Bytes | forall i :: 0 <= i < |s| ==> s[i] != 0

  /** `struct hashtable` of hashtable.c. */
  class Table {
    /** The number of buckets. */
    var size: nat
    /** The buckets; chain `b` holds the entries whose key hashes to `b`. */
    var table: array<Chain>

    ghost predicate Valid()
      reads this, table
    {
      table.Length == size && WellFormed(table[..])
    }

    /** hashtable_create: `size` buckets, all empty. */
    constructor (size: nat)
      ensures Valid() && fresh(table)
      ensures this.size == size && table[..] == Empty(size)
    {
      this.size := size;
      table := new Chain[size](_ => []);
    }

    /** hashtable_set: only the key's bucket changes; afterwards `get(key)`
        gives `val` and `get` of every other key is unchanged. */
    method Set(key: CString, val: CString)
      requires Valid() && size > 0
      modifies table
      ensures Valid()
      ensures table[..] == SetIn(old(table[..]), key, val)
      ensures Lookup(table[..], key) == Option<Bytes>.Some(val)
      ensures forall k :: k != key ==> Lookup(table[..], k) == old(Lookup(table[..], k))
    {
      var _ := Put(table, key, val);
      SetInWellFormed(old(table[..]), key, val);
      forall k ensures Lookup(table[..], k) == if k == key then Some(val) else old(Lookup(table[..], k)) {
        SetInLookup(old(table[..]), key, val, k);
      }
    }

    /** hashtable_get: the value stored for the key, or `None` for NULL;
        the table is not modified. */
    method Get(key: CString) returns (val: Option<Bytes>)
      requires Valid() && size > 0
      ensures val == Lookup(table[..], key)
    {
      var hash := HashDjb2(key);
      var bucket := hash % size;
      var chain := table[bucket];
      var i := Find(chain, key);
      val := if i < |chain| then Some(chain[i].val) else None;
    }

    /** hashtable_free: releases every entry exactly once, bucket by bucket
        and head to tail; the result lists the entries in the order their
        key and value buffers are freed. */
    method Free() returns (released: seq<Entry>)
      requires Valid()
      ensures released == Flatten(table[..])
      ensures DistinctKeys(released)
      ensures size > 0 ==> forall k, v :: Entry(k, v) in released <==> Lookup(table[..], k) == Some(v)
    {
      released := Walk(table);
      FlattenPrefixDistinct(table[..], size);
      assert table[..][..size] == table[..];
      if size > 0 {
        forall k, v ensures Entry(k, v) in released <==> Lookup(table[..], k) == Some(v) {
          LookupIffTraversed(table[..], k, v);
        }
      }
    }
  }

  // The string literals of `main`, as the bytes before their terminators.
  const KEVIN: CString := [107, 101, 118, 105, 110]
  const NIVEK: CString := [110, 105, 118, 101, 107]
  const NEVIK: CString := [110, 101, 118, 105, 107]
  const PROPS: CString := [112, 114, 111, 112, 115]
  const PROPZ: CString := [112, 114, 111, 112, 122]
  const NEWLOLOZ: CString := [78, 69, 87, 76, 79, 76, 79, 90]
  const HAI: CString := [104, 97, 105]
  const CRUFT: CString := [99, 114, 117, 102, 116]
  const BAWLS: CString := [98, 97, 119, 108, 115]
  const HERPDEDERP: CString := [104, 101, 114, 112, 100, 101, 100, 101, 114, 112]
  const HEIST: CString := [104, 101, 105, 115, 116]
  const LOLZ0R: CString := [108, 111, 108, 122, 48, 114]
  const ALLBOLRL: CString := [97, 108, 108, 98, 111, 108, 114, 108]
  const HARHAR: CString := [72, 65, 82, 72, 65, 82]

  /** The calls of `main`: whatever buckets the keys fall in, the value
      found for "nivek" is the last one set for it, although "nevik" has
      the same letters. */
  method Demo() returns (found: Option<Bytes>)
    ensures found == Option<Bytes>.Some(NEWLOLOZ)
  {
    var tbl := new Table(900);
    tbl.Set(KEVIN, HAI);
    tbl.Set(KEVIN, CRUFT);
    tbl.Set(KEVIN, BAWLS);
    tbl.Set(NIVEK, HERPDEDERP);
    tbl.Set(PROPS, HEIST);
    tbl.Set(PROPZ, LOLZ0R);
    tbl.Set(NIVEK, NEWLOLOZ);
    assert NEVIK[1] != NIVEK[1];
    tbl.Set(NEVIK, ALLBOLRL);
    assert Lookup(tbl.table[..], NIVEK) == Option<Bytes>.Some(NEWLOLOZ);
    tbl.Set(NEVIK, HARHAR);
    assert Lookup(tbl.table[..], NIVEK) == Option<Bytes>.Some(NEWLOLOZ);
    found := tbl.Get(NIVEK);
  }

  // -----------------------------------------------------------------------
  // Bucket index as written: `int bucket = hash % tbl->size;`
  // -----------------------------------------------------------------------

  const INT_MAX: nat := 0x7FFF_FFFF
  const UINT_MODULUS: nat := 0x1_0000_0000

  /** The remainder is an `unsigned long` below `size`; assigning it to an
      `int` keeps it only up to INT_MAX and wraps modulo 2^32 above (the
      conversion gcc and clang define). */
  function BucketAsWritten(hash: ulong, size: nat): (b: int)
    requires 0 < size < UINT_MODULUS
    ensures b == hash % size || b == hash % size - UINT_MODULUS
  {
    var r := hash % size;
    if r <= INT_MAX then r else r - UINT_MODULUS
  }

  /** For tables of at most INT_MAX buckets the conversion is harmless and
      the written index is the bucket the model uses. */
  lemma BucketAsWrittenAgrees(k: Bytes, size: nat)
    requires 0 < size <= INT_MAX
    ensures BucketAsWritten(Djb2(k), size) == Bucket(k, size)
  {
  }

  /** `hashtable_create(4294967295)` followed by `hashtable_set` of the key
      "bucket": its hash is 6953366840195, the remainder 4109756885, and the
      `int` index -185210411, before the start of the bucket array; the
      bucket the model uses is 4109756885, inside it. */
  lemma BucketAsWrittenNegative()
    ensures var key: Bytes := [98, 117, 99, 107, 101, 116];
      && Djb2(key) == 6953366840195
      && BucketAsWritten(Djb2(key), 4294967295) == -185210411
      && Bucket(key, 4294967295) == 4109756885
  {
    var key: Bytes := [98, 117, 99, 107, 101, 116];
    assert Djb2(key[..0]) == 5381;
    assert key[..1][..0] == key[..0];
    assert Djb2(key[..1]) == 177671;
    assert key[..2][..1] == key[..1];
    assert Djb2(key[..2]) == 5863260;
    assert key[..3][..2] == key[..2];
    assert Djb2(key[..3]) == 193487679;
    assert key[..4][..3] == key[..3];
    assert Djb2(key[..4]) == 6385093514;
    assert key[..5][..4] == key[..4];
    assert Djb2(key[..5]) == 210708086063;
    assert key[..6][..5] == key[..5];
    assert key[..6] == key;
  }
}
