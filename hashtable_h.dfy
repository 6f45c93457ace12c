/**
  The generalised hashtable of hashtable/hashtable.h: keys and values are
  byte buffers with explicit lengths (a `Bytes` sequence carries its
  length), the table keeps a capacity, a load factor and an entry counter,
  and it offers `remove`, `resize` and `for_each` besides `set` and `get`.

  The header shows declarations and their comments only; the operations are
  modelled from those comments, extending the `set`/`get` logic of
  hashtable.c (shared through module Buckets). `hashtable_set` and
  `hashtable_resize` take a `struct hashtable**` so that a resize can hand
  the caller a new table; here the caller's reference is the object itself,
  whose bucket array a resize replaces, so the handle the caller holds
  refers to the resized table afterwards.
 */
module Hashtable {
  import opened Hash
  import opened Buckets

  /** The resize policy: the load `entries / cap` is higher than the
      table's load factor. The load factor is an exact ratio. */
  predicate ExceedsLoadFactor(entries: nat, cap: nat, loadFactor: real)
    requires cap > 0
    ensures ExceedsLoadFactor(entries, cap, loadFactor) <==> entries as real > loadFactor * cap as real
  {
    entries as real / cap as real > loadFactor
  }

  /** `struct hashtable` of hashtable.h. */
  class Table {
    /** Capacity: the number of buckets. */
    var cap: nat
    /** Resize when `entries / cap` is higher than this. */
    var loadFactor: real
    /** The buckets; chain `b` holds the entries whose key hashes to `b`. */
    var table: array<Chain>
    /** The number of entries in the table. */
    var entries: nat

    /** Every entry sits in its key's bucket, chains hold distinct keys, and
        the counter equals the number of reachable entries. */
    ghost predicate Valid()
      reads this, table
    {
      && table.Length == cap
      && WellFormed(table[..])
      && entries == |Flatten(table[..])|
    }

    /** hashtable_create: `cap` empty buckets, no entries. */
    constructor (cap: nat, loadFactor: real)
      ensures Valid() && fresh(table)
      ensures this.cap == cap && this.loadFactor == loadFactor
      ensures entries == 0 && table[..] == Empty(cap)
    {
      this.cap := cap;
      this.loadFactor := loadFactor;
      table := new Chain[cap](_ => []);
      entries := 0;
      new;
      assert table[..] == Empty(cap);
      FlattenEmpty(cap);
    }

    /** hashtable_set. A present key has its value replaced and no entry is
        added; a new key gets an entry at the tail of its chain, the counter
        goes up by one, and the table doubles when the load is then higher
        than the load factor. Either way `get(key)` afterwards gives `val`
        and `get` of every other key is unchanged. */
    method Set(key: Bytes, val: Bytes)
      requires Valid() && cap > 0
      modifies this, table
      ensures Valid() && cap > 0 && loadFactor == old(loadFactor)
      ensures forall k :: Lookup(table[..], k) == if k == key then Some(val) else old(Lookup(table[..], k))
      ensures entries == old(entries) + if old(Lookup(table[..], key)).None? then 1 else 0
      ensures cap == if old(Lookup(table[..], key)).None? && ExceedsLoadFactor(old(entries) + 1, old(cap), loadFactor)
                     then 2 * old(cap) else old(cap)
      ensures cap == old(cap) ==> table == old(table) && table[..] == SetIn(old(table[..]), key, val)
      ensures cap != old(cap) ==> fresh(table) && table[..] == Rehash(SetIn(old(table[..]), key, val), cap)
    {
      var added := Put(table, key, val);
      SetInWellFormed(old(table[..]), key, val);
      SetInCount(old(table[..]), key, val);
      forall k ensures Lookup(table[..], k) == if k == key then Some(val) else old(Lookup(table[..], k)) {
        SetInLookup(old(table[..]), key, val, k);
      }
      if added {
        entries := entries + 1;
        if ExceedsLoadFactor(entries, cap, loadFactor) {
          Resize();
        }
      }
    }

    /** hashtable_get: the entry holding the key, or `None` for NULL; the
        table is not modified. */
    method Get(key: Bytes) returns (e: Option<Entry>)
      requires Valid() && cap > 0
      ensures e.Some? <==> Lookup(table[..], key).Some?
      ensures e.Some? ==> e.value == Entry(key, Lookup(table[..], key).value)
    {
      var hash := HashDjb2(key);
      var bucket := hash % cap;
      var chain := table[bucket];
      var i := Find(chain, key);
      e := if i < |chain| then Some(chain[i]) else None;
    }

    /** hashtable_remove: true, with exactly that entry unlinked and the
        counter one lower, when the key was present; false, with the table
        unchanged, when it was not. */
    method Remove(key: Bytes) returns (removed: bool)
      requires Valid() && cap > 0
      modifies this`entries, table
      ensures Valid()
      ensures removed <==> old(Lookup(table[..], key)).Some?
      ensures table[..] == RemoveIn(old(table[..]), key)
      ensures !removed ==> table[..] == old(table[..]) && entries == old(entries)
      ensures removed ==> entries == old(entries) - 1
      ensures forall k :: Lookup(table[..], k) == if k == key then None else old(Lookup(table[..], k))
    {
      var hash := HashDjb2(key);
      var bucket := hash % cap;
      var chain := table[bucket];
      var i := Find(chain, key);
      ghost var before := table[..];
      RemoveInLookup(before, key, key);
      forall k ensures Lookup(RemoveIn(before, key), k) == if k == key then None else Lookup(before, k) {
        RemoveInLookup(before, key, k);
      }
      if i < |chain| {
        ChainRemoveAt(chain, key, i);
        table[bucket] := chain[..i] + chain[i + 1..];
        assert table[..] == RemoveIn(before, key);
        entries := entries - 1;
        removed := true;
      } else {
        RemoveInMiss(before, key);
        removed := false;
      }
    }

    /** hashtable_resize: a bucket array of twice the capacity into which
        every entry is re-inserted with the logic of `set`, bucket by bucket
        and in chain order. The mapping and the counter are kept, and each
        new bucket holds its entries in their old chain order. */
    method Resize()
      requires Valid() && cap > 0
      modifies this
      ensures Valid() && fresh(table)
      ensures cap == 2 * old(cap) && entries == old(entries) && loadFactor == old(loadFactor)
      ensures table[..] == Rehash(old(table[..]), cap)
      ensures forall k :: Lookup(table[..], k) == old(Lookup(table[..], k))
      ensures forall b :: 0 <= b < cap ==> table[b] == Keep(old(table[..])[b % old(cap)], cap, b)
    {
      var n := 2 * cap;
      var bigger := Rehashed(table, n);
      RehashPreserves(old(table[..]), n);
      forall b | 0 <= b < n ensures bigger[b] == Keep(old(table[..])[b % cap], n, b) {
        RehashKeepsChainOrder(old(table[..]), b);
      }
      table := bigger;
      cap := n;
    }

    /** hashtable_for_each: the callback runs once per stored entry, bucket
        by bucket and in chain order within a bucket; the result lists the
        entries passed to it, in order. */
    method ForEach() returns (calls: seq<Entry>)
      requires Valid()
      ensures calls == Flatten(table[..])
      ensures |calls| == entries && DistinctKeys(calls)
      ensures cap > 0 ==> forall k, v :: Entry(k, v) in calls <==> Lookup(table[..], k) == Some(v)
    {
      calls := Walk(table);
      FlattenPrefixDistinct(table[..], cap);
      assert table[..][..cap] == table[..];
      if cap > 0 {
        forall k, v ensures Entry(k, v) in calls <==> Lookup(table[..], k) == Some(v) {
          LookupIffTraversed(table[..], k, v);
        }
      }
    }

    /** hashtable_free: every entry is released once; the result lists them
        in the order they are freed. */
    method Free() returns (released: seq<Entry>)
      requires Valid()
      ensures released == Flatten(table[..]) && |released| == entries
    {
      released := Walk(table);
    }
  }

  /** The loops of a resize: a fresh array of `n` empty buckets into which
      every entry of `a` is put with the logic of `set`, bucket by bucket
      and head to tail. */
  method Rehashed(a: array<Chain>, n: nat) returns (bigger: array<Chain>)
    requires n > 0
    ensures fresh(bigger) && bigger[..] == Rehash(a[..], n)
  {
    bigger := new Chain[n](_ => []);
    assert bigger[..] == Empty(n);
    var b := 0;
    while b < a.Length
      invariant b <= a.Length
      invariant bigger.Length == n
      invariant bigger[..] == InsertAll(Empty(n), Flatten(a[..b]))
    {
      PutChain(bigger, a[b]);
      InsertAllAppend(Empty(n), Flatten(a[..b]), a[b]);
      FlattenSnoc(a[..], b);
      assert a[..][..b] == a[..b] && a[..][..b + 1] == a[..b + 1];
      b := b + 1;
    }
    assert a[..b] == a[..];
  }

  /** The inner loop of a resize: the entries of one old chain put into
      the new buckets, head to tail. */
  method PutChain(bigger: array<Chain>, chain: Chain)
    requires bigger.Length > 0
    modifies bigger
    ensures bigger[..] == InsertAll(old(bigger[..]), chain)
  {
    var i := 0;
    while i < |chain|
      invariant i <= |chain|
      invariant bigger[..] == InsertAll(old(bigger[..]), chain[..i])
    {
      var _ := Put(bigger, chain[i].key, chain[i].val);
      InsertAllSnoc(old(bigger[..]), chain[..i], chain[i]);
      assert chain[..i + 1] == chain[..i] + [chain[i]];
      i := i + 1;
    }
    assert chain[..i] == chain;
  }
}
