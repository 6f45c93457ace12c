/**
  Chains and bucket arrays: the part of hashtable/hashtable.c that both
  revisions of the table share, and that hashtable/hashtable.h keeps.

  A chain (a linked list of `struct entry` in the source) is modelled as the
  sequence of its entries, head first. A bucket array (`struct entry**
  table`) is a sequence of chains for the specification functions and an
  `array<seq<Entry>>` for the methods. An entry is chosen for the bucket
  `Djb2(key) % capacity`.

  The specification functions below are recursive reference definitions;
  the methods walk the chains with loops as the C code does and are proved
  against them.
 */
module Buckets {
  import opened Hash

  datatype Option<T> = None | Some(value: T)

  /** One `struct entry`: owned copies of a key and of its value. */
  datatype Entry = Entry(key: Bytes, val: Bytes)

  type Chain = seq<Entry>

  // ---------------------------------------------------------------------
  // Chains
  // ---------------------------------------------------------------------

  /** The value of the first entry of `c` whose key is `k`; a value found
      is one the chain stores under `k`. */
  function ChainLookup(c: Chain, k: Bytes): (r: Option<Bytes>)
    ensures r.Some? ==> Entry(k, r.value) in c
  {
    if |c| == 0 then None
    else if c[0].key == k then Some(c[0].val)
    else ChainLookup(c[1..], k)
  }

  /** No two entries of a chain have equal keys. */
  ghost predicate DistinctKeys(c: Chain)
  {
    forall i, j :: 0 <= i < j < |c| ==> c[i].key != c[j].key
  }

  /** `set` on one chain: replace the value of the entry holding `k`, or
      append a new entry at the tail when there is none. Either way the
      chain then stores `(k, v)` and grows by at most one entry. */
  function ChainSet(c: Chain, k: Bytes, v: Bytes): (r: Chain)
    ensures Entry(k, v) in r
    ensures |c| <= |r| <= |c| + 1
  {
    if |c| == 0 then [Entry(k, v)]
    else if c[0].key == k then [c[0].(val := v)] + c[1..]
    else [c[0]] + ChainSet(c[1..], k, v)
  }

  /** `remove` on one chain: unlink the first entry holding `k`. Removal
      only takes entries away. */
  function ChainRemove(c: Chain, k: Bytes): (r: Chain)
    ensures multiset(r) <= multiset(c)
  {
    if |c| == 0 then []
    else
      assert c == [c[0]] + c[1..];
      if c[0].key == k then c[1..]
      else [c[0]] + ChainRemove(c[1..], k)
  }

  /** A lookup misses exactly when no entry holds the key. */
  lemma {:induction false} ChainLookupNone(c: Chain, k: Bytes)
    ensures ChainLookup(c, k).None? <==> forall i :: 0 <= i < |c| ==> c[i].key != k
  {
    if |c| > 0 {
      ChainLookupNone(c[1..], k);
      assert forall i :: 1 <= i < |c| ==> c[i] == c[1..][i - 1];
    }
  }

  /** A lookup finds the first entry that holds the key. */
  lemma {:induction false} ChainLookupAt(c: Chain, k: Bytes, i: nat)
    requires i < |c| && c[i].key == k
    requires forall j :: 0 <= j < i ==> c[j].key != k
    ensures ChainLookup(c, k) == Some(c[i].val)
  {
    if i > 0 {
      ChainLookupAt(c[1..], k, i - 1);
    }
  }

  /** With distinct keys, a lookup returns `v` exactly when the entry
      `(k, v)` is in the chain. */
  lemma {:induction false} ChainLookupMember(c: Chain, k: Bytes, v: Bytes)
    requires DistinctKeys(c)
    ensures ChainLookup(c, k) == Some(v) <==> Entry(k, v) in c
  {
    if |c| > 0 {
      assert DistinctKeys(c[1..]) by {
        forall i, j | 0 <= i < j < |c[1..]| ensures c[1..][i].key != c[1..][j].key {
          assert c[1..][i] == c[i + 1] && c[1..][j] == c[j + 1];
        }
      }
      ChainLookupMember(c[1..], k, v);
      if c[0].key == k {
        forall j | 0 <= j < |c[1..]| ensures c[1..][j].key != k {
          assert c[1..][j] == c[j + 1];
        }
      }
    }
  }

  /** `set` on a key already in the chain (at its first occurrence `i`)
      replaces that entry's value and nothing else. */
  lemma {:induction false} ChainSetReplaces(c: Chain, k: Bytes, v: Bytes, i: nat)
    requires i < |c| && c[i].key == k
    requires forall j :: 0 <= j < i ==> c[j].key != k
    ensures ChainSet(c, k, v) == c[i := c[i].(val := v)]
  {
    if i > 0 {
      ChainSetReplaces(c[1..], k, v, i - 1);
      assert c[i := c[i].(val := v)] == [c[0]] + c[1..][i - 1 := c[i].(val := v)];
    }
  }

  /** `set` on a key absent from the chain appends one entry at the tail
      and keeps the earlier entries in order. */
  lemma {:induction false} ChainSetAppends(c: Chain, k: Bytes, v: Bytes)
    requires forall j :: 0 <= j < |c| ==> c[j].key != k
    ensures ChainSet(c, k, v) == c + [Entry(k, v)]
  {
    if |c| > 0 {
      ChainSetAppends(c[1..], k, v);
      assert c + [Entry(k, v)] == [c[0]] + (c[1..] + [Entry(k, v)]);
    }
  }

  /** After `set(k, v)` the chain maps `k` to `v` and every other key as
      before. */
  lemma {:induction false} ChainSetLookup(c: Chain, k: Bytes, v: Bytes, k': Bytes)
    ensures ChainLookup(ChainSet(c, k, v), k') == if k' == k then Some(v) else ChainLookup(c, k')
  {
    if |c| > 0 && c[0].key != k {
      ChainSetLookup(c[1..], k, v, k');
      assert ([c[0]] + ChainSet(c[1..], k, v))[1..] == ChainSet(c[1..], k, v);
    } else if |c| > 0 {
      assert ([c[0].(val := v)] + c[1..])[1..] == c[1..];
    }
  }

  /** Every entry after `set(k, v)` was there before or holds `k`. */
  lemma {:induction false} ChainSetMembers(c: Chain, k: Bytes, v: Bytes)
    ensures forall e :: e in ChainSet(c, k, v) ==> e in c || e.key == k
  {
    if |c| > 0 && c[0].key != k {
      ChainSetMembers(c[1..], k, v);
    }
  }

  /** `set` adds one entry for a new key and none for a present one. */
  lemma {:induction false} ChainSetLength(c: Chain, k: Bytes, v: Bytes)
    ensures |ChainSet(c, k, v)| == |c| + (if ChainLookup(c, k).None? then 1 else 0)
  {
    if |c| > 0 && c[0].key != k {
      ChainSetLength(c[1..], k, v);
    }
  }

  /** `set` never puts two entries with equal keys in a chain. */
  lemma {:induction false} ChainSetDistinct(c: Chain, k: Bytes, v: Bytes)
    requires DistinctKeys(c)
    ensures DistinctKeys(ChainSet(c, k, v))
  {
    var r := ChainSet(c, k, v);
    if |c| == 0 {
    } else if c[0].key == k {
      forall i, j | 0 <= i < j < |r| ensures r[i].key != r[j].key {
        assert r[i].key == c[i].key && r[j].key == c[j].key;
      }
    } else {
      assert DistinctKeys(c[1..]) by {
        forall i, j | 0 <= i < j < |c[1..]| ensures c[1..][i].key != c[1..][j].key {
          assert c[1..][i] == c[i + 1] && c[1..][j] == c[j + 1];
        }
      }
      ChainSetDistinct(c[1..], k, v);
      ChainSetMembers(c[1..], k, v);
      forall j | 1 <= j < |r| ensures r[0].key != r[j].key {
        assert r[j] in ChainSet(c[1..], k, v);
      }
    }
  }

  /** A second `set` of the same key overwrites the first. */
  lemma {:induction false} ChainSetTwice(c: Chain, k: Bytes, v1: Bytes, v2: Bytes)
    ensures ChainSet(ChainSet(c, k, v1), k, v2) == ChainSet(c, k, v2)
  {
    if |c| == 0 {
    } else if c[0].key == k {
      assert ([c[0].(val := v1)] + c[1..])[1..] == c[1..];
    } else {
      ChainSetTwice(c[1..], k, v1, v2);
      assert ([c[0]] + ChainSet(c[1..], k, v1))[1..] == ChainSet(c[1..], k, v1);
    }
  }

  /** `remove` unlinks the first entry holding the key and closes the gap. */
  lemma {:induction false} ChainRemoveAt(c: Chain, k: Bytes, i: nat)
    requires i < |c| && c[i].key == k
    requires forall j :: 0 <= j < i ==> c[j].key != k
    ensures ChainRemove(c, k) == c[..i] + c[i + 1..]
  {
    if i > 0 {
      ChainRemoveAt(c[1..], k, i - 1);
      assert c[..i] + c[i + 1..] == [c[0]] + (c[1..][..i - 1] + c[1..][i..]);
    }
  }

  /** `remove` of a key the chain does not hold leaves it unchanged. */
  lemma {:induction false} ChainRemoveAbsent(c: Chain, k: Bytes)
    requires forall j :: 0 <= j < |c| ==> c[j].key != k
    ensures ChainRemove(c, k) == c
  {
    if |c| > 0 {
      ChainRemoveAbsent(c[1..], k);
    }
  }

  /** Every entry left after `remove` was there before. */
  lemma {:induction false} ChainRemoveMembers(c: Chain, k: Bytes)
    ensures forall e :: e in ChainRemove(c, k) ==> e in c
  {
    if |c| > 0 && c[0].key != k {
      ChainRemoveMembers(c[1..], k);
    }
  }

  /** `remove` deletes one entry for a present key and none otherwise. */
  lemma {:induction false} ChainRemoveLength(c: Chain, k: Bytes)
    ensures |ChainRemove(c, k)| == |c| - (if ChainLookup(c, k).Some? then 1 else 0)
  {
    if |c| > 0 && c[0].key != k {
      ChainRemoveLength(c[1..], k);
    }
  }

  /** In a chain with distinct keys, after `remove(k)` the key is gone and
      every other key maps as before; the keys stay distinct. */
  lemma {:induction false} ChainRemoveLookup(c: Chain, k: Bytes, k': Bytes)
    requires DistinctKeys(c)
    ensures DistinctKeys(ChainRemove(c, k))
    ensures ChainLookup(ChainRemove(c, k), k') == if k' == k then None else ChainLookup(c, k')
  {
    if |c| > 0 {
      var t := c[1..];
      assert DistinctKeys(t) by {
        forall i, j | 0 <= i < j < |t| ensures t[i].key != t[j].key {
          assert t[i] == c[i + 1] && t[j] == c[j + 1];
        }
      }
      if c[0].key == k {
        assert forall j :: 0 <= j < |t| ==> t[j].key != k by {
          forall j | 0 <= j < |t| ensures t[j].key != k {
            assert t[j] == c[j + 1];
          }
        }
        ChainLookupNone(t, k);
      } else {
        ChainRemoveLookup(t, k, k');
        ChainRemoveMembers(t, k);
        var r := ChainRemove(c, k);
        assert r == [c[0]] + ChainRemove(t, k);
        forall j | 1 <= j < |r| ensures r[0].key != r[j].key {
          assert r[j] in ChainRemove(t, k);
          assert r[j] in t;
        }
        assert r[1..] == ChainRemove(t, k);
      }
    }
  }

  /** Setting a new key and then removing it restores the chain exactly. */
  lemma {:induction false} ChainRemoveAfterAppend(c: Chain, k: Bytes, v: Bytes)
    requires ChainLookup(c, k).None?
    ensures ChainRemove(ChainSet(c, k, v), k) == c
  {
    if |c| > 0 {
      ChainRemoveAfterAppend(c[1..], k, v);
      assert ([c[0]] + ChainSet(c[1..], k, v))[1..] == ChainSet(c[1..], k, v);
    }
  }

  // ---------------------------------------------------------------------
  // Bucket arrays
  // ---------------------------------------------------------------------

  /** The bucket of a key among `n` buckets: `hash % size`, always a valid
      index when there is at least one bucket. */
  function Bucket(k: Bytes, n: nat): (b: nat)
    requires n > 0
    ensures b < n
  {
    Djb2(k) % n
  }

  /** `get` on a bucket array: look the key up in the chain of its bucket;
      a value found is stored under `k` in that bucket. */
  function Lookup(bs: seq<Chain>, k: Bytes): (r: Option<Bytes>)
    requires |bs| > 0
    ensures r.Some? ==> Entry(k, r.value) in bs[Bucket(k, |bs|)]
  {
    ChainLookup(bs[Bucket(k, |bs|)], k)
  }

  /** The table invariants: every entry sits in the bucket its key hashes
      to, and no chain holds two entries with equal keys. */
  ghost predicate WellFormed(bs: seq<Chain>)
  {
    && (forall b, i :: 0 <= b < |bs| && 0 <= i < |bs[b]| ==> Bucket(bs[b][i].key, |bs|) == b)
    && (forall b :: 0 <= b < |bs| ==> DistinctKeys(bs[b]))
  }

  /** `n` empty buckets, as `calloc` leaves them. */
  function Empty(n: nat): (bs: seq<Chain>)
    ensures |bs| == n && forall b :: 0 <= b < n ==> bs[b] == []
  {
    seq(n, _ => [])
  }

  /** `set` on a bucket array: only the key's bucket changes, and it then
      stores `(k, v)`. */
  function SetIn(bs: seq<Chain>, k: Bytes, v: Bytes): (r: seq<Chain>)
    requires |bs| > 0
    ensures |r| == |bs| && Entry(k, v) in r[Bucket(k, |bs|)]
    ensures forall b :: 0 <= b < |bs| && b != Bucket(k, |bs|) ==> r[b] == bs[b]
  {
    var b := Bucket(k, |bs|);
    bs[b := ChainSet(bs[b], k, v)]
  }

  /** `remove` on a bucket array: only the key's bucket changes, and it
      only loses entries. */
  function RemoveIn(bs: seq<Chain>, k: Bytes): (r: seq<Chain>)
    requires |bs| > 0
    ensures |r| == |bs| && multiset(r[Bucket(k, |bs|)]) <= multiset(bs[Bucket(k, |bs|)])
    ensures forall b :: 0 <= b < |bs| && b != Bucket(k, |bs|) ==> r[b] == bs[b]
  {
    var b := Bucket(k, |bs|);
    bs[b := ChainRemove(bs[b], k)]
  }

  /** All entries, bucket by bucket in index order and in chain order within
      a bucket: the order of a full traversal. */
  function Flatten(bs: seq<Chain>): seq<Entry>
  {
    if |bs| == 0 then [] else Flatten(bs[..|bs| - 1]) + bs[|bs| - 1]
  }

  /** Insert the entries of `es`, first to last, with `set`. */
  function InsertAll(bs: seq<Chain>, es: seq<Entry>): (r: seq<Chain>)
    requires |bs| > 0
    ensures |r| == |bs|
  {
    if |es| == 0 then bs
    else
      var last := es[|es| - 1];
      SetIn(InsertAll(bs, es[..|es| - 1]), last.key, last.val)
  }

  lemma InsertAllSnoc(bs: seq<Chain>, es: seq<Entry>, e: Entry)
    requires |bs| > 0
    ensures InsertAll(bs, es + [e]) == SetIn(InsertAll(bs, es), e.key, e.val)
  {
    assert (es + [e])[..|es|] == es;
  }

  /** Inserting `xs` and then `ys` is inserting `xs + ys`. */
  lemma {:induction false} InsertAllAppend(bs: seq<Chain>, xs: seq<Entry>, ys: seq<Entry>)
    requires |bs| > 0
    ensures InsertAll(InsertAll(bs, xs), ys) == InsertAll(bs, xs + ys)
    decreases |ys|
  {
    if |ys| == 0 {
      assert xs + ys == xs;
    } else {
      var m := |ys| - 1;
      InsertAllAppend(bs, xs, ys[..m]);
      var zs := xs + ys;
      assert zs[..|zs| - 1] == xs + ys[..m] && zs[|zs| - 1] == ys[m];
      assert InsertAll(bs, zs) == SetIn(InsertAll(bs, xs + ys[..m]), ys[m].key, ys[m].val);
    }
  }

  lemma FlattenSnoc(bs: seq<Chain>, b: nat)
    requires b < |bs|
    ensures Flatten(bs[..b + 1]) == Flatten(bs[..b]) + bs[b]
  {
    assert bs[..b + 1][..b] == bs[..b];
  }

  /** The bucket array a resize to `n` buckets builds: every entry of the
      old table re-inserted, in traversal order, into `n` empty buckets. */
  function Rehash(bs: seq<Chain>, n: nat): (r: seq<Chain>)
    requires n > 0
    ensures |r| == n
  {
    InsertAll(Empty(n), Flatten(bs))
  }

  /** The value of the last entry of `es` holding `k`. */
  function SeqLookup(es: seq<Entry>, k: Bytes): Option<Bytes>
  {
    if |es| == 0 then None
    else if es[|es| - 1].key == k then Some(es[|es| - 1].val)
    else SeqLookup(es[..|es| - 1], k)
  }

  lemma {:induction false} SeqLookupNone(es: seq<Entry>, k: Bytes)
    ensures SeqLookup(es, k).None? <==> forall i :: 0 <= i < |es| ==> es[i].key != k
  {
    if |es| > 0 {
      SeqLookupNone(es[..|es| - 1], k);
    }
  }

  lemma {:induction false} SeqLookupMember(es: seq<Entry>, k: Bytes, v: Bytes)
    requires DistinctKeys(es)
    ensures SeqLookup(es, k) == Some(v) <==> Entry(k, v) in es
  {
    if |es| > 0 {
      var n := |es| - 1;
      var init := es[..n];
      assert DistinctKeys(init);
      SeqLookupMember(init, k, v);
      assert es == init + [es[n]];
      if es[n].key == k {
        forall j | 0 <= j < n ensures init[j].key != k {
          assert init[j] == es[j];
        }
      }
    }
  }

  /** Replacing one chain changes the entry count by the difference in
      that chain's length. */
  lemma {:induction false} FlattenUpdateLength(bs: seq<Chain>, b: nat, c: Chain)
    requires b < |bs|
    ensures |Flatten(bs[b := c])| == |Flatten(bs)| - |bs[b]| + |c|
  {
    var n := |bs| - 1;
    if b == n {
      assert bs[b := c][..n] == bs[..n];
    } else {
      FlattenUpdateLength(bs[..n], b, c);
      assert bs[b := c][..n] == bs[..n][b := c];
    }
  }

  lemma {:induction false} FlattenEmpty(n: nat)
    ensures Flatten(Empty(n)) == []
  {
    if n > 0 {
      assert Empty(n)[..n - 1] == Empty(n - 1);
      FlattenEmpty(n - 1);
    }
  }

  /** An entry is traversed exactly when some bucket holds it. */
  lemma {:induction false} FlattenMember(bs: seq<Chain>, e: Entry)
    ensures e in Flatten(bs) <==> exists b :: 0 <= b < |bs| && e in bs[b]
  {
    if |bs| > 0 {
      var n := |bs| - 1;
      FlattenMember(bs[..n], e);
      if e in Flatten(bs[..n]) {
        var b :| 0 <= b < n && e in bs[..n][b];
        assert e in bs[b];
      }
      if exists b :: 0 <= b < |bs| && e in bs[b] {
        var b :| 0 <= b < |bs| && e in bs[b];
        if b < n {
          assert e in bs[..n][b];
        }
      }
    }
  }

  /** In a well-formed table, the traversal of the first `m` buckets holds
      distinct keys, all of which hash below `m`. */
  lemma {:induction false} FlattenPrefixDistinct(bs: seq<Chain>, m: nat)
    requires WellFormed(bs) && m <= |bs|
    ensures DistinctKeys(Flatten(bs[..m]))
    ensures forall e :: e in Flatten(bs[..m]) ==> Bucket(e.key, |bs|) < m
  {
    if m > 0 {
      FlattenPrefixDistinct(bs, m - 1);
      var x := Flatten(bs[..m - 1]);
      var y := bs[m - 1];
      assert bs[..m][..m - 1] == bs[..m - 1];
      assert Flatten(bs[..m]) == x + y;
      forall e | e in y ensures Bucket(e.key, |bs|) == m - 1 {
        var i :| 0 <= i < |y| && y[i] == e;
      }
      forall i, j | 0 <= i < j < |x + y| ensures (x + y)[i].key != (x + y)[j].key {
        if j < |x| {
          assert (x + y)[i] == x[i] && (x + y)[j] == x[j];
        } else if i >= |x| {
          assert (x + y)[i] == y[i - |x|] && (x + y)[j] == y[j - |x|];
        } else {
          assert (x + y)[i] == x[i] && (x + y)[j] == y[j - |x|];
          assert x[i] in x && y[j - |x|] in y;
        }
      }
    }
  }

  /** Traversal completeness: a well-formed table's traversal holds each
      key once, and holds `(k, v)` exactly when `get(k)` returns `v`. */
  lemma {:induction false} LookupIffTraversed(bs: seq<Chain>, k: Bytes, v: Bytes)
    requires |bs| > 0 && WellFormed(bs)
    ensures DistinctKeys(Flatten(bs))
    ensures Lookup(bs, k) == Some(v) <==> Entry(k, v) in Flatten(bs)
  {
    FlattenPrefixDistinct(bs, |bs|);
    assert bs[..|bs|] == bs;
    var b := Bucket(k, |bs|);
    ChainLookupMember(bs[b], k, v);
    FlattenMember(bs, Entry(k, v));
    if Entry(k, v) in Flatten(bs) {
      var b' :| 0 <= b' < |bs| && Entry(k, v) in bs[b'];
      var i :| 0 <= i < |bs[b']| && bs[b'][i] == Entry(k, v);
      assert b' == b;
    }
  }

  /** After `set(k, v)` the table maps `k` to `v` and every other key as
      before. */
  lemma {:induction false} SetInLookup(bs: seq<Chain>, k: Bytes, v: Bytes, k': Bytes)
    requires |bs| > 0
    ensures Lookup(SetIn(bs, k, v), k') == if k' == k then Some(v) else Lookup(bs, k')
  {
    if Bucket(k', |bs|) == Bucket(k, |bs|) {
      ChainSetLookup(bs[Bucket(k, |bs|)], k, v, k');
    }
  }

  /** `set` keeps every entry in its bucket and the keys of each chain
      distinct. */
  lemma {:induction false} SetInWellFormed(bs: seq<Chain>, k: Bytes, v: Bytes)
    requires |bs| > 0 && WellFormed(bs)
    ensures WellFormed(SetIn(bs, k, v))
  {
    var b := Bucket(k, |bs|);
    var c := ChainSet(bs[b], k, v);
    ChainSetMembers(bs[b], k, v);
    ChainSetDistinct(bs[b], k, v);
    forall i | 0 <= i < |c| ensures Bucket(c[i].key, |bs|) == b {
      assert c[i] in c;
      if c[i] in bs[b] {
        var j :| 0 <= j < |bs[b]| && bs[b][j] == c[i];
      }
    }
  }

  /** `set` adds one entry for a new key and none for a present one. */
  lemma {:induction false} SetInCount(bs: seq<Chain>, k: Bytes, v: Bytes)
    requires |bs| > 0
    ensures |Flatten(SetIn(bs, k, v))| == |Flatten(bs)| + (if Lookup(bs, k).None? then 1 else 0)
  {
    var b := Bucket(k, |bs|);
    FlattenUpdateLength(bs, b, ChainSet(bs[b], k, v));
    ChainSetLength(bs[b], k, v);
  }

  /** Update semantics: a second `set` of the same key overwrites the
      first, leaving a single entry for it. */
  lemma SetInTwice(bs: seq<Chain>, k: Bytes, v1: Bytes, v2: Bytes)
    requires |bs| > 0
    ensures SetIn(SetIn(bs, k, v1), k, v2) == SetIn(bs, k, v2)
  {
    ChainSetTwice(bs[Bucket(k, |bs|)], k, v1, v2);
  }

  /** `remove` keeps every entry in the bucket its key hashes to and the
      keys of each chain distinct. */
  lemma RemoveInWellFormed(bs: seq<Chain>, k: Bytes)
    requires |bs| > 0 && WellFormed(bs)
    ensures WellFormed(RemoveIn(bs, k))
  {
    var b := Bucket(k, |bs|);
    var c := ChainRemove(bs[b], k);
    ChainRemoveLookup(bs[b], k, k);
    ChainRemoveMembers(bs[b], k);
    forall i | 0 <= i < |c| ensures Bucket(c[i].key, |bs|) == b {
      assert c[i] in c;
      var j :| 0 <= j < |bs[b]| && bs[b][j] == c[i];
    }
    assert RemoveIn(bs, k) == bs[b := c];
  }

  /** After `remove(k)` the key is absent and every other key maps as
      before; the invariants and the count follow the removal. */
  lemma RemoveInLookup(bs: seq<Chain>, k: Bytes, k': Bytes)
    requires |bs| > 0 && WellFormed(bs)
    ensures WellFormed(RemoveIn(bs, k))
    ensures Lookup(RemoveIn(bs, k), k') == if k' == k then None else Lookup(bs, k')
    ensures |Flatten(RemoveIn(bs, k))| == |Flatten(bs)| - (if Lookup(bs, k).Some? then 1 else 0)
  {
    var b := Bucket(k, |bs|);
    var c := ChainRemove(bs[b], k);
    RemoveInWellFormed(bs, k);
    ChainRemoveLookup(bs[b], k, k');
    ChainRemoveLength(bs[b], k);
    FlattenUpdateLength(bs, b, c);
  }

  /** Removing a key the table does not hold changes nothing. */
  lemma RemoveInMiss(bs: seq<Chain>, k: Bytes)
    requires |bs| > 0 && Lookup(bs, k).None?
    ensures RemoveIn(bs, k) == bs
  {
    var b := Bucket(k, |bs|);
    ChainLookupNone(bs[b], k);
    ChainRemoveAbsent(bs[b], k);
  }

  /** Setting a new key and removing it again restores the table exactly. */
  lemma RemoveInAfterSetIn(bs: seq<Chain>, k: Bytes, v: Bytes)
    requires |bs| > 0 && Lookup(bs, k).None?
    ensures RemoveIn(SetIn(bs, k, v), k) == bs
  {
    ChainRemoveAfterAppend(bs[Bucket(k, |bs|)], k, v);
  }

  /** Inserting a sequence of entries into empty buckets maps each key to
      the last value given for it. */
  lemma {:induction false} InsertAllLookup(n: nat, es: seq<Entry>, k: Bytes)
    requires n > 0
    ensures Lookup(InsertAll(Empty(n), es), k) == SeqLookup(es, k)
  {
    if |es| > 0 {
      var last := es[|es| - 1];
      InsertAllLookup(n, es[..|es| - 1], k);
      SetInLookup(InsertAll(Empty(n), es[..|es| - 1]), last.key, last.val, k);
    }
  }

  lemma {:induction false} InsertAllWellFormed(n: nat, es: seq<Entry>)
    requires n > 0
    ensures WellFormed(InsertAll(Empty(n), es))
  {
    if |es| > 0 {
      var last := es[|es| - 1];
      InsertAllWellFormed(n, es[..|es| - 1]);
      SetInWellFormed(InsertAll(Empty(n), es[..|es| - 1]), last.key, last.val);
    }
  }

  /** Inserting entries with distinct keys into empty buckets stores each
      of them. */
  lemma {:induction false} InsertAllCount(n: nat, es: seq<Entry>)
    requires n > 0 && DistinctKeys(es)
    ensures |Flatten(InsertAll(Empty(n), es))| == |es|
  {
    if |es| == 0 {
      FlattenEmpty(n);
    } else {
      var m := |es| - 1;
      var last := es[m];
      var init := es[..m];
      assert DistinctKeys(init);
      InsertAllCount(n, init);
      InsertAllLookup(n, init, last.key);
      SeqLookupNone(init, last.key);
      SetInCount(InsertAll(Empty(n), init), last.key, last.val);
    }
  }

  /** A resize keeps the invariants, the entry count and the key-to-value
      mapping. */
  lemma RehashPreserves(bs: seq<Chain>, n: nat)
    requires |bs| > 0 && WellFormed(bs) && n > 0
    ensures WellFormed(Rehash(bs, n))
    ensures |Flatten(Rehash(bs, n))| == |Flatten(bs)|
    ensures forall k :: Lookup(Rehash(bs, n), k) == Lookup(bs, k)
  {
    var es := Flatten(bs);
    InsertAllWellFormed(n, es);
    FlattenPrefixDistinct(bs, |bs|);
    assert bs[..|bs|] == bs;
    InsertAllCount(n, es);
    forall k ensures Lookup(Rehash(bs, n), k) == Lookup(bs, k) {
      InsertAllLookup(n, es, k);
      match Lookup(bs, k)
      case Some(v) =>
        LookupIffTraversed(bs, k, v);
        SeqLookupMember(es, k, v);
      case None =>
        if SeqLookup(es, k).Some? {
          var v := SeqLookup(es, k).value;
          SeqLookupMember(es, k, v);
          LookupIffTraversed(bs, k, v);
        }
    }
  }

  // ---------------------------------------------------------------------
  // The chain walks of the source, as methods
  // ---------------------------------------------------------------------

  /** The entries of `es` whose key falls in bucket `b` of `n`, in the
      order `es` gives them. */
  function Keep(es: seq<Entry>, n: nat, b: nat): seq<Entry>
    requires n > 0
  {
    if |es| == 0 then []
    else
      var last := es[|es| - 1];
      Keep(es[..|es| - 1], n, b) + (if Bucket(last.key, n) == b then [last] else [])
  }

  /** Every entry kept is an entry of `es` that falls in bucket `b`. */
  lemma {:induction false} KeepMembers(es: seq<Entry>, n: nat, b: nat)
    requires n > 0
    ensures forall e :: e in Keep(es, n, b) ==> e in es && Bucket(e.key, n) == b
  {
    if |es| > 0 {
      KeepMembers(es[..|es| - 1], n, b);
    }
  }

  /** Selecting a bucket's entries distributes over concatenation. */
  lemma {:induction false} KeepAppend(xs: seq<Entry>, ys: seq<Entry>, n: nat, b: nat)
    requires n > 0
    ensures Keep(xs + ys, n, b) == Keep(xs, n, b) + Keep(ys, n, b)
    decreases |ys|
  {
    if |ys| == 0 {
      assert xs + ys == xs;
    } else {
      var m := |ys| - 1;
      KeepAppend(xs, ys[..m], n, b);
      var zs := xs + ys;
      assert zs[..|zs| - 1] == xs + ys[..m] && zs[|zs| - 1] == ys[m];
      var t := if Bucket(ys[m].key, n) == b then [ys[m]] else [];
      calc {
        Keep(zs, n, b);
        Keep(xs + ys[..m], n, b) + t;
        (Keep(xs, n, b) + Keep(ys[..m], n, b)) + t;
        Keep(xs, n, b) + (Keep(ys[..m], n, b) + t);
        Keep(xs, n, b) + Keep(ys, n, b);
      }
    }
  }

  /** Inserting entries with distinct keys into empty buckets appends each
      one to the tail of its bucket, so every bucket holds its entries in
      the order they were inserted. */
  lemma {:induction false} InsertAllKeep(n: nat, es: seq<Entry>, b: nat)
    requires n > 0 && b < n && DistinctKeys(es)
    ensures InsertAll(Empty(n), es)[b] == Keep(es, n, b)
  {
    if |es| > 0 {
      var m := |es| - 1;
      var p := es[..m];
      var e := es[m];
      assert DistinctKeys(p);
      InsertAllKeep(n, p, b);
      var before := InsertAll(Empty(n), p);
      if Bucket(e.key, n) == b {
        var c := Keep(p, n, b);
        KeepMembers(p, n, b);
        forall j | 0 <= j < |c| ensures c[j].key != e.key {
          assert c[j] in c;
          var i :| 0 <= i < |p| && p[i] == c[j];
        }
        ChainSetAppends(c, e.key, e.val);
      }
    }
  }

  /** `(h % 2m) % m == h % m`: a bucket of the doubled table lies over
      bucket `b % m` of the old one. */
  lemma DoubledBucket(k: Bytes, m: nat)
    requires m > 0
    ensures Bucket(k, 2 * m) % m == Bucket(k, m)
  {
    var h := Djb2(k);
    var q := h / (2 * m);
    var r := h % (2 * m);
    assert h == (2 * q) * m + r;
    assert r == (r / m) * m + r % m;
    assert h == (2 * q + r / m) * m + r % m;
    ModUnique(h, m, 2 * q + r / m, r % m);
  }

  /** The remainder is the unique `r` in `[0, m)` with `x == q * m + r`. */
  lemma ModUnique(x: int, m: int, q: int, r: int)
    requires m > 0 && 0 <= r < m && x == q * m + r
    ensures x % m == r
  {
    var d := q - x / m;
    assert x == (x / m) * m + x % m;
    assert d * m == x % m - r;
  }

  /** In the traversal of the first `j` old buckets, the entries that fall
      in bucket `b` of the doubled table are those of old bucket `b % m`,
      once that bucket has been passed. */
  lemma {:induction false} KeepFlattenPrefix(bs: seq<Chain>, b: nat, j: nat)
    requires |bs| > 0 && WellFormed(bs) && b < 2 * |bs| && j <= |bs|
    ensures Keep(Flatten(bs[..j]), 2 * |bs|, b) == if b % |bs| < j then Keep(bs[b % |bs|], 2 * |bs|, b) else []
  {
    var m := |bs|;
    var o := b % m;
    if j == 0 {
      assert bs[..0] == [];
    } else {
      KeepFlattenPrefix(bs, b, j - 1);
      FlattenSnoc(bs, j - 1);
      var prev := Keep(Flatten(bs[..j - 1]), 2 * m, b);
      var c := Keep(bs[j - 1], 2 * m, b);
      KeepAppend(Flatten(bs[..j - 1]), bs[j - 1], 2 * m, b);
      assert Keep(Flatten(bs[..j]), 2 * m, b) == prev + c;
      if j - 1 == o {
        assert prev == [];
        assert prev + c == c;
      } else {
        KeepMembers(bs[j - 1], 2 * m, b);
        if |c| > 0 {
          assert c[0] in c;
          DoubledBucket(c[0].key, m);
          assert false;
        }
        assert prev + c == prev;
      }
    }
  }

  /** hashtable_resize keeps chain order: bucket `b` of the doubled table
      holds, in their old order, the entries of old bucket `b % m` whose
      keys now hash to `b`. */
  lemma RehashKeepsChainOrder(bs: seq<Chain>, b: nat)
    requires |bs| > 0 && WellFormed(bs) && b < 2 * |bs|
    ensures Rehash(bs, 2 * |bs|)[b] == Keep(bs[b % |bs|], 2 * |bs|, b)
  {
    FlattenPrefixDistinct(bs, |bs|);
    assert bs[..|bs|] == bs;
    InsertAllKeep(2 * |bs|, Flatten(bs), b);
    KeepFlattenPrefix(bs, b, |bs|);
  }


  /** Walk a chain from its head until an entry holds `k`; `i == |c|`
      means the walk fell off the end. */
  method Find(c: Chain, k: Bytes) returns (i: nat)
    ensures i <= |c|
    ensures forall j :: 0 <= j < i ==> c[j].key != k
    ensures i < |c| ==> c[i].key == k
    ensures ChainLookup(c, k) == if i < |c| then Some(c[i].val) else None
  {
    i := 0;
    while i < |c| && c[i].key != k
      invariant i <= |c|
      invariant forall j :: 0 <= j < i ==> c[j].key != k
    {
      i := i + 1;
    }
    if i < |c| {
      ChainLookupAt(c, k, i);
    } else {
      ChainLookupNone(c, k);
    }
  }

  /** The body of `set`: hash the key to its bucket; an empty bucket gets a
      one-entry chain; otherwise walk the chain and either replace the value
      of the entry holding the key or link a new entry after the last one.
      Reports whether an entry was added. */
  method Put(a: array<Chain>, key: Bytes, val: Bytes) returns (added: bool)
    requires a.Length > 0
    modifies a
    ensures a[..] == SetIn(old(a[..]), key, val)
    ensures added <==> Lookup(old(a[..]), key).None?
  {
    var hash := HashDjb2(key);
    var bucket := hash % a.Length;
    var chain := a[bucket];
    if |chain| == 0 {
      a[bucket] := [Entry(key, val)];
      return true;
    }
    var i := Find(chain, key);
    if i < |chain| {
      ChainSetReplaces(chain, key, val, i);
      a[bucket] := chain[i := chain[i].(val := val)];
      added := false;
    } else {
      ChainSetAppends(chain, key, val);
      a[bucket] := chain + [Entry(key, val)];
      added := true;
    }
  }

  /** Visit every bucket in index order and every entry of its chain from
      head to tail; the result lists the entries in the order visited. */
  method Walk(a: array<Chain>) returns (visited: seq<Entry>)
    ensures visited == Flatten(a[..])
  {
    visited := [];
    var b := 0;
    while b < a.Length
      invariant b <= a.Length
      invariant visited == Flatten(a[..b])
    {
      var chain := a[b];
      var i := 0;
      while i < |chain|
        invariant i <= |chain|
        invariant visited == Flatten(a[..b]) + chain[..i]
      {
        visited := visited + [chain[i]];
        i := i + 1;
      }
      assert a[..b + 1][..b] == a[..b];
      assert chain[..i] == chain;
      b := b + 1;
    }
    assert a[..b] == a[..];
  }
}
