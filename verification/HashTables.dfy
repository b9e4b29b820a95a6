/**
 lib/hash.cc: a hash table that grows by a factor of four, against the finite map that it stands for. A
 bucket's list is the sequence of its items (module Lists).
*/
module HashTables {
  import opened Common

  const INITIAL_BUCKETS := 4
  const RESIZE_RATIO := 3
  const INCREASE_SIZE_BY := 4

  /** How a table reads its items: the key of an item, and the hash of a key. */
  datatype Keys<!Key, !T> = Keys(getKey: T -> Key, hash: Key -> nat)

  /** HashValue for a table of n buckets. */
  function HashValue<Key, T>(f: Keys<Key, T>, n: nat, key: Key): (r: nat)
    requires n > 0
    ensures r < n
  {
    f.hash(key) % n
  }

  /** FindInBucket: the first item with the key. */
  function InBucket<Key(==), T>(f: Keys<Key, T>, bucket: seq<T>, key: Key): (r: Option<T>)
    ensures r.Some? ==> r.value in bucket && f.getKey(r.value) == key
    ensures r.None? ==> forall x :: x in bucket ==> f.getKey(x) != key
  {
    if bucket == [] then None
    else if key == f.getKey(bucket[0]) then Some(bucket[0])
    else InBucket(f, bucket[1..], key)
  }

  /** The finite map that the buckets stand for. */
  function Lookup<Key(==), T>(f: Keys<Key, T>, table: seq<seq<T>>, key: Key): Option<T>
    requires table != []
  {
    InBucket(f, table[HashValue(f, |table|, key)], key)
  }

  ghost predicate KeysDiffer<Key, T>(f: Keys<Key, T>, bucket: seq<T>) {
    forall i, j :: 0 <= i < j < |bucket| ==> f.getKey(bucket[i]) != f.getKey(bucket[j])
  }

  /** Every item sits in the bucket that its key hashes to, and no key is there twice. */
  ghost predicate TableOk<Key, T>(f: Keys<Key, T>, table: seq<seq<T>>) {
    && table != []
    && (forall i :: 0 <= i < |table| ==> KeysDiffer(f, table[i]))
    && (forall i, x :: 0 <= i < |table| && x in table[i] ==> HashValue(f, |table|, f.getKey(x)) == i)
  }

  function ItemCount<T>(table: seq<seq<T>>): nat {
    if table == [] then 0 else |table[0]| + ItemCount(table[1..])
  }

  lemma {:induction false} SizesAfterUpdate<T>(table: seq<seq<T>>, i: nat, b: seq<T>)
    requires i < |table|
    ensures ItemCount(table[i := b]) == ItemCount(table) - |table[i]| + |b|
  {
    if i > 0 {
      SizesAfterUpdate(table[1..], i - 1, b);
      assert table[i := b][1..] == table[1..][i - 1 := b];
    } else {
      assert table[i := b][1..] == table[1..];
    }
  }

  // ---------------------------------------------------------------- changes of one bucket

  lemma {:induction false} InAppended<Key, T>(f: Keys<Key, T>, bucket: seq<T>, item: T, key: Key)
    requires InBucket(f, bucket, f.getKey(item)).None?
    ensures InBucket(f, bucket + [item], key) == if key == f.getKey(item) then Some(item) else InBucket(f, bucket, key)
  {
    if bucket == [] {
      assert bucket + [item] == [item];
    } else {
      assert (bucket + [item])[1..] == bucket[1..] + [item];
      InAppended(f, bucket[1..], item, key);
    }
  }

  /** What lookups find after an item with a new key is appended to its bucket. */
  lemma AppendLookup<Key(!new), T>(f: Keys<Key, T>, table: seq<seq<T>>, item: T)
    requires TableOk(f, table) && Lookup(f, table, f.getKey(item)).None?
    ensures var b := HashValue(f, |table|, f.getKey(item));
            var after := table[b := table[b] + [item]];
            && TableOk(f, after) && ItemCount(after) == ItemCount(table) + 1
            && forall k :: Lookup(f, after, k) == if k == f.getKey(item) then Some(item) else Lookup(f, table, k)
  {
    var b := HashValue(f, |table|, f.getKey(item));
    var after := table[b := table[b] + [item]];
    SizesAfterUpdate(table, b, table[b] + [item]);
    forall k ensures Lookup(f, after, k) == if k == f.getKey(item) then Some(item) else Lookup(f, table, k) {
      InAppended(f, table[b], item, k);
    }
  }

  /** The bucket without its first occurrence of an item, as List::Remove leaves it. */
  function Without<T(==)>(bucket: seq<T>, item: T): (r: seq<T>)
    ensures forall x :: x in r ==> x in bucket
    ensures item in bucket ==> |r| == |bucket| - 1
  {
    if bucket == [] then []
    else if item == bucket[0] then bucket[1..]
    else [bucket[0]] + Without(bucket[1..], item)
  }

  lemma {:induction false} InWithout<Key, T>(f: Keys<Key, T>, bucket: seq<T>, item: T, key: Key)
    requires KeysDiffer(f, bucket) && item in bucket
    ensures KeysDiffer(f, Without(bucket, item))
    ensures InBucket(f, Without(bucket, item), key) == if key == f.getKey(item) then None else InBucket(f, bucket, key)
  {
    if item == bucket[0] {
      assert forall x :: x in bucket[1..] ==> f.getKey(x) != f.getKey(item);
    } else {
      var rest := bucket[1..];
      InWithout(f, rest, item, key);
      assert Without(bucket, item)[1..] == Without(rest, item);
      assert bucket[0] !in rest;
      forall i | 0 < i < |Without(bucket, item)| ensures f.getKey(bucket[0]) != f.getKey(Without(bucket, item)[i]) {
        assert Without(bucket, item)[i] == Without(rest, item)[i - 1]
          && Without(rest, item)[i - 1] in Without(rest, item);
      }
    }
  }

  lemma RemoveLookup<Key(!new), T>(f: Keys<Key, T>, table: seq<seq<T>>, item: T)
    requires TableOk(f, table) && Lookup(f, table, f.getKey(item)) == Some(item)
    ensures var b := HashValue(f, |table|, f.getKey(item));
            var after := table[b := Without(table[b], item)];
            && TableOk(f, after) && ItemCount(after) == ItemCount(table) - 1
            && forall k :: Lookup(f, after, k) == if k == f.getKey(item) then None else Lookup(f, table, k)
  {
    var b := HashValue(f, |table|, f.getKey(item));
    var after := table[b := Without(table[b], item)];
    SizesAfterUpdate(table, b, Without(table[b], item));
    InWithout(f, table[b], item, f.getKey(item));
    forall k ensures Lookup(f, after, k) == if k == f.getKey(item) then None else Lookup(f, table, k) {
      InWithout(f, table[b], item, k);
    }
  }

  // ---------------------------------------------------------------- growing

  /** `moved` and `rest` hold the items of `orig`, each in one of them. */
  ghost predicate Moving<Key(!new), T>(f: Keys<Key, T>, orig: seq<seq<T>>, rest: seq<seq<T>>, moved: seq<seq<T>>) {
    && orig != [] && TableOk(f, rest) && TableOk(f, moved)
    && (forall k :: Lookup(f, moved, k).None? || Lookup(f, rest, k).None?)
    && (forall k :: Lookup(f, orig, k) == if Lookup(f, moved, k).Some? then Lookup(f, moved, k) else Lookup(f, rest, k))
    && ItemCount(moved) + ItemCount(rest) == ItemCount(orig)
  }

  lemma {:induction false} AllEmpty<Key(!new), T>(f: Keys<Key, T>, table: seq<seq<T>>)
    requires table != [] && forall i :: 0 <= i < |table| ==> table[i] == []
    ensures TableOk(f, table) && ItemCount(table) == 0 && forall k :: Lookup(f, table, k).None?
  {
    if |table| > 1 {
      AllEmpty(f, table[1..]);
    } else {
      assert table[1..] == [];
    }
  }

  lemma MovingStarts<Key(!new), T>(f: Keys<Key, T>, orig: seq<seq<T>>, moved: seq<seq<T>>)
    requires TableOk(f, orig) && moved != [] && forall i :: 0 <= i < |moved| ==> moved[i] == []
    ensures Moving(f, orig, orig, moved)
  {
    AllEmpty(f, moved);
  }

  /** One turn of the inner loop of ReHash: the front item of bucket i moves to its new bucket. */
  lemma MovingStep<Key(!new), T>(
    f: Keys<Key, T>, orig: seq<seq<T>>, rest: seq<seq<T>>, moved: seq<seq<T>>, i: nat)
    requires Moving(f, orig, rest, moved) && i < |rest| && rest[i] != []
    ensures var b := HashValue(f, |moved|, f.getKey(rest[i][0]));
            rest[i][0] !in moved[b] && Moving(f, orig, rest[i := rest[i][1..]], moved[b := moved[b] + [rest[i][0]]])
  {
    var item := rest[i][0];
    assert item in rest[i];
    assert Lookup(f, rest, f.getKey(item)) == Some(item);
    assert Without(rest[i], item) == rest[i][1..];
    RemoveLookup(f, rest, item);
    AppendLookup(f, moved, item);
  }

  lemma MovingEnds<Key(!new), T>(f: Keys<Key, T>, orig: seq<seq<T>>, rest: seq<seq<T>>, moved: seq<seq<T>>)
    requires Moving(f, orig, rest, moved) && forall i :: 0 <= i < |rest| ==> rest[i] == []
    ensures TableOk(f, moved) && ItemCount(moved) == ItemCount(orig)
    ensures forall k :: Lookup(f, moved, k) == Lookup(f, orig, k)
  {
    AllEmpty(f, rest);
  }

  // ---------------------------------------------------------------- stepping through

  function Flatten<T>(table: seq<seq<T>>): seq<T> {
    if table == [] then [] else table[0] + Flatten(table[1..])
  }

  lemma {:induction false} FlattenHas<T>(table: seq<seq<T>>, x: T)
    ensures x in Flatten(table) <==> exists i :: 0 <= i < |table| && x in table[i]
  {
    if table != [] {
      FlattenHas(table[1..], x);
      if x in Flatten(table[1..]) {
        var i :| 0 <= i < |table[1..]| && x in table[1..][i];
        assert x in table[i + 1];
      }
      if i :| 1 <= i < |table| && x in table[i] {
        assert table[1..][i - 1] == table[i];
      }
    }
  }

  lemma {:induction false} FlattenSize<T>(table: seq<seq<T>>)
    ensures |Flatten(table)| == ItemCount(table)
  {
    if table != [] {
      FlattenSize(table[1..]);
    }
  }

  /** Bucket i and later ones hold no key twice. */
  lemma {:induction false} FlattenDiffers<Key, T>(f: Keys<Key, T>, table: seq<seq<T>>, i: nat)
    requires TableOk(f, table) && i <= |table|
    ensures KeysDiffer(f, Flatten(table[i..]))
    decreases |table| - i
  {
    if i < |table| {
      FlattenDiffers(f, table, i + 1);
      var first, later := table[i], Flatten(table[i + 1..]);
      assert table[i..][1..] == table[i + 1..];
      forall a, b | 0 <= a < |first| && 0 <= b < |later| ensures f.getKey(first[a]) != f.getKey(later[b]) {
        assert first[a] in table[i] && later[b] in later;
        FlattenHas(table[i + 1..], later[b]);
        var j :| 0 <= j < |table[i + 1..]| && later[b] in table[i + 1..][j];
        assert later[b] in table[i + 1 + j];
      }
    }
  }

  /** What steps through all items meets everything that the map holds, and nothing twice. */
  lemma EachOnce<Key, T>(f: Keys<Key, T>, table: seq<seq<T>>, x: T)
    requires TableOk(f, table)
    ensures x in Flatten(table) <==> Lookup(f, table, f.getKey(x)) == Some(x)
    ensures forall i, j :: 0 <= i < j < |Flatten(table)| ==> Flatten(table)[i] != Flatten(table)[j]
    ensures |Flatten(table)| == ItemCount(table)
  {
    FlattenSize(table);
    FlattenHas(table, x);
    FlattenDiffers(f, table, 0);
    assert table[0..] == table;
    var b := HashValue(f, |table|, f.getKey(x));
    if x in table[b] {
      FoundByKey(f, table[b], x);
    }
  }

  lemma {:induction false} FoundByKey<Key, T>(f: Keys<Key, T>, bucket: seq<T>, x: T)
    requires KeysDiffer(f, bucket) && x in bucket
    ensures InBucket(f, bucket, f.getKey(x)) == Some(x)
  {
  }

  // ---------------------------------------------------------------- the classes

  class HashTable<Key(==, !new), T(==)> {
    const f: Keys<Key, T>
    var buckets: array<seq<T>>
    var numBuckets: nat
    var numItems: nat

    /** The representation: the count is that of the items, and it never exceeds the ratio. */
    ghost predicate Valid()
      reads this, buckets
    {
      && numBuckets == buckets.Length && TableOk(f, buckets[..])
      && numItems == ItemCount(buckets[..])
      && numItems <= RESIZE_RATIO * numBuckets
    }

    /** The map from keys to items. */
    ghost function Get(key: Key): Option<T>
      requires buckets.Length > 0
      reads this, buckets
    {
      Lookup(f, buckets[..], key)
    }

    constructor (getKey: T -> Key, hash: Key -> nat)
      ensures Valid() && fresh(buckets) && f == Keys(getKey, hash)
      ensures numItems == 0 && numBuckets == INITIAL_BUCKETS && forall k :: Get(k).None?
    {
      f := Keys(getKey, hash);
      numItems, numBuckets := 0, INITIAL_BUCKETS;
      var table := EmptyBuckets<T>(INITIAL_BUCKETS);
      buckets := table;
      new;
      AllEmpty(f, buckets[..]);
    }

    /** FindInBucket, and its two results in one. */
    method FindInBucket(bucket: nat, key: Key) returns (item: Option<T>)
      requires bucket < buckets.Length
      ensures item == InBucket(f, buckets[bucket], key)
    {
      var list, i := buckets[bucket], 0;
      while i < |list|
        invariant 0 <= i <= |list| && InBucket(f, list, key) == InBucket(f, list[i..], key)
      {
        if key == f.getKey(list[i]) {
          return Some(list[i]);
        }
        i := i + 1;
      }
      return None;
    }

    method Find(key: Key) returns (item: Option<T>)
      requires Valid()
      ensures item == Get(key)
    {
      var bucket := HashValue(f, numBuckets, key);
      item := FindInBucket(bucket, key);
    }

    /** Four times as many buckets, and the same map. */
    method ReHash()
      requires Valid()
      modifies this, buckets
      ensures Valid() && fresh(buckets) && numBuckets == INCREASE_SIZE_BY * old(numBuckets)
      ensures numItems == old(numItems) && forall k :: Get(k) == old(Get(k))
    {
      var oldTable, oldSize := buckets, numBuckets;
      ghost var orig := buckets[..];
      buckets := EmptyBuckets<T>(numBuckets * INCREASE_SIZE_BY);
      numBuckets := numBuckets * INCREASE_SIZE_BY;
      MovingStarts(f, orig, buckets[..]);
      for i := 0 to oldSize
        invariant oldTable.Length == oldSize && buckets.Length == numBuckets == oldSize * INCREASE_SIZE_BY
        invariant fresh(buckets) && numItems == old(numItems) && Moving(f, orig, oldTable[..], buckets[..])
        invariant forall j :: 0 <= j < i ==> oldTable[j] == []
      {
        while oldTable[i] != []
          invariant oldTable.Length == oldSize && buckets.Length == numBuckets == oldSize * INCREASE_SIZE_BY
          invariant fresh(buckets) && numItems == old(numItems) && Moving(f, orig, oldTable[..], buckets[..])
          invariant forall j :: 0 <= j < i ==> oldTable[j] == []
          decreases |oldTable[i]|
        {
          MoveFront(orig, oldTable, i);
        }
      }
      MovingEnds(f, orig, oldTable[..], buckets[..]);
    }

    method MoveFront(ghost orig: seq<seq<T>>, oldTable: array<seq<T>>, i: nat)
      requires oldTable != buckets && numBuckets == buckets.Length
      requires i < oldTable.Length && oldTable[i] != [] && Moving(f, orig, oldTable[..], buckets[..])
      modifies oldTable, buckets
      ensures Moving(f, orig, oldTable[..], buckets[..])
      ensures oldTable[..] == old(oldTable[..])[i := old(oldTable[i])[1..]]
    {
      MovingStep(f, orig, oldTable[..], buckets[..], i);
      ghost var rest, moved := oldTable[..], buckets[..];
      var item := oldTable[i][0];
      oldTable[i] := oldTable[i][1..];
      var bucket := HashValue(f, numBuckets, f.getKey(item));
      assert item !in buckets[bucket];
      buckets[bucket] := buckets[bucket] + [item];
      assert oldTable[..] == rest[i := rest[i][1..]];
      assert buckets[..] == moved[bucket := moved[bucket] + [item]];
    }

    /** The assertion that the key is not in the table is the caller's to keep. */
    method Insert(item: T)
      requires Valid() && Get(f.getKey(item)).None?
      modifies this, buckets
      ensures Valid() && (buckets == old(buckets) || fresh(buckets))
      ensures numItems == old(numItems) + 1
      ensures numBuckets == if old(numItems) / old(numBuckets) >= 3 then 4 * old(numBuckets) else old(numBuckets)
      ensures item in buckets[f.hash(f.getKey(item)) % numBuckets]
      ensures forall k :: Get(k) == if k == f.getKey(item) then Some(item) else old(Get(k))
    {
      RatioKept(numItems, numBuckets);
      if numItems / numBuckets >= RESIZE_RATIO {
        ReHash();
      }
      Append(item);
    }

    /** Insert once there is room. */
    method Append(item: T)
      requires Valid() && Get(f.getKey(item)).None? && numItems < RESIZE_RATIO * numBuckets
      modifies this`numItems, buckets
      ensures Valid() && numItems == old(numItems) + 1
      ensures var b := f.hash(f.getKey(item)) % numBuckets;
              buckets[..] == old(buckets[..])[b := old(buckets[..])[b] + [item]]
      ensures forall k :: Get(k) == if k == f.getKey(item) then Some(item) else old(Get(k))
    {
      AppendLookup(f, buckets[..], item);
      ghost var table := buckets[..];
      var bucket := HashValue(f, numBuckets, f.getKey(item));
      assert item !in buckets[bucket];
      buckets[bucket] := buckets[bucket] + [item];
      assert buckets[..] == table[bucket := table[bucket] + [item]];
      numItems := numItems + 1;
    }

    /** The assertion that the item is in the table is the caller's to keep. */
    method Remove(key: Key) returns (item: T)
      requires Valid() && Get(key).Some?
      modifies this`numItems, buckets
      ensures Valid() && Some(item) == old(Get(key)) && numItems == old(numItems) - 1
      ensures forall k :: Get(k) == if k == key then None else old(Get(k))
    {
      var bucket := HashValue(f, numBuckets, key);
      var found := FindInBucket(bucket, key);
      assert found.Some?;
      item := found.value;
      RemoveLookup(f, buckets[..], item);
      ghost var table := buckets[..];
      buckets[bucket] := Without(buckets[bucket], item);
      assert buckets[..] == table[bucket := Without(table[bucket], item)];
      numItems := numItems - 1;
    }

    method FindNextFullBucket(start: nat) returns (bucket: nat)
      requires start <= buckets.Length == numBuckets
      ensures start <= bucket <= buckets.Length
      ensures forall j :: start <= j < bucket ==> buckets[j] == []
      ensures bucket < buckets.Length ==> buckets[bucket] != []
    {
      bucket := start;
      while bucket < numBuckets
        invariant start <= bucket <= numBuckets && forall j :: start <= j < bucket ==> buckets[j] == []
      {
        if buckets[bucket] != [] {
          break;
        }
        bucket := bucket + 1;
      }
    }
  }

  /** InitBuckets */
  method EmptyBuckets<T>(size: nat) returns (table: array<seq<T>>)
    ensures fresh(table) && table.Length == size && forall i :: 0 <= i < size ==> table[i] == []
  {
    table := new seq<T>[size];
    for i := 0 to size
      invariant forall j :: 0 <= j < i ==> table[j] == []
    {
      table[i] := [];
    }
  }

  lemma {:induction false} SkipEmpty<T>(table: seq<seq<T>>, i: nat, j: nat)
    requires i <= j <= |table| && forall k :: i <= k < j ==> table[k] == []
    ensures Flatten(table[i..]) == Flatten(table[j..])
    decreases j - i
  {
    if i < j {
      SkipEmpty(table, i + 1, j);
      assert table[i..][1..] == table[i + 1..];
    }
  }

  /** Below the ratio there is room for one more; at the ratio, there is after growing. */
  lemma RatioKept(items: nat, buckets: nat)
    requires buckets > 0 && items <= RESIZE_RATIO * buckets
    ensures items / buckets < RESIZE_RATIO ==> items < RESIZE_RATIO * buckets
    ensures items < RESIZE_RATIO * (INCREASE_SIZE_BY * buckets)
  {
  }

  /** The items from a place on. */
  function From<T>(all: seq<seq<T>>, bucket: nat, place: nat): seq<T>
    requires bucket <= |all| && (bucket < |all| ==> place <= |all[bucket]|)
  {
    if bucket == |all| then [] else all[bucket][place..] + Flatten(all[bucket + 1..])
  }

  /** What is left after the item at a place. */
  lemma PlaceAdvanced<T>(all: seq<seq<T>>, bucket: nat, place: nat, next: nat)
    requires bucket < |all| && place < |all[bucket]| && bucket < next <= |all|
    requires forall k :: bucket < k < next ==> all[k] == []
    ensures From(all, bucket, place)[1..] == From(all, bucket, place + 1)
    ensures place + 1 == |all[bucket]| ==> From(all, bucket, place)[1..] == Flatten(all[next..])
  {
    SkipEmpty(all, bucket + 1, next);
    TailOfSum(all[bucket][place..], Flatten(all[bucket + 1..]));
    assert all[bucket][place..][1..] == all[bucket][place + 1..];
  }

  lemma TailOfSum<T>(a: seq<T>, b: seq<T>)
    requires a != []
    ensures (a + b)[1..] == a[1..] + b && (|a| == 1 ==> (a + b)[1..] == b)
  {
  }

  lemma FlattenFrom<T>(all: seq<seq<T>>, i: nat)
    requires i <= |all|
    ensures Flatten(all[i..]) == From(all, i, 0)
  {
  }

  /** A place in the table: an item of a full bucket, or the end. */
  class HashIterator<Key(==, !new), T(==)> {
    const table: HashTable<Key, T>
    var bucket: nat
    var place: nat            // of bucketIter, in the bucket's list

    ghost var rest: seq<T>    // the items that are still to come, from the current one on

    ghost predicate Valid()
      reads this, table, table.buckets
    {
      && table.numBuckets == table.buckets.Length && bucket <= table.buckets.Length
      && (bucket < table.buckets.Length ==> place < |table.buckets[bucket]|)
      && rest == From(table.buckets[..], bucket, place)
    }

    constructor (table: HashTable<Key, T>)
      requires table.Valid()
      ensures Valid() && this.table == table && rest == Flatten(table.buckets[..])
    {
      this.table := table;
      var first := table.FindNextFullBucket(0);
      bucket, place, rest := first, 0, Flatten(table.buckets[..]);
      new;
      SkipEmpty(table.buckets[..], 0, bucket);
      FlattenFrom(table.buckets[..], bucket);
      assert table.buckets[..][0..] == table.buckets[..];
    }

    method IsDone() returns (done: bool)
      requires Valid()
      ensures done <==> rest == []
    {
      done := bucket == table.numBuckets;
    }

    method Item() returns (item: T)
      requires Valid() && rest != []
      ensures item == rest[0]
    {
      item := table.buckets[bucket][place];
    }

    method Next()
      requires Valid() && rest != []
      modifies this
      ensures Valid() && rest == old(rest)[1..]
    {
      PlaceAdvanced(table.buckets[..], bucket, place, bucket + 1);
      place := place + 1;
      if place == |table.buckets[bucket]| {
        var next := table.FindNextFullBucket(bucket + 1);
        PlaceAdvanced(table.buckets[..], bucket, place - 1, next);
        FlattenFrom(table.buckets[..], next);
        bucket, place := next, 0;
      }
      rest := rest[1..];
    }
  }

  lemma OneMore<T>(items: seq<T>, rest: seq<T>, more: seq<T>, all: seq<T>)
    requires rest != [] && more == items + [rest[0]] && items + rest == all
    ensures more + rest[1..] == all
  {
  }

  /** The loop over an unmodified table meets all items, in the order of the buckets. */
  method Visit<Key(==, !new), T(==)>(table: HashTable<Key, T>) returns (items: seq<T>)
    requires table.Valid()
    ensures items == Flatten(table.buckets[..])
  {
    var iter := new HashIterator(table);
    items := [];
    ghost var all := iter.rest;
    var done := iter.IsDone();
    while !done
      invariant iter.Valid() && iter.table == table && (done <==> iter.rest == []) && items + iter.rest == all
      decreases |iter.rest|
    {
      ghost var before, rest := items, iter.rest;
      var item := iter.Item();
      items := items + [item];
      iter.Next();
      OneMore(before, rest, items, all);
      done := iter.IsDone();
    }
    assert items + [] == items;
  }
}
