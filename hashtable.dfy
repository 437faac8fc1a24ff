/**
 * The separately chained hash table. The bucket array `ht_table_t` is an array
 * of chains; a chain is the sequence of items met from the bucket head along the
 * `next` links, so relinking a `next` pointer is a change of that sequence.
 * Items are objects whose value is overwritten in place; keys are objects too,
 * because the table hashes a key's characters but compares key pointers.
 */
module HashTable {
  import opened Wrappers

  /** A key string reached through its pointer: `contents` are the characters `get_hash` reads. */
  class Key {
    const contents: string

    constructor (contents: string)
      ensures this.contents == contents
    {
      this.contents := contents;
    }
  }

  /** `ht_item_t`: the key pointer it was inserted with and a value overwritten in place. */
  class Item<V> {
    const key: Key
    var value: V

    constructor (key: Key, value: V)
      ensures this.key == key && this.value == value
    {
      this.key := key;
      this.value := value;
    }
  }

  /** Sum of the character codes of `s`. */
  function CodeSum(s: string): nat
  {
    if s == [] then 0 else CodeSum(s[..|s| - 1]) + s[|s| - 1] as nat
  }

  /** `get_hash` as a value: one plus the code sum, reduced modulo the table size. */
  function Hash(s: string, size: nat): (h: nat)
    requires size > 0
    ensures h < size
  {
    (1 + CodeSum(s)) % size
  }

  /** `get_hash`: accumulates the codes into `result` starting from 1, then reduces. */
  method GetHash(key: Key, size: int) returns (h: int)
    requires size > 0
    ensures 0 <= h < size
    ensures h == Hash(key.contents, size)
  {
    var result := 1;
    var length := |key.contents|;
    for i := 0 to length
      invariant result == 1 + CodeSum(key.contents[..i])
    {
      assert key.contents[..i + 1][..i] == key.contents[..i];
      result := result + key.contents[i] as int;
    }
    assert key.contents[..length] == key.contents;
    h := result % size;
  }

  /** Position of the first item of `chain` whose key is the pointer `key`; the length when there is none. */
  function FirstIndex<V>(chain: seq<Item<V>>, key: Key): (n: nat)
    ensures n <= |chain|
    ensures forall j :: 0 <= j < n ==> chain[j].key != key
    ensures n < |chain| ==> chain[n].key == key
  {
    if chain == [] then 0
    else if chain[0].key == key then 0
    else 1 + FirstIndex(chain[1..], key)
  }

  /** `key` occurs in `chain` exactly when `FirstIndex` stops inside it. */
  lemma {:induction false} FirstIndexFinds<V>(chain: seq<Item<V>>, key: Key)
    ensures FirstIndex(chain, key) < |chain| <==> exists j :: 0 <= j < |chain| && chain[j].key == key
  {
    if exists j :: 0 <= j < |chain| && chain[j].key == key {
      var j :| 0 <= j < |chain| && chain[j].key == key;
      assert FirstIndex(chain, key) <= j;
    }
  }

  /** The chain without its item at `n`: the items before it, then the ones after it, in order. */
  function Unlinked<V>(chain: seq<Item<V>>, n: nat): (r: seq<Item<V>>)
    requires n < |chain|
    ensures |r| == |chain| - 1
    ensures forall j :: 0 <= j < n ==> r[j] == chain[j]
    ensures forall j :: n <= j < |r| ==> r[j] == chain[j + 1]
  {
    chain[..n] + chain[n + 1..]
  }

  /** Unlinking the first item with `key` leaves the first item of every other key where it was found before. */
  lemma UnlinkedKeepsOthers<V>(chain: seq<Item<V>>, key: Key, other: Key)
    requires FirstIndex(chain, key) < |chain| && other != key
    ensures var n, r := FirstIndex(chain, key), Unlinked(chain, FirstIndex(chain, key));
            var m := FirstIndex(chain, other);
            FirstIndex(r, other) == (if m < n then m else m - 1)
            && (FirstIndex(r, other) < |r| <==> m < |chain|)
            && (m < |chain| ==> r[FirstIndex(r, other)] == chain[m])
  {
    var n, r := FirstIndex(chain, key), Unlinked(chain, FirstIndex(chain, key));
    var m := FirstIndex(chain, other);
    assert m != n;
    var m' := if m < n then m else m - 1;
    assert m' <= |r|;
    assert forall j :: 0 <= j < m' ==> r[j].key != other by {
      forall j | 0 <= j < m' ensures r[j].key != other {
        if j >= n {
          assert r[j] == chain[j + 1];
        }
      }
    }
    assert m' < |r| ==> r[m'].key == other;
    FirstIndexIsFirst(r, other, m');
  }

  /** No two items of `chain` carry the same key pointer. */
  predicate UniqueKeys<V>(chain: seq<Item<V>>)
  {
    forall i, j :: 0 <= i < j < |chain| ==> chain[i].key != chain[j].key
  }

  /** In a chain with unique keys, unlinking the item with `key` leaves no item with it. */
  lemma UnlinkedDropsKey<V>(chain: seq<Item<V>>, key: Key)
    requires UniqueKeys(chain) && FirstIndex(chain, key) < |chain|
    ensures var r := Unlinked(chain, FirstIndex(chain, key));
            UniqueKeys(r) && FirstIndex(r, key) == |r|
  {
    var n := FirstIndex(chain, key);
    var r := Unlinked(chain, n);
    forall j | 0 <= j < |r| ensures r[j].key != key {
      if j >= n {
        assert r[j] == chain[j + 1];
      }
    }
    forall i, j | 0 <= i < j < |r| ensures r[i].key != r[j].key {
      var i', j' := if i < n then i else i + 1, if j < n then j else j + 1;
      assert r[i] == chain[i'] && r[j] == chain[j'];
    }
    FirstIndexIsFirst(r, key, |r|);
  }

  /** `FirstIndex` is the one position with `key` that no earlier position has. */
  lemma {:induction false} FirstIndexIsFirst<V>(chain: seq<Item<V>>, key: Key, n: nat)
    requires n <= |chain|
    requires forall j :: 0 <= j < n ==> chain[j].key != key
    requires n < |chain| ==> chain[n].key == key
    ensures FirstIndex(chain, key) == n
  {
    if chain != [] && chain[0].key != key {
      assert forall j :: 0 <= j < n - 1 ==> chain[1..][j].key != key by {
        forall j | 0 <= j < n - 1 ensures chain[1..][j].key != key {
          assert chain[1..][j] == chain[j + 1];
        }
      }
      FirstIndexIsFirst(chain[1..], key, n - 1);
    }
  }

  /** Every item of `chain` carries a key that hashes to bucket `b`. */
  predicate Placed<V>(chain: seq<Item<V>>, size: nat, b: nat)
    requires size > 0
  {
    forall i :: 0 <= i < |chain| ==> Hash(chain[i].key.contents, size) == b
  }

  /** No item of `chain` has been freed. */
  predicate Unfreed<V>(chain: seq<Item<V>>, freed: set<Item<V>>)
  {
    forall i :: 0 <= i < |chain| ==> chain[i] !in freed
  }

  /** The value of the first item of `chain` with the key pointer `key`, if there is one. */
  function ValueOf<V>(chain: seq<Item<V>>, key: Key): Option<V>
    reads chain
  {
    var n := FirstIndex(chain, key);
    if n < |chain| then Some(chain[n].value) else None
  }

  /** A new item for an absent key, put at the head of its bucket, keeps the bucket well formed. */
  lemma PrependKeeps<V>(chain: seq<Item<V>>, it: Item<V>, size: nat, b: nat, freed: set<Item<V>>)
    requires size > 0 && Placed(chain, size, b) && UniqueKeys(chain)
    requires FirstIndex(chain, it.key) == |chain| && Hash(it.key.contents, size) == b && it !in freed
    ensures Placed([it] + chain, size, b) && UniqueKeys([it] + chain)
    ensures Unfreed(chain, freed) ==> Unfreed([it] + chain, freed)
  {
    var r := [it] + chain;
    forall j | 1 <= j < |r| ensures r[j] == chain[j - 1] && r[j].key != it.key {
      assert r[1..] == chain;
      assert r[j] == r[1..][j - 1];
    }
  }

  /** After putting a new item at the head, its key finds it, and every other key finds what it found before. */
  lemma PrependValues<V>(chain: seq<Item<V>>, it: Item<V>)
    ensures ValueOf([it] + chain, it.key) == Some(it.value)
    ensures forall k: Key :: k != it.key ==> ValueOf([it] + chain, k) == ValueOf(chain, k)
  {
    var r := [it] + chain;
    assert r[1..] == chain;
    forall k: Key | k != it.key ensures ValueOf(r, k) == ValueOf(chain, k) {
      var m := FirstIndex(chain, k);
      assert FirstIndex(r, k) == 1 + m;
      if m < |chain| {
        assert r[1 + m] == r[1..][m];
      }
    }
  }

  /** Unlinking the first item with `key` keeps the bucket well formed and unlinks the freed item too. */
  lemma UnlinkKeeps<V>(chain: seq<Item<V>>, key: Key, size: nat, b: nat, freed: set<Item<V>>)
    requires size > 0 && Placed(chain, size, b) && UniqueKeys(chain) && FirstIndex(chain, key) < |chain|
    ensures var r := Unlinked(chain, FirstIndex(chain, key));
            && Placed(r, size, b) && UniqueKeys(r)
            && (Unfreed(chain, freed) ==> Unfreed(r, freed + {chain[FirstIndex(chain, key)]}))
  {
    var n := FirstIndex(chain, key);
    var r := Unlinked(chain, n);
    UnlinkedDropsKey(chain, key);
    forall j | 0 <= j < |r| ensures r[j] != chain[n] {
      if j >= n {
        assert r[j] == chain[j + 1];
      }
    }
  }

  /** After unlinking the first item with `key` from a chain with unique keys, `key` finds nothing and every other key finds what it found before. */
  lemma UnlinkValues<V>(chain: seq<Item<V>>, key: Key)
    requires UniqueKeys(chain) && FirstIndex(chain, key) < |chain|
    ensures var r := Unlinked(chain, FirstIndex(chain, key));
            && ValueOf(r, key) == None
            && forall k: Key :: k != key ==> ValueOf(r, k) == ValueOf(chain, k)
  {
    var r := Unlinked(chain, FirstIndex(chain, key));
    UnlinkedDropsKey(chain, key);
    forall k: Key | k != key ensures ValueOf(r, k) == ValueOf(chain, k) {
      UnlinkedKeepsOthers(chain, key, k);
    }
  }

  /**
   * `ht_table_t` with its size `HT_SIZE`. `MAX_HT_SIZE` is the length of the
   * bucket array; `get_hash` only reaches the first `size` buckets.
   */
  class Table<V> {
    const size: nat
    const buckets: array<seq<Item<V>>>
    /** The items handed to `free`. */
    ghost var freed: set<Item<V>>

    /**
     * The size fits the array, every item sits in the bucket its key hashes to,
     * and no chain holds two items with the same key pointer.
     */
    ghost predicate Valid()
      reads this, buckets
    {
      && 0 < size <= buckets.Length
      && forall b :: 0 <= b < buckets.Length ==> Placed(buckets[b], size, b) && UniqueKeys(buckets[b])
    }

    /** No freed item can still be reached from a bucket. */
    ghost predicate Sound()
      reads this, buckets
    {
      forall b :: 0 <= b < buckets.Length ==> Unfreed(buckets[b], freed)
    }

    /** The items reachable from the buckets. */
    ghost function Items(): set<Item<V>>
      reads this, buckets
    {
      set b, i | 0 <= b < buckets.Length && 0 <= i < |buckets[b]| :: buckets[b][i]
    }

    /** What `ht_search` finds for `key`: the value of the first item with that key pointer in its bucket. */
    ghost function Lookup(key: Key): Option<V>
      requires Valid()
      reads this, buckets, buckets[Hash(key.contents, size)]
    {
      ValueOf(buckets[Hash(key.contents, size)], key)
    }

    /** Allocates the bucket array and runs `ht_init` on it. */
    constructor (size: nat, capacity: nat)
      requires 0 < size <= capacity
      ensures Valid() && Sound()
      ensures this.size == size && buckets.Length == capacity && fresh(buckets)
      ensures forall b :: 0 <= b < buckets.Length ==> buckets[b] == []
      ensures freed == {}
    {
      this.size := size;
      buckets := new seq<Item<V>>[capacity];
      freed := {};
      new;
      Init();
    }

    /** `ht_init`: every one of the `MAX_HT_SIZE` buckets becomes empty. */
    method Init()
      requires 0 < size <= buckets.Length
      modifies buckets
      ensures Valid() && Sound()
      ensures forall b :: 0 <= b < buckets.Length ==> buckets[b] == []
    {
      for i := 0 to buckets.Length
        invariant forall b :: 0 <= b < i ==> buckets[b] == []
      {
        buckets[i] := [];
      }
    }

    /** `ht_search`: walks the key's bucket and returns the first item whose key is the same pointer, or null. */
    method Search(key: Key) returns (found: Item?<V>)
      requires Valid()
      ensures var chain := buckets[Hash(key.contents, size)];
              var n := FirstIndex(chain, key);
              found == if n < |chain| then chain[n] else null
      ensures found != null ==> found.key == key && found in Items()
    {
      var hash := GetHash(key, size);
      var chain := buckets[hash];
      var i := 0;
      while i < |chain|
        invariant i <= |chain|
        invariant forall j :: 0 <= j < i ==> chain[j].key != key
      {
        if chain[i].key == key {
          FirstIndexIsFirst(chain, key, i);
          return chain[i];
        }
        i := i + 1;
      }
      FirstIndexIsFirst(chain, key, i);
      return null;
    }

    /**
     * `ht_insert`: when `ht_search` finds the key, overwrites that item's value
     * and nothing else; otherwise puts a new item at the head of the key's bucket.
     */
    method Insert(key: Key, value: V)
      requires Valid()
      modifies buckets, buckets[Hash(key.contents, size)]
      ensures Valid() && freed == old(freed)
      ensures Lookup(key) == Some(value)
      ensures var h := Hash(key.contents, size);
              if old(Lookup(key)).Some? then
                && buckets[..] == old(buckets[..])
                && (forall it: Item<V> | old(allocated(it)) && it.key != key :: it.value == old(it.value))
              else
                && |buckets[h]| == |old(buckets[h])| + 1
                && fresh(buckets[h][0]) && buckets[h][0].key == key
                && buckets[h][1..] == old(buckets[h])
                && (forall b :: 0 <= b < buckets.Length && b != h ==> buckets[b] == old(buckets[b]))
                && (forall it: Item<V> | old(allocated(it)) :: it.value == old(it.value))
      ensures forall k: Key | old(allocated(k)) && k != key :: Lookup(k) == old(Lookup(k))
      ensures old(Sound()) ==> Sound()
    {
      var temp := Search(key);
      if temp != null {
        temp.value := value;
        forall k: Key | old(allocated(k)) && k != key
          ensures Lookup(k) == old(Lookup(k))
        {
          var chain := buckets[Hash(k.contents, size)];
          var m := FirstIndex(chain, k);
          assert m < |chain| ==> chain[m] != temp;
        }
        return;
      }
      var hash := GetHash(key, size);
      var chain := buckets[hash];
      temp := new Item(key, value);
      PrependKeeps(chain, temp, size, hash, freed);
      PrependValues(chain, temp);
      buckets[hash] := [temp] + chain;
      forall k: Key | old(allocated(k)) && k != key
        ensures Lookup(k) == old(Lookup(k))
      {
        if Hash(k.contents, size) != hash {
          assert buckets[Hash(k.contents, size)] == old(buckets[Hash(k.contents, size)]);
        } else {
          var m := FirstIndex(chain, k);
          assert m < |chain| ==> chain[m].value == old(chain[m].value);
          assert ValueOf(chain, k) == old(ValueOf(chain, k));
        }
      }
    }

    /** `ht_get`: the value of the item `ht_search` finds, or nothing. */
    method Get(key: Key) returns (r: Option<V>)
      requires Valid()
      ensures r == Lookup(key)
    {
      var found := Search(key);
      if found != null {
        return Some(found.value);
      }
      return None;
    }

    /**
     * `ht_delete` as written: walks the key's bucket keeping `prev`, and on the
     * first item with the key links `prev` past it and frees it. When that item
     * heads its bucket there is no `prev`, and the bucket is left pointing at the
     * freed item.
     */
    method DeleteAsWritten(key: Key)
      requires Valid()
      modifies this, buckets
      ensures Valid()
      ensures var h := Hash(key.contents, size);
              var chain := old(buckets[h]);
              var n := FirstIndex(chain, key);
              && (forall b :: 0 <= b < buckets.Length && b != h ==> buckets[b] == old(buckets[b]))
              && (n == |chain| ==> buckets[h] == chain && freed == old(freed))
              && (0 < n < |chain| ==> buckets[h] == Unlinked(chain, n) && freed == old(freed) + {chain[n]})
              && (n == 0 < |chain| ==> buckets[h] == chain && freed == old(freed) + {chain[0]})
      ensures old(Lookup(key)).Some? && FirstIndex(old(buckets[Hash(key.contents, size)]), key) == 0 ==> !Sound()
    {
      var hash := GetHash(key, size);
      var chain := buckets[hash];
      var i := 0;
      while i < |chain|
        invariant i <= |chain|
        invariant forall j :: 0 <= j < i ==> chain[j].key != key
      {
        if chain[i].key != key {
          i := i + 1;
          continue;
        }
        FirstIndexIsFirst(chain, key, i);
        if i > 0 {
          UnlinkKeeps(chain, key, size, hash, freed);
          buckets[hash] := Unlinked(chain, i);
        }
        freed := freed + {chain[i]};
        if i == 0 {
          assert !Unfreed(buckets[hash], freed);
        }
        return;
      }
      FirstIndexIsFirst(chain, key, i);
    }

    /**
     * `ht_delete` with the head case completed: without a `prev`, the bucket
     * itself is pointed past the item before it is freed.
     */
    method Delete(key: Key)
      requires Valid()
      modifies this, buckets
      ensures Valid()
      ensures var h := Hash(key.contents, size);
              var chain := old(buckets[h]);
              var n := FirstIndex(chain, key);
              && (forall b :: 0 <= b < buckets.Length && b != h ==> buckets[b] == old(buckets[b]))
              && (n == |chain| ==> buckets[h] == chain && freed == old(freed))
              && (n < |chain| ==> buckets[h] == Unlinked(chain, n) && freed == old(freed) + {chain[n]})
      ensures Lookup(key) == None
      ensures forall k: Key | old(allocated(k)) && k != key :: Lookup(k) == old(Lookup(k))
      ensures old(Sound()) ==> Sound()
    {
      var hash := GetHash(key, size);
      var chain := buckets[hash];
      var i := 0;
      while i < |chain|
        invariant i <= |chain|
        invariant forall j :: 0 <= j < i ==> chain[j].key != key
      {
        if chain[i].key != key {
          i := i + 1;
          continue;
        }
        FirstIndexIsFirst(chain, key, i);
        UnlinkKeeps(chain, key, size, hash, freed);
        UnlinkValues(chain, key);
        buckets[hash] := Unlinked(chain, i);
        freed := freed + {chain[i]};
        forall k: Key | old(allocated(k)) && k != key
          ensures Lookup(k) == old(Lookup(k))
        {
          if Hash(k.contents, size) != hash {
            assert buckets[Hash(k.contents, size)] == old(buckets[Hash(k.contents, size)]);
          }
        }
        return;
      }
      FirstIndexIsFirst(chain, key, i);
    }

    /** `ht_delete_all`: frees every item of every bucket and empties the buckets, as after `ht_init`. */
    method DeleteAll()
      requires Valid()
      modifies this, buckets
      ensures Valid() && Sound()
      ensures forall b :: 0 <= b < buckets.Length ==> buckets[b] == []
      ensures freed == old(freed) + old(Items())
    {
      for i := 0 to buckets.Length
        invariant forall b :: 0 <= b < i ==> buckets[b] == []
        invariant forall b :: i <= b < buckets.Length ==> buckets[b] == old(buckets[b])
        invariant freed == old(freed) + set b, j | 0 <= b < i && 0 <= j < |old(buckets[b])| :: old(buckets[b])[j]
      {
        var chain := buckets[i];
        var j := 0;
        while j < |chain|
          modifies this
          invariant j <= |chain|
          invariant freed == old(freed) + (set b, k | 0 <= b < i && 0 <= k < |old(buckets[b])| :: old(buckets[b])[k])
                                        + (set k | 0 <= k < j :: chain[k])
        {
          freed := freed + {chain[j]};
          j := j + 1;
        }
        buckets[i] := [];
      }
    }
  }
}
