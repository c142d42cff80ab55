/** The map object of hash.h (the struct generated by RH_DEF_HASH with its
    RH_IMPL_HASH functions): a capacity exponent, an item count and a bucket
    array updated in place. Each method is proved to do to the array what the
    functions of RobinHoodSpec say, and to keep the map's invariant. */
module HashMap {
  import opened Slots
  import opened Wrappers
  import opened RobinHoodSpec
  import opened TableUpdates
  import RobinHoodLemmas
  import SetProof
  import RemoveProof

  /** What set leaves behind on a valid map, in terms of the array contents
      and the item count before and after. */
  lemma SetPost<K, V>(s0: seq<Bucket<K, V>>, size: nat, hash: K -> Int64, x: Bucket<K, V>,
                      n0: SizeT, t: seq<Bucket<K, V>>, n1: SizeT, r: Bucket<K, V>, zero: Bucket<K, V>)
    requires WellOrdered(s0, size, hash) && HasEmpty(s0) && n0 == Count(s0) && size < 64
    requires Occupied(x) && x.hash == hash(x.key)
    requires var o := SetResult(s0, size, x);
      t == o.table && (o.Updated? ==> r == o.prior && n1 == n0) &&
      (o.Inserted? ==> r == zero && n1 == SizeInc(n0))
    ensures WellOrdered(t, size, hash) && n1 == Count(t)
    ensures HasKey(s0, x.key) ==>
      r.key == x.key && Pair(r) in Entries(s0) && Entries(t) == Entries(s0) - {Pair(r)} + {Pair(x)}
    ensures !HasKey(s0, x.key) ==> r == zero && Entries(t) == Entries(s0) + {Pair(x)}
  {
    SetProof.SetResultCorrect(s0, size, hash, x);
    if SetResult(s0, size, x).Updated? {
      assert Pair(r) in Entries(s0);
    }
    CapacityBelowSizeMod(size);
  }

  /** What remove leaves behind on a valid map. */
  lemma RemovePost<K, V>(s0: seq<Bucket<K, V>>, size: nat, hash: K -> Int64, key: K, zero: Bucket<K, V>,
                         n0: SizeT, t: seq<Bucket<K, V>>, n1: SizeT, r: Bucket<K, V>)
    requires WellOrdered(s0, size, hash) && n0 == Count(s0)
    requires hash(key) != 0 && !Occupied(zero)
    requires var o := RemoveResult(s0, size, hash(key), key, zero);
      t == o.table && r == o.removed && n1 == if o.found then SizeDec(n0) else n0
    ensures WellOrdered(t, size, hash) && n1 == Count(t) && !HasKey(t, key)
    ensures HasKey(s0, key) ==> r.key == key && Entries(t) == Entries(s0) - {Pair(r)}
    ensures !HasKey(s0, key) ==> r == zero && t == s0
  {
    RemoveProof.RemoveCorrect(s0, size, hash, key, zero);
    var o := RemoveResult(s0, size, hash(key), key, zero);
    if o.found {
      var p := FindIndex(s0, size, hash(key), key).value;
      FindIndexMatches(s0, size, hash(key), key);
      CountUpdate(s0, p, zero);
    }
  }

  class Map<K(==), V> {
    /** Capacity exponent: the table has 2^size slots. */
    var size: nat
    /** The source's running count of stored buckets, a size_t. */
    var noItems: SizeT
    /** The bucket array; null when its allocation failed. */
    var items: array?<Bucket<K, V>>
    /** HASH_F of the instantiation. */
    const hash: K -> Int64
    /** The key and value parts of the all-zero bucket `{0}`. */
    const nullKey: K
    const nullValue: V

    /** The bucket `(struct NAME##_bucket) {0}`. */
    function Zero(): (z: Bucket<K, V>)
      ensures !Occupied(z)
    {
      Bucket(0, nullKey, nullValue)
    }

    /** The array, if there is one, has the capacity of the size. */
    ghost predicate Shape()
      reads this
    {
      size < 64 && (items != null ==> items.Length == Capacity(size))
    }

    /** The map invariant: the table is well ordered and no_items counts its
        buckets. */
    ghost predicate Valid()
      reads this, items
    {
      Shape() &&
      (items == null ==> noItems == 0) &&
      (items != null ==> WellOrdered(items[..], size, hash) && noItems == Count(items[..]))
    }

    /** The key/value pairs the map holds. */
    ghost function Contents(): set<(K, V)>
      reads this, items
    {
      if items == null then {} else Entries(items[..])
    }

    /** NAME##_new: a map of 2^size zeroed slots and no items. Whether
        calloc succeeds is the parameter `allocates`. */
    constructor (size: nat, hash: K -> Int64, nullKey: K, nullValue: V, allocates: bool)
      requires size < 64
      ensures this.size == size && noItems == 0
      ensures this.hash == hash && this.nullKey == nullKey && this.nullValue == nullValue
      ensures allocates <==> items != null
      ensures items != null ==> fresh(items) && forall j :: 0 <= j < items.Length ==> items[j] == Zero()
      ensures Valid() && Contents() == {}
    {
      this.size := size;
      this.hash := hash;
      this.nullKey := nullKey;
      this.nullValue := nullValue;
      noItems := 0;
      if allocates {
        items := new Bucket<K, V>[Capacity(size)](_ => Bucket(0, nullKey, nullValue));
      } else {
        items := null;
      }
      new;
      if items != null {
        CountAllEmpty(items[..]);
      }
    }

    /** NAME##_find: the index of the bucket holding key, or None. The scan
        ends only when the guard fails or the key matches; the precondition
        says it does. */
    method Find(key: K) returns (r: Option<nat>)
      requires Shape()
      requires items != null ==> FindStops(items[..], size, hash(key), key)
      ensures items == null ==> r == None
      ensures items != null ==> r == FindIndex(items[..], size, hash(key), key)
    {
      if items == null {
        return None;
      }
      r := Scan(hash(key), key);
    }

    /** The loop of NAME##_find for a key with hash hk: from the home slot
        on, step over slots whose bucket is at least as displaced as the key
        would be, until one matches. */
    method Scan(hk: Int64, key: K) returns (r: Option<nat>)
      requires Shape() && items != null && FindStops(items[..], size, hk, key)
      ensures r == FindIndex(items[..], size, hk, key)
    {
      ghost var s := items[..];
      var slot := HashSlot(hk, size);
      var i: nat := slot;
      ghost var n: nat := |s|;
      while SlotDist(slot, i, size) <= SlotDist(HashSlot(items[i].hash, size), i, size)
        invariant i < |s| && StopsWithin(s, size, hk, key, i, n)
        invariant FindFrom(s, size, hk, key, i, n) == FindIndex(s, size, hk, key)
        decreases n
      {
        if items[i].hash == hk && items[i].key == key {
          FindEnd(s, size, hk, key, i, n);
          return Some(i);
        }
        FindStep(s, size, hk, key, i, n);
        NextIsMaskedIncrement(i, size);
        i := HashSlot(i + 1, size);
        n := n - 1;
      }
      FindEnd(s, size, hk, key, i, n);
      return None;
    }

    /** NAME##_set: store (key, value). A bucket with the same hash and key is
        overwritten and its old contents returned; otherwise the new bucket is
        placed by Robin Hood displacement, no_items is incremented and the zero
        bucket returned. The walk ends only at an empty slot, hence the
        precondition. A key hashing to 0 is never stored, yet counted. */
    method Set(key: K, value: V) returns (r: Bucket<K, V>)
      requires Shape()
      requires items != null && hash(key) != 0 ==> HasEmpty(items[..])
      modifies this, items
      ensures size == old(size) && items == old(items)
      ensures items == null ==> r == Bucket(hash(key), key, value) && noItems == old(noItems)
      ensures items != null && hash(key) == 0 ==>
        items[..] == old(items[..]) && r == Zero() && noItems == SizeInc(old(noItems))
      ensures items != null && hash(key) != 0 ==>
        var o := SetResult(old(items[..]), size, Bucket(hash(key), key, value));
        items[..] == o.table &&
        (o.Updated? ==> r == o.prior && noItems == old(noItems)) &&
        (o.Inserted? ==> r == Zero() && noItems == SizeInc(old(noItems)))
      ensures old(Valid()) && hash(key) != 0 ==> Valid()
      ensures old(Valid()) && hash(key) != 0 && items != null && old(HasKey(items[..], key)) ==>
        r.key == key && Pair(r) in old(Contents()) &&
        Contents() == old(Contents()) - {Pair(r)} + {(key, value)}
      ensures old(Valid()) && hash(key) != 0 && items != null && !old(HasKey(items[..], key)) ==>
        r == Zero() && Contents() == old(Contents()) + {(key, value)}
    {
      var ins := Bucket(hash(key), key, value);
      if items == null {
        return ins;
      }
      ghost var s0 := items[..];
      ghost var x := ins;
      ghost var wasValid := Valid();
      ghost var e: nat := 0;
      ghost var w0: SetOutcome<K, V> := Inserted(s0);
      if x.hash != 0 {
        e := AnEmpty(s0);
        w0 := SetResult(s0, size, x);
      }
      var i: nat := HashSlot(ins.hash, size);
      while ins.hash != 0
        modifies items
        invariant items.Length == |s0| && i < items.Length && e < items.Length
        invariant x.hash == 0 ==> ins == x && items[..] == s0
        invariant x.hash != 0 && ins.hash != 0 ==>
          !Occupied(items[e]) && SetWalk(items[..], size, ins, i, e) == w0
        invariant x.hash != 0 && ins.hash == 0 ==> w0 == Inserted(items[..])
        decreases if ins.hash == 0 then 0
          else SlotDist(i, e, size) + (if PassesOver(items[..], size, ins, i) then 0 else 1)
      {
        var found: bool;
        i, found := Probe(ins, i, e);
        ghost var sb := items[..];
        var swap := items[i];
        if found {
          SetWalkHit(sb, size, ins, i, e);
          items[i] := ins;
          assert items[..] == sb[i := ins];
          ins := swap;
          if wasValid {
            SetPost(s0, size, hash, x, old(noItems), items[..], noItems, ins, Zero());
          }
          return ins;
        }
        SetWalkSwap(sb, size, ins, i, e);
        items[i] := ins;
        assert items[..] == sb[i := ins];
        ins := swap;
      }
      noItems := SizeInc(noItems);
      if wasValid && x.hash != 0 {
        SetPost(s0, size, hash, x, old(noItems), items[..], noItems, Zero(), Zero());
      }
      return Zero();
    }

    /** The inner loop of NAME##_set carrying c from slot i0: step over
        occupied slots whose bucket is at least as displaced as c would be,
        until one holds c's hash and key (found) or one is not passed over. */
    method Probe(c: Bucket<K, V>, i0: nat, ghost e: nat) returns (i: nat, found: bool)
      requires Shape() && items != null && i0 < items.Length && e < items.Length
      requires !Occupied(items[e]) && Occupied(c)
      ensures i < items.Length
      ensures found ==> PassesOver(items[..], size, c, i) && Matches(items[i], c.hash, c.key)
      ensures !found ==> !PassesOver(items[..], size, c, i)
      ensures !found ==>
        SlotDist(i, e, size) + (if PassesOver(items[..], size, c, i0) then 1 else 0) <= SlotDist(i0, e, size)
      ensures SetWalk(items[..], size, c, i0, e) == SetWalk(items[..], size, c, i, e)
    {
      ghost var s := items[..];
      var slot := HashSlot(c.hash, size);
      i := i0;
      while items[i].hash != 0 && SlotDist(slot, i, size) <= SlotDist(HashSlot(items[i].hash, size), i, size)
        invariant i < items.Length
        invariant SetWalk(s, size, c, i0, e) == SetWalk(s, size, c, i, e)
        invariant SlotDist(i, e, size) + (if PassesOver(s, size, c, i0) && i != i0 then 1 else 0) <= SlotDist(i0, e, size)
        decreases SlotDist(i, e, size)
      {
        assert items[i] == s[i];
        if items[i].hash == c.hash && items[i].key == c.key {
          return i, true;
        }
        SetWalkPass(s, size, c, i, e);
        NextIsMaskedIncrement(i, size);
        i := HashSlot(i + 1, size);
      }
      return i, false;
    }

    /** The loop of NAME##_remove after the bucket at `prev` has been taken:
        move each following bucket one slot back while it is occupied and away
        from home, then zero the last vacated slot. */
    method ShiftBackFrom(prev: nat)
      requires Shape() && items != null && prev < items.Length
      modifies items
      ensures items[..] == ShiftBack(old(items[..]), size, Zero(), prev, Next(prev, size))
    {
      ghost var s0 := items[..];
      var prev: nat := prev;
      NextIsMaskedIncrement(prev, size);
      var i: nat := HashSlot(prev + 1, size);
      ghost var t0 := ShiftBack(s0, size, Zero(), prev, i);
      while items[i].hash != 0 && SlotDist(HashSlot(items[i].hash, size), i, size) > 0
        invariant prev < items.Length && i == Next(prev, size)
        invariant ShiftBack(items[..], size, Zero(), prev, i) == t0
        decreases ShiftMeasure(items[..], size, prev)
      {
        ghost var sb := items[..];
        ShiftBackStep(sb, size, Zero(), prev, i);
        items[prev] := items[i];
        assert items[..] == sb[prev := sb[i]];
        prev := i;
        NextIsMaskedIncrement(i, size);
        i := HashSlot(i + 1, size);
      }
      ghost var sb := items[..];
      ShiftBackStep(sb, size, Zero(), prev, i);
      items[prev] := Zero();
      assert items[..] == sb[prev := Zero()];
    }

    /** NAME##_remove: take the bucket holding key out of the table, shifting
        the buckets after it one slot back until one is empty or at home, and
        decrement no_items; an absent key changes nothing and the zero bucket
        is returned. The shift ends on every table, since each round moves a
        bucket one slot closer to its home; the find inside it needs
        FindStops. */
    method Remove(key: K) returns (r: Bucket<K, V>)
      requires Shape() && hash(key) != 0
      requires items != null ==> FindStops(items[..], size, hash(key), key)
      modifies this, items
      ensures size == old(size) && items == old(items)
      ensures items == null ==> r == Zero() && noItems == old(noItems)
      ensures items != null ==>
        var o := RemoveResult(old(items[..]), size, hash(key), key, Zero());
        items[..] == o.table && r == o.removed &&
        noItems == if o.found then SizeDec(old(noItems)) else old(noItems)
      ensures old(Valid()) ==> Valid()
      ensures old(Valid()) && items != null ==> !HasKey(items[..], key)
      ensures old(Valid()) && items != null && old(HasKey(items[..], key)) ==>
        r.key == key && Contents() == old(Contents()) - {Pair(r)}
      ensures old(Valid()) && items != null && !old(HasKey(items[..], key)) ==>
        r == Zero() && Contents() == old(Contents())
    {
      if items == null {
        return Zero();
      }
      ghost var s0 := items[..];
      ghost var wasValid := Valid();
      var found := Find(key);
      if found.None? {
        if wasValid {
          RemovePost(s0, size, hash, key, Zero(), noItems, items[..], noItems, Zero());
        }
        return Zero();
      }
      FindIndexMatches(s0, size, hash(key), key);
      r := items[found.value];
      ShiftBackFrom(found.value);
      noItems := SizeDec(noItems);
      if wasValid {
        RemovePost(s0, size, hash, key, Zero(), old(noItems), items[..], noItems, r);
      }
    }
  }
}
