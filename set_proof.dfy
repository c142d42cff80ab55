/** NAME##_set on a well-ordered table with an empty slot: an existing key
    is overwritten in place, a new key is added as exactly one more entry,
    and the table stays well ordered. */
module SetProof {
  import opened Slots
  import opened RobinHoodSpec
  import opened RobinHoodLemmas
  import opened TableUpdates

  /** Storing c at i keeps the local invariant when c fits there and the
      slot was empty or held a bucket no more displaced than c. */
  lemma PlaceKeepsOrder<K, V>(s: seq<Bucket<K, V>>, size: nat, c: Bucket<K, V>, i: nat)
    requires Ordered(s, size) && i < |s| && Occupied(c)
    requires FitsAt(s, size, HashSlot(c.hash, size), i)
    requires Occupied(s[i]) ==> SlotDist(HashSlot(c.hash, size), i, size) >= Dist(s, size, i)
    ensures Ordered(s[i := c], size)
  {
    var t := s[i := c];
    forall j | 0 <= j < |t| ensures OrderedAt(t, size, j) {
      assert OrderedAt(s, size, j);
      if j != i && Prev(j, size) == i {
        assert t[j] == s[j];
      } else if j != i {
        assert t[j] == s[j] && t[Prev(j, size)] == s[Prev(j, size)];
      }
    }
  }

  /** A walk that passes an occupied slot just before the carried bucket's
      home would have found every slot occupied. */
  lemma BackHomeFillsTable<K, V>(s: seq<Bucket<K, V>>, size: nat, hc: nat, i: nat)
    requires Ordered(s, size) && hc < |s| && i < |s| && FitsAt(s, size, hc, i)
    requires Occupied(s[i])
    ensures Next(i, size) == hc ==> forall j :: 0 <= j < |s| ==> Occupied(s[j])
  {
    if Next(i, size) == hc {
      SlotDistLast(hc, i, size);
      forall j | 0 <= j < |s| ensures Occupied(s[j]) {
        var d := SlotDist(hc, j, size);
        AheadSlotDist(hc, j, size);
        if d < SlotDist(hc, i, size) {
          FitsPath(s, size, hc, i, d);
        }
      }
    }
  }

  /** Setting a key that is stored at p overwrites slot p and returns its
      old bucket; the walk never swaps on the way. */
  lemma {:induction false} SetWalkUpdate<K, V>(s: seq<Bucket<K, V>>, size: nat, hash: K -> Int64,
                                               c: Bucket<K, V>, i: nat, e: nat, p: nat, d: nat)
    requires WellOrdered(s, size, hash) && e < |s| && !Occupied(s[e])
    requires Occupied(c) && c.hash == hash(c.key)
    requires p < |s| && Occupied(s[p]) && s[p].key == c.key
    requires d <= Dist(s, size, p) && i == Ahead(HashSlot(c.hash, size), d, size)
    ensures SetWalk(s, size, c, i, e) == Updated(s[p := c], s[p])
    decreases Dist(s, size, p) - d
  {
    var h := HashSlot(c.hash, size);
    assert h == Home(s, size, p);
    AheadSlotDist(h, p, size);
    SlotDistAhead(h, d, size);
    if d < Dist(s, size, p) {
      assert OrderedAt(s, size, p);
      FitsPath(s, size, h, p, d);
      assert i != p;
      NextAhead(h, d, size);
      SetWalkUpdate(s, size, hash, c, Next(i, size), e, p, d + 1);
    }
  }

  /** Carrying a bucket with a new key that fits at i, the walk ends by
      filling an empty slot; the result is well ordered and holds exactly
      one more entry, the carried one. */
  lemma {:induction false} SetWalkInsert<K, V>(s: seq<Bucket<K, V>>, size: nat, hash: K -> Int64,
                                               c: Bucket<K, V>, i: nat, e: nat)
    requires WellOrdered(s, size, hash) && i < |s| && e < |s| && !Occupied(s[e])
    requires Occupied(c) && c.hash == hash(c.key) && !HasKey(s, c.key)
    requires FitsAt(s, size, HashSlot(c.hash, size), i)
    ensures SetWalk(s, size, c, i, e).Inserted?
    ensures var t := SetWalk(s, size, c, i, e).table;
      WellOrdered(t, size, hash) && Entries(t) == Entries(s) + {Pair(c)} && Count(t) == Count(s) + 1
    decreases SlotDist(i, e, size), if PassesOver(s, size, c, i) then 0 else 1
  {
    var hc := HashSlot(c.hash, size);
    if PassesOver(s, size, c, i) {
      assert !Matches(s[i], c.hash, c.key);
      BackHomeFillsTable(s, size, hc, i);
      SlotDistNext(hc, i, size);
      PrevOfNext(i, size);
      SlotDistFromNext(i, e, size);
      SetWalkInsert(s, size, hash, c, Next(i, size), e);
    } else if !Occupied(s[i]) {
      PlaceKeepsOrder(s, size, c, i);
      WriteNewKey(s, hash, i, c);
      EntriesUpdate(s, i, c);
      CountUpdate(s, i, c);
    } else {
      var r := s[i];
      var t := s[i := c];
      PlaceKeepsOrder(s, size, c, i);
      WriteNewKey(s, hash, i, c);
      EntriesUpdate(s, i, c);
      CountUpdate(s, i, c);
      assert OrderedAt(s, size, i);
      assert FitsAt(t, size, HashSlot(r.hash, size), i) by {
        assert Dist(s, size, i) > 0 ==> Prev(i, size) != i;
      }
      assert Pair(r) in Entries(s);
      SetWalkInsert(t, size, hash, r, i, e);
    }
  }

  /** Overwriting a stored bucket with one of the same key and hash keeps the
      table well ordered and replaces exactly that entry. */
  lemma UpdateInPlace<K, V>(s: seq<Bucket<K, V>>, size: nat, hash: K -> Int64, p: nat, c: Bucket<K, V>)
    requires WellOrdered(s, size, hash) && p < |s| && Occupied(s[p])
    requires c.key == s[p].key && c.hash == s[p].hash
    ensures var t := s[p := c];
      WellOrdered(t, size, hash) && Entries(t) == Entries(s) - {Pair(s[p])} + {Pair(c)} && Count(t) == Count(s)
  {
    var t := s[p := c];
    forall j | 0 <= j < |t| ensures OrderedAt(t, size, j) {
      assert OrderedAt(s, size, j);
      assert Dist(t, size, j) == Dist(s, size, j);
      assert Dist(t, size, Prev(j, size)) == Dist(s, size, Prev(j, size));
    }
    WriteSameKey(s, hash, p, c);
    EntriesUpdate(s, p, c);
    CountUpdate(s, p, c);
  }

  /** The result of NAME##_set on a well-ordered table with an empty slot. */
  lemma SetResultCorrect<K, V>(s: seq<Bucket<K, V>>, size: nat, hash: K -> Int64, x: Bucket<K, V>)
    requires WellOrdered(s, size, hash) && HasEmpty(s)
    requires Occupied(x) && x.hash == hash(x.key)
    ensures HasKey(s, x.key) ==>
      (exists p :: 0 <= p < |s| && Occupied(s[p]) && s[p].key == x.key &&
                   SetResult(s, size, x) == Updated(s[p := x], s[p]))
    ensures !HasKey(s, x.key) <==> SetResult(s, size, x).Inserted?
    ensures WellOrdered(SetResult(s, size, x).table, size, hash)
    ensures var o := SetResult(s, size, x);
      o.Updated? ==>
        (Occupied(o.prior) && o.prior.key == x.key &&
         Entries(o.table) == Entries(s) - {Pair(o.prior)} + {Pair(x)} && Count(o.table) == Count(s))
    ensures var o := SetResult(s, size, x);
      o.Inserted? ==> Entries(o.table) == Entries(s) + {Pair(x)} && Count(o.table) == Count(s) + 1
  {
    var h := HashSlot(x.hash, size);
    if HasKey(s, x.key) {
      var p :| 0 <= p < |s| && Occupied(s[p]) && s[p].key == x.key;
      SetWalkUpdate(s, size, hash, x, h, AnEmpty(s), p, 0);
      UpdateInPlace(s, size, hash, p, x);
    } else {
      SetWalkInsert(s, size, hash, x, h, AnEmpty(s));
    }
  }
}
