/** NAME##_remove on a well-ordered table: the backward shift closes the gap
    left by the removed bucket, so the table stays well ordered and loses
    exactly the removed entry. The proof follows the shift on the table with
    the gap made explicit: the slot being vacated already holds the zero
    bucket. */
module RemoveProof {
  import opened Slots
  import opened RobinHoodSpec
  import opened TableUpdates
  import opened RobinHoodLemmas

  /** The local invariant holds everywhere except possibly at x, the slot
      right after the gap. */
  ghost predicate OrderedExcept<K, V>(h: seq<Bucket<K, V>>, size: nat, x: nat)
  {
    Shaped(h, size) && forall j :: 0 <= j < |h| && j != x ==> OrderedAt(h, size, j)
  }

  /** Moving the bucket at i one slot back into the gap at prev would keep
      the local invariant at prev. */
  ghost predicate FitsBack<K, V>(h: seq<Bucket<K, V>>, size: nat, prev: nat, i: nat)
    requires Shaped(h, size) && prev < |h| && i < |h|
  {
    ShiftsBack(h, size, i) && Dist(h, size, i) > 1 ==>
      Occupied(h[Prev(prev, size)]) && Dist(h, size, Prev(prev, size)) + 2 >= Dist(h, size, i)
  }

  /** One backward step keeps the local invariant at every slot except the
      one after the new gap. */
  lemma ShiftOrderedAt<K, V>(h: seq<Bucket<K, V>>, size: nat, zero: Bucket<K, V>, prev: nat, i: nat, j: nat)
    requires OrderedExcept(h, size, i) && prev < |h| && i == Next(prev, size) && i != prev
    requires !Occupied(h[prev]) && !Occupied(zero)
    requires FitsBack(h, size, prev, i) && ShiftsBack(h, size, i)
    requires j < |h| && j != Next(i, size)
    ensures OrderedAt(h[prev := h[i]][i := zero], size, j)
  {
    var h' := h[prev := h[i]][i := zero];
    PrevOfNext(prev, size);
    SlotDistPrev(Home(h, size, i), i, size);
    assert Dist(h', size, prev) == Dist(h, size, i) - 1;
    if j == prev {
      if Dist(h', size, prev) > 0 {
        assert Prev(prev, size) != i && Prev(prev, size) != prev;
      }
    } else if j != i {
      assert OrderedAt(h, size, j);
      assert Prev(j, size) != i && Prev(j, size) != prev;
    }
  }

  /** One backward step keeps the hole invariants: the moved bucket is one
      slot closer to home. */
  lemma ShiftStep<K, V>(h: seq<Bucket<K, V>>, size: nat, hash: K -> Int64, zero: Bucket<K, V>, prev: nat, i: nat)
    requires OrderedExcept(h, size, i) && prev < |h| && i == Next(prev, size) && i != prev
    requires !Occupied(h[prev]) && !Occupied(zero)
    requires FitsBack(h, size, prev, i) && ShiftsBack(h, size, i)
    requires KeysUnique(h) && HashesMatch(h, hash)
    ensures var h' := h[prev := h[i]][i := zero];
      OrderedExcept(h', size, Next(i, size)) && FitsBack(h', size, i, Next(i, size)) &&
      KeysUnique(h') && HashesMatch(h', hash) && Entries(h') == Entries(h) && Count(h') == Count(h)
  {
    var h' := h[prev := h[i]][i := zero];
    var n := Next(i, size);
    MoveBucket(h, hash, i, prev, zero);
    forall j | 0 <= j < |h'| && j != n ensures OrderedAt(h', size, j) {
      ShiftOrderedAt(h, size, zero, prev, i, j);
    }
    PrevOfNext(i, size);
    if n != prev {
      assert OrderedAt(h, size, n);
    }
  }

  /** The backward shift, started on a table whose gap invariants hold,
      produces the hole table closed up: well ordered, with the same entries
      and count. */
  lemma {:induction false} ShiftBackRestores<K, V>(s: seq<Bucket<K, V>>, size: nat, hash: K -> Int64,
                                                   zero: Bucket<K, V>, prev: nat, i: nat)
    requires Shaped(s, size) && prev < |s| && i == Next(prev, size)
    requires Occupied(s[prev]) && !Occupied(zero)
    requires OrderedExcept(s[prev := zero], size, i) && FitsBack(s[prev := zero], size, prev, i)
    requires KeysUnique(s[prev := zero]) && HashesMatch(s[prev := zero], hash)
    ensures var t := ShiftBack(s, size, zero, prev, i);
      WellOrdered(t, size, hash) && Entries(t) == Entries(s[prev := zero]) && Count(t) == Count(s[prev := zero])
    decreases ShiftMeasure(s, size, prev)
  {
    var h := s[prev := zero];
    if ShiftsBack(s, size, i) {
      ShiftBackStep(s, size, zero, prev, i);
      assert h[i] == s[i];
      assert ShiftsBack(h, size, i);
      ShiftStep(h, size, hash, zero, prev, i);
      var s' := s[prev := s[i]];
      assert s'[i := zero] == h[prev := h[i]][i := zero];
      ShiftBackRestores(s', size, hash, zero, i, Next(i, size));
    } else {
      assert !ShiftsBack(h, size, i) by { assert i != prev ==> h[i] == s[i]; }
      assert OrderedAt(h, size, i);
    }
  }

  /** Emptying the slot of a found bucket sets up the gap invariants. */
  lemma RemoveStart<K, V>(s: seq<Bucket<K, V>>, size: nat, hash: K -> Int64, zero: Bucket<K, V>, p: nat)
    requires WellOrdered(s, size, hash) && p < |s| && Occupied(s[p]) && !Occupied(zero)
    ensures var h := s[p := zero];
      OrderedExcept(h, size, Next(p, size)) && FitsBack(h, size, p, Next(p, size)) &&
      KeysUnique(h) && HashesMatch(h, hash) &&
      Entries(h) == Entries(s) - {Pair(s[p])} && Count(h) == Count(s) - 1
  {
    var h := s[p := zero];
    var i := Next(p, size);
    WriteEmpty(s, hash, p, zero);
    EntriesUpdate(s, p, zero);
    CountUpdate(s, p, zero);
    PrevOfNext(p, size);
    forall j | 0 <= j < |h| && j != i ensures OrderedAt(h, size, j) {
      if j != p {
        assert OrderedAt(s, size, j);
        assert Prev(j, size) != p;
      }
    }
    if i != p && ShiftsBack(h, size, i) && Dist(h, size, i) > 1 {
      assert OrderedAt(s, size, i);
      assert OrderedAt(s, size, p);
    }
  }

  /** A key whose only bucket was removed is absent afterwards. */
  lemma RemovedKeyAbsent<K, V>(s: seq<Bucket<K, V>>, t: seq<Bucket<K, V>>, p: nat)
    requires KeysUnique(s) && p < |s| && Occupied(s[p])
    requires Entries(t) == Entries(s) - {Pair(s[p])}
    ensures !HasKey(t, s[p].key)
  {
    assert !HasKey(t, s[p].key) by {
      forall j | 0 <= j < |t| && Occupied(t[j]) ensures t[j].key != s[p].key {
        assert Pair(t[j]) in Entries(t);
      }
    }
  }

  /** The result of NAME##_remove on a well-ordered table: the key is found
      exactly when it is stored; then its bucket is returned, the table stays
      well ordered, loses exactly that entry and no longer holds the key;
      otherwise nothing changes and the zero bucket is returned. */
  lemma RemoveCorrect<K, V>(s: seq<Bucket<K, V>>, size: nat, hash: K -> Int64, key: K, zero: Bucket<K, V>)
    requires WellOrdered(s, size, hash) && hash(key) != 0 && !Occupied(zero)
    ensures var o := RemoveResult(s, size, hash(key), key, zero);
      (o.found <==> HasKey(s, key)) && WellOrdered(o.table, size, hash) && !HasKey(o.table, key)
    ensures var o := RemoveResult(s, size, hash(key), key, zero);
      !o.found ==> o.table == s && o.removed == zero
    ensures var o := RemoveResult(s, size, hash(key), key, zero);
      o.found ==>
        (Occupied(o.removed) && o.removed.key == key && Pair(o.removed) in Entries(s) &&
         Entries(o.table) == Entries(s) - {Pair(o.removed)} && Count(o.table) == Count(s) - 1)
  {
    FindCorrect(s, size, hash, key);
    match FindIndex(s, size, hash(key), key)
    case None =>
    case Some(p) =>
      RemoveStart(s, size, hash, zero, p);
      ShiftBackRestores(s, size, hash, zero, p, Next(p, size));
      RemovedKeyAbsent(s, ShiftBack(s, size, zero, p, Next(p, size)), p);
  }
}
