/** What the Robin Hood invariant buys: the local and the path form of the
    invariant are equivalent, find locates exactly the keys that are present,
    and set and remove keep the invariant while adding or removing exactly
    one entry. */
module RobinHoodLemmas {
  import opened Slots
  import opened Wrappers
  import opened RobinHoodSpec

  /** A bucket homed at hc could be stored at i without breaking the local
      invariant at i. */
  ghost predicate FitsAt<K, V>(s: seq<Bucket<K, V>>, size: nat, hc: nat, i: nat)
    requires Shaped(s, size) && hc < |s| && i < |s|
  {
    var dc := SlotDist(hc, i, size);
    dc == 0 || (Occupied(s[Prev(i, size)]) && Dist(s, size, Prev(i, size)) + 1 >= dc)
  }

  /** If a bucket homed at hc fits at i, every slot on the way from hc to i
      is occupied by a bucket at least as displaced as the step count. */
  lemma {:induction false} FitsPath<K, V>(s: seq<Bucket<K, V>>, size: nat, hc: nat, i: nat, d: nat)
    requires Ordered(s, size) && hc < |s| && i < |s| && FitsAt(s, size, hc, i)
    requires d < SlotDist(hc, i, size)
    ensures Occupied(s[Ahead(hc, d, size)]) && Dist(s, size, Ahead(hc, d, size)) >= d
    decreases SlotDist(hc, i, size) - d
  {
    var a := Ahead(hc, d, size);
    NextAhead(hc, d, size);
    PrevOfNext(a, size);
    AheadSlotDist(hc, i, size);
    if d + 1 < SlotDist(hc, i, size) {
      FitsPath(s, size, hc, i, d + 1);
      assert OrderedAt(s, size, Ahead(hc, d + 1, size));
    }
  }

  /** The local invariant and the path invariant say the same thing. */
  lemma OrderedIffPathOrdered<K, V>(s: seq<Bucket<K, V>>, size: nat)
    requires Shaped(s, size)
    ensures Ordered(s, size) <==> PathOrdered(s, size)
  {
    if Ordered(s, size) {
      forall p, d: nat | 0 <= p < |s| && Occupied(s[p]) && d < Dist(s, size, p)
        ensures Occupied(s[Ahead(Home(s, size, p), d, size)])
        ensures Dist(s, size, Ahead(Home(s, size, p), d, size)) >= d
      {
        assert OrderedAt(s, size, p);
        FitsPath(s, size, Home(s, size, p), p, d);
      }
    }
    if PathOrdered(s, size) {
      forall j | 0 <= j < |s|
        ensures OrderedAt(s, size, j)
      {
        var h, d := Home(s, size, j), Dist(s, size, j);
        if Occupied(s[j]) && d > 0 {
          NextAhead(h, d - 1, size);
          PrevOfNext(Ahead(h, d - 1, size), size);
          AheadSlotDist(h, j, size);
        }
      }
    }
  }

  // ------------------------------------------------------------------ find

  /** From any slot on the way from its home to the bucket that holds it,
      find's scan for a stored key ends at that bucket. */
  lemma {:induction false} FindFromPresent<K, V>(s: seq<Bucket<K, V>>, size: nat, hash: K -> Int64, p: nat, d: nat)
    requires WellOrdered(s, size, hash) && p < |s| && Occupied(s[p]) && d <= Dist(s, size, p)
    ensures var key, i := s[p].key, Ahead(Home(s, size, p), d, size);
      StopsWithin(s, size, hash(key), key, i, |s| - d) &&
      FindFrom(s, size, hash(key), key, i, |s| - d) == Some(p)
    decreases Dist(s, size, p) - d
  {
    var h := Home(s, size, p);
    var a := Ahead(h, d, size);
    AheadSlotDist(h, p, size);
    SlotDistAhead(h, d, size);
    if d < Dist(s, size, p) {
      assert OrderedAt(s, size, p);
      FitsPath(s, size, h, p, d);
      assert a != p;
      NextAhead(h, d, size);
      FindFromPresent(s, size, hash, p, d + 1);
    }
  }

  /** On a well-ordered table, find reports a key exactly when it is stored,
      and then the slot that holds it. */
  lemma FindCorrect<K, V>(s: seq<Bucket<K, V>>, size: nat, hash: K -> Int64, key: K)
    requires WellOrdered(s, size, hash) && hash(key) != 0
    ensures FindIndex(s, size, hash(key), key).Some? <==> HasKey(s, key)
    ensures FindIndex(s, size, hash(key), key).Some? ==>
      var p := FindIndex(s, size, hash(key), key).value;
      p < |s| && Occupied(s[p]) && s[p].key == key
  {
    FindIndexMatches(s, size, hash(key), key);
    if HasKey(s, key) {
      var j :| 0 <= j < |s| && Occupied(s[j]) && s[j].key == key;
      FindFromPresent(s, size, hash, j, 0);
    }
  }

  /** Every stored key can be looked up: find's scan for it ends. */
  lemma PresentKeyFindStops<K, V>(s: seq<Bucket<K, V>>, size: nat, hash: K -> Int64, key: K)
    requires WellOrdered(s, size, hash) && HasKey(s, key)
    ensures FindStops(s, size, hash(key), key)
  {
    var j :| 0 <= j < |s| && Occupied(s[j]) && s[j].key == key;
    FindFromPresent(s, size, hash, j, 0);
  }

  /** find's guard never tests for an empty slot, and the hash 0 of an
      empty slot homes it at slot 0. So when every bucket of the table,
      empty ones included, is homed at slot 0 and none holds the key, the
      scan for a key homed at slot 0 passes every slot forever: on an empty
      map, find and remove of such a key never return. */
  lemma {:induction false} HomeZeroScanNeverStops<K, V>(s: seq<Bucket<K, V>>, size: nat, hk: int, key: K, i: nat, n: nat)
    requires Shaped(s, size) && i < |s| && HashSlot(hk, size) == 0
    requires forall j :: 0 <= j < |s| ==> HashSlot(s[j].hash, size) == 0 && !Matches(s[j], hk, key)
    ensures !StopsWithin(s, size, hk, key, i, n)
    ensures i == 0 && n == |s| ==> !FindStops(s, size, hk, key)
    decreases n
  {
    if n > 0 {
      HomeZeroScanNeverStops(s, size, hk, key, Next(i, size), n - 1);
    }
  }
}
