/** The bucket array of the Robin Hood map as a value: what a well-ordered
    table is, and what `find`, `set` and `remove` of hash.h do to the array,
    written as functions over the sequence of buckets. The class in module
    HashMap runs the same steps in place and is proved to agree with these. */
module RobinHoodSpec {
  import opened Slots
  import opened Wrappers

  /** One slot of the table (struct NAME##_bucket). A stored hash of 0 marks
      an empty slot; key and value are then whatever was last written. */
  datatype Bucket<K, V> = Bucket(hash: Int64, key: K, value: V)

  predicate Occupied<K, V>(b: Bucket<K, V>)
  {
    b.hash != 0
  }

  /** The pair a bucket contributes to the map. */
  function Pair<K, V>(b: Bucket<K, V>): (K, V)
  {
    (b.key, b.value)
  }

  /** The array has the 2^size slots of its capacity exponent. */
  predicate Shaped<K, V>(s: seq<Bucket<K, V>>, size: nat)
  {
    |s| == Capacity(size)
  }

  /** The home slot of the bucket stored at j. An empty bucket has hash 0 and
      so home 0, as the source's guard computes it. */
  function Home<K, V>(s: seq<Bucket<K, V>>, size: nat, j: nat): (r: nat)
    requires Shaped(s, size) && j < |s|
    ensures r < |s|
  {
    HashSlot(s[j].hash, size)
  }

  /** The probe distance of the bucket stored at j, from its home to j. */
  function Dist<K, V>(s: seq<Bucket<K, V>>, size: nat, j: nat): (r: nat)
    requires Shaped(s, size) && j < |s|
    ensures r < |s|
  {
    SlotDist(Home(s, size, j), j, size)
  }

  /** The Robin Hood invariant in its local form: a bucket that is not in its
      home slot has an occupied slot just before it, whose bucket is at most
      one step less displaced. */
  ghost predicate Ordered<K, V>(s: seq<Bucket<K, V>>, size: nat)
  {
    Shaped(s, size) && forall j :: 0 <= j < |s| ==> OrderedAt(s, size, j)
  }

  /** The local invariant at slot j. */
  ghost predicate OrderedAt<K, V>(s: seq<Bucket<K, V>>, size: nat, j: nat)
    requires Shaped(s, size) && j < |s|
  {
    Occupied(s[j]) && Dist(s, size, j) > 0 ==>
      Occupied(s[Prev(j, size)]) && Dist(s, size, Prev(j, size)) + 1 >= Dist(s, size, j)
  }

  /** The Robin Hood invariant along probe paths: for every occupied p with
      home h, each slot on the way from h to p is occupied, by a bucket at
      least as displaced as the step count from h. */
  ghost predicate PathOrdered<K, V>(s: seq<Bucket<K, V>>, size: nat)
  {
    Shaped(s, size) &&
    forall p, d: nat :: 0 <= p < |s| && Occupied(s[p]) && d < Dist(s, size, p) ==>
      Occupied(s[Ahead(Home(s, size, p), d, size)]) &&
      Dist(s, size, Ahead(Home(s, size, p), d, size)) >= d
  }

  ghost predicate KeysUnique<K, V>(s: seq<Bucket<K, V>>)
  {
    forall a, b :: 0 <= a < |s| && 0 <= b < |s| && a != b && Occupied(s[a]) && Occupied(s[b]) ==>
      s[a].key != s[b].key
  }

  /** Every stored hash is the hash of its key. */
  ghost predicate HashesMatch<K, V>(s: seq<Bucket<K, V>>, hash: K -> Int64)
  {
    forall j :: 0 <= j < |s| && Occupied(s[j]) ==> s[j].hash == hash(s[j].key)
  }

  /** A table on which find, set and remove behave as a map. */
  ghost predicate WellOrdered<K, V>(s: seq<Bucket<K, V>>, size: nat, hash: K -> Int64)
  {
    Ordered(s, size) && KeysUnique(s) && HashesMatch(s, hash)
  }

  ghost predicate HasKey<K, V>(s: seq<Bucket<K, V>>, key: K)
  {
    exists j :: 0 <= j < |s| && Occupied(s[j]) && s[j].key == key
  }

  ghost predicate HasEmpty<K, V>(s: seq<Bucket<K, V>>)
  {
    exists j :: 0 <= j < |s| && !Occupied(s[j])
  }

  /** Some empty slot, used only as a termination witness. */
  ghost function AnEmpty<K, V>(s: seq<Bucket<K, V>>): (e: nat)
    requires HasEmpty(s)
    ensures e < |s| && !Occupied(s[e])
  {
    var e :| 0 <= e < |s| && !Occupied(s[e]);
    e
  }

  /** The key/value pairs the table holds. */
  ghost function Entries<K, V>(s: seq<Bucket<K, V>>): set<(K, V)>
  {
    set j | 0 <= j < |s| && Occupied(s[j]) :: Pair(s[j])
  }

  /** The number of occupied slots. */
  function Count<K, V>(s: seq<Bucket<K, V>>): (n: nat)
    ensures n <= |s|
  {
    if |s| == 0 then 0 else Count(s[..|s| - 1]) + (if Occupied(s[|s| - 1]) then 1 else 0)
  }

  // ---------------------------------------------------------------- find

  predicate Matches<K(==), V>(b: Bucket<K, V>, hk: int, key: K)
  {
    b.hash == hk && b.key == key
  }

  /** The loop guard of find and of set's inner loop: a key homed at h is no
      more displaced at i than the bucket stored at i. */
  predicate Guard<K, V>(s: seq<Bucket<K, V>>, size: nat, h: nat, i: nat)
    requires Shaped(s, size) && h < |s| && i < |s|
  {
    SlotDist(h, i, size) <= Dist(s, size, i)
  }

  /** find's scan for a key with hash hk, at slot i with n more slots it may
      visit, ends: the guard fails at i, the bucket at i matches, or the scan
      ends from the next slot on. */
  predicate StopsWithin<K(==), V>(s: seq<Bucket<K, V>>, size: nat, hk: int, key: K, i: nat, n: nat)
    requires Shaped(s, size) && i < |s|
    decreases n
  {
    n > 0 &&
    (!Guard(s, size, HashSlot(hk, size), i) || Matches(s[i], hk, key) ||
     StopsWithin(s, size, hk, key, Next(i, size), n - 1))
  }

  /** find's scan ends at all. The slots it visits repeat after 2^size
      steps, so it ends if and only if it ends within them. */
  predicate FindStops<K(==), V>(s: seq<Bucket<K, V>>, size: nat, hk: int, key: K)
  {
    Shaped(s, size) && StopsWithin(s, size, hk, key, HashSlot(hk, size), |s|)
  }

  /** What find returns from slot i on, with n more slots it may visit: the
      first matching slot, or None once the guard fails. After 2^size slots
      the scan would revisit the same slots and never stop; FindFrom then
      gives None, a value find reaches only when FindStops fails. */
  function FindFrom<K(==), V>(s: seq<Bucket<K, V>>, size: nat, hk: int, key: K, i: nat, n: nat): (r: Option<nat>)
    requires Shaped(s, size) && i < |s|
    decreases n
  {
    if n == 0 then None
    else if !Guard(s, size, HashSlot(hk, size), i) then None
    else if Matches(s[i], hk, key) then Some(i)
    else FindFrom(s, size, hk, key, Next(i, size), n - 1)
  }

  /** One step of find's scan past a slot whose guard holds and whose bucket
      does not match: the scan still ends from the next slot on, with the
      same result. */
  lemma FindStep<K, V>(s: seq<Bucket<K, V>>, size: nat, hk: int, key: K, i: nat, n: nat)
    requires Shaped(s, size) && i < |s| && StopsWithin(s, size, hk, key, i, n)
    requires Guard(s, size, HashSlot(hk, size), i) && !Matches(s[i], hk, key)
    ensures n > 1 && StopsWithin(s, size, hk, key, Next(i, size), n - 1)
    ensures FindFrom(s, size, hk, key, i, n) == FindFrom(s, size, hk, key, Next(i, size), n - 1)
  {
  }

  /** find's scan ends at slot i: with the slot when its bucket matches,
      with None when the guard fails. */
  lemma FindEnd<K, V>(s: seq<Bucket<K, V>>, size: nat, hk: int, key: K, i: nat, n: nat)
    requires Shaped(s, size) && i < |s| && n > 0
    ensures !Guard(s, size, HashSlot(hk, size), i) ==> FindFrom(s, size, hk, key, i, n) == None
    ensures Guard(s, size, HashSlot(hk, size), i) && Matches(s[i], hk, key) ==>
      FindFrom(s, size, hk, key, i, n) == Some(i)
  {
  }

  /** The result of NAME##_find on a table for a key with hash hk. */
  function FindIndex<K(==), V>(s: seq<Bucket<K, V>>, size: nat, hk: int, key: K): (r: Option<nat>)
    requires Shaped(s, size)
  {
    FindFrom(s, size, hk, key, HashSlot(hk, size), |s|)
  }

  // ----------------------------------------------------------------- set

  datatype SetOutcome<K, V> =
    | Updated(table: seq<Bucket<K, V>>, prior: Bucket<K, V>)
    | Inserted(table: seq<Bucket<K, V>>)

  /** set's inner loop steps over slot i while carrying c: the slot is
      occupied and its bucket is at least as displaced as c would be there. */
  predicate PassesOver<K, V>(s: seq<Bucket<K, V>>, size: nat, c: Bucket<K, V>, i: nat)
    requires Shaped(s, size) && i < |s|
  {
    Occupied(s[i]) && Guard(s, size, HashSlot(c.hash, size), i)
  }

  /** The walk of NAME##_set carrying the bucket c at slot i. A bucket with
      c's hash and key is overwritten and its old contents returned; at the
      first slot that is not passed over, c is swapped in and the displaced
      bucket is carried on from the same slot, until an empty slot is
      filled. The empty slot e only bounds the walk. */
  ghost function SetWalk<K, V>(s: seq<Bucket<K, V>>, size: nat, c: Bucket<K, V>, i: nat, e: nat): (r: SetOutcome<K, V>)
    requires Shaped(s, size) && i < |s| && e < |s| && !Occupied(s[e]) && Occupied(c)
    ensures |r.table| == |s|
    decreases SlotDist(i, e, size), if PassesOver(s, size, c, i) then 0 else 1
  {
    if PassesOver(s, size, c, i) then
      if Matches(s[i], c.hash, c.key) then Updated(s[i := c], s[i])
      else
        SlotDistFromNext(i, e, size);
        SetWalk(s, size, c, Next(i, size), e)
    else if !Occupied(s[i]) then Inserted(s[i := c])
    else SetWalk(s[i := c], size, s[i], i, e)
  }

  /** set's inner loop steps over a slot it passes without a match. */
  lemma SetWalkPass<K, V>(s: seq<Bucket<K, V>>, size: nat, c: Bucket<K, V>, i: nat, e: nat)
    requires Shaped(s, size) && i < |s| && e < |s| && !Occupied(s[e]) && Occupied(c)
    requires PassesOver(s, size, c, i) && !Matches(s[i], c.hash, c.key)
    ensures i != e && SlotDist(Next(i, size), e, size) < SlotDist(i, e, size)
    ensures SetWalk(s, size, c, i, e) == SetWalk(s, size, c, Next(i, size), e)
  {
  }

  /** set overwrites the first bucket it passes over with c's hash and key. */
  lemma SetWalkHit<K, V>(s: seq<Bucket<K, V>>, size: nat, c: Bucket<K, V>, i: nat, e: nat)
    requires Shaped(s, size) && i < |s| && e < |s| && !Occupied(s[e]) && Occupied(c)
    requires PassesOver(s, size, c, i) && Matches(s[i], c.hash, c.key)
    ensures SetWalk(s, size, c, i, e) == Updated(s[i := c], s[i])
  {
  }

  /** set stops at a slot it does not pass over: c goes there, and the walk
      ends if the slot was empty or carries its old bucket on otherwise. */
  lemma SetWalkSwap<K, V>(s: seq<Bucket<K, V>>, size: nat, c: Bucket<K, V>, i: nat, e: nat)
    requires Shaped(s, size) && i < |s| && e < |s| && !Occupied(s[e]) && Occupied(c)
    requires !PassesOver(s, size, c, i)
    ensures !Occupied(s[i]) ==> SetWalk(s, size, c, i, e) == Inserted(s[i := c])
    ensures Occupied(s[i]) ==>
      i != e && PassesOver(s[i := c], size, s[i], i) &&
      SetWalk(s, size, c, i, e) == SetWalk(s[i := c], size, s[i], i, e)
  {
  }

  /** The walk of set does not depend on which empty slot bounds it. */
  lemma {:induction false} SetWalkAnyEmpty<K, V>(s: seq<Bucket<K, V>>, size: nat, c: Bucket<K, V>, i: nat, e: nat, e': nat)
    requires Shaped(s, size) && i < |s| && e < |s| && !Occupied(s[e]) && Occupied(c)
    requires e' < |s| && !Occupied(s[e'])
    ensures SetWalk(s, size, c, i, e) == SetWalk(s, size, c, i, e')
    decreases SlotDist(i, e, size), if PassesOver(s, size, c, i) then 0 else 1
  {
    if PassesOver(s, size, c, i) {
      if !Matches(s[i], c.hash, c.key) {
        SlotDistFromNext(i, e, size);
        SetWalkAnyEmpty(s, size, c, Next(i, size), e, e');
      }
    } else if Occupied(s[i]) {
      SetWalkSwap(s, size, c, i, e);
      SetWalkAnyEmpty(s[i := c], size, s[i], i, e, e');
    }
  }

  /** The result of NAME##_set of the bucket x on a table with an empty slot. */
  ghost function SetResult<K, V>(s: seq<Bucket<K, V>>, size: nat, x: Bucket<K, V>): (r: SetOutcome<K, V>)
    requires Shaped(s, size) && HasEmpty(s) && Occupied(x)
  {
    SetWalk(s, size, x, HashSlot(x.hash, size), AnEmpty(s))
  }

  // -------------------------------------------------------------- remove

  /** remove's loop moves the bucket at i one slot back while it is occupied
      and away from home. */
  predicate ShiftsBack<K, V>(s: seq<Bucket<K, V>>, size: nat, i: nat)
    requires Shaped(s, size) && i < |s|
  {
    Occupied(s[i]) && Dist(s, size, i) > 0
  }

  /** How far the bucket at j sits from its home; an empty slot adds
      nothing. */
  function Weight<K, V>(s: seq<Bucket<K, V>>, size: nat, j: nat): nat
    requires Shaped(s, size) && j < |s|
  {
    if Occupied(s[j]) then Dist(s, size, j) else 0
  }

  /** The total displacement of the buckets in the slots below n. */
  function DisplacementBelow<K, V>(s: seq<Bucket<K, V>>, size: nat, n: nat): nat
    requires Shaped(s, size) && n <= |s|
    decreases n
  {
    if n == 0 then 0 else DisplacementBelow(s, size, n - 1) + Weight(s, size, n - 1)
  }

  /** Overwriting slot q changes the total displacement by the change of
      that slot's weight. */
  lemma {:induction false} DisplacementUpdate<K, V>(s: seq<Bucket<K, V>>, size: nat, q: nat, b: Bucket<K, V>, n: nat)
    requires Shaped(s, size) && q < |s| && n <= |s|
    ensures DisplacementBelow(s[q := b], size, n) ==
      DisplacementBelow(s, size, n) + (if q < n then Weight(s[q := b], size, q) - Weight(s, size, q) else 0)
    decreases n
  {
    if n > 0 {
      DisplacementUpdate(s, size, q, b, n - 1);
    }
  }

  /** The measure of remove's shift loop: the total displacement of the
      buckets outside the gap at prev. */
  function ShiftMeasure<K, V>(s: seq<Bucket<K, V>>, size: nat, prev: nat): nat
    requires Shaped(s, size) && prev < |s|
  {
    DisplacementBelow(s[prev := Bucket(0, s[prev].key, s[prev].value)], size, |s|)
  }

  /** Each round of remove's shift loop moves a displaced bucket one slot
      closer to its home and makes its old slot the gap, so the measure drops
      by exactly one: the loop ends on every table, full ones included. */
  lemma ShiftMeasureDecreases<K, V>(s: seq<Bucket<K, V>>, size: nat, prev: nat, i: nat)
    requires Shaped(s, size) && prev < |s| && i == Next(prev, size) && ShiftsBack(s, size, i)
    ensures i != prev && ShiftMeasure(s[prev := s[i]], size, i) == ShiftMeasure(s, size, prev) - 1
  {
    var n := |s|;
    var s1 := s[prev := s[i]];
    PrevOfNext(prev, size);
    SlotDistPrev(Home(s, size, i), i, size);
    assert Weight(s1, size, prev) == Weight(s, size, i) - 1;
    DisplacementUpdate(s, size, prev, Bucket(0, s[prev].key, s[prev].value), n);
    DisplacementUpdate(s, size, prev, s[i], n);
    DisplacementUpdate(s1, size, i, Bucket(0, s1[i].key, s1[i].value), n);
  }

  /** The backward shift of NAME##_remove: the bucket at i moves to prev
      while it shifts back; the last vacated slot gets the zero bucket. */
  function ShiftBack<K, V>(s: seq<Bucket<K, V>>, size: nat, zero: Bucket<K, V>, prev: nat, i: nat): (t: seq<Bucket<K, V>>)
    requires Shaped(s, size) && prev < |s| && i == Next(prev, size)
    ensures |t| == |s|
    decreases ShiftMeasure(s, size, prev)
  {
    if ShiftsBack(s, size, i) then
      ShiftMeasureDecreases(s, size, prev, i);
      ShiftBack(s[prev := s[i]], size, zero, i, Next(i, size))
    else s[prev := zero]
  }

  /** One step of remove's loop. */
  lemma ShiftBackStep<K, V>(s: seq<Bucket<K, V>>, size: nat, zero: Bucket<K, V>, prev: nat, i: nat)
    requires Shaped(s, size) && prev < |s| && i == Next(prev, size)
    ensures ShiftsBack(s, size, i) ==>
      i != prev && ShiftMeasure(s[prev := s[i]], size, i) < ShiftMeasure(s, size, prev) &&
      ShiftBack(s, size, zero, prev, i) == ShiftBack(s[prev := s[i]], size, zero, i, Next(i, size))
    ensures !ShiftsBack(s, size, i) ==> ShiftBack(s, size, zero, prev, i) == s[prev := zero]
  {
    if ShiftsBack(s, size, i) {
      ShiftMeasureDecreases(s, size, prev, i);
    }
  }

  datatype RemoveOutcome<K, V> = RemoveOutcome(table: seq<Bucket<K, V>>, removed: Bucket<K, V>, found: bool)

  /** The result of NAME##_remove: find the key, return its bucket and close
      the gap behind it; an absent key changes nothing and returns zero. */
  function RemoveResult<K(==), V>(s: seq<Bucket<K, V>>, size: nat, hk: int, key: K, zero: Bucket<K, V>): (r: RemoveOutcome<K, V>)
    requires Shaped(s, size)
  {
    match FindIndex(s, size, hk, key)
    case None => RemoveOutcome(s, zero, false)
    case Some(p) =>
      FindIndexMatches(s, size, hk, key);
      RemoveOutcome(ShiftBack(s, size, zero, p, Next(p, size)), s[p], true)
  }

  /** find only ever reports a bucket whose stored hash and key are the
      ones looked for. */
  lemma FindIndexMatches<K, V>(s: seq<Bucket<K, V>>, size: nat, hk: int, key: K)
    requires Shaped(s, size)
    ensures FindIndex(s, size, hk, key).Some? ==>
      FindIndex(s, size, hk, key).value < |s| && Matches(s[FindIndex(s, size, hk, key).value], hk, key)
  {
    FindFromMatches(s, size, hk, key, HashSlot(hk, size), |s|);
  }

  lemma {:induction false} FindFromMatches<K, V>(s: seq<Bucket<K, V>>, size: nat, hk: int, key: K, i: nat, n: nat)
    requires Shaped(s, size) && i < |s|
    ensures FindFrom(s, size, hk, key, i, n).Some? ==>
      FindFrom(s, size, hk, key, i, n).value < |s| && Matches(s[FindFrom(s, size, hk, key, i, n).value], hk, key)
    decreases n
  {
    if n > 0 && Guard(s, size, HashSlot(hk, size), i) && !Matches(s[i], hk, key) {
      FindFromMatches(s, size, hk, key, Next(i, size), n - 1);
    }
  }
}
