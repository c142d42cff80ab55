/** How the entries, the occupied count and the key invariants of a table
    change when one slot is overwritten or one bucket is moved. */
module TableUpdates {
  import opened Slots
  import opened RobinHoodSpec

  lemma {:induction false} CountUpdate<K, V>(s: seq<Bucket<K, V>>, i: nat, b: Bucket<K, V>)
    requires i < |s|
    ensures Count(s[i := b]) ==
      Count(s) - (if Occupied(s[i]) then 1 else 0) + (if Occupied(b) then 1 else 0)
  {
    var n := |s|;
    if i == n - 1 {
      assert s[i := b][..n - 1] == s[..n - 1];
    } else {
      assert s[i := b][..n - 1] == s[..n - 1][i := b];
      CountUpdate(s[..n - 1], i, b);
    }
  }

  /** A table of empty slots holds no bucket. */
  lemma {:induction false} CountAllEmpty<K, V>(s: seq<Bucket<K, V>>)
    requires forall j :: 0 <= j < |s| ==> !Occupied(s[j])
    ensures Count(s) == 0 && Entries(s) == {}
  {
    if |s| > 0 {
      CountAllEmpty(s[..|s| - 1]);
    }
  }

  /** A table whose count is below its length has an empty slot. */
  lemma {:induction false} CountBelowHasEmpty<K, V>(s: seq<Bucket<K, V>>)
    requires Count(s) < |s|
    ensures HasEmpty(s)
  {
    var n := |s|;
    if Occupied(s[n - 1]) {
      CountBelowHasEmpty(s[..n - 1]);
      var e :| 0 <= e < n - 1 && !Occupied(s[..n - 1][e]);
      assert !Occupied(s[e]);
    }
  }

  /** A table with an empty slot holds fewer buckets than it has slots. */
  lemma {:induction false} CountBelowWithEmpty<K, V>(s: seq<Bucket<K, V>>)
    requires HasEmpty(s)
    ensures Count(s) < |s|
  {
    var e :| 0 <= e < |s| && !Occupied(s[e]);
    var n := |s|;
    if e < n - 1 {
      assert HasEmpty(s[..n - 1]) by { assert s[..n - 1][e] == s[e]; }
      CountBelowWithEmpty(s[..n - 1]);
    }
  }

  /** Overwriting slot i removes the pair stored there (if any) and adds the
      new bucket's pair (if occupied), provided keys were unique. */
  lemma EntriesUpdate<K, V>(s: seq<Bucket<K, V>>, i: nat, b: Bucket<K, V>)
    requires i < |s| && KeysUnique(s)
    ensures Entries(s[i := b]) ==
      (Entries(s) - (if Occupied(s[i]) then {Pair(s[i])} else {})) + (if Occupied(b) then {Pair(b)} else {})
  {
    var t := s[i := b];
    var rhs := (Entries(s) - (if Occupied(s[i]) then {Pair(s[i])} else {})) + (if Occupied(b) then {Pair(b)} else {});
    forall x | x in Entries(t) ensures x in rhs {
      var j :| 0 <= j < |t| && Occupied(t[j]) && Pair(t[j]) == x;
      if j != i {
        assert x in Entries(s) by { assert s[j] == t[j]; }
      }
    }
    forall x | x in rhs ensures x in Entries(t) {
      if Occupied(b) && x == Pair(b) {
        assert t[i] == b;
      } else {
        var j :| 0 <= j < |s| && Occupied(s[j]) && Pair(s[j]) == x;
        assert j != i;
        assert t[j] == s[j];
      }
    }
  }

  /** Writing a bucket whose key is new keeps keys unique and hashes sound. */
  lemma WriteNewKey<K, V>(s: seq<Bucket<K, V>>, hash: K -> Int64, i: nat, b: Bucket<K, V>)
    requires i < |s| && KeysUnique(s) && HashesMatch(s, hash)
    requires Occupied(b) && b.hash == hash(b.key) && !HasKey(s, b.key)
    ensures KeysUnique(s[i := b]) && HashesMatch(s[i := b], hash)
    ensures Occupied(s[i]) ==> !HasKey(s[i := b], s[i].key)
  {
    var t := s[i := b];
    forall x, y | 0 <= x < |t| && 0 <= y < |t| && x != y && Occupied(t[x]) && Occupied(t[y])
      ensures t[x].key != t[y].key
    {
      if x == i {
        assert t[y] == s[y];
      } else if y == i {
        assert t[x] == s[x];
      }
    }
    if Occupied(s[i]) {
      forall j | 0 <= j < |t| && Occupied(t[j]) ensures t[j].key != s[i].key {
        if j == i {
        } else {
          assert t[j] == s[j];
        }
      }
    }
  }

  /** Overwriting a bucket with one of the same key and hash keeps keys
      unique and hashes sound. */
  lemma WriteSameKey<K, V>(s: seq<Bucket<K, V>>, hash: K -> Int64, i: nat, b: Bucket<K, V>)
    requires i < |s| && KeysUnique(s) && HashesMatch(s, hash) && Occupied(s[i])
    requires b.key == s[i].key && b.hash == s[i].hash
    ensures KeysUnique(s[i := b]) && HashesMatch(s[i := b], hash)
  {
    var t := s[i := b];
    forall x, y | 0 <= x < |t| && 0 <= y < |t| && x != y && Occupied(t[x]) && Occupied(t[y])
      ensures t[x].key != t[y].key
    {
      assert x != i ==> t[x] == s[x];
      assert y != i ==> t[y] == s[y];
    }
  }

  /** Emptying a slot keeps keys unique and hashes sound. */
  lemma WriteEmpty<K, V>(s: seq<Bucket<K, V>>, hash: K -> Int64, i: nat, z: Bucket<K, V>)
    requires i < |s| && KeysUnique(s) && HashesMatch(s, hash) && !Occupied(z)
    ensures KeysUnique(s[i := z]) && HashesMatch(s[i := z], hash)
  {
    var t := s[i := z];
    forall x, y | 0 <= x < |t| && 0 <= y < |t| && x != y && Occupied(t[x]) && Occupied(t[y])
      ensures t[x].key != t[y].key
    {
      assert t[x] == s[x] && t[y] == s[y];
    }
  }

  /** Moving the bucket at `from` into the empty slot `to` and emptying
      `from` changes neither the entries, nor the count, nor the key
      invariants. */
  lemma MoveBucket<K, V>(s: seq<Bucket<K, V>>, hash: K -> Int64, from: nat, to: nat, z: Bucket<K, V>)
    requires from < |s| && to < |s| && from != to
    requires !Occupied(s[to]) && !Occupied(z)
    requires KeysUnique(s) && HashesMatch(s, hash)
    ensures var t := s[to := s[from]][from := z];
      Entries(t) == Entries(s) && Count(t) == Count(s) && KeysUnique(t) && HashesMatch(t, hash)
  {
    var m := s[from];
    var t := s[to := m][from := z];
    CountUpdate(s, to, m);
    CountUpdate(s[to := m], from, z);
    forall x | x in Entries(t) ensures x in Entries(s) {
      var j :| 0 <= j < |t| && Occupied(t[j]) && Pair(t[j]) == x;
      if j == to {
        assert t[to] == s[from];
      } else {
        assert t[j] == s[j];
      }
    }
    forall x | x in Entries(s) ensures x in Entries(t) {
      var j :| 0 <= j < |s| && Occupied(s[j]) && Pair(s[j]) == x;
      if j == from {
        assert t[to] == s[from];
      } else {
        assert t[j] == s[j];
      }
    }
    forall x, y | 0 <= x < |t| && 0 <= y < |t| && x != y && Occupied(t[x]) && Occupied(t[y])
      ensures t[x].key != t[y].key
    {
      var x' := if x == to then from else x;
      var y' := if y == to then from else y;
      assert t[x] == s[x'] && t[y] == s[y'];
    }
    forall j | 0 <= j < |t| && Occupied(t[j]) ensures t[j].hash == hash(t[j].key) {
      var j' := if j == to then from else j;
      assert t[j] == s[j'];
    }
  }
}
