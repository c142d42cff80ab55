/** The scenarios of tests.c, run on the map object: a map of string keys
    and values with 4 slots (size 2), buckets written straight into the
    array as the tests do, then one call of set, find or remove. Each
    scenario is a lemma that works out what the call does to the literal
    table, and a method that makes the calls on a Map and returns what the
    test inspects. The tests write buckets without touching no_items, so
    the count goes stale, and several of them write tables that break the
    Robin Hood invariant. */
module Fixtures {
  import opened Slots
  import opened Wrappers
  import opened RobinHoodSpec
  import opened HashMap
  import RobinHoodLemmas

  type Table = seq<Bucket<string, string>>

  /** fake_hash of tests.c: the first character's code minus '0'. The empty
      string has the terminating NUL as its first character. */
  function FakeHash(k: string): (h: Int64)
    ensures |k| > 0 && '1' <= k[0] <= '9' ==> 1 <= h <= 9
  {
    (if |k| == 0 then 0 else k[0] as int) - '0' as int
  }

  /** The zeroed bucket of the test map: calloc's NULL key and value. */
  function Z(): Bucket<string, string>
  {
    Bucket(0, "", "")
  }

  /** test_map_new(2) of tests.c with calloc succeeding. */
  method NewTestMap() returns (h: Map<string, string>)
    ensures fresh(h) && fresh(h.items) && h.items != null
    ensures h.size == 2 && h.noItems == 0 && h.hash == FakeHash && h.Zero() == Z()
    ensures h.items[..] == [Z(), Z(), Z(), Z()]
  {
    h := new Map<string, string>(2, FakeHash, "", "", true);
    assert h.items.Length == 4;
    assert h.items[..] == [Z(), Z(), Z(), Z()];
  }

  /** set's result may be computed with any empty slot as the bound. */
  lemma SetResultWith(s: Table, x: Bucket<string, string>, e: nat)
    requires Shaped(s, 2) && e < |s| && !Occupied(s[e]) && Occupied(x)
    ensures HasEmpty(s) && SetResult(s, 2, x) == SetWalk(s, 2, x, HashSlot(x.hash, 2), e)
  {
    SetWalkAnyEmpty(s, 2, x, HashSlot(x.hash, 2), AnEmpty(s), e);
  }

  /** remove's result once find has reported p: the bucket at p, and the
      shift that starts behind it. */
  lemma RemoveResultWith(s: Table, hk: int, key: string, p: nat)
    requires Shaped(s, 2) && hk != 0
    requires FindIndex(s, 2, hk, key) == Some(p)
    ensures p < |s| && Occupied(s[p])
    ensures RemoveResult(s, 2, hk, key, Z()) == RemoveOutcome(ShiftBack(s, 2, Z(), p, Next(p, 2)), s[p], true)
  {
    FindIndexMatches(s, 2, hk, key);
  }

  // ------------------------------------------------------------------ set

  lemma InsertWalk(s0: Table, x: Bucket<string, string>)
    requires s0 == [Z(), Z(), Z(), Z()] && x == Bucket(1, "1", "Success")
    ensures Shaped(s0, 2) && HasEmpty(s0) && SetResult(s0, 2, x) == Inserted([Z(), x, Z(), Z()])
  {
    SetResultWith(s0, x, 1);
    SetWalkSwap(s0, 2, x, 1, 1);
  }

  /** insert (tests.c:24-33): "1" lands in its home slot 1 of the empty map. */
  method Insert() returns (v: string, n: SizeT)
    ensures v == "Success" && n == 1
  {
    var h := NewTestMap();
    InsertWalk(h.items[..], Bucket(1, "1", "Success"));
    var r := h.Set("1", "Success");
    v := h.items[1].value;
    n := h.noItems;
  }

  lemma InsAfterOtherWalk(s0: Table, x: Bucket<string, string>)
    requires s0 == [Z(), Z(), Bucket(2, "Fake", "FAIL"), Z()] && x == Bucket(2, "2", "Success")
    ensures Shaped(s0, 2) && HasEmpty(s0) && SetResult(s0, 2, x) == Inserted(s0[3 := x])
    ensures Count(s0[3 := x]) == 2
  {
    SetResultWith(s0, x, 3);
    SetWalkPass(s0, 2, x, 2, 3);
    SetWalkSwap(s0, 2, x, 3, 3);
    var t := s0[3 := x];
    assert t[..3][..2] == t[..2] && t[..2][..1] == t[..1] && t[..1][..0] == [];
    assert Count(t[..2]) == 0;
  }

  /** ins_after_other (tests.c:35-49): slot 2 holds another key homed at 2,
      so "2" goes on to slot 3. no_items counts only the set, not the
      bucket the test wrote, so it is left below the number of buckets. */
  method InsAfterOther() returns (v: string, n: SizeT, buckets: nat)
    ensures v == "Success" && n == 1 && buckets == 2
  {
    var h := NewTestMap();
    h.items[2] := Bucket(2, "Fake", "FAIL");
    InsAfterOtherWalk(h.items[..], Bucket(2, "2", "Success"));
    var r := h.Set("2", "Success");
    v := h.items[3].value;
    n := h.noItems;
    buckets := Count(h.items[..]);
  }

  lemma InsAfterSmallerOtherWalk(s0: Table, x: Bucket<string, string>)
    requires s0 == [Z(), Z(), Bucket(1, "Fake", "FAIL"), Z()] && x == Bucket(2, "2", "Success")
    ensures Shaped(s0, 2) && HasEmpty(s0) && SetResult(s0, 2, x) == Inserted(s0[3 := x])
    ensures !Ordered(s0, 2)
  {
    SetResultWith(s0, x, 3);
    SetWalkPass(s0, 2, x, 2, 3);
    SetWalkSwap(s0, 2, x, 3, 3);
    assert !OrderedAt(s0, 2, 2);
  }

  /** ins_after_smaller_other (tests.c:51-65): slot 2 holds a bucket homed
      at 1 while slot 1 is empty, a table that breaks the Robin Hood
      invariant; "2" steps over that bucket and lands in slot 3. */
  method InsAfterSmallerOther() returns (v: string, table: Table)
    ensures v == "Success" && !Ordered(table, 2)
  {
    var h := NewTestMap();
    h.items[2] := Bucket(1, "Fake", "FAIL");
    table := h.items[..];
    InsAfterSmallerOtherWalk(table, Bucket(2, "2", "Success"));
    var r := h.Set("2", "Success");
    v := h.items[3].value;
  }

  lemma InsOverBoundaryWalk(s0: Table, x: Bucket<string, string>)
    requires s0 == [Z(), Z(), Z(), Bucket(3, "Fake", "FAIL")] && x == Bucket(3, "3", "Success")
    ensures Shaped(s0, 2) && HasEmpty(s0) && SetResult(s0, 2, x) == Inserted(s0[0 := x])
  {
    SetResultWith(s0, x, 0);
    SetWalkPass(s0, 2, x, 3, 0);
    SetWalkSwap(s0, 2, x, 0, 0);
  }

  /** ins_after_other_over_boundry (tests.c:67-81): the last slot is taken,
      so "3" wraps round to slot 0. */
  method InsAfterOtherOverBoundary() returns (v: string)
    ensures v == "Success"
  {
    var h := NewTestMap();
    h.items[3] := Bucket(3, "Fake", "FAIL");
    InsOverBoundaryWalk(h.items[..], Bucket(3, "3", "Success"));
    var r := h.Set("3", "Success");
    v := h.items[0].value;
  }

  lemma InsAlreadySetWalk(s0: Table, x: Bucket<string, string>)
    requires s0 == [Z(), Z(), Bucket(2, "2", "FAIL"), Z()] && x == Bucket(2, "2", "Success")
    ensures Shaped(s0, 2) && HasEmpty(s0) && SetResult(s0, 2, x) == Updated(s0[2 := x], s0[2])
  {
    SetResultWith(s0, x, 0);
    SetWalkHit(s0, 2, x, 2, 0);
  }

  /** ins_already_set (tests.c:83-98): setting a stored key overwrites its
      bucket and returns the old one. */
  method InsAlreadySet() returns (v: string, removed: string)
    ensures v == "Success" && removed == "FAIL"
  {
    var h := NewTestMap();
    h.items[2] := Bucket(2, "2", "FAIL");
    InsAlreadySetWalk(h.items[..], Bucket(2, "2", "Success"));
    var r := h.Set("2", "Success");
    v := h.items[2].value;
    removed := r.value;
  }

  // ----------------------------------------------------------------- find

  lemma FindHomeScan(s0: Table)
    requires s0 == [Z(), Z(), Bucket(2, "2", "Success"), Z()]
    ensures Shaped(s0, 2) && FindStops(s0, 2, 2, "2") && FindIndex(s0, 2, 2, "2") == Some(2)
  {
    FindEnd(s0, 2, 2, "2", 2, 4);
  }

  /** find (tests.c:100-114): a key in its home slot is found there. */
  method FindHome() returns (v: string)
    ensures v == "Success"
  {
    var h := NewTestMap();
    h.items[2] := Bucket(2, "2", "Success");
    FindHomeScan(h.items[..]);
    var found := h.Find("2");
    v := h.items[found.value].value;
  }

  lemma FindAfterOtherScan(s0: Table)
    requires s0 == [Z(), Z(), Bucket(2, "22", "FAIL"), Bucket(2, "2", "Success")]
    ensures Shaped(s0, 2) && FindStops(s0, 2, 2, "2") && FindIndex(s0, 2, 2, "2") == Some(3)
  {
    assert StopsWithin(s0, 2, 2, "2", 3, 3);
    FindStep(s0, 2, 2, "2", 2, 4);
    FindEnd(s0, 2, 2, "2", 3, 3);
  }

  /** find_after_other (tests.c:116-135): another key with the same hash
      sits in the home slot; the scan goes on to slot 3. */
  method FindAfterOther() returns (v: string)
    ensures v == "Success"
  {
    var h := NewTestMap();
    h.items[2] := Bucket(2, "22", "FAIL");
    h.items[3] := Bucket(2, "2", "Success");
    FindAfterOtherScan(h.items[..]);
    var found := h.Find("2");
    v := h.items[found.value].value;
  }

  lemma FindAfterSmallerOtherScan(s0: Table)
    requires s0 == [Z(), Z(), Bucket(1, "1", "FAIL"), Bucket(2, "2", "Success")]
    ensures Shaped(s0, 2) && FindStops(s0, 2, 2, "2") && FindIndex(s0, 2, 2, "2") == Some(3)
    ensures !Ordered(s0, 2)
  {
    assert StopsWithin(s0, 2, 2, "2", 3, 3);
    FindStep(s0, 2, 2, "2", 2, 4);
    FindEnd(s0, 2, 2, "2", 3, 3);
    assert !OrderedAt(s0, 2, 2);
  }

  /** find_after_smaller_other (tests.c:137-156): slot 2 holds a bucket
      homed at 1 with slot 1 empty, a table that breaks the Robin Hood
      invariant; the scan from slot 2 passes it and finds "2" in slot 3. */
  method FindAfterSmallerOther() returns (v: string, table: Table)
    ensures v == "Success" && !Ordered(table, 2)
  {
    var h := NewTestMap();
    h.items[2] := Bucket(1, "1", "FAIL");
    h.items[3] := Bucket(2, "2", "Success");
    table := h.items[..];
    FindAfterSmallerOtherScan(table);
    var found := h.Find("2");
    v := h.items[found.value].value;
  }

  lemma FindOverBoundaryScan(s0: Table)
    requires s0 == [Bucket(3, "3", "Success"), Z(), Z(), Bucket(3, "33", "FAIL")]
    ensures Shaped(s0, 2) && FindStops(s0, 2, 3, "3") && FindIndex(s0, 2, 3, "3") == Some(0)
  {
    assert StopsWithin(s0, 2, 3, "3", 0, 3);
    FindStep(s0, 2, 3, "3", 3, 4);
    FindEnd(s0, 2, 3, "3", 0, 3);
  }

  /** find_over_boundry (tests.c:158-177): the scan wraps from the last
      slot to slot 0. */
  method FindOverBoundary() returns (v: string)
    ensures v == "Success"
  {
    var h := NewTestMap();
    h.items[3] := Bucket(3, "33", "FAIL");
    h.items[0] := Bucket(3, "3", "Success");
    FindOverBoundaryScan(h.items[..]);
    var found := h.Find("3");
    v := h.items[found.value].value;
  }

  // --------------------------------------------------------------- remove

  lemma RemoveTestScan(s0: Table)
    requires s0 == [Z(), Z(), Bucket(2, "2", "Success"), Z()]
    ensures Shaped(s0, 2) && FindStops(s0, 2, 2, "2")
    ensures RemoveResult(s0, 2, 2, "2", Z()) == RemoveOutcome([Z(), Z(), Z(), Z()], s0[2], true)
  {
    FindEnd(s0, 2, 2, "2", 2, 4);
    RemoveResultWith(s0, 2, "2", 2);
    ShiftBackStep(s0, 2, Z(), 2, 3);
  }

  /** remove_test (tests.c:179-193): the only bucket is taken out and its
      slot zeroed. The test wrote that bucket without counting it, so
      --no_items wraps the count from 0 round to 2^64 - 1. */
  method RemoveTest() returns (v: string, emptied: bool, n: SizeT)
    ensures v == "Success" && emptied && n == SizeMod - 1
  {
    var h := NewTestMap();
    h.items[2] := Bucket(2, "2", "Success");
    RemoveTestScan(h.items[..]);
    var removed := h.Remove("2");
    v := removed.value;
    emptied := h.items[2].hash == 0;
    n := h.noItems;
  }

  lemma RemoveAfterOtherScan(s0: Table, other: Bucket<string, string>)
    requires other == Bucket(2, "22", "FAIL") || other == Bucket(1, "11", "FAIL")
    requires s0 == [Z(), Z(), other, Bucket(2, "2", "Success")]
    ensures Shaped(s0, 2) && FindStops(s0, 2, 2, "2")
    ensures RemoveResult(s0, 2, 2, "2", Z()) == RemoveOutcome(s0[3 := Z()], s0[3], true)
    ensures other.hash == 1 ==> !Ordered(s0, 2)
  {
    assert StopsWithin(s0, 2, 2, "2", 3, 3);
    FindStep(s0, 2, 2, "2", 2, 4);
    FindEnd(s0, 2, 2, "2", 3, 3);
    RemoveResultWith(s0, 2, "2", 3);
    ShiftBackStep(s0, 2, Z(), 3, 0);
    assert other.hash == 1 ==> !OrderedAt(s0, 2, 2);
  }

  /** remove_after_other (tests.c:195-215): "2" sits one slot past its home,
      behind another key; it is taken out and the other key stays. */
  method RemoveAfterOther() returns (v: string, emptied: bool, kept: string)
    ensures v == "Success" && emptied && kept == "FAIL"
  {
    var h := NewTestMap();
    h.items[2] := Bucket(2, "22", "FAIL");
    h.items[3] := Bucket(2, "2", "Success");
    RemoveAfterOtherScan(h.items[..], Bucket(2, "22", "FAIL"));
    var removed := h.Remove("2");
    v := removed.value;
    emptied := h.items[3].hash == 0;
    kept := h.items[2].value;
  }

  /** remove_after_smaller_other (tests.c:217-237): as above, with slot 2
      holding a bucket homed at 1 while slot 1 is empty, a table that breaks
      the Robin Hood invariant. */
  method RemoveAfterSmallerOther() returns (v: string, emptied: bool, kept: string, table: Table)
    ensures v == "Success" && emptied && kept == "FAIL" && !Ordered(table, 2)
  {
    var h := NewTestMap();
    h.items[2] := Bucket(1, "11", "FAIL");
    h.items[3] := Bucket(2, "2", "Success");
    table := h.items[..];
    RemoveAfterOtherScan(table, Bucket(1, "11", "FAIL"));
    var removed := h.Remove("2");
    v := removed.value;
    emptied := h.items[3].hash == 0;
    kept := h.items[2].value;
  }

  lemma RemoveOverBoundaryScan(s0: Table)
    requires s0 == [Bucket(3, "3", "Success"), Z(), Z(), Bucket(3, "33", "FAIL")]
    ensures Shaped(s0, 2) && FindStops(s0, 2, 3, "3")
    ensures RemoveResult(s0, 2, 3, "3", Z()) == RemoveOutcome(s0[0 := Z()], s0[0], true)
  {
    FindOverBoundaryScan(s0);
    RemoveResultWith(s0, 3, "3", 0);
    ShiftBackStep(s0, 2, Z(), 0, 1);
  }

  /** remove_over_boundry (tests.c:239-259): the removed bucket sat past the
      wrap to slot 0. */
  method RemoveOverBoundary() returns (v: string, emptied: bool, kept: string)
    ensures v == "Success" && emptied && kept == "FAIL"
  {
    var h := NewTestMap();
    h.items[3] := Bucket(3, "33", "FAIL");
    h.items[0] := Bucket(3, "3", "Success");
    RemoveOverBoundaryScan(h.items[..]);
    var removed := h.Remove("3");
    v := removed.value;
    emptied := h.items[0].hash == 0;
    kept := h.items[3].value;
  }

  lemma RemoveBacktrackOtherScan(s0: Table)
    requires s0 == [Z(), Z(), Bucket(2, "22", "FAIL"), Bucket(2, "2", "Success")]
    ensures Shaped(s0, 2) && FindStops(s0, 2, 2, "22")
    ensures RemoveResult(s0, 2, 2, "22", Z()) == RemoveOutcome([Z(), Z(), s0[3], Z()], s0[2], true)
  {
    FindEnd(s0, 2, 2, "22", 2, 4);
    RemoveResultWith(s0, 2, "22", 2);
    ShiftBackStep(s0, 2, Z(), 2, 3);
    ShiftBackStep(s0[2 := s0[3]], 2, Z(), 3, 0);
  }

  /** remove_backtrack_other (tests.c:261-280): removing the bucket in the
      home slot moves the displaced "2" one slot back into it. */
  method RemoveBacktrackOther() returns (moved: string, emptied: bool)
    ensures moved == "Success" && emptied
  {
    var h := NewTestMap();
    h.items[2] := Bucket(2, "22", "FAIL");
    h.items[3] := Bucket(2, "2", "Success");
    RemoveBacktrackOtherScan(h.items[..]);
    var removed := h.Remove("22");
    moved := h.items[2].value;
    emptied := h.items[3].hash == 0;
  }

  lemma RemoveBacktrackOverBoundaryScan(s0: Table)
    requires s0 == [Bucket(3, "3", "Success"), Z(), Z(), Bucket(3, "33", "FAIL")]
    ensures Shaped(s0, 2) && FindStops(s0, 2, 3, "33")
    ensures RemoveResult(s0, 2, 3, "33", Z()) == RemoveOutcome([Z(), Z(), Z(), s0[0]], s0[3], true)
  {
    FindEnd(s0, 2, 3, "33", 3, 4);
    RemoveResultWith(s0, 3, "33", 3);
    ShiftBackStep(s0, 2, Z(), 3, 0);
    ShiftBackStep(s0[3 := s0[0]], 2, Z(), 0, 1);
  }

  /** remove_backtrack_over_boundry (tests.c:282-301): the displaced bucket
      moves back across the wrap, from slot 0 to slot 3. */
  method RemoveBacktrackOverBoundary() returns (moved: string, emptied: bool)
    ensures moved == "Success" && emptied
  {
    var h := NewTestMap();
    h.items[3] := Bucket(3, "33", "FAIL");
    h.items[0] := Bucket(3, "3", "Success");
    RemoveBacktrackOverBoundaryScan(h.items[..]);
    var removed := h.Remove("33");
    moved := h.items[3].value;
    emptied := h.items[0].hash == 0;
  }

  lemma RemoveBacktrackOptimalScan(s0: Table)
    requires s0 == [Z(), Z(), Bucket(2, "22", "FAIL"), Bucket(3, "3", "Success")]
    ensures Shaped(s0, 2) && FindStops(s0, 2, 2, "22")
    ensures RemoveResult(s0, 2, 2, "22", Z()) == RemoveOutcome(s0[2 := Z()], s0[2], true)
  {
    FindEnd(s0, 2, 2, "22", 2, 4);
    RemoveResultWith(s0, 2, "22", 2);
    ShiftBackStep(s0, 2, Z(), 2, 3);
  }

  /** remove_backtrack_optimal (tests.c:303-323): the next bucket is in its
      home slot, so it stays where it is. */
  method RemoveBacktrackOptimal() returns (emptied: bool, stays: bool, v: string)
    ensures emptied && stays && v == "Success"
  {
    var h := NewTestMap();
    h.items[2] := Bucket(2, "22", "FAIL");
    h.items[3] := Bucket(3, "3", "Success");
    RemoveBacktrackOptimalScan(h.items[..]);
    var removed := h.Remove("22");
    emptied := h.items[2].hash == 0;
    stays := h.items[3].hash != 0;
    v := h.items[3].value;
  }

  lemma RemoveBacktrackOverBoundaryOptimalScan(s0: Table)
    requires s0 == [Bucket(4, "4", "Success"), Z(), Z(), Bucket(3, "33", "FAIL")]
    ensures Shaped(s0, 2) && FindStops(s0, 2, 3, "33")
    ensures RemoveResult(s0, 2, 3, "33", Z()) == RemoveOutcome(s0[3 := Z()], s0[3], true)
  {
    FindEnd(s0, 2, 3, "33", 3, 4);
    RemoveResultWith(s0, 3, "33", 3);
    ShiftBackStep(s0, 2, Z(), 3, 0);
  }

  /** remove_backtrack_over_boundry_optimal (tests.c:325-345): hash 4 is
      homed at slot 0, so the bucket there stays. */
  method RemoveBacktrackOverBoundaryOptimal() returns (emptied: bool, stays: bool, v: string)
    ensures emptied && stays && v == "Success"
  {
    var h := NewTestMap();
    h.items[3] := Bucket(3, "33", "FAIL");
    h.items[0] := Bucket(4, "4", "Success");
    RemoveBacktrackOverBoundaryOptimalScan(h.items[..]);
    var removed := h.Remove("33");
    emptied := h.items[3].hash == 0;
    stays := h.items[0].hash != 0;
    v := h.items[0].value;
  }

  lemma RemoveBacktrack2Scan(s0: Table)
    requires s0 == [Z(), Bucket(4, "44", "FAIL4"), Bucket(1, "11", "FAIL1"), Bucket(2, "2", "Success")]
    ensures Shaped(s0, 2) && FindStops(s0, 2, 4, "44")
    ensures RemoveResult(s0, 2, 4, "44", Z()) == RemoveOutcome([Z(), s0[2], s0[3], Z()], s0[1], true)
    ensures !Ordered(s0, 2)
  {
    assert StopsWithin(s0, 2, 4, "44", 1, 3);
    FindStep(s0, 2, 4, "44", 0, 4);
    FindEnd(s0, 2, 4, "44", 1, 3);
    RemoveResultWith(s0, 4, "44", 1);
    var s1 := s0[1 := s0[2]];
    var s2 := s1[2 := s1[3]];
    ShiftBackStep(s0, 2, Z(), 1, 2);
    ShiftBackStep(s1, 2, Z(), 2, 3);
    ShiftBackStep(s2, 2, Z(), 3, 0);
    assert !OrderedAt(s0, 2, 1);
  }

  /** remove_backtrack_2 (tests.c:347-372): slot 1 holds a bucket homed at 0
      while slot 0 is empty, a table that breaks the Robin Hood invariant.
      find's scan from slot 0 passes the empty slot, whose hash 0 homes it
      at 0, and finds "44" in slot 1; the two buckets after it move one
      slot back each. */
  method RemoveBacktrack2() returns (emptied: bool, moved: string, table: Table)
    ensures emptied && moved == "Success" && !Ordered(table, 2)
  {
    var h := NewTestMap();
    h.items[1] := Bucket(4, "44", "FAIL4");
    h.items[2] := Bucket(1, "11", "FAIL1");
    h.items[3] := Bucket(2, "2", "Success");
    table := h.items[..];
    RemoveBacktrack2Scan(table);
    var removed := h.Remove("44");
    emptied := h.items[3].hash == 0;
    moved := h.items[2].value;
  }

  lemma RemoveFromFullTableScan(s0: Table)
    requires s0 == [Bucket(3, "33", "A"), Bucket(1, "1", "B"), Bucket(2, "2", "C"), Bucket(3, "3", "D")]
    ensures Shaped(s0, 2) && WellOrdered(s0, 2, FakeHash) && !HasEmpty(s0) && Count(s0) == 4
    ensures FindStops(s0, 2, 3, "3")
    ensures RemoveResult(s0, 2, 3, "3", Z()) == RemoveOutcome([Z(), s0[1], s0[2], s0[0]], s0[3], true)
  {
    assert OrderedAt(s0, 2, 0);
    assert s0[..3] == s0[..4][..3] && s0[..3][..2] == s0[..2] && s0[..2][..1] == s0[..1] && s0[..1][..0] == [];
    assert Count(s0[..1]) == 1 && Count(s0[..2]) == 2 && Count(s0[..3]) == 3;
    FindEnd(s0, 2, 3, "3", 3, 4);
    RemoveResultWith(s0, 3, "3", 3);
    ShiftBackStep(s0, 2, Z(), 3, 0);
    ShiftBackStep(s0[3 := s0[0]], 2, Z(), 0, 1);
  }

  /** remove on a full table, which hash.h's remove accepts (hash.h:90-115):
      all four slots are taken, "33" sits past the wrap one slot from its
      home 3. Removing "3" moves "33" back into slot 3 and stops at "1",
      which is at home; slot 0 becomes the empty slot and the count drops
      to 3. */
  method RemoveFromFullTable() returns (v: string, table: Table, n: SizeT)
    ensures v == "D" && n == 3
    ensures table == [Z(), Bucket(1, "1", "B"), Bucket(2, "2", "C"), Bucket(3, "33", "A")]
  {
    var h := NewTestMap();
    h.items[0] := Bucket(3, "33", "A");
    h.items[1] := Bucket(1, "1", "B");
    h.items[2] := Bucket(2, "2", "C");
    h.items[3] := Bucket(3, "3", "D");
    h.noItems := 4;
    RemoveFromFullTableScan(h.items[..]);
    var removed := h.Remove("3");
    v := removed.value;
    table := h.items[..];
    n := h.noItems;
  }

  /** Looking up "4" in test_map_new(2): fake_hash gives 4, homed at slot 0
      of the empty table, and find's scan never ends. */
  lemma FindOnNewMapNeverStops()
    ensures !FindStops([Z(), Z(), Z(), Z()], 2, FakeHash("4"), "4")
  {
    RobinHoodLemmas.HomeZeroScanNeverStops([Z(), Z(), Z(), Z()], 2, FakeHash("4"), "4", 0, 4);
  }
}
