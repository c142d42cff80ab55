/** rh_heap.h: a binary min-heap kept in a growable array. `size` is the
    capacity of the buffer, `top` the number of stored items; the parent of
    slot i is slot (i - 1) >> 1 and the comparator CMP orders the items
    (CMP(a, b) < 0: a comes before b). */
module Heap {
  import opened Slots

  /** CMP(a, b) < 0. */
  predicate Less<T>(cmp: (T, T) -> int, a: T, b: T)
  {
    cmp(a, b) < 0
  }

  /** `(i - 1) >> 1`: the parent slot of a slot other than the root. */
  function Parent(i: nat): (r: nat)
    requires i > 0
    ensures r < i
  {
    (i - 1) / 2
  }

  /** What a comparator must be for the heap to keep its order: a strict weak
      order (asymmetric, transitive, and "not before" transitive). */
  ghost predicate StrictWeakOrder<T(!new)>(cmp: (T, T) -> int)
  {
    (forall a, b :: Less(cmp, a, b) ==> !Less(cmp, b, a)) &&
    (forall a, b, c :: Less(cmp, a, b) && Less(cmp, b, c) ==> Less(cmp, a, c)) &&
    (forall a, b, c :: !Less(cmp, a, b) && !Less(cmp, b, c) ==> !Less(cmp, a, c))
  }

  /** Heap order: no item comes before its parent. */
  ghost predicate HeapOrdered<T>(s: seq<T>, cmp: (T, T) -> int)
  {
    forall i {:trigger Parent(i)} :: 0 < i < |s| ==> !Less(cmp, s[i], s[Parent(i)])
  }

  /** In a heap-ordered sequence no item comes before the root. */
  lemma {:induction false} RootFirst<T(!new)>(s: seq<T>, cmp: (T, T) -> int, j: nat)
    requires StrictWeakOrder(cmp) && HeapOrdered(s, cmp) && j < |s|
    ensures !Less(cmp, s[j], s[0])
  {
    if j > 0 {
      RootFirst(s, cmp, Parent(j));
      assert !Less(cmp, s[j], s[Parent(j)]);
    }
  }

  /** The sift-up state of NAME##_ins on the stored slots `a`, with a hole
      at i that `x` will fill: every pair not involving the hole is in order,
      and the hole's children may take the hole's parent's item or x above
      them. */
  ghost predicate Hole<T>(a: seq<T>, i: nat, x: T, cmp: (T, T) -> int)
  {
    i < |a| &&
    (forall c {:trigger Parent(c)} :: 0 < c < |a| && Parent(c) != i && c != i ==> !Less(cmp, a[c], a[Parent(c)])) &&
    (forall c {:trigger Parent(c)} :: 0 < c < |a| && Parent(c) == i && i > 0 ==> !Less(cmp, a[c], a[Parent(i)])) &&
    (forall c {:trigger Parent(c)} :: 0 < c < |a| && Parent(c) == i ==> !Less(cmp, a[c], x))
  }

  /** A new last slot below a heap-ordered prefix is a hole with no children. */
  lemma HoleStart<T>(a: seq<T>, x: T, cmp: (T, T) -> int)
    requires 0 < |a| && HeapOrdered(a[..|a| - 1], cmp)
    ensures Hole(a, |a| - 1, x, cmp)
  {
    var n := |a|;
    forall c | 0 < c < n && c != n - 1
      ensures !Less(cmp, a[c], a[Parent(c)])
    {
      assert a[..n - 1][c] == a[c] && a[..n - 1][Parent(c)] == a[Parent(c)];
    }
  }

  /** Moving the parent's item down into the hole moves the hole up. */
  lemma SiftStep<T(!new)>(a: seq<T>, i: nat, x: T, cmp: (T, T) -> int)
    requires StrictWeakOrder(cmp) && Hole(a, i, x, cmp) && i > 0
    requires Less(cmp, x, a[Parent(i)])
    ensures Hole(a[i := a[Parent(i)]], Parent(i), x, cmp)
  {
    var p := Parent(i);
    var a' := a[i := a[p]];
    forall c | 0 < c < |a| && Parent(c) != p && c != p
      ensures !Less(cmp, a'[c], a'[Parent(c)])
    {
      if Parent(c) != i {
        assert c != i;
      }
    }
    forall c | 0 < c < |a| && Parent(c) == p && p > 0
      ensures !Less(cmp, a'[c], a'[Parent(p)])
    {
      assert !Less(cmp, a[p], a[Parent(p)]);
      if c != i {
        assert !Less(cmp, a[c], a[p]);
      }
    }
    forall c | 0 < c < |a| && Parent(c) == p
      ensures !Less(cmp, a'[c], x)
    {
      if c != i {
        assert !Less(cmp, a[c], a[p]);
      }
    }
  }

  /** Filling the hole with x once x does not come before the hole's parent
      leaves the slots heap ordered. */
  lemma SiftEnd<T>(a: seq<T>, i: nat, x: T, cmp: (T, T) -> int)
    requires Hole(a, i, x, cmp)
    requires i > 0 ==> !Less(cmp, x, a[Parent(i)])
    ensures HeapOrdered(a[i := x], cmp)
  {
    var b := a[i := x];
    forall c | 0 < c < |a|
      ensures !Less(cmp, b[c], b[Parent(c)])
    {
      if c == i {
      } else if Parent(c) == i {
      } else {
      }
    }
  }

  /** The capacity NAME##_ins asks for when the buffer is full:
      `(size ?: 1) * 2` on size_t. */
  function GrowTo(size: SizeT): (r: SizeT)
    ensures size < SizeMod / 2 ==> r == 2 * (if size == 0 then 1 else size) && r > size
    ensures size >= SizeMod / 2 ==> r == 2 * size - SizeMod && r < size
  {
    Wrap((if size == 0 then 1 else size) * 2)
  }

  class MinHeap<T(!new)> {
    var size: SizeT
    var top: SizeT
    var items: array<T>
    /** CMP. */
    const cmp: (T, T) -> int
    /** `(TYPE){0}`. */
    const zero: T

    /** The buffer is `size` long and holds `top` items. A NULL buffer is
        the empty array. */
    predicate Valid()
      reads this
    {
      items.Length == size && top <= size
    }

    /** The stored items, in slot order. */
    ghost function Items(): seq<T>
      reads this, items
      requires Valid()
    {
      items[..top]
    }

    /** NAME##_new: an empty heap; the buffer is allocated with `n` slots when
        `allocates` (realloc succeeds) and stays NULL otherwise. */
    constructor New(n: SizeT, allocates: bool, cmp: (T, T) -> int, zero: T)
      ensures Valid() && top == 0 && this.cmp == cmp && this.zero == zero
      ensures size == (if allocates then n else 0)
    {
      size, top := 0, 0;
      items := new T[0];
      this.cmp, this.zero := cmp, zero;
      new;
      var r := Resize(n, allocates);
    }

    /** NAME##_resize: fail with 0, changing nothing, when the items would not
        fit or realloc fails; otherwise the buffer has `to` slots, the first
        min(size, to) keep their items, and `to` is returned. */
    method Resize(to: SizeT, allocates: bool) returns (r: SizeT)
      requires Valid()
      modifies this
      ensures Valid() && top == old(top)
      ensures old(top) > to || !allocates ==>
        r == 0 && size == old(size) && items == old(items)
      ensures old(top) <= to && allocates ==>
        r == to && size == to && fresh(items) &&
        items[..(if old(size) < to then old(size) else to)] == old(items[..(if size < to then size else to)])
      ensures Items() == old(Items())
    {
      if top > to {
        return 0;
      }
      if !allocates {
        return 0;
      }
      var a := new T[to](_ => zero);
      var keep := if size < to then size else to;
      forall j | 0 <= j < keep {
        a[j] := items[j];
      }
      assert a[..keep] == items[..keep];
      assert a[..top] == a[..keep][..top];
      items := a;
      size := to;
      return size;
    }

    /** NAME##_peek: the root, or the zero item of an empty heap. On a
        heap-ordered buffer under a strict weak order, no stored item comes
        before it. */
    function Peek(): (r: T)
      reads this, items
      requires Valid()
      ensures top == 0 ==> r == zero
      ensures top > 0 ==> r in Items()
      ensures StrictWeakOrder(cmp) && HeapOrdered(Items(), cmp) ==>
        forall j :: 0 <= j < top ==> !Less(cmp, items[j], r)
    {
      PeekFirst(items[..top], cmp);
      if top == 0 then zero else items[0]
    }

    /** NAME##_ins: grow a full buffer to GrowTo(size) slots, failing with
        false and no change when that resize fails; otherwise add x, sift it
        up, and return true. The items gain exactly x, and heap order is
        kept under a strict weak order. */
    method Ins(x: T, allocates: bool) returns (ok: bool)
      requires Valid()
      modifies this, items
      ensures Valid()
      ensures ok <==> old(top) < old(size) || (allocates && old(top) <= GrowTo(old(size)))
      ensures !ok ==> size == old(size) && top == old(top) && items == old(items) && items[..] == old(items[..])
      ensures ok ==> top == old(top) + 1 && multiset(Items()) == multiset(old(Items())) + multiset{x}
      ensures ok && old(top) < old(size) ==> size == old(size) && items == old(items)
      ensures ok && old(top) == old(size) ==> size == GrowTo(old(size))
      ensures ok && StrictWeakOrder(cmp) && old(HeapOrdered(Items(), cmp)) ==> HeapOrdered(Items(), cmp)
    {
      if top == size {
        var r := Resize(GrowTo(size), allocates);
        if r == 0 {
          return false;
        }
      }
      var i: nat := top;
      top := top + 1;
      ghost var s0 := items[..top];
      assert s0[..i] == old(Items());
      if StrictWeakOrder(cmp) && HeapOrdered(s0[..i], cmp) {
        HoleStart(s0, x, cmp);
        SiftedOrdered(s0, i, x, cmp);
      }
      assert s0[i := x] == old(Items()) + [x];
      SiftUp(x, i);
      return true;
    }

    /** The loop of NAME##_ins: with a hole at the new last slot i0, move
        parents that x comes before down one level, then place x. */
    method SiftUp(x: T, i0: nat)
      requires Valid() && i0 < top
      modifies items
      ensures items[..top] == Sifted(old(items[..top]), i0, x, cmp)
    {
      ghost var s0 := items[..top];
      var i: nat := i0;
      while i > 0 && Less(cmp, x, items[(i - 1) / 2])
        invariant i < top
        invariant Sifted(items[..top], i, x, cmp) == Sifted(s0, i0, x, cmp)
        decreases i
      {
        ghost var a := items[..top];
        var p := (i - 1) / 2;
        items[i] := items[p];
        assert items[..top] == a[i := a[p]];
        i := p;
      }
      ghost var a := items[..top];
      items[i] := x;
      assert items[..top] == a[i := x];
    }
  }

  /** What the loop of NAME##_ins leaves in the slots `a` when it starts
      with a hole at i for x: parents that x comes before move down one
      level, then x fills the hole. The slots keep their items, with x in
      place of whatever was in the hole. */
  function Sifted<T>(a: seq<T>, i: nat, x: T, cmp: (T, T) -> int): (r: seq<T>)
    requires i < |a|
    ensures |r| == |a|
    ensures multiset(r) == multiset(a[i := x])
    decreases i
  {
    if i > 0 && Less(cmp, x, a[Parent(i)]) then
      SwapHole(a, i, Parent(i), x);
      Sifted(a[i := a[Parent(i)]], Parent(i), x, cmp)
    else
      a[i := x]
  }

  /** Under a strict weak order, sifting from a hole leaves the slots heap
      ordered. */
  lemma {:induction false} SiftedOrdered<T(!new)>(a: seq<T>, i: nat, x: T, cmp: (T, T) -> int)
    requires StrictWeakOrder(cmp) && Hole(a, i, x, cmp)
    ensures HeapOrdered(Sifted(a, i, x, cmp), cmp)
    decreases i
  {
    if i > 0 && Less(cmp, x, a[Parent(i)]) {
      SiftStep(a, i, x, cmp);
      SiftedOrdered(a[i := a[Parent(i)]], Parent(i), x, cmp);
    } else {
      SiftEnd(a, i, x, cmp);
    }
  }

  /** The root of a non-empty heap-ordered sequence comes after nothing in
      it; stated as an implication for use inside NAME##_peek. */
  lemma PeekFirst<T(!new)>(s: seq<T>, cmp: (T, T) -> int)
    ensures |s| > 0 && StrictWeakOrder(cmp) && HeapOrdered(s, cmp) ==>
      forall j :: 0 <= j < |s| ==> !Less(cmp, s[j], s[0])
  {
    if |s| > 0 && StrictWeakOrder(cmp) && HeapOrdered(s, cmp) {
      forall j | 0 <= j < |s| ensures !Less(cmp, s[j], s[0]) {
        RootFirst(s, cmp, j);
      }
    }
  }

  /** Moving the parent's item into the hole and the hole to the parent
      keeps the multiset of the filled sequence. */
  lemma SwapHole<T>(a: seq<T>, i: nat, p: nat, x: T)
    requires p < i < |a|
    ensures multiset(a[i := a[p]][p := x]) == multiset(a[i := x])
  {
    var b := a[i := a[p]][p := x];
    var c := a[i := x];
    assert b == c[i := a[p]][p := x];
    assert c[p] == a[p];
  }
}
