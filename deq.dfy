/** rh_deq.h: a double-ended queue in a circular buffer of `size` slots, a
    power of two. The stored items run from slot `end` up to, not including,
    slot `start`, wrapping at the end of the buffer; start == end means
    empty, so a buffer of n slots holds at most n - 1 items. Push and pop
    work at the start side, rpush and rpop at the end side. */
module Deq {
  import opened Slots
  import opened Wrappers

  /** The capacity the push operations ask for when the buffer is full:
      `(size ?: dflt) * 2` on size_t. */
  function Grown(size: SizeT, dflt: nat): (r: SizeT)
    requires 0 < dflt < SizeMod / 2
    ensures size < SizeMod / 2 ==> r == 2 * (if size == 0 then dflt else size)
    ensures size >= SizeMod / 2 ==> r == 2 * size - SizeMod
  {
    Wrap((if size == 0 then dflt else size) * 2)
  }

  /** The grown capacity is the next power of two, or 0 when doubling
      would reach 2^64. */
  lemma GrownIsPow2(size: SizeT, log: nat, dflt: nat, dLog: nat)
    requires 0 < dflt < SizeMod / 2 && dflt == Pow2(dLog) && dLog < 63
    requires size > 0 ==> size == Pow2(log) && log < 64
    ensures var l := if size == 0 then dLog + 1 else log + 1;
      Grown(size, dflt) > 0 ==> Grown(size, dflt) == Pow2(l) && l < 64
    ensures Grown(size, dflt) > 0 <==> size < SizeMod / 2
  {
    Pow2Monotone(dLog, 62);
    Pow2Of64();
    assert Pow2(64) == 2 * Pow2(63) && Pow2(63) == 2 * Pow2(62);
    if size > 0 {
      DoubleFits(log);
      Pow2Monotone(log, 63);
    }
  }

  /** Doubling a power of two below 2^64 stays below 2^64 exactly when the
      exponent is below 63. */
  lemma DoubleFits(log: nat)
    requires log < 64
    ensures log + 1 < 64 <==> 2 * Pow2(log) < SizeMod
  {
    Pow2Of64();
    if log + 1 < 64 {
      Pow2Monotone(log + 1, 63);
      assert Pow2(64) == 2 * Pow2(63);
    }
  }

  class Deque<T> {
    var size: SizeT
    var start: SizeT
    var end: SizeT
    var items: array<T>
    /** size == 2^log when the buffer is allocated. */
    ghost var log: nat
    /** `(TYPE){0}`. */
    const zero: T

    /** The buffer is `size` long and both positions are slots of it; a NULL
        buffer is the empty array with both positions at 0. */
    ghost predicate Valid()
      reads this
    {
      items.Length == size &&
      (size == 0 ==> start == 0 && end == 0) &&
      (size > 0 ==> size == Pow2(log) && log < 64 && start < size && end < size)
    }

    /** The number of stored items: the cyclic distance from end to start. */
    function Count(): (r: nat)
      reads this
      requires Valid()
      ensures size > 0 ==> r < size
      ensures size == 0 ==> r == 0
    {
      if end <= start then start - end else start - end + size
    }

    /** The stored items, from the end side to the start side. */
    function Contents(): (r: seq<T>)
      reads this, items
      requires Valid()
      ensures |r| == Count()
      ensures r == [] <==> start == end
    {
      Live(items[..], start, end)
    }

    /** The source's count `(start - end) % size`, on size_t, is Count(). */
    lemma CountIsDistance()
      requires Valid() && size > 0
      ensures Wrap(start - end) % size == Count()
    {
      if size > 0 {
        WrapModPow2(start - end, log);
        if start < end {
          DivModUnique(start - end, -1, start - end + size, size);
        } else {
          DivModUnique(start - end, 0, start - end, size);
        }
      }
    }

    /** The push-side full test `(start + 1) % size == end` and the
        rpush-side test `(end - 1) % size == start` both say that one more
        item would make start meet end, and an unallocated buffer is full. */
    lemma FullTests()
      requires Valid()
      ensures (size == 0 || Wrap(start + 1) % size == end) <==> Count() + 1 >= size
      ensures (size == 0 || Wrap(end - 1) % size == start) <==> Count() + 1 >= size
    {
      if size > 0 {
        Steps(start);
        Steps(end);
      }
    }

    /** `(p + 1) % size` and `(p - 1) % size` on size_t step through the
        buffer's slots cyclically. */
    lemma Steps(p: nat)
      requires Valid() && size > 0 && p < size
      ensures Wrap(p + 1) % size == (if p + 1 == size then 0 else p + 1)
      ensures Wrap(p - 1) % size == (if p == 0 then size - 1 else p - 1)
    {
      WrapModPow2(p + 1, log);
      WrapModPow2(p - 1, log);
      if p + 1 == size {
        DivModUnique(p + 1, 1, 0, size);
      } else {
        DivModUnique(p + 1, 0, p + 1, size);
      }
      if p == 0 {
        DivModUnique(p - 1, -1, size - 1, size);
      } else {
        DivModUnique(p - 1, 0, p - 1, size);
      }
    }

    /** `(p + 1) % size` on size_t: the next slot, cyclically. */
    function Forward(p: nat): (r: nat)
      reads this
      requires Valid() && size > 0 && p < size
      ensures r == (if p + 1 == size then 0 else p + 1)
    {
      Steps(p);
      Wrap(p + 1) % size
    }

    /** `(p - 1) % size` on size_t: the previous slot, cyclically. */
    function Back(p: nat): (r: nat)
      reads this
      requires Valid() && size > 0 && p < size
      ensures r == (if p == 0 then size - 1 else p - 1)
    {
      Steps(p);
      Wrap(p - 1) % size
    }

    /** NAME##_new: an empty deque; the buffer is allocated with `n` slots
        when `allocates` (realloc succeeds) and n > 0, and stays NULL
        otherwise. */
    constructor New(n: SizeT, ghost nLog: nat, allocates: bool, zero: T)
      requires n > 0 ==> n == Pow2(nLog) && nLog < 64
      ensures Valid() && start == 0 && end == 0 && Contents() == [] && this.zero == zero && fresh(items)
      ensures size == (if n > 0 && allocates then n else 0)
    {
      size, start, end := 0, 0, 0;
      items := new T[0];
      log := 0;
      this.zero := zero;
      new;
      var r := Resize(n, nLog, allocates);
    }

    /** The part of NAME##_resize both versions share: realloc to `to`
        slots, keeping the first min(size, to) items. Slots realloc adds hold
        the zero item. */
    method Realloc(to: SizeT) returns (a: array<T>)
      requires Valid()
      ensures fresh(a) && a[..] == Realloced(items[..], to, zero)
    {
      a := new T[to](_ => zero);
      var keep := if size < to then size else to;
      forall j | 0 <= j < keep {
        a[j] := items[j];
      }
      assert a[..] == Realloced(items[..], to, zero) by {
        forall k | 0 <= k < to ensures a[k] == Realloced(items[..], to, zero)[k] {
        }
      }
    }

    /** NAME##_resize with the wrapped case moving the end-side items to the
        top of the new buffer: fail with 0, changing nothing, when `to` is 0,
        the items would not fit, or realloc fails; otherwise the buffer has
        `to` slots and `to` is returned. When start still lies inside the
        new buffer the deque is valid and holds the same items. A wrapped
        deque may only grow, as the move would otherwise reach past the new
        buffer. */
    method Resize(to: SizeT, ghost toLog: nat, allocates: bool) returns (r: SizeT)
      requires Valid() && (to > 0 ==> to == Pow2(toLog) && toLog < 64)
      requires start < end && 0 < to && Count() <= to ==> size <= to
      modifies this
      ensures r == 0 <==> to == 0 || (old(size) > 0 && old(Count()) > to) || !allocates
      ensures r == 0 ==> size == old(size) && start == old(start) && end == old(end) &&
                         items == old(items) && log == old(log) && Valid()
      ensures r != 0 ==> r == to && size == to && fresh(items) && start == old(start)
      ensures r != 0 && old(end <= start) ==> end == old(end)
      ensures r != 0 && old(start < end) ==> end == to - (old(size) - old(end))
      ensures r != 0 && old(start) < to ==> Valid() && Contents() == old(Contents())
    {
      if size != 0 {
        CountIsDistance();
      }
      if to == 0 || (size != 0 && Wrap(start - end) % size > to) {
        return 0;
      }
      if !allocates {
        return 0;
      }
      var a, e := Regrow(to);
      if start < to {
        RegrownLive(items[..], to, start, end, zero);
      }
      items, end, size, log := a, e, to, toLog;
      return size;
    }

    /** The buffer the corrected NAME##_resize builds: realloc to `to` slots
        and, for a wrapped deque, memmove the end-side items to the top of the
        new buffer; `e` is the new end. */
    method Regrow(to: SizeT) returns (a: array<T>, e: nat)
      requires Valid() && to > 0 && (start < end ==> size <= to)
      ensures fresh(a) && a[..] == Regrown(items[..], to, start, end, zero)
      ensures e == RegrownEnd(size, to, start, end)
    {
      ghost var s := items[..];
      a := Realloc(to);
      ghost var g := a[..];
      e := end;
      if start < end {
        var endSize := size - end;
        Memmove(a, to - endSize, end, endSize);
        assert items[..] == s;
        assert Regrown(s, to, start, end, zero) == Moved(g, to - endSize, end, endSize);
        e := to - endSize;
      } else {
        assert Regrown(s, to, start, end, zero) == g;
      }
    }

    /** NAME##_resize as the source has it: in the wrapped case the memmove
        copies from the top of the new buffer down onto the end-side items,
        and end is set to the number of end-side items. */
    method ResizeAsWritten(to: SizeT, ghost toLog: nat, allocates: bool) returns (r: SizeT)
      requires Valid() && (to > 0 ==> to == Pow2(toLog) && toLog < 64)
      requires start < end && 0 < to && Count() <= to ==> size <= to
      modifies this
      ensures r == 0 <==> to == 0 || (old(size) > 0 && old(Count()) > to) || !allocates
      ensures r == 0 ==> size == old(size) && start == old(start) && end == old(end) &&
                         items == old(items) && log == old(log) && Valid()
      ensures r != 0 ==> r == to && size == to && fresh(items) && start == old(start)
      ensures r != 0 && old(end <= start) ==> end == old(end)
      ensures r != 0 && old(start < end) ==> end == old(size) - old(end) && Valid()
      ensures r != 0 ==> items[..] == RegrownAsWritten(old(items[..]), to, old(start), old(end), zero)
    {
      if size != 0 {
        CountIsDistance();
      }
      if to == 0 || (size != 0 && Wrap(start - end) % size > to) {
        return 0;
      }
      if !allocates {
        return 0;
      }
      var a, e := RegrowAsWritten(to);
      items, end, size, log := a, e, to, toLog;
      return size;
    }

    /** Regrow as the source has it: the memmove takes its arguments the
        other way round, and the new end is the number of end-side items. */
    method RegrowAsWritten(to: SizeT) returns (a: array<T>, e: nat)
      requires Valid() && to > 0 && (start < end ==> size <= to)
      ensures fresh(a) && a[..] == RegrownAsWritten(items[..], to, start, end, zero)
      ensures end <= start ==> e == end
      ensures start < end ==> e == size - end
    {
      ghost var s := items[..];
      a := Realloc(to);
      ghost var g := a[..];
      e := end;
      if start < end {
        var endSize := size - end;
        Memmove(a, end, to - endSize, endSize);
        assert items[..] == s;
        assert RegrownAsWritten(s, to, start, end, zero) == Moved(g, end, to - endSize, endSize);
        e := endSize;
      } else {
        assert RegrownAsWritten(s, to, start, end, zero) == g;
      }
    }

    /** NAME##_rpeek: the item pop would return next, or NULL (None) when
        the deque is empty. */
    function RPeek(): (r: Option<T>)
      reads this, items
      requires Valid()
      ensures r.None? <==> Contents() == []
      ensures r.Some? ==> r.value == Contents()[|Contents()| - 1]
    {
      if start == end then None
      else
        Some(items[Back(start)])
    }

    /** NAME##_push: grow a full buffer to Grown(size, 8) slots, failing with
        false and no change when that resize fails; otherwise store x at
        start and advance start. The deque gains x at its start side. */
    method Push(x: T, allocates: bool) returns (ok: bool)
      requires Valid()
      modifies this, items
      ensures Valid()
      ensures ok <==> old(Count()) + 1 < old(size) || (allocates && old(size) < SizeMod / 2)
      ensures ok ==> Contents() == old(Contents()) + [x]
      ensures !ok ==> size == old(size) && start == old(start) && end == old(end) &&
                      items == old(items) && items[..] == old(items[..])
      ensures ok && old(Count()) + 1 < old(size) ==> size == old(size) && items == old(items)
      ensures ok ==> start == (if old(start) + 1 == size then 0 else old(start) + 1)
      ensures ok && old(end <= start) ==> end == old(end)
      ensures ok && old(start < end) ==> end == old(end) + size - old(size)
    {
      FullTests();
      if size == 0 || Wrap(start + 1) % size == end {
        assert Pow2(3) == 8;
        GrownIsPow2(size, log, 8, 3);
        var r := Resize(Grown(size, 8), if size == 0 then 4 else log + 1, allocates);
        if r == 0 {
          return false;
        }
      }
      Store(x);
      return true;
    }

    /** The second half of NAME##_push, once there is room: store x at start
        and advance start. */
    method Store(x: T)
      requires Valid() && Count() + 1 < size
      modifies this, items
      ensures Valid() && size == old(size) && end == old(end) && items == old(items)
      ensures Contents() == old(Contents()) + [x]
      ensures start == (if old(start) + 1 == size then 0 else old(start) + 1)
    {
      var next := Forward(start);
      PushLive(items[..], start, end, x);
      items[start] := x;
      start := next;
    }

    /** NAME##_pop: step start back and return the item there; an empty
        deque returns the zero item and does not change. The deque loses
        its start-side item. */
    method Pop() returns (r: T)
      requires Valid()
      modifies this
      ensures Valid() && size == old(size) && end == old(end) && items == old(items)
      ensures old(Contents()) == [] ==> r == zero && start == old(start)
      ensures old(Contents()) != [] ==>
        r == old(Contents())[|old(Contents())| - 1] &&
        Contents() == old(Contents())[..|old(Contents())| - 1] &&
        start == (if old(start) == 0 then size - 1 else old(start) - 1)
    {
      if start == end {
        return zero;
      }
      PopLive(items[..], start, end);
      start := Back(start);
      return items[start];
    }

    /** NAME##_rpush: grow a full buffer to Grown(size, 1) slots, failing
        with false and no change when that resize fails; otherwise step end
        back and store x there. The deque gains x at its end side. */
    method RPush(x: T, allocates: bool) returns (ok: bool)
      requires Valid()
      modifies this, items
      ensures Valid()
      ensures ok <==> old(Count()) + 1 < old(size) || (allocates && old(size) < SizeMod / 2)
      ensures ok ==> Contents() == [x] + old(Contents())
      ensures !ok ==> size == old(size) && start == old(start) && end == old(end) &&
                      items == old(items) && items[..] == old(items[..])
      ensures ok && old(Count()) + 1 < old(size) ==> size == old(size) && items == old(items)
      ensures ok ==> start == old(start)
      ensures ok && old(end <= start) ==> end == (if old(end) == 0 then size - 1 else old(end) - 1)
      ensures ok && old(start < end) ==> end == old(end) + size - old(size) - 1
    {
      FullTests();
      if size == 0 || Wrap(end - 1) % size == start {
        assert Pow2(0) == 1;
        GrownIsPow2(size, log, 1, 0);
        var r := Resize(Grown(size, 1), if size == 0 then 1 else log + 1, allocates);
        if r == 0 {
          return false;
        }
      }
      RStore(x);
      return true;
    }

    /** The second half of NAME##_rpush, once there is room: step end back
        and store x there. */
    method RStore(x: T)
      requires Valid() && Count() + 1 < size
      modifies this, items
      ensures Valid() && size == old(size) && start == old(start) && items == old(items)
      ensures Contents() == [x] + old(Contents())
      ensures end == (if old(end) == 0 then size - 1 else old(end) - 1)
    {
      var prev := Back(end);
      RPushLive(items[..], start, end, x);
      end := prev;
      items[end] := x;
    }

    /** NAME##_rpop: return the item at end and advance end; an empty deque
        returns the zero item and does not change. The deque loses its
        end-side item. */
    method RPop() returns (r: T)
      requires Valid()
      modifies this
      ensures Valid() && size == old(size) && start == old(start) && items == old(items)
      ensures old(Contents()) == [] ==> r == zero && end == old(end)
      ensures old(Contents()) != [] ==>
        r == old(Contents())[0] && Contents() == old(Contents())[1..] &&
        end == (if old(end) + 1 == size then 0 else old(end) + 1)
    {
      if start == end {
        return zero;
      }
      var pop := items[end];
      RPopLive(items[..], start, end);
      end := Forward(end);
      return pop;
    }
  }

  /** The items of buffer `a` from slot `end` up to slot `start`, wrapping
      at the end of the buffer. */
  function Live<T>(a: seq<T>, start: nat, end: nat): (r: seq<T>)
    requires start <= |a| && end <= |a|
    ensures |r| == (if end <= start then start - end else start - end + |a|)
  {
    if end <= start then a[end..start] else a[end..] + a[..start]
  }

  /** realloc to `to` slots: the first min(|s|, to) items are kept and the
      slots added hold z. */
  function Realloced<T>(s: seq<T>, to: nat, z: T): (r: seq<T>)
    ensures |r| == to
  {
    seq(to, k requires 0 <= k < to => if k < |s| then s[k] else z)
  }

  /** The buffer the corrected NAME##_resize leaves: realloc, then for a
      wrapped deque the |s| - end end-side items moved to the top. */
  function Regrown<T>(s: seq<T>, to: nat, start: nat, end: nat, z: T): (r: seq<T>)
    requires end <= |s| && (start < end ==> |s| <= to)
    ensures |r| == to
  {
    var g := Realloced(s, to, z);
    if start < end then Moved(g, to - (|s| - end), end, |s| - end) else g
  }

  /** The buffer NAME##_resize as written leaves: realloc, then for a
      wrapped deque the |s| - end slots at the top of the new buffer, which
      realloc did not fill from the old one, copied down onto the end-side
      items. */
  function RegrownAsWritten<T>(s: seq<T>, to: nat, start: nat, end: nat, z: T): (r: seq<T>)
    requires end <= |s| && (start < end ==> |s| <= to)
    ensures |r| == to
    ensures start < end ==> forall k :: end <= k < |s| ==> r[k] == Realloced(s, to, z)[to - (|s| - end) + (k - end)]
  {
    var g := Realloced(s, to, z);
    if start < end then Moved(g, end, to - (|s| - end), |s| - end) else g
  }

  /** The end position the corrected NAME##_resize leaves. */
  function RegrownEnd(size: nat, to: nat, start: nat, end: nat): int
  {
    if start < end then to - (size - end) else end
  }

  /** The corrected NAME##_resize keeps the items when start lies inside
      the new buffer. */
  lemma RegrownLive<T>(s: seq<T>, to: nat, start: nat, end: nat, z: T)
    requires start <= |s| && end <= |s| && (start < end ==> end < |s| <= to) && start < to
    ensures var e := RegrownEnd(|s|, to, start, end);
      e < to && Live(Regrown(s, to, start, end, z), start, e) == Live(s, start, end)
  {
    var g := Realloced(s, to, z);
    var r := Regrown(s, to, start, end, z);
    if start < end {
      var m := |s| - end;
      assert r == Moved(g, to - m, end, m);
      assert g[..|s|] == s by {
        forall k | 0 <= k < |s| ensures g[k] == s[k] { }
      }
      WrappedLive(s, g, r, start, end, to - m, m);
    } else {
      assert r == g;
      var keep := if |s| < to then |s| else to;
      assert g[..keep] == s[..keep] by {
        forall k | 0 <= k < keep ensures g[k] == s[k] { }
      }
      UnwrappedLive(s, g, start, end);
    }
  }

  /** memmove(&a[dest], &a[src], n): the n items from src, read before any
      is written, land at dest. */
  function Moved<T>(s: seq<T>, dest: nat, src: nat, n: nat): (r: seq<T>)
    requires dest + n <= |s| && src + n <= |s|
    ensures |r| == |s|
  {
    seq(|s|, k requires 0 <= k < |s| => if dest <= k < dest + n then s[src + (k - dest)] else s[k])
  }

  method Memmove<T>(a: array<T>, dest: nat, src: nat, n: nat)
    requires dest + n <= a.Length && src + n <= a.Length
    modifies a
    ensures a[..] == Moved(old(a[..]), dest, src, n)
  {
    forall k | 0 <= k < n {
      a[dest + k] := a[src + k];
    }
  }

  /** The corrected wrapped resize: after realloc to `to` slots, moving the
      end-side items to the top of the buffer keeps the items in order. */
  lemma WrappedLive<T>(s: seq<T>, a: seq<T>, b: seq<T>, start: nat, end: nat, d: nat, m: nat)
    requires start < end < |s| <= |a| && a[..|s|] == s
    requires m == |s| - end && d == |a| - m && b == Moved(a, d, end, m)
    ensures Live(b, start, d) == Live(s, start, end)
  {
    MovedParts(s, a, start, end);
    assert Live(b, start, d) == b[d..] + b[..start];
  }

  /** The two parts of WrappedLive: the moved top and the untouched bottom. */
  lemma MovedParts<T>(s: seq<T>, a: seq<T>, start: nat, end: nat)
    requires start < end < |s| <= |a| && a[..|s|] == s
    ensures var m := |s| - end; var b := Moved(a, |a| - m, end, m);
      b[|a| - m..] == s[end..] && b[..start] == s[..start]
  {
    var m := |s| - end;
    var d := |a| - m;
    var b := Moved(a, d, end, m);
    forall k | 0 <= k < m ensures b[d..][k] == s[end..][k] {
      assert b[d + k] == a[end + k];
      assert a[..|s|][end + k] == a[end + k];
    }
    forall k | 0 <= k < start ensures b[..start][k] == s[..start][k] {
      assert b[k] == a[k];
      assert a[..|s|][k] == a[k];
    }
  }

  /** An unwrapped deque whose start survives the realloc keeps its items. */
  lemma UnwrappedLive<T>(s: seq<T>, a: seq<T>, start: nat, end: nat)
    requires end <= start < |a| && start <= |s|
    requires var keep := if |s| < |a| then |s| else |a|; a[..keep] == s[..keep]
    ensures Live(a, start, end) == Live(s, start, end)
  {
    var keep := if |s| < |a| then |s| else |a|;
    forall k | end <= k < start ensures a[k] == s[k] {
      assert a[..keep][k] == s[..keep][k];
    }
  }

  /** Storing x at start and advancing start appends x. */
  lemma PushLive<T>(a: seq<T>, start: nat, end: nat, x: T)
    requires start < |a| && end < |a|
    requires (if start + 1 == |a| then 0 else start + 1) != end
    ensures Live(a[start := x], if start + 1 == |a| then 0 else start + 1, end) == Live(a, start, end) + [x]
  {
    var b := a[start := x];
    if end <= start {
      if start + 1 == |a| {
        assert b[end..] == a[end..start] + [x];
      } else {
        assert b[end..start + 1] == a[end..start] + [x];
      }
    } else {
      assert b[end..] == a[end..];
      assert b[..start + 1] == a[..start] + [x];
    }
  }

  /** Stepping start back drops the last item, which sits at the new start. */
  lemma PopLive<T>(a: seq<T>, start: nat, end: nat)
    requires start < |a| && end < |a| && start != end
    ensures var c := Live(a, start, end); var s := if start == 0 then |a| - 1 else start - 1;
      |c| > 0 && c[|c| - 1] == a[s] && Live(a, s, end) == c[..|c| - 1]
  {
    var c := Live(a, start, end);
    if start == 0 {
      assert a[..0] == [];
      assert c == a[end..];
      assert a[end..] == a[end..|a| - 1] + [a[|a| - 1]];
    } else if end < start {
      assert a[end..start] == a[end..start - 1] + [a[start - 1]];
    } else {
      assert a[..start] == a[..start - 1] + [a[start - 1]];
      assert c[..|c| - 1] == a[end..] + a[..start - 1];
    }
  }

  /** Stepping end back and storing x there prepends x. */
  lemma RPushLive<T>(a: seq<T>, start: nat, end: nat, x: T)
    requires start < |a| && end < |a|
    requires (if end == 0 then |a| - 1 else end - 1) != start
    ensures var e := if end == 0 then |a| - 1 else end - 1;
      Live(a[e := x], start, e) == [x] + Live(a, start, end)
  {
    if end == 0 {
      RPushLiveWrapping(a, start, x);
    } else if end <= start {
      RPushLiveInside(a, start, end, x);
    } else {
      RPushLiveWrapped(a, start, end, x);
    }
  }

  /** RPushLive when the items do not wrap. */
  lemma RPushLiveInside<T>(a: seq<T>, start: nat, end: nat, x: T)
    requires 0 < end <= start < |a|
    ensures Live(a[end - 1 := x], start, end - 1) == [x] + Live(a, start, end)
  {
    var b := a[end - 1 := x];
    assert Live(b, start, end - 1) == b[end - 1..start];
    assert b[end - 1..start] == [x] + a[end..start];
  }

  /** RPushLive when the items already wrap. */
  lemma RPushLiveWrapped<T>(a: seq<T>, start: nat, end: nat, x: T)
    requires start < end - 1 && end < |a|
    ensures Live(a[end - 1 := x], start, end - 1) == [x] + Live(a, start, end)
  {
    var b := a[end - 1 := x];
    assert Live(b, start, end - 1) == b[end - 1..] + b[..start];
    assert b[end - 1..] == [x] + a[end..];
    assert b[..start] == a[..start];
  }

  /** RPushLive when end steps back from slot 0 to the last slot. */
  lemma RPushLiveWrapping<T>(a: seq<T>, start: nat, x: T)
    requires start < |a| - 1
    ensures Live(a[|a| - 1 := x], start, |a| - 1) == [x] + Live(a, start, 0)
  {
    var b := a[|a| - 1 := x];
    assert Live(b, start, |a| - 1) == b[|a| - 1..] + b[..start];
    assert b[|a| - 1..] == [x];
    assert b[..start] == a[..start] == a[0..start];
  }

  /** Advancing end drops the first item, which sits at the old end. */
  lemma RPopLive<T>(a: seq<T>, start: nat, end: nat)
    requires start < |a| && end < |a| && start != end
    ensures var c := Live(a, start, end); var e := if end + 1 == |a| then 0 else end + 1;
      |c| > 0 && c[0] == a[end] && Live(a, start, e) == c[1..]
  {
    var c := Live(a, start, end);
    if end + 1 == |a| && start < end {
      assert c == [a[end]] + a[..start];
      assert a[0..start] == a[..start];
    } else if end < start {
    } else {
      assert a[end..] == [a[end]] + a[end + 1..];
    }
  }

  /** A deque that wrapped round its buffer has its items lost by
      NAME##_resize as written: new(4), one rpush and two pushes leave the
      items 1, 2, 3 in slots 3, 0 and 1, with end 3 and start 2. Growing the
      buffer to 8 slots copies the unfilled slot 7 (here the zero item) onto
      slot 3, where 1 was, and sets end to 1: the deque then holds only 3. */
  method WrappedResizeLosesItems() returns (before: seq<int>, after: seq<int>, overwritten: int)
    ensures before == [1, 2, 3] && after == [3] && overwritten == 0
  {
    var d := new Deque<int>.New(4, 2, true, 0);
    var ok := d.RPush(1, true);
    ok := d.Push(2, true);
    ok := d.Push(3, true);
    before := d.Contents();
    assert d.end == 3 && d.start == 2 && before == [1, 2, 3];
    assert d.items.Length == 4;
    assert d.Contents() == d.items[..][3..] + d.items[..][..2];
    assert d.Contents()[2] == d.items[1];
    ghost var s := d.items[..];
    var r := d.ResizeAsWritten(8, 3, true);
    ghost var g := Realloced(s, 8, 0);
    assert d.items[..] == Moved(g, 3, 7, 1);
    assert d.items[1] == g[1] == s[1] == 3;
    assert d.items[3] == g[7] == 0;
    assert d.end == 1 && d.start == 2;
    after := d.Contents();
    assert after == d.items[..][1..2];
    overwritten := d.items[3];
  }
}
