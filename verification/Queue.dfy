/** The ring of queue.h: a bounded sequence with two ends, used by one party at a time. */
module Queue {

  // an entry pointer; 0 is no entry
  type Entry = nat

  class Ring {
    const data: array<Entry>
    var head: nat
    var tail: nat
    var count: nat

    ghost predicate Valid()
      reads this, data
    {
      && data.Length > 0 && head < data.Length && tail < data.Length
      && count == Length(tail, head, data.Length)
    }

    // the entries from the tail to the head
    ghost function Contents(): (s: seq<Entry>)
      reads this, data
      requires Valid()
      ensures |s| == count < data.Length
    {
      Slice(data[..], tail, count)
    }

    ghost function Capacity(): nat
      reads this
      requires data.Length > 0
    {
      data.Length - 1
    }

    constructor (size: nat)
      ensures Valid() && fresh(data) && Contents() == [] && Capacity() == size
    {
      data := new Entry[size + 1](_ => 0);
      head, tail, count := 0, 0, 0;
      new;
    }

    method Full() returns (b: bool)
      requires Valid()
      ensures b == (|Contents()| == Capacity())
    {
      hide Next, Slice;
      b := Next(head, data.Length) == tail;
    }

    method Empty() returns (b: bool)
      requires Valid()
      ensures b == (Contents() == [])
    {
      b := head == tail;
    }

    method GetSize() returns (n: nat)
      requires Valid()
      ensures n == Capacity() + 1
    {
      n := data.Length;
    }

    method GetEntryCnt() returns (n: nat)
      requires Valid()
      ensures n == |Contents()|
    {
      n := count;
    }

    method PushHead(e: Entry) returns (ok: bool)
      requires Valid()
      modifies this`head, this`count, data
      ensures Valid() && ok == (|old(Contents())| < Capacity())
      ensures Contents() == if ok then old(Contents()) + [e] else old(Contents())
    {
      hide Next, Slice;
      var h := Next(head, data.Length);
      if h == tail {
        return false;
      }
      ghost var was := data[..];
      data[head] := e;
      SlicePutHead(was, tail, count, e);
      head := h;
      count := count + 1;
      return true;
    }

    method PushTail(e: Entry) returns (ok: bool)
      requires Valid()
      modifies this`tail, this`count, data
      ensures Valid() && ok == (|old(Contents())| < Capacity())
      ensures Contents() == if ok then [e] + old(Contents()) else old(Contents())
    {
      hide Next, Slice;
      var t := tail;
      if t == 0 {
        t := data.Length;
      }
      t := t - 1;
      if t == head {
        return false;
      }
      ghost var was := data[..];
      data[t] := e;
      SlicePutTail(was, t, count, e);
      tail := t;
      count := count + 1;
      return true;
    }

    method PopHead() returns (e: Entry)
      requires Valid()
      modifies this`head, this`count
      ensures Valid() && var s := old(Contents());
        if s == [] then e == 0 && Contents() == s else e == s[|s| - 1] && Contents() == s[..|s| - 1]
    {
      hide Next, Slice;
      var h := head;
      if h == tail {
        return 0;
      }
      if h == 0 {
        h := data.Length;
      }
      h := h - 1;
      e := data[h];
      SliceLast(data[..], tail, count);
      head := h;
      count := count - 1;
    }

    method PopTail() returns (e: Entry)
      requires Valid()
      modifies this`tail, this`count
      ensures Valid() && var s := old(Contents());
        if s == [] then e == 0 && Contents() == s else e == s[0] && Contents() == s[1..]
    {
      hide Next, Slice;
      if tail == head {
        return 0;
      }
      e := data[tail];
      SliceFirst(data[..], tail, count);
      tail := Next(tail, data.Length);
      count := count - 1;
    }

    method GetHead(idx: nat) returns (e: Entry)
      requires Valid()
      ensures var s := Contents(); e == if idx < |s| then s[|s| - 1 - idx] else 0
    {
      if idx >= count {
        return 0;
      }
      var i := idx;
      if head > i {
        i := head - i;
      } else {
        i := data.Length - (i - head);
      }
      i := i - 1;
      SliceAt(data[..], tail, count, count - 1 - idx);
      e := data[i];
    }

    method GetTail(idx: nat) returns (e: Entry)
      requires Valid()
      ensures var s := Contents(); e == if idx < |s| then s[idx] else 0
    {
      if idx >= count {
        return 0;
      }
      var i := idx + tail;
      if i >= data.Length {
        i := i - data.Length;
      }
      SliceAt(data[..], tail, count, idx);
      e := data[i];
    }
  }

  // ----- rings of array elements -----

  function Length(tail: nat, head: nat, size: nat): (n: nat)
    requires tail < size && head < size
    ensures n < size
  {
    if tail <= head then head - tail else size - tail + head
  }

  // position i + k on a ring
  function Wrap(i: nat, k: nat, size: nat): (j: nat)
    requires i < size && k <= size
    ensures j < size
  {
    if i + k < size then i + k else i + k - size
  }

  function Next(i: nat, size: nat): (j: nat)
    requires i < size
    ensures j == if i + 1 < size then i + 1 else 0
  {
    (i + 1) % size
  }

  // n elements from position i on
  function Slice(a: seq<Entry>, i: nat, n: nat): (s: seq<Entry>)
    requires i < |a| && n <= |a|
    ensures |s| == n
  {
    seq(n, k requires 0 <= k < n => a[Wrap(i, k, |a|)])
  }

  lemma SliceAt(a: seq<Entry>, i: nat, n: nat, k: nat)
    requires i < |a| && k < n <= |a|
    ensures Slice(a, i, n)[k] == a[Wrap(i, k, |a|)]
  {
  }

  lemma SlicePutHead(a: seq<Entry>, i: nat, n: nat, e: Entry)
    requires i < |a| && n < |a|
    ensures Slice(a[Wrap(i, n, |a|) := e], i, n + 1) == Slice(a, i, n) + [e]
  {
  }

  lemma SlicePutTail(a: seq<Entry>, i: nat, n: nat, e: Entry)
    requires i < |a| && n < |a|
    ensures Slice(a[i := e], i, n + 1) == [e] + Slice(a, Wrap(i, 1, |a|), n)
  {
    var s := Slice(a[i := e], i, n + 1);
    var t := Slice(a, Wrap(i, 1, |a|), n);
    forall k | 0 < k < n + 1
      ensures s[k] == t[k - 1]
    {
      assert Wrap(i, k, |a|) == Wrap(Wrap(i, 1, |a|), k - 1, |a|) != i;
    }
  }

  lemma SliceLast(a: seq<Entry>, i: nat, n: nat)
    requires i < |a| && 0 < n <= |a|
    ensures Slice(a, i, n) == Slice(a, i, n - 1) + [a[Wrap(i, n - 1, |a|)]]
  {
  }

  lemma SliceFirst(a: seq<Entry>, i: nat, n: nat)
    requires i < |a| && 0 < n <= |a|
    ensures Slice(a, i, n) == [a[i]] + Slice(a, Wrap(i, 1, |a|), n - 1)
  {
    var s := Slice(a, i, n);
    var t := Slice(a, Wrap(i, 1, |a|), n - 1);
    forall k | 0 < k < n
      ensures s[k] == t[k - 1]
    {
      assert Wrap(i, k, |a|) == Wrap(Wrap(i, 1, |a|), k - 1, |a|);
    }
  }
}
