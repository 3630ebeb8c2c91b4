/**
 * The bounded circular queue of Queue_Stack/Queue.c: `max_size` slots, the slot `read_idx` of
 * the oldest element, the slot `write_idx` the next element goes to, and the element count
 * `size`. Elements are integers.
 */
module Queue {

  import opened Options

  /** A slot index below twice the capacity `m`, brought back into the buffer. */
  function Wrap(x: int, m: int): (y: int)
    requires 0 <= x < 2 * m
    ensures 0 <= y < m && (y == x || y == x - m)
  {
    if x < m then x else x - m
  }

  /** The `n` elements of the circular buffer `s` starting at slot `r`, wrapping at the end. */
  function Window(s: seq<int>, r: int, n: nat): (w: seq<int>)
    requires 0 <= r < |s| && n <= |s|
    ensures |w| == n
  {
    seq(n, i requires 0 <= i < n => s[Wrap(r + i, |s|)])
  }

  /** The first element of a window is the one at its start slot. */
  lemma WindowFront(s: seq<int>, r: int, n: nat)
    requires 0 <= r < |s| && 0 < n <= |s|
    ensures Window(s, r, n)[0] == s[r]
  {
    assert Wrap(r + 0, |s|) == r;
  }

  /** The C's `%` on an index below twice the capacity is Wrap. */
  lemma ModWrap(x: int, m: int)
    requires 0 < m && 0 <= x < 2 * m
    ensures x % m == Wrap(x, m)
  {
    if x >= m {
      assert x == m + (x - m);
    }
  }

  /** Writing the slot after the last element appends to the window. */
  lemma WindowPush(s: seq<int>, r: int, n: nat, x: int)
    requires 0 <= r < |s| && n < |s|
    ensures Window(s[Wrap(r + n, |s|) := x], r, n + 1) == Window(s, r, n) + [x]
  {
    var w := Window(s[Wrap(r + n, |s|) := x], r, n + 1);
    forall i | 0 <= i < n
      ensures w[i] == Window(s, r, n)[i]
    {
      assert Wrap(r + i, |s|) != Wrap(r + n, |s|);
    }
  }

  /** Moving the start one slot on drops the oldest element. */
  lemma WindowPop(s: seq<int>, r: int, n: nat)
    requires 0 <= r < |s| && 0 < n <= |s|
    ensures Window(s, Wrap(r + 1, |s|), n - 1) == Window(s, r, n)[1..]
  {
    var w := Window(s, Wrap(r + 1, |s|), n - 1);
    forall i | 0 <= i < n - 1
      ensures w[i] == Window(s, r, n)[i + 1]
    {
      assert Wrap(Wrap(r + 1, |s|) + i, |s|) == Wrap(r + 1 + i, |s|);
    }
  }

  /** Advancing the write slot keeps it `size` slots after the read slot. */
  lemma WriteAdvance(r: int, n: nat, m: int)
    requires 0 <= r < m && n < m
    ensures ((r + n) % m + 1) % m == (r + n + 1) % m
  {
    ModWrap(r + n, m);
    ModWrap(r + n + 1, m);
    ModWrap((r + n) % m + 1, m);
  }

  /** Advancing the read slot past one element leaves the write slot where it was. */
  lemma ReadAdvance(r: int, n: nat, m: int)
    requires 0 <= r < m && 0 < n <= m
    ensures ((r + 1) % m + (n - 1)) % m == (r + n) % m
  {
    ModWrap(r + 1, m);
    ModWrap((r + 1) % m + (n - 1), m);
    ModWrap(r + n, m);
  }

  /** A write at the slot `size` places after the read slot appends to the window, and the
    * write slot after it is one place further on. */
  lemma WritePush(s: seq<int>, r: int, n: nat, x: int)
    requires 0 <= r < |s| && n < |s|
    ensures var w := (r + n) % |s|;
      Window(s[w := x], r, n + 1) == Window(s, r, n) + [x] && (w + 1) % |s| == (r + n + 1) % |s|
  {
    WriteAdvance(r, n, |s|);
    ModWrap(r + n, |s|);
    WindowPush(s, r, n, x);
  }

  /** Moving the read slot one place on drops the oldest element and keeps the write slot
    * `size - 1` places after it. */
  lemma ReadPop(s: seq<int>, r: int, n: nat)
    requires 0 <= r < |s| && 0 < n <= |s|
    ensures var r' := (r + 1) % |s|;
      0 <= r' < |s| && Window(s, r', n - 1) == Window(s, r, n)[1..] &&
      (r' + (n - 1)) % |s| == (r + n) % |s|
  {
    ReadAdvance(r, n, |s|);
    ModWrap(r + 1, |s|);
    WindowPop(s, r, n);
  }

  class CircularQueue {
    var buff: array<int>
    var maxSize: nat
    var size: nat
    var readIdx: nat
    var writeIdx: nat

    /** The buffer has `max_size` slots, at most all of them in use, and the write slot lies
      * `size` slots after the read slot. */
    ghost predicate Valid()
      reads this
    {
      buff.Length == maxSize && size <= maxSize &&
      (maxSize == 0 ==> readIdx == 0 && writeIdx == 0) &&
      (maxSize > 0 ==> readIdx < maxSize && writeIdx == (readIdx + size) % maxSize)
    }

    /** The queued elements, oldest first. */
    ghost function Contents(): seq<int>
      reads this, buff
      requires Valid()
    {
      if maxSize == 0 then [] else Window(buff[..], readIdx, size)
    }

    /** q_create: `max_size` zeroed slots, none in use, both indices at slot 0. */
    constructor (maxSize: nat)
      ensures Valid() && fresh(buff) && this.maxSize == maxSize
      ensures size == 0 && readIdx == 0 && writeIdx == 0 && Contents() == []
      ensures forall i :: 0 <= i < maxSize ==> buff[i] == 0
    {
      var b := new int[maxSize];
      var i := 0;
      while i < maxSize
        invariant 0 <= i <= maxSize
        invariant forall j :: 0 <= j < i ==> b[j] == 0
      {
        b[i] := 0;
        i := i + 1;
      }
      buff := b;
      this.maxSize := maxSize;
      size, readIdx, writeIdx := 0, 0, 0;
    }

    /** q_get_size */
    function GetSize(): (r: nat)
      reads this, buff
      requires Valid()
      ensures r == |Contents()|
    {
      size
    }

    /** q_is_empty: 1 exactly when nothing is queued. */
    function IsEmpty(): (r: int)
      reads this, buff
      requires Valid()
      ensures r == 0 || r == 1
      ensures r == 1 <==> Contents() == []
    {
      if size == 0 then 1 else 0
    }

    /** q_front: the oldest element, or NULL (None) when the queue is empty. */
    function Front(): (r: Option<int>)
      reads this, buff
      requires Valid()
      ensures r.None? <==> Contents() == []
      ensures r.Some? ==> r.value == Contents()[0]
    {
      if size != 0 then
        WindowFront(buff[..], readIdx, size);
        Some(buff[readIdx])
      else None
    }

    /**
     * q_dequeue: on a non-empty queue the read slot moves on (modulo `max_size`), the oldest
     * element leaves and 1 is returned; an empty queue is left as it is and 0 is returned.
     */
    method Dequeue() returns (r: int)
      requires Valid()
      modifies this
      ensures Valid() && buff == old(buff) && maxSize == old(maxSize) && writeIdx == old(writeIdx)
      ensures r == (if old(size) != 0 then 1 else 0)
      ensures r == 1 ==> Contents() == old(Contents())[1..] && size == old(size) - 1 &&
                         readIdx == (old(readIdx) + 1) % maxSize
      ensures r == 0 ==> size == old(size) && readIdx == old(readIdx)
    {
      if IsEmpty() == 0 {
        ReadPop(buff[..], readIdx, size);
        readIdx := (readIdx + 1) % maxSize;
        size := size - 1;
        return 1;
      }
      return 0;
    }

    /**
     * q_enqueue: while a slot is free the element is written at the write slot, which moves on
     * (modulo `max_size`), and 1 is returned; a full queue is left as it is and 0 is returned.
     */
    method Enqueue(x: int) returns (r: int)
      requires Valid()
      modifies this, buff
      ensures Valid() && buff == old(buff) && maxSize == old(maxSize) && readIdx == old(readIdx)
      ensures r == (if old(size) != maxSize then 1 else 0)
      ensures r == 1 ==> Contents() == old(Contents()) + [x] && size == old(size) + 1 &&
                         writeIdx == (old(writeIdx) + 1) % maxSize
      ensures r == 0 ==> size == old(size) && writeIdx == old(writeIdx) && buff[..] == old(buff[..])
    {
      if size != maxSize {
        ghost var s0 := buff[..];
        WritePush(s0, readIdx, size, x);
        buff[writeIdx] := x;
        assert buff[..] == s0[writeIdx := x];
        writeIdx := (writeIdx + 1) % maxSize;
        size := size + 1;
        return 1;
      }
      return 0;
    }

    /** q_clear: nothing queued, both indices back at slot 0. */
    method Clear()
      requires Valid()
      modifies this
      ensures Valid() && buff == old(buff) && maxSize == old(maxSize)
      ensures size == 0 && readIdx == 0 && writeIdx == 0 && Contents() == []
    {
      size := 0;
      readIdx := 0;
      writeIdx := 0;
    }
  }

  /** The queue is first in, first out: after enqueueing x and then y on an empty queue, the
    * front is x, and after one dequeue it is y. */
  method Fifo(q: CircularQueue, x: int, y: int)
    requires q.Valid() && q.maxSize >= 2 && q.size == 0
    modifies q, q.buff
    ensures q.Valid() && q.Contents() == [y]
  {
    var r := q.Enqueue(x);
    r := q.Enqueue(y);
    assert q.Front() == Some(x);
    r := q.Dequeue();
    assert q.Front() == Some(y);
  }
}
