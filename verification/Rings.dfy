/** The two ring buffers: the output ring of a terminal and the ring of the kernel log. */
module Rings {

  type Byte = bv8

  /** The last n elements. */
  function Last<T>(s: seq<T>, n: nat): seq<T> {
    if |s| <= n then s else s[|s| - n..]
  }

  /** Looking at the end of a longer history through a window of n bytes. */
  lemma LastOfLast<T>(s: seq<T>, t: seq<T>, n: nat)
    ensures Last(Last(s, n) + t, n) == Last(s + t, n)
  {
  }

  /** Lengths a ring can have; modulo anything else never arises. */
  predicate RingLength(n: nat) { n == 16 || n == 65536 }

  function At<T>(a: seq<T>, i: nat): T
    requires RingLength(|a|)
  {
    a[i % |a|]
  }

  /** The `size` bytes of the ring from absolute position `start` on. */
  ghost function Content<T>(a: seq<T>, start: nat, size: nat): (s: seq<T>)
    requires RingLength(|a|)
  {
    seq(size, k requires 0 <= k => At(a, start + k))
  }

  /** The history h, written from absolute position `start` on, is present as far as the ring is long. */
  ghost predicate Holds<T>(a: seq<T>, start: nat, h: seq<T>)
    requires RingLength(|a|)
  {
    forall k: nat | k < |h| && |h| <= k + |a| :: At(a, start + k) == h[k]
  }

  lemma Wrap(i: nat, j: nat, n: nat)
    requires RingLength(n) && i < j < i + n
    ensures i % n != j % n
  {
    if n == 16 {
      assert i % 16 != j % 16;
    } else {
      assert i % 65536 != j % 65536;
    }
  }

  lemma Multiple(m: nat, r: nat, n: nat)
    requires RingLength(n)
    ensures (n * m + r) % n == r % n
  {
    if n == 16 {
      assert (16 * m + r) % 16 == r % 16;
    } else {
      assert (65536 * m + r) % 65536 == r % 65536;
    }
  }

  /** Positions that agree around the ring still agree k slots further on. */
  lemma Around(i: nat, j: nat, k: nat, n: nat)
    requires RingLength(n) && i % n == j % n
    ensures (i + k) % n == (j + k) % n
  {
    Multiple(i / n, i % n + k, n);
    Multiple(j / n, j % n + k, n);
    assert i + k == n * (i / n) + (i % n + k);
    assert j + k == n * (j / n) + (j % n + k);
  }

  lemma HoldsView<T>(a: seq<T>, start: nat, size: nat)
    requires RingLength(|a|) && size <= |a|
    ensures Holds(a, start, Content(a, start, size)) && |Content(a, start, size)| == size
    ensures Content(a, start, size) + [] == Content(a, start, size)
  {
  }

  lemma WriteSlot<T>(a: seq<T>, start: nat, h: seq<T>, c: T)
    requires RingLength(|a|) && Holds(a, start, h)
    ensures Holds(a[(start + |h|) % |a| := c], start, h + [c])
  {
    var next := a[(start + |h|) % |a| := c];
    assert At(next, start + |h|) == c;
    forall k: nat | k < |h| && |h| + 1 <= k + |a|
      ensures At(next, start + k) == h[k]
    {
      Wrap(start + k, start + |h|, |a|);
    }
  }

  /** Reading from the position of byte `from` of the history, or from a position equal to it around
      the ring, gives the history from there on. */
  lemma ReadBack<T>(a: seq<T>, start: nat, h: seq<T>, from: nat, pos: nat)
    requires RingLength(|a|) && Holds(a, start, h) && from <= |h| <= from + |a|
    requires pos % |a| == (start + from) % |a|
    ensures Content(a, pos, |h| - from) == h[from..]
  {
    var whole, tail := Content(a, pos, |h| - from), h[from..];
    forall k: nat | k < |tail|
      ensures whole[k] == tail[k]
    {
      Around(pos, start + from, k, |a|);
      assert whole[k] == At(a, pos + k) == At(a, start + (from + k));
      assert tail[k] == h[from + k];
    }
  }

  const TTY_BUFFER_SIZE := 16

  /** The start and size that ttyfs_write sets select the last bytes of the history. */
  lemma WriteEnd<T>(a: seq<T>, start: nat, size: nat, h: seq<T>)
    requires |a| == TTY_BUFFER_SIZE && Holds(a, start, h) && size <= |h|
    ensures |h| <= TTY_BUFFER_SIZE ==> Content(a, start, |h|) == Last(h, TTY_BUFFER_SIZE)
    ensures |h| >= TTY_BUFFER_SIZE ==>
              Content(a, (start + |h|) % TTY_BUFFER_SIZE, TTY_BUFFER_SIZE) == Last(h, TTY_BUFFER_SIZE)
  {
    if |h| <= TTY_BUFFER_SIZE {
      ReadBack(a, start, h, 0, start);
    }
    if |h| >= TTY_BUFFER_SIZE {
      Multiple(1, start + |h| - TTY_BUFFER_SIZE, TTY_BUFFER_SIZE);
      ReadBack(a, start, h, |h| - TTY_BUFFER_SIZE, (start + |h|) % TTY_BUFFER_SIZE);
    }
  }

  class TtyOutput {
    const buffer: array<Byte>
    var start: nat
    var size: nat
    /** Every byte ever written. */
    ghost var history: seq<Byte>

    ghost function View(): seq<Byte>
      reads this, buffer
      requires RingLength(buffer.Length)
    {
      Content(buffer[..], start, size)
    }

    ghost predicate Valid()
      reads this, buffer
    {
      && buffer.Length == TTY_BUFFER_SIZE
      && start < TTY_BUFFER_SIZE && size <= TTY_BUFFER_SIZE
      && View() == Last(history, TTY_BUFFER_SIZE)
    }

    constructor ()
      ensures Valid() && history == []
    {
      buffer := new Byte[TTY_BUFFER_SIZE];
      start, size, history := 0, 0, [];
    }

    /** ttyfs_write */
    method Write(data: seq<Byte>)
      requires Valid()
      modifies this, buffer
      ensures Valid() && history == old(history) + data
      ensures View() == Last(old(View()) + data, TTY_BUFFER_SIZE)
    {
      hide Content, Holds, Last, At;
      ghost var v, h := View(), history;
      HoldsView(buffer[..], start, size);
      var end := start + size;
      for i := 0 to |data|
        invariant start == old(start) && size == old(size) && history == h
        invariant Holds(buffer[..], start, v + data[..i])
      {
        assert |v + data[..i]| == size + i;
        WriteSlot(buffer[..], start, v + data[..i], data[i]);
        buffer[(end + i) % TTY_BUFFER_SIZE] := data[i];
        assert v + data[..i + 1] == v + data[..i] + [data[i]];
      }
      assert data[..|data|] == data;
      WriteEnd(buffer[..], start, size, v + data);
      if |data| > TTY_BUFFER_SIZE - size {
        start := (end + |data|) % TTY_BUFFER_SIZE;
      }
      size := if |data| + size < TTY_BUFFER_SIZE then |data| + size else TTY_BUFFER_SIZE;
      history := history + data;
      LastOfLast(h, data, TTY_BUFFER_SIZE);
    }
  }

  class TtyInput {
    const buffer: array<Byte>
    var start: nat
    var size: nat

    ghost function View(): seq<Byte>
      reads this, buffer
      requires RingLength(buffer.Length)
    {
      Content(buffer[..], start, size)
    }

    ghost predicate Valid()
      reads this, buffer
    {
      buffer.Length == TTY_BUFFER_SIZE && start < TTY_BUFFER_SIZE && size <= TTY_BUFFER_SIZE
    }

    constructor ()
      ensures Valid() && View() == []
    {
      buffer := new Byte[TTY_BUFFER_SIZE];
      start, size := 0, 0;
    }

    /** ttyfs_read: takes the oldest bytes, at most len of them. */
    method Read(len: nat) returns (data: seq<Byte>)
      requires Valid()
      modifies this
      ensures Valid()
      ensures |data| == if len < |old(View())| then len else |old(View())|
      ensures data + View() == old(View())
    {
      ghost var v := View();
      var rlen := if len < size then len else size;
      data := [];
      for i := 0 to rlen
        invariant start == old(start) && size == old(size)
        invariant data == v[..i]
      {
        data := data + [buffer[(start + i) % TTY_BUFFER_SIZE]];
        assert buffer[(start + i) % TTY_BUFFER_SIZE] == At(buffer[..], start + i) == v[i];
      }
      start := (start + rlen) % TTY_BUFFER_SIZE;
      size := size - rlen;
      assert Holds(buffer[..], old(start), v);
      ReadBack(buffer[..], old(start), v, rlen, start);
    }
  }

  const KLOG_BUFF_LEN := 65536

  class KernelLog {
    const buffer: array<Byte>
    var start: nat
    var end: nat
    ghost var history: seq<Byte>

    /** What klog_show_helper prints: the bytes from start up to end, around the ring. */
    ghost function View(): seq<Byte>
      reads this, buffer
      requires buffer.Length == KLOG_BUFF_LEN && start < KLOG_BUFF_LEN && end < KLOG_BUFF_LEN
    {
      Content(buffer[..], start, LogSize(start, end))
    }

    ghost predicate Valid()
      reads this, buffer
    {
      && buffer.Length == KLOG_BUFF_LEN
      && start < KLOG_BUFF_LEN && end < KLOG_BUFF_LEN
      && View() == Last(history, KLOG_BUFF_LEN - 1)
    }

    constructor ()
      ensures Valid() && history == []
    {
      buffer := new Byte[KLOG_BUFF_LEN];
      start, end, history := 0, 0, [];
    }

    /** putch: the indices are 16-bit numbers and wrap around. */
    method PutChar(c: Byte)
      requires Valid()
      modifies this, buffer
      ensures Valid() && history == old(history) + [c]
    {
      PutStep(buffer[..], start, end, c);
      LastOfLast(history, [c], KLOG_BUFF_LEN - 1);
      buffer[end] := c;
      end := (end + 1) % KLOG_BUFF_LEN;
      if end == start {
        start := (start + 1) % KLOG_BUFF_LEN;
      }
      history := history + [c];
    }

    /** putsn */
    method PutString(s: seq<Byte>)
      requires Valid()
      modifies this, buffer
      ensures Valid() && history == old(history) + s
    {
      for i := 0 to |s|
        invariant Valid() && history == old(history) + s[..i]
      {
        PutChar(s[i]);
        assert s[..i + 1] == s[..i] + [s[i]];
      }
      assert s[..|s|] == s;
    }
  }

  /** Bytes in a log ring; one slot always stays free. */
  function LogSize(start: nat, end: nat): nat
    requires start < KLOG_BUFF_LEN && end < KLOG_BUFF_LEN
  {
    (end + KLOG_BUFF_LEN - start) % KLOG_BUFF_LEN
  }

  function Next(i: nat): nat { (i + 1) % KLOG_BUFF_LEN }

  /** The log's end is as many slots after its start as there are bytes in it. */
  lemma SlotAfter(start: nat, end: nat)
    requires start < KLOG_BUFF_LEN && end < KLOG_BUFF_LEN
    ensures (start + LogSize(start, end)) % KLOG_BUFF_LEN == end
    ensures LogSize(start, end) == KLOG_BUFF_LEN - 1 <==> Next(end) == start
    ensures Next(end) != start ==> LogSize(start, Next(end)) == LogSize(start, end) + 1
    ensures Next(end) == start ==> LogSize(Next(start), Next(end)) == LogSize(start, end)
  {
    if end >= start {
      assert LogSize(start, end) == end - start;
    } else {
      assert LogSize(start, end) == end + KLOG_BUFF_LEN - start;
    }
  }

  /** One more byte, and the oldest one dropped if the ring is full. */
  lemma PutStep<T>(a: seq<T>, start: nat, end: nat, c: T)
    requires |a| == KLOG_BUFF_LEN && start < |a| && end < |a|
    ensures var v := Content(a, start, LogSize(start, end));
            var start' := if Next(end) == start then Next(start) else start;
            Content(a[end := c], start', LogSize(start', Next(end))) == Last(v + [c], KLOG_BUFF_LEN - 1)
  {
    var v := Content(a, start, LogSize(start, end));
    SlotAfter(start, end);
    WriteSlot(a, start, v, c);
    if Next(end) == start {
      ReadBack(a[end := c], start, v + [c], 1, Next(start));
    } else {
      ReadBack(a[end := c], start, v + [c], 0, start);
    }
  }
}
