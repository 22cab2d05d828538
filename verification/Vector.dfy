/** The doubling vector of pointers, over the bytes of its kmalloc block. */
module Vector {
  import opened Common

  type Byte = bv8

  /** sizeof of the elements: every vector of the kernel holds pointers. */
  const ELEM := 8

  /** Bytes that a kmalloc block of `size` bytes really has: whole pages. */
  function Capacity(size: nat): nat { NumPages(size) * PAGE_SIZE }

  /** alloc_size after vec_resize to len elements. */
  function Grown(alloc: nat, len: nat): nat {
    if alloc < len * ELEM then len * ELEM * 2 else alloc
  }

  lemma CapacityCovers(size: nat)
    ensures size <= Capacity(size)
  {
  }

  /** The first n elements stored in a block. */
  function Slots(bytes: seq<Byte>, n: nat): (s: seq<seq<Byte>>)
    requires n * ELEM <= |bytes|
    ensures |s| == n
  {
    seq(n, i requires 0 <= i < n => Slot(bytes, i))
  }

  function Slot(bytes: seq<Byte>, i: nat): seq<Byte>
    requires (i + 1) * ELEM <= |bytes|
  {
    bytes[i * ELEM..(i + 1) * ELEM]
  }

  function Without<T>(s: seq<T>, i: nat): seq<T>
    requires i < |s|
  {
    s[..i] + s[i + 1..]
  }

  /** The first position of x in s, or |s|. */
  function IndexOf<T(==)>(s: seq<T>, x: T): (i: nat)
    ensures i <= |s|
    ensures i < |s| ==> s[i] == x
    ensures forall j :: 0 <= j < i ==> s[j] != x
  {
    if s == [] then 0 else if s[0] == x then 0 else 1 + IndexOf(s[1..], x)
  }

  // ----- The copy inside vec_erase -----

  /** Bytes that vec_erase copies. The product binds tighter than the differences, so this is not the
      eight bytes per remaining element that the move needs. */
  function EraseCopy(len: nat, index: nat): nat
    requires index < len
  {
    ELEM * len - index - 1
  }

  /** The copy reads and writes inside a block of `capacity` bytes. */
  ghost predicate CopyInside(len: nat, index: nat, capacity: nat)
    requires index < len
  {
    forall i: nat {:trigger Touched(i)} :: Touched(i) && i < EraseCopy(len, index) ==>
      (index + 1) * ELEM + i < capacity && index * ELEM + i < capacity
  }

  predicate Touched(i: nat) { true }

  /** The condition a caller can check. */
  predicate EraseFits(len: nat, index: nat, capacity: nat) {
    ELEM * len + (ELEM - 1) * index + (ELEM - 1) <= capacity
  }

  lemma EraseFitsExact(len: nat, index: nat, capacity: nat)
    requires index < len
    ensures CopyInside(len, index, capacity) <==> EraseFits(len, index, capacity)
  {
    if CopyInside(len, index, capacity) {
      assert Touched(EraseCopy(len, index) - 1);
    }
  }

  /** Every element of a vector can be erased inside the block exactly when 15 bytes are available for
      each element instead of 8. */
  lemma EveryEraseFits(len: nat, capacity: nat)
    requires len > 0
    ensures (forall index: nat :: index < len ==> EraseFits(len, index, capacity)) <==> 15 * len <= capacity
  {
    if forall index: nat :: index < len ==> EraseFits(len, index, capacity) {
      assert EraseFits(len, len - 1, capacity);
    }
  }

  /** A vector filled by 510 pushes has a block of one page, and erasing its last element copies from
      beyond that page although the element itself lies inside. */
  lemma EraseOverruns()
    ensures 510 * ELEM <= 4080 && Capacity(4080) == 4096
    ensures !CopyInside(510, 509, Capacity(4080))
  {
    EraseFitsExact(510, 509, Capacity(4080));
  }

  /** A forward byte copy inside one block, as `rep movsb` does it. */
  function Moved(bytes: seq<Byte>, dst: nat, src: nat, n: nat): seq<Byte>
    requires dst <= src && src + n <= |bytes|
  {
    bytes[..dst] + bytes[src..src + n] + bytes[dst + n..]
  }

  lemma MovedStep(bytes: seq<Byte>, dst: nat, src: nat, i: nat)
    requires dst <= src && src + i < |bytes|
    ensures Moved(bytes, dst, src, i)[src + i] == bytes[src + i]
    ensures Moved(bytes, dst, src, i)[dst + i := bytes[src + i]] == Moved(bytes, dst, src, i + 1)
  {
  }

  lemma SubSlice(s: seq<Byte>, a: nat, b: nat, k: nat, m: nat)
    requires a <= b <= |s| && k <= m <= b - a
    ensures s[a..b][k..m] == s[a + k..a + m]
  {
    var l, r := s[a..b][k..m], s[a + k..a + m];
    forall i: nat | i < m - k
      ensures l[i] == r[i]
    {
      assert l[i] == s[a..b][k + i] == s[a + (k + i)];
    }
  }

  /** A slice that two sequences share, seen inside a longer slice that they share. */
  lemma SharedSlice(s: seq<Byte>, a: nat, t: seq<Byte>, b: nat, n: nat, k: nat, m: nat)
    requires a + n <= |s| && b + n <= |t| && s[a..a + n] == t[b..b + n] && k <= m <= n
    ensures s[a + k..a + m] == t[b + k..b + m]
  {
    SubSlice(s, a, a + n, k, m);
    SubSlice(t, b, b + n, k, m);
  }

  /** The copy of vec_erase closes the gap, whatever it does to the bytes behind the last element. */
  lemma EraseCloses(bytes: seq<Byte>, len: nat, index: nat)
    requires index < len && EraseFits(len, index, |bytes|)
    ensures var next := Moved(bytes, index * ELEM, (index + 1) * ELEM, EraseCopy(len, index));
            Slots(next, len - 1) == Without(Slots(bytes, len), index)
  {
    var dst, src, n := index * ELEM, (index + 1) * ELEM, EraseCopy(len, index);
    var next := Moved(bytes, dst, src, n);
    assert next[0..dst] == bytes[0..dst] && next[dst..dst + n] == bytes[src..src + n];
    hide Moved;
    forall i: nat | i < len - 1
      ensures Slot(next, i) == Slot(bytes, if i < index then i else i + 1)
    {
      if i < index {
        SharedSlice(next, 0, bytes, 0, dst, i * ELEM, (i + 1) * ELEM);
      } else {
        SharedSlice(next, dst, bytes, src, n, (i - index) * ELEM, (i - index + 1) * ELEM);
      }
    }
  }

  class Vec {
    var len: nat
    var allocSize: nat
    var data: array<Byte>
    /** Pushes so far, and bytes moved by reallocations so far. */
    ghost var pushes: nat
    ghost var copied: nat

    ghost predicate Valid()
      reads this
    {
      && data.Length == Capacity(allocSize)
      && len * ELEM <= allocSize
    }

    /** Pushes and erases, in any order, keep this: reallocations have copied at most 16 bytes, which is
        two elements, for each push. */
    ghost predicate Amortised()
      reads this
    {
      len <= pushes && copied <= allocSize <= 2 * ELEM * pushes
    }

    ghost function Contents(): seq<seq<Byte>>
      reads this, data
      requires Valid()
    {
      CapacityCovers(allocSize);
      Slots(data[..], len)
    }

    constructor ()
      ensures Valid() && Amortised() && Contents() == [] && pushes == 0 && fresh(data)
    {
      len, allocSize := 0, 0;
      data := new Byte[0];
      pushes, copied := 0, 0;
    }

    /** kmrealloc of the block: nothing moves while the number of pages stays the same. */
    method Realloc(size: nat)
      requires data.Length == Capacity(allocSize) && allocSize <= size
      modifies this`data, this`allocSize, this`copied
      ensures allocSize == size && data.Length == Capacity(size)
      ensures data == old(data) || fresh(data)
      ensures old(data.Length) <= data.Length && data[..old(allocSize)] == old(data[..allocSize])
      ensures copied <= old(copied) + old(allocSize)
    {
      CapacityCovers(allocSize);
      if NumPages(allocSize) != NumPages(size) {
        var next := new Byte[NumPages(size) * PAGE_SIZE];
        MorePages(allocSize, size);
        for i := 0 to allocSize
          invariant data == old(data) && allocSize == old(allocSize) && copied == old(copied)
          invariant data[..] == old(data[..]) && next[..i] == data[..i]
        {
          next[i] := data[i];
        }
        data := next;
        copied := copied + allocSize;
      }
      allocSize := size;
    }

    /** vec_resize */
    method Resize(newSize: nat)
      requires Valid()
      modifies this`len, this`data, this`allocSize, this`copied
      ensures Valid() && len == newSize && (data == old(data) || fresh(data))
      ensures forall i :: 0 <= i < newSize && i < old(len) ==> Contents()[i] == old(Contents())[i]
      ensures allocSize == Grown(old(allocSize), newSize)
      ensures copied <= old(copied) + (if old(allocSize) < newSize * ELEM then old(allocSize) else 0)
    {
      ghost var before, size, n := data[..], allocSize, len;
      len := newSize;
      if allocSize < len * ELEM {
        Realloc(len * ELEM * 2);
      }
      CapacityCovers(allocSize);
      CapacityCovers(size);
      KeptSlots(before, data[..], size, n, newSize);
    }

    /** vec_push_back */
    method PushBack(elem: seq<Byte>)
      requires Valid() && |elem| == ELEM
      modifies this, data
      ensures Valid() && (data == old(data) || fresh(data))
      ensures Contents() == old(Contents()) + [elem]
      ensures pushes == old(pushes) + 1
      ensures old(Amortised()) ==> Amortised()
    {
      ghost var c := Contents();
      Resize(len + 1);
      ghost var bytes := data[..];
      CapacityCovers(allocSize);
      forall i | 0 <= i < ELEM {
        data[(len - 1) * ELEM + i] := elem[i];
      }
      pushes := pushes + 1;
      StoreLast(bytes, data[..], len, elem);
      assert Contents()[..len - 1] == c;
    }

    /** vec_erase */
    method Erase(index: nat)
      requires Valid() && index < len && EraseFits(len, index, data.Length)
      modifies this`len, data
      ensures Valid() && data == old(data) && allocSize == old(allocSize)
      ensures Contents() == Without(old(Contents()), index)
      ensures pushes == old(pushes) && (old(Amortised()) ==> Amortised())
    {
      hide Moved, Slots;
      CapacityCovers(allocSize);
      ghost var bytes := data[..];
      EraseCloses(bytes, len, index);
      MoveDown(index * ELEM, (index + 1) * ELEM, ELEM * len - index - 1);
      len := len - 1;
    }

    /** memcpy towards lower addresses inside the block */
    method MoveDown(dst: nat, src: nat, n: nat)
      requires dst <= src && src + n <= data.Length
      modifies data
      ensures data[..] == Moved(old(data[..]), dst, src, n)
    {
      ghost var bytes := data[..];
      for i := 0 to n
        invariant data[..] == Moved(bytes, dst, src, i)
      {
        MovedStep(bytes, dst, src, i);
        data[dst + i] := data[src + i];
      }
    }

    /** vec_erase_val: erases the first element equal to val, if there is one. */
    method EraseVal(val: seq<Byte>)
      requires Valid()
      requires var i := IndexOf(Contents(), val); i < len ==> EraseFits(len, i, data.Length)
      modifies this`len, data
      ensures Valid() && data == old(data) && allocSize == old(allocSize)
      ensures var c := old(Contents());
              Contents() == if val in c then Without(c, IndexOf(c, val)) else c
      ensures pushes == old(pushes) && (old(Amortised()) ==> Amortised())
    {
      CapacityCovers(allocSize);
      for i := 0 to len
        invariant Valid() && len == old(len) && Contents() == old(Contents())
        invariant forall j :: 0 <= j < i ==> Contents()[j] != val
      {
        if data[i * ELEM..(i + 1) * ELEM] == val {
          assert Contents()[i] == val;
          Erase(i);
          break;
        }
      }
    }
  }

  lemma MorePages(a: nat, b: nat)
    requires a <= b
    ensures a <= NumPages(b) * PAGE_SIZE && NumPages(a) <= NumPages(b)
  {
  }

  lemma KeptSlots(before: seq<Byte>, after: seq<Byte>, size: nat, n: nat, m: nat)
    requires n * ELEM <= size <= |before| && size <= |after| && m * ELEM <= |after|
    requires after[0..size] == before[0..size]
    ensures forall i :: 0 <= i < n && i < m ==> Slots(after, m)[i] == Slots(before, n)[i]
  {
    forall i | 0 <= i < n && i < m
      ensures Slot(after, i) == Slot(before, i)
    {
      SharedSlice(after, 0, before, 0, size, i * ELEM, (i + 1) * ELEM);
    }
  }

  lemma StoreLast(before: seq<Byte>, after: seq<Byte>, n: nat, elem: seq<Byte>)
    requires n > 0 && n * ELEM <= |before| == |after| && |elem| == ELEM
    requires forall i :: 0 <= i < |before| && !((n - 1) * ELEM <= i < n * ELEM) ==> after[i] == before[i]
    requires forall i :: 0 <= i < ELEM ==> after[(n - 1) * ELEM + i] == elem[i]
    ensures Slots(after, n) == Slots(before, n)[..n - 1] + [elem]
  {
    assert Slot(after, n - 1) == elem;
    assert after[0..(n - 1) * ELEM] == before[0..(n - 1) * ELEM];
    forall i: nat | i < n - 1
      ensures Slot(after, i) == Slot(before, i)
    {
      SharedSlice(after, 0, before, 0, (n - 1) * ELEM, i * ELEM, (i + 1) * ELEM);
    }
  }
}
