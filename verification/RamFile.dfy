/** An open file on ramfs: the size the inode records, the bytes ramfs has allocated, and the position of
    the descriptor. */
module RamFile {
  import opened Common

  type Byte = bv8

  /** Positions and sizes are size_t. */
  const WORD := 0x1_0000_0000_0000_0000

  datatype File = File(size: nat, data: seq<Byte>, pos: nat)

  /** The allocation covers the size, and addresses fit in a word. */
  ghost predicate FileOk(f: File) {
    f.size <= |f.data| < WORD && f.pos < WORD
  }

  /** The bytes of the file. */
  function Contents(f: File): seq<Byte>
    requires f.size <= |f.data|
  {
    f.data[..f.size]
  }

  // ----- vfs_read -----

  /** The length vfs_read goes by, for a node that has a size. */
  function ReadLen(f: File, len: nat): nat {
    if (f.pos + len) % WORD > f.size then (f.size - f.pos) % WORD else len
  }

  /** What ramfs_read copies stays inside the allocation exactly when the position is not past the end and
      the length does not wrap around. */
  lemma ReadFitsExactly(f: File, len: nat)
    requires FileOk(f) && len < WORD
    ensures f.pos + ReadLen(f, len) <= |f.data| <==> f.pos <= f.size && f.pos + len < WORD
  {
    if f.pos + len >= WORD {
      assert (f.pos + len) % WORD == f.pos + len - WORD;
    }
    if f.pos > f.size {
      assert (f.size - f.pos) % WORD == f.size - f.pos + WORD;
    }
  }

  ghost predicate CanRead(f: File, len: nat) {
    FileOk(f) && len < WORD && f.pos <= f.size && f.pos + len < WORD
  }

  function Read(f: File, len: nat): (File, seq<Byte>)
    requires f.pos + ReadLen(f, len) <= |f.data|
  {
    var n := ReadLen(f, len);
    (f.(pos := f.pos + n), f.data[f.pos..f.pos + n])
  }

  function Min(a: int, b: int): int { if a < b then a else b }

  /** A read returns the bytes from the position on, as many as asked for or as there are. */
  lemma ReadMeaning(f: File, len: nat)
    requires CanRead(f, len)
    ensures var end := Min(f.pos + len, f.size);
            && f.pos + ReadLen(f, len) <= |f.data| && f.pos <= end
            && Read(f, len) == (f.(pos := end), Contents(f)[f.pos..end])
  {
    ReadFitsExactly(f, len);
    assert (f.pos + len) % WORD == f.pos + len && (f.size - f.pos) % WORD == f.size - f.pos;
    var n := ReadLen(f, len);
    assert n == Min(f.pos + len, f.size) - f.pos;
    SliceOfPrefix(f.data, f.size, f.pos, f.pos + n);
  }

  lemma SliceOfPrefix<T>(s: seq<T>, n: nat, a: nat, b: nat)
    requires a <= b <= n <= |s|
    ensures s[..n][a..b] == s[a..b]
  {
    assert forall i :: 0 <= i < b - a ==> s[..n][a..b][i] == s[a..b][i];
  }

  // ----- vfs_write -----

  /** The size the inode has before the bytes are copied. */
  function SizeFor(f: File, len: nat): nat {
    var end := (f.pos + len) % WORD;
    if end > f.size then end else f.size
  }

  /** ramfs_sync: the allocation grows to the size. kmrealloc keeps the old bytes; fill(i) is what byte i of
      the rest happens to hold. */
  function Sync(data: seq<Byte>, size: nat, fill: nat -> Byte): (n: seq<Byte>)
    ensures data <= n && size <= |n|
  {
    if size > |data| then data + seq(size - |data|, i requires 0 <= i => fill(|data| + i)) else data
  }

  /** What ramfs_write copies stays inside the allocation exactly when the end does not wrap around. */
  lemma WriteFitsExactly(f: File, len: nat, fill: nat -> Byte)
    requires FileOk(f) && len < WORD
    ensures f.pos + len <= |Sync(f.data, SizeFor(f, len), fill)| <==> f.pos + len < WORD
  {
    if f.pos + len >= WORD {
      assert (f.pos + len) % WORD == f.pos + len - WORD;
    }
  }

  ghost predicate CanWrite(f: File, len: nat) {
    FileOk(f) && f.pos + len < WORD
  }

  function Patch(data: seq<Byte>, pos: nat, bytes: seq<Byte>): (n: seq<Byte>)
    requires pos + |bytes| <= |data|
    ensures |n| == |data| && n[pos..pos + |bytes|] == bytes
    ensures forall i :: 0 <= i < |data| && !(pos <= i < pos + |bytes|) ==> n[i] == data[i]
  {
    data[..pos] + bytes + data[pos + |bytes|..]
  }

  function Write(f: File, bytes: seq<Byte>, fill: nat -> Byte): File
    requires f.pos + |bytes| <= |Sync(f.data, SizeFor(f, |bytes|), fill)|
  {
    var size := SizeFor(f, |bytes|);
    File(size, Patch(Sync(f.data, size, fill), f.pos, bytes), f.pos + |bytes|)
  }

  /** c with x put over it from p on. */
  function Over<T>(c: seq<T>, p: nat, x: seq<T>): (n: seq<T>)
    requires p <= |c|
    ensures |n| >= p + |x| && n[p..p + |x|] == x
  {
    c[..p] + x + c[Min(p + |x|, |c|)..]
  }

  lemma OverNothing<T>(x: seq<T>)
    ensures Over([], 0, x) == x
  {
  }

  /** Putting one piece behind another is putting both at once. */
  lemma OverTwice<T>(c: seq<T>, p: nat, x: seq<T>, y: seq<T>)
    requires p <= |c|
    ensures Over(Over(c, p, x), p + |x|, y) == Over(c, p, x + y)
  {
    var d := Over(c, p, x);
    assert d[..p + |x|] == c[..p] + x;
    assert d[Min(p + |x| + |y|, |d|)..] == c[Min(p + |x| + |y|, |c|)..];
  }

  /** A write at a position inside the file replaces the bytes there and keeps all others; the position
      ends up behind the bytes, and the file is as long as that needs. */
  lemma WriteMeaning(f: File, bytes: seq<Byte>, fill: nat -> Byte)
    requires CanWrite(f, |bytes|) && f.pos <= f.size
    ensures f.pos + |bytes| <= |Sync(f.data, SizeFor(f, |bytes|), fill)|
    ensures var n, c := Write(f, bytes, fill), Contents(f);
            && FileOk(n) && n.pos == f.pos + |bytes|
            && Contents(n) == Over(c, f.pos, bytes)
  {
    assert FileOk(f);
    hide Write, Over, Sync, SizeFor, CanWrite;
    WriteShape(f, bytes, fill);
    var n, c := Write(f, bytes, fill), Contents(f);
    OverAt(c, f.pos, bytes);
    forall i | 0 <= i < n.size
      ensures Contents(n)[i] == Over(c, f.pos, bytes)[i]
    {
      WriteAt(f, bytes, fill, i);
    }
  }

  lemma WriteShape(f: File, bytes: seq<Byte>, fill: nat -> Byte)
    requires CanWrite(f, |bytes|)
    ensures f.pos + |bytes| <= |Sync(f.data, SizeFor(f, |bytes|), fill)|
    ensures var n := Write(f, bytes, fill);
            && FileOk(n) && n.pos == f.pos + |bytes|
            && n.size == if f.pos + |bytes| > f.size then f.pos + |bytes| else f.size
  {
    WriteFitsExactly(f, |bytes|, fill);
    assert (f.pos + |bytes|) % WORD == f.pos + |bytes|;
    hide Patch;
  }

  /** Byte by byte: the new ones at their place, all others as before. */
  lemma WriteAt(f: File, bytes: seq<Byte>, fill: nat -> Byte, i: nat)
    requires CanWrite(f, |bytes|)
    ensures f.pos + |bytes| <= |Sync(f.data, SizeFor(f, |bytes|), fill)|
    ensures f.pos <= i < f.pos + |bytes| ==>
              i < |Write(f, bytes, fill).data| && Write(f, bytes, fill).data[i] == bytes[i - f.pos]
    ensures i < f.size && !(f.pos <= i < f.pos + |bytes|) ==>
              i < |Write(f, bytes, fill).data| && Write(f, bytes, fill).data[i] == f.data[i]
  {
    WriteFitsExactly(f, |bytes|, fill);
    hide SizeFor;
    var size := SizeFor(f, |bytes|);
    var room := Sync(f.data, size, fill);
    hide Sync;
    var data := Patch(room, f.pos, bytes);
    hide Patch;
    if f.pos <= i < f.pos + |bytes| {
      assert data[i] == data[f.pos..f.pos + |bytes|][i - f.pos];
    }
  }

  lemma OverSize<T>(c: seq<T>, p: nat, x: seq<T>)
    requires p <= |c|
    ensures |Over(c, p, x)| == if p + |x| > |c| then p + |x| else |c|
  {
  }

  lemma OverAt<T>(c: seq<T>, p: nat, x: seq<T>)
    requires p <= |c|
    ensures |Over(c, p, x)| == if p + |x| > |c| then p + |x| else |c|
    ensures forall i {:trigger Over(c, p, x)[i]} :: 0 <= i < |Over(c, p, x)| ==>
              Over(c, p, x)[i] == if p <= i < p + |x| then x[i - p] else c[i]
  {
  }

  /** Behind the end nothing is promised about the gap, but everything else stays. */
  lemma WriteBehindEnd(f: File, bytes: seq<Byte>, fill: nat -> Byte)
    requires CanWrite(f, |bytes|) && f.pos > f.size
    ensures f.pos + |bytes| <= |Sync(f.data, SizeFor(f, |bytes|), fill)|
    ensures var n := Write(f, bytes, fill);
            && FileOk(n) && n.pos == n.size == f.pos + |bytes|
            && Contents(n)[..f.size] == Contents(f) && Contents(n)[f.pos..] == bytes
  {
    assert FileOk(f);
    hide Write, Sync, SizeFor, CanWrite;
    WriteShape(f, bytes, fill);
    var n := Write(f, bytes, fill);
    forall i: nat | i < f.size || f.pos <= i < n.size
      ensures n.data[i] == if i < f.size then f.data[i] else bytes[i - f.pos]
    {
      WriteAt(f, bytes, fill, i);
    }
    assert Contents(n)[..f.size] == Contents(f);
    assert Contents(n)[f.pos..] == bytes;
  }

  // ----- vfs_seek -----

  /** Only a read-only descriptor is kept inside the file, and not even at its end. */
  function Seek(f: File, readOnly: bool, pos: nat): Option<File> {
    if pos >= f.size && readOnly then None else Some(f.(pos := pos))
  }

  /** Seeking back to the start of a file fails exactly for an empty file open for reading only. */
  lemma RewindExactly(f: File, readOnly: bool)
    ensures Seek(f, readOnly, 0).Some? <==> f.size > 0 || !readOnly
    ensures Seek(f, readOnly, 0).Some? ==> Seek(f, readOnly, 0).value == f.(pos := 0)
  {
  }

  // ----- Any chunks in, any chunks out -----

  function Concat(chunks: seq<seq<Byte>>): seq<Byte> {
    if chunks == [] then [] else chunks[0] + Concat(chunks[1..])
  }

  function Sum(lens: seq<nat>): nat {
    if lens == [] then 0 else lens[0] + Sum(lens[1..])
  }

  function Filled(fill: (nat, nat) -> Byte, k: nat): nat -> Byte { (i: nat) => fill(k, i) }

  /** One write after the other; fill(k, i) is what byte i of new memory holds when k writes are left. */
  ghost function WriteAll(f: File, chunks: seq<seq<Byte>>, fill: (nat, nat) -> Byte): File
    requires FileOk(f) && f.pos <= f.size && f.pos + |Concat(chunks)| < WORD
    decreases |chunks|
  {
    if chunks == [] then f
    else
      WriteMeaning(f, chunks[0], Filled(fill, |chunks|));
      WriteAll(Write(f, chunks[0], Filled(fill, |chunks|)), chunks[1..], fill)
  }

  ghost function ReadAll(f: File, lens: seq<nat>): (File, seq<Byte>)
    requires FileOk(f) && f.pos <= f.size && f.pos + Sum(lens) < WORD
    decreases |lens|
  {
    if lens == [] then (f, [])
    else
      ReadMeaning(f, lens[0]);
      var (g, first) := Read(f, lens[0]);
      var (h, rest) := ReadAll(g, lens[1..]);
      (h, first + rest)
  }

  /** However the bytes are cut into writes, and whatever the reallocations leave in the new memory, the
      file is the same. */
  lemma {:induction false} WriteAllMeaning(f: File, chunks: seq<seq<Byte>>, fill: (nat, nat) -> Byte)
    requires FileOk(f) && f.pos <= f.size && f.pos + |Concat(chunks)| < WORD
    ensures var n, c, all := WriteAll(f, chunks, fill), Contents(f), Concat(chunks);
            && FileOk(n) && n.pos == f.pos + |all|
            && Contents(n) == Over(c, f.pos, all)
    decreases |chunks|
  {
    hide Write, Sync, SizeFor;
    var c := Contents(f);
    if chunks == [] {
      assert Over(c, f.pos, []) == c;
    } else {
      hide Over;
      WriteMeaning(f, chunks[0], Filled(fill, |chunks|));
      var g := Write(f, chunks[0], Filled(fill, |chunks|));
      OverTwice(c, f.pos, chunks[0], Concat(chunks[1..]));
      WriteAllMeaning(g, chunks[1..], fill);
    }
  }

  lemma {:induction false} ReadAllMeaning(f: File, lens: seq<nat>)
    requires FileOk(f) && f.pos <= f.size && f.pos + Sum(lens) < WORD
    ensures var end := Min(f.pos + Sum(lens), f.size);
            f.pos <= end && ReadAll(f, lens) == (f.(pos := end), Contents(f)[f.pos..end])
    decreases |lens|
  {
    hide Read, ReadLen;
    if lens == [] {
      assert Contents(f)[f.pos..f.pos] == [];
    } else {
      ReadMeaning(f, lens[0]);
      var (g, first) := Read(f, lens[0]);
      ReadAllMeaning(g, lens[1..]);
      var mid, end := g.pos, Min(f.pos + Sum(lens), f.size);
      assert Contents(f)[f.pos..mid] + Contents(f)[mid..end] == Contents(f)[f.pos..end];
    }
  }

  /** Any chunks written to an empty file, then a seek to the start, then any chunks read that are long
      enough together: the concatenation comes back. */
  lemma RoundTrip(chunks: seq<seq<Byte>>, fill: (nat, nat) -> Byte, lens: seq<nat>)
    requires |Concat(chunks)| <= Sum(lens) < WORD
    ensures var f := WriteAll(File(0, [], 0), chunks, fill);
            && FileOk(f) && Seek(f, false, 0) == Some(f.(pos := 0))
            && ReadAll(f.(pos := 0), lens).1 == Concat(chunks)
  {
    hide WriteAll, ReadAll, Over, Concat, Sum;
    var f := WriteAll(File(0, [], 0), chunks, fill);
    WriteAllMeaning(File(0, [], 0), chunks, fill);
    OverNothing(Concat(chunks));
    assert Contents(f) == Concat(chunks);
    ReadAllMeaning(f.(pos := 0), lens);
  }
}
