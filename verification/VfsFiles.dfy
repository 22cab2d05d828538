/** What the calls on handles do: opening, closing, reading, writing and seeking, one at a time and in
    sequences. */
module VfsFiles {
  import opened Common
  import opened VfsModel
  import opened VfsInv
  import opened VfsCalls
  import RamFile

  /** The bytes of the file of inode i. */
  function BytesOf(s: State, i: nat): seq<Byte> {
    if i in s.inodes && s.inodes[i].ident in s.idents && s.inodes[i].size <= |s.idents[s.inodes[i].ident]|
    then s.idents[s.inodes[i].ident][..s.inodes[i].size] else []
  }

  /** The handle is open on an inode that has a size. */
  ghost predicate OpenOn(s: State, task: TaskId, handle: int, d: nat, i: nat) {
    && Fd(s, task, handle) == Some(d) && d in s.descs && s.descs[d].inode == i
    && i in s.inodes && HasSize(s.inodes[i].kind)
  }

  /** Names, handles and folders stay as they are, and so do all descriptors but d and all files but that of
      inode i; of d only the position may change, and of i only size and bytes. */
  ghost predicate OnlyFile(s: State, n: State, d: nat, i: nat) {
    && n.tnodes == s.tnodes && n.files == s.files && n.intact == s.intact
    && n.inodes.Keys == s.inodes.Keys && n.descs.Keys == s.descs.Keys && n.idents.Keys == s.idents.Keys
    && (forall e <- s.descs :: n.descs[e] == if e == d then s.descs[e].(pos := n.descs[e].pos) else s.descs[e])
    && (forall j <- s.inodes :: n.inodes[j] == if j == i then s.inodes[j].(size := n.inodes[j].size) else s.inodes[j])
    && (forall j <- s.inodes | j != i :: BytesOf(n, j) == BytesOf(s, j))
  }

  lemma OpenFile(s: State, task: TaskId, handle: int, d: nat, i: nat)
    requires Inv(s) && OpenOn(s, task, handle, d, i)
    ensures HasFile(s, d) && RamFile.FileOk(FileAt(s, d)) && FileAt(s, d).pos == s.descs[d].pos
    ensures BytesOf(s, i) == RamFile.Contents(FileAt(s, d))
    ensures Readable(s, task, handle) == Some(d)
    ensures Writable(s, task, handle) == if s.descs[d].mode != READ then Some(d) else None
  {
    FdExists(s, task, handle);
    hide Inv;
  }

  /** Putting back a file changes nothing else. */
  lemma PutOnlyFile(s: State, d: nat, i: nat, f: RamFile.File)
    requires Inv(s) && HasFile(s, d) && s.descs[d].inode == i && RamFile.FileOk(f)
    ensures var n := PutFile(s, d, f);
            && OnlyFile(s, n, d, i) && n.descs[d].pos == f.pos && BytesOf(n, i) == RamFile.Contents(f)
  {
    forall j <- s.inodes | j != i
      ensures s.inodes[j].ident != s.inodes[i].ident
    {
      ApartFacts(s, i, j);
    }
    hide Inv;
  }

  // ----- vfs_write -----

  /** A write puts the bytes at the position of the handle and moves the position behind them. Inside the
      file they replace what was there and make the file longer as needed; behind its end the old bytes
      stay, and the new ones end the file. */
  lemma WriteMeaning(s: State, task: TaskId, handle: int, d: nat, i: nat, bytes: seq<Byte>, fill: nat -> Byte)
    requires Inv(s) && OpenOn(s, task, handle, d, i) && s.descs[d].mode != READ
    requires s.descs[d].pos + |bytes| < RamFile.WORD
    ensures CanWrite(s, task, handle, |bytes|)
    ensures var n, before, pos := Write(s, task, handle, bytes, fill), BytesOf(s, i), s.descs[d].pos;
            && OnlyFile(s, n, d, i) && Inv(n) && OpenOn(n, task, handle, d, i)
            && n.descs[d].pos == pos + |bytes|
            && (pos <= |before| ==> BytesOf(n, i) == RamFile.Over(before, pos, bytes))
            && (pos > |before| ==>
                  && |BytesOf(n, i)| == pos + |bytes| && BytesOf(n, i)[..|before|] == before
                  && BytesOf(n, i)[pos..] == bytes)
  {
    OpenFile(s, task, handle, d, i);
    var f := FileAt(s, d);
    assert RamFile.CanWrite(f, |bytes|);
    hide Inv, Fd, RamFile.Write, RamFile.Over, RamFile.Sync, RamFile.SizeFor, PutFile, OnlyFile;
    if f.pos <= f.size {
      RamFile.WriteMeaning(f, bytes, fill);
    } else {
      RamFile.WriteBehindEnd(f, bytes, fill);
    }
    WriteKeepsInv(s, task, handle, bytes, fill);
    PutOnlyFile(s, d, i, RamFile.Write(f, bytes, fill));
    StaysOpen(s, Write(s, task, handle, bytes, fill), task, handle, d, i);
  }

  lemma StaysOpen(s: State, n: State, task: TaskId, handle: int, d: nat, i: nat)
    requires OpenOn(s, task, handle, d, i) && OnlyFile(s, n, d, i)
    ensures OpenOn(n, task, handle, d, i) && n.descs[d].mode == s.descs[d].mode
  {
  }

  /** Without an open handle, or with one for reading only, nothing is written. */
  lemma WriteRefused(s: State, task: TaskId, handle: int, bytes: seq<Byte>, fill: nat -> Byte)
    requires Inv(s)
    requires var fd := Fd(s, task, handle); fd.Some? ==> fd.value in s.descs && s.descs[fd.value].mode == READ
    ensures CanWrite(s, task, handle, |bytes|) && Write(s, task, handle, bytes, fill) == s
  {
  }

  // ----- vfs_read -----

  /** A read from inside the file gives the bytes from the position on, as many as asked for or as there are,
      and moves the position behind them. */
  lemma ReadMeaning(s: State, task: TaskId, handle: int, d: nat, i: nat, len: nat)
    requires Inv(s) && OpenOn(s, task, handle, d, i)
    requires s.descs[d].pos <= |BytesOf(s, i)| && s.descs[d].pos + len < RamFile.WORD
    ensures CanRead(s, task, handle, len)
    ensures var (n, bytes), pos := Read(s, task, handle, len), s.descs[d].pos;
            var end := RamFile.Min(pos + len, |BytesOf(s, i)|);
            && pos <= end && bytes == BytesOf(s, i)[pos..end]
            && OnlyFile(s, n, d, i) && Inv(n) && OpenOn(n, task, handle, d, i)
            && n.descs[d].pos == end && BytesOf(n, i) == BytesOf(s, i)
  {
    OpenFile(s, task, handle, d, i);
    var f := FileAt(s, d);
    hide Inv, Fd, RamFile.Read, PutFile, OnlyFile;
    RamFile.ReadMeaning(f, len);
    ReadKeepsInv(s, task, handle, len);
    PutOnlyFile(s, d, i, RamFile.Read(f, len).0);
    StaysOpen(s, Read(s, task, handle, len).0, task, handle, d, i);
  }

  // ----- vfs_seek -----

  /** A seek moves the position and changes nothing else; it is refused exactly for a position past the end or
      at it, on a handle for reading only. */
  lemma SeekMeaning(s: State, task: TaskId, handle: int, d: nat, i: nat, pos: nat)
    requires Inv(s) && OpenOn(s, task, handle, d, i) && pos < RamFile.WORD
    ensures var n, refused := Seek(s, task, handle, pos), s.descs[d].mode == READ && pos >= |BytesOf(s, i)|;
            && OnlyFile(s, n, d, i) && Inv(n) && OpenOn(n, task, handle, d, i)
            && n.descs[d].pos == (if refused then s.descs[d].pos else pos) && BytesOf(n, i) == BytesOf(s, i)
  {
    OpenFile(s, task, handle, d, i);
    SeekKeepsInv(s, task, handle, pos);
    hide Fd, PutFile, OnlyFile;
    PutOnlyFile(s, d, i, FileAt(s, d));
    PutSame(s, d);
    PutOnlyFile(s, d, i, FileAt(s, d).(pos := pos));
    hide Inv;
    StaysOpen(s, Seek(s, task, handle, pos), task, handle, d, i);
  }

  lemma PutSame(s: State, d: nat)
    requires HasFile(s, d)
    ensures PutFile(s, d, FileAt(s, d)) == s
  {
  }

  // ----- vfs_open, vfs_close -----

  /** All handles but this one are what they were. */
  ghost predicate OtherHandles(s: State, n: State, task: TaskId, handle: int) {
    forall x, k {:trigger Fd(n, x, k)} :: x != task || k != handle ==> Fd(n, x, k) == Fd(s, x, k)
  }

  /** Of the inodes only i changes, and of it only the number of references. */
  ghost predicate OnlyRefs(s: State, n: State, i: nat, refs: int) {
    && n.tnodes == s.tnodes && n.idents == s.idents && n.intact == s.intact
    && n.inodes.Keys == s.inodes.Keys && i in s.inodes
    && (forall j <- s.inodes :: n.inodes[j] == if j == i then s.inodes[j].(refs := n.inodes[j].refs) else s.inodes[j])
    && n.inodes[i].refs == refs
  }

  /** Opening what path_to_node finds gives the next handle of the task a new descriptor, at the start of the
      file and in this mode, and counts one reference more. */
  lemma OpenMeaning(s: State, task: TaskId, path: string, mode: Mode, d: nat, t: nat)
    requires Inv(s) && Lookup(s, path) == Some(t) && d !in s.descs
    ensures HasInode(s, t)
    ensures var n, h, i := Open(s, task, path, mode, d), |FilesOf(s, task)|, s.tnodes[t].inode;
            && Fd(n, task, h) == Some(d) && Fd(s, task, h) == None && OtherHandles(s, n, task, h)
            && n.descs == s.descs[d := Desc(t, i, mode, 0)] && OnlyRefs(s, n, i, s.inodes[i].refs + 1)
  {
    LookupExists(s, path);
    hide Inv, Lookup;
  }

  lemma OpenRefused(s: State, task: TaskId, path: string, mode: Mode, d: nat)
    requires Lookup(s, path) == None
    ensures Open(s, task, path, mode, d) == s
  {
  }

  /** Closing frees the handle and its descriptor, in whatever mode it was opened, and counts one reference
      less; the inode stays. */
  lemma CloseMeaning(s: State, task: TaskId, handle: int, d: nat)
    requires Inv(s) && Fd(s, task, handle) == Some(d)
    ensures HasFile(s, d)
    ensures var n, i := Close(s, task, handle), s.descs[d].inode;
            && Fd(n, task, handle) == None && OtherHandles(s, n, task, handle)
            && n.descs == s.descs - {d} && OnlyRefs(s, n, i, s.inodes[i].refs - 1)
  {
    FdExists(s, task, handle);
    hide Inv;
  }

  lemma CloseRefused(s: State, task: TaskId, handle: int)
    requires Fd(s, task, handle) == None
    ensures Close(s, task, handle) == s
  {
  }

  // ----- Any chunks in, any chunks out, through the calls -----

  lemma OnlyFileTrans(s: State, m: State, n: State, d: nat, i: nat)
    requires OnlyFile(s, m, d, i) && OnlyFile(m, n, d, i)
    ensures OnlyFile(s, n, d, i)
  {
    hide BytesOf;
  }

  lemma OnlyFileSame(s: State, d: nat, i: nat)
    ensures OnlyFile(s, s, d, i)
  {
  }

  /** One vfs_write after the other; it ends early where ramfs cannot serve one. */
  ghost function WriteCalls(
    s: State, task: TaskId, handle: int, chunks: seq<seq<Byte>>, fill: (nat, nat) -> Byte): State
    decreases |chunks|
  {
    if chunks == [] || !CanWrite(s, task, handle, |chunks[0]|) then s
    else
      var n := Write(s, task, handle, chunks[0], RamFile.Filled(fill, |chunks|));
      WriteCalls(n, task, handle, chunks[1..], fill)
  }

  /** One vfs_read after the other, and all the bytes they give. */
  ghost function ReadCalls(s: State, task: TaskId, handle: int, lens: seq<nat>): (State, seq<Byte>)
    decreases |lens|
  {
    if lens == [] || !CanRead(s, task, handle, lens[0]) then (s, [])
    else
      var (n, first) := Read(s, task, handle, lens[0]);
      var (last, rest) := ReadCalls(n, task, handle, lens[1..]);
      (last, first + rest)
  }

  /** The handle is open on a file with these bytes, at this position. */
  ghost predicate At(s: State, task: TaskId, handle: int, d: nat, i: nat, pos: nat, c: seq<Byte>) {
    Inv(s) && OpenOn(s, task, handle, d, i) && s.descs[d].pos == pos && BytesOf(s, i) == c && pos <= |c|
  }

  ghost predicate Writes(s: State, d: nat) { d in s.descs && s.descs[d].mode != READ }

  lemma WriteOne(
    s: State, task: TaskId, handle: int, d: nat, i: nat, pos: nat, c: seq<Byte>, bytes: seq<Byte>, fill: nat -> Byte)
    requires At(s, task, handle, d, i, pos, c) && Writes(s, d) && pos + |bytes| < RamFile.WORD
    ensures CanWrite(s, task, handle, |bytes|)
    ensures var n := Write(s, task, handle, bytes, fill);
            && At(n, task, handle, d, i, pos + |bytes|, RamFile.Over(c, pos, bytes)) && Writes(n, d)
            && OnlyFile(s, n, d, i)
  {
    WriteMeaning(s, task, handle, d, i, bytes, fill);
    hide Inv, BytesOf, CanWrite, Write, RamFile.Over;
  }

  lemma ReadOne(s: State, task: TaskId, handle: int, d: nat, i: nat, pos: nat, c: seq<Byte>, len: nat)
    requires At(s, task, handle, d, i, pos, c) && pos + len < RamFile.WORD
    ensures CanRead(s, task, handle, len)
    ensures var (n, bytes), end := Read(s, task, handle, len), RamFile.Min(pos + len, |c|);
            && pos <= end && bytes == c[pos..end]
            && At(n, task, handle, d, i, end, c) && OnlyFile(s, n, d, i)
  {
    ReadMeaning(s, task, handle, d, i, len);
    hide Inv, BytesOf, CanRead, Read, OnlyFile;
  }

  lemma WriteCallsStep(s: State, task: TaskId, handle: int, chunks: seq<seq<Byte>>, fill: (nat, nat) -> Byte)
    requires chunks != [] && CanWrite(s, task, handle, |chunks[0]|)
    ensures WriteCalls(s, task, handle, chunks, fill) ==
            WriteCalls(
              Write(s, task, handle, chunks[0], RamFile.Filled(fill, |chunks|)), task, handle, chunks[1..], fill)
    ensures RamFile.Concat(chunks) == chunks[0] + RamFile.Concat(chunks[1..])
  {
    hide CanWrite, Write;
  }

  lemma WriteNone(
    s: State, task: TaskId, handle: int, d: nat, i: nat, pos: nat, c: seq<Byte>, fill: (nat, nat) -> Byte)
    requires At(s, task, handle, d, i, pos, c)
    ensures WriteCalls(s, task, handle, [], fill) == s && RamFile.Over(c, pos, RamFile.Concat([])) == c
    ensures OnlyFile(s, s, d, i)
  {
    hide Inv, BytesOf, OpenOn;
  }

  lemma OverChain(c: seq<Byte>, p: nat, x: seq<Byte>, y: seq<Byte>)
    requires p <= |c|
    ensures p + |x| <= |RamFile.Over(c, p, x)|
    ensures RamFile.Over(RamFile.Over(c, p, x), p + |x|, y) == RamFile.Over(c, p, x + y)
  {
    RamFile.OverTwice(c, p, x, y);
  }

  /** However the bytes are cut into writes: all of them are in the file, at the position of the handle. */
  lemma {:induction false} WriteCallsMeaning(
    s: State, task: TaskId, handle: int, d: nat, i: nat, pos: nat, c: seq<Byte>,
    chunks: seq<seq<Byte>>, fill: (nat, nat) -> Byte)
    requires At(s, task, handle, d, i, pos, c) && Writes(s, d) && pos <= |c|
    requires pos + |RamFile.Concat(chunks)| < RamFile.WORD
    ensures var n, all := WriteCalls(s, task, handle, chunks, fill), RamFile.Concat(chunks);
            && At(n, task, handle, d, i, pos + |all|, RamFile.Over(c, pos, all)) && Writes(n, d)
            && OnlyFile(s, n, d, i)
    decreases |chunks|
  {
    hide At, Writes, RamFile.Over, Write, CanWrite, OnlyFile, RamFile.Filled, RamFile.Concat, WriteCalls;
    if chunks == [] {
      WriteNone(s, task, handle, d, i, pos, c, fill);
      NoBytes();
    } else {
      var bytes, rest := chunks[0], RamFile.Concat(chunks[1..]);
      ConcatStep(chunks);
      WriteOne(s, task, handle, d, i, pos, c, bytes, RamFile.Filled(fill, |chunks|));
      WriteCallsStep(s, task, handle, chunks, fill);
      var n := Write(s, task, handle, bytes, RamFile.Filled(fill, |chunks|));
      OverChain(c, pos, bytes, rest);
      WriteCallsMeaning(n, task, handle, d, i, pos + |bytes|, RamFile.Over(c, pos, bytes), chunks[1..], fill);
      OnlyFileTrans(s, n, WriteCalls(s, task, handle, chunks, fill), d, i);
    }
  }

  lemma NoBytes()
    ensures RamFile.Concat([]) == []
  {
  }

  lemma ConcatStep(chunks: seq<seq<Byte>>)
    requires chunks != []
    ensures RamFile.Concat(chunks) == chunks[0] + RamFile.Concat(chunks[1..])
  {
  }

  /** However they are cut into reads: they give the bytes from the position of the handle on. */
  lemma {:induction false} ReadCallsMeaning(
    s: State, task: TaskId, handle: int, d: nat, i: nat, pos: nat, c: seq<Byte>, lens: seq<nat>)
    requires At(s, task, handle, d, i, pos, c) && pos <= |c| && pos + RamFile.Sum(lens) < RamFile.WORD
    ensures var (n, bytes), end := ReadCalls(s, task, handle, lens), RamFile.Min(pos + RamFile.Sum(lens), |c|);
            && pos <= end && bytes == c[pos..end]
            && At(n, task, handle, d, i, end, c) && OnlyFile(s, n, d, i)
    decreases |lens|
  {
    hide At, Read, CanRead, OnlyFile;
    if lens == [] {
      OnlyFileSame(s, d, i);
    } else {
      ReadOne(s, task, handle, d, i, pos, c, lens[0]);
      var n, mid := Read(s, task, handle, lens[0]).0, RamFile.Min(pos + lens[0], |c|);
      ReadCallsMeaning(n, task, handle, d, i, mid, c, lens[1..]);
      OnlyFileTrans(s, n, ReadCalls(n, task, handle, lens[1..]).0, d, i);
      var end := RamFile.Min(pos + RamFile.Sum(lens), |c|);
      assert c[pos..mid] + c[mid..end] == c[pos..end];
    }
  }

  lemma SeekBack(s: State, task: TaskId, handle: int, d: nat, i: nat, pos: nat, c: seq<Byte>, to: nat)
    requires At(s, task, handle, d, i, pos, c) && Writes(s, d) && to <= |c| && to < RamFile.WORD
    ensures var n := Seek(s, task, handle, to);
            At(n, task, handle, d, i, to, c) && Writes(n, d) && OnlyFile(s, n, d, i)
  {
    SeekMeaning(s, task, handle, d, i, to);
    hide Inv, BytesOf, Seek;
  }

  /** What reads of sum bytes find where all is. */
  lemma ReadFirst(c: seq<Byte>, pos: nat, all: seq<Byte>, sum: nat)
    requires pos + |all| <= |c| && c[pos..pos + |all|] == all && |all| <= sum
    ensures var end := RamFile.Min(pos + sum, |c|);
            && pos <= end <= |c| && |all| <= end - pos && c[pos..end][..|all|] == all
            && (|c| == pos + |all| ==> c[pos..end] == all)
  {
    var end := RamFile.Min(pos + sum, |c|);
    assert c[pos..end][..|all|] == c[pos..pos + |all|];
  }

  /** Chunks written, a seek back to where they start, and chunks read. */
  lemma WritesThenReads(
    s: State, task: TaskId, handle: int, d: nat, i: nat, pos: nat, c: seq<Byte>,
    chunks: seq<seq<Byte>>, fill: (nat, nat) -> Byte, lens: seq<nat>)
    requires At(s, task, handle, d, i, pos, c) && Writes(s, d) && pos <= |c|
    requires |RamFile.Concat(chunks)| <= RamFile.Sum(lens) && pos + RamFile.Sum(lens) < RamFile.WORD
    ensures var k := Seek(WriteCalls(s, task, handle, chunks, fill), task, handle, pos);
            var (n, bytes) := ReadCalls(k, task, handle, lens);
            var over := RamFile.Over(c, pos, RamFile.Concat(chunks));
            var end := RamFile.Min(pos + RamFile.Sum(lens), |over|);
            pos <= end && bytes == over[pos..end] && OnlyFile(s, n, d, i)
  {
    hide At, Writes, WriteCalls, ReadCalls, Seek, OnlyFile, RamFile.Concat, RamFile.Sum, RamFile.Over, RamFile.Min;
    var all, w := RamFile.Concat(chunks), WriteCalls(s, task, handle, chunks, fill);
    var k, over := Seek(w, task, handle, pos), RamFile.Over(c, pos, all);
    WriteCallsMeaning(s, task, handle, d, i, pos, c, chunks, fill);
    SeekBack(w, task, handle, d, i, pos + |all|, over, pos);
    ReadCallsMeaning(k, task, handle, d, i, pos, over, lens);
    OnlyFileTrans(s, w, k, d, i);
    OnlyFileTrans(s, k, ReadCalls(k, task, handle, lens).0, d, i);
  }

  lemma OverHolds(c: seq<Byte>, pos: nat, all: seq<Byte>, sum: nat)
    requires pos <= |c| && |all| <= sum
    ensures var over := RamFile.Over(c, pos, all);
            var end := RamFile.Min(pos + sum, |over|);
            && pos <= end <= |over| && |all| <= end - pos && over[pos..end][..|all|] == all
            && (|c| <= pos + |all| ==> over[pos..end] == all)
  {
    RamFile.OverSize(c, pos, all);
    ReadFirst(RamFile.Over(c, pos, all), pos, all, sum);
  }

  /** Any chunks written at a position inside the file, a seek back to it, and any chunks read that are long
      enough together: what was written comes back first, and nothing else when it reaches the end of the
      file; the rest of the file system has not changed. */
  lemma ChunksRoundTrip(
    s: State, task: TaskId, handle: int, d: nat, i: nat, pos: nat, c: seq<Byte>,
    chunks: seq<seq<Byte>>, fill: (nat, nat) -> Byte, lens: seq<nat>)
    requires At(s, task, handle, d, i, pos, c) && Writes(s, d) && pos <= |c|
    requires |RamFile.Concat(chunks)| <= RamFile.Sum(lens) && pos + RamFile.Sum(lens) < RamFile.WORD
    ensures var k := Seek(WriteCalls(s, task, handle, chunks, fill), task, handle, pos);
            var (n, bytes) := ReadCalls(k, task, handle, lens);
            var all := RamFile.Concat(chunks);
            && |all| <= |bytes| && bytes[..|all|] == all && (|c| <= pos + |all| ==> bytes == all)
            && OnlyFile(s, n, d, i)
  {
    hide At, Writes, WriteCalls, ReadCalls, Seek, OnlyFile, RamFile.Concat, RamFile.Sum, RamFile.Over, RamFile.Min;
    OverHolds(c, pos, RamFile.Concat(chunks), RamFile.Sum(lens));
    WritesThenReads(s, task, handle, d, i, pos, c, chunks, fill, lens);
  }
}
