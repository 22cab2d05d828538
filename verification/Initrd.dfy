/** Unpacking the initial ramdisk into the virtual file system. */
module Initrd {
  import opened Common
  import opened Paths
  import opened VfsModel
  import opened VfsInv
  import opened VfsPaths
  import opened VfsCalls
  import V = Vfs
  import RamFile

  /** The archive as a tree; its offsets have been followed. */
  datatype Node = Folder(name: string, children: seq<Node>) | File(name: string, bytes: seq<Byte>)

  /** kernel/boot/initrd/initrd.c: sizeof(path_buff). */
  const PATH_BUFF := 1024

  /** Names are C strings in 256 bytes without a slash, siblings have different ones, and every path fits
      the buffer when its name starts at offset. */
  ghost predicate WellFormed(node: Node, offset: nat)
    decreases node, 1
  {
    IsName(node.name) && |node.name| < NAME_LEN && FitsBelow(node, offset)
  }

  ghost predicate FitsBelow(node: Node, offset: nat)
    decreases node, 0
  {
    match node
    case File(name, bytes) => offset + |name| + 1 <= PATH_BUFF && |bytes| < RamFile.WORD
    case Folder(name, children) =>
      && offset + |name| + 2 <= PATH_BUFF
      && (forall i, j :: 0 <= i < j < |children| ==> children[i].name != children[j].name)
      && forall i :: 0 <= i < |children| ==> WellFormed(children[i], offset + |name| + 1)
  }

  /** How many files and folders there are in a tree, the node itself included. */
  function Size(node: Node): nat
    decreases node, 1, 0
  {
    match node
    case File(_, _) => 1
    case Folder(_, children) => 1 + SizeOfAll(node, |children|)
  }

  /** In the trees of the first i children. */
  function SizeOfAll(node: Node, i: nat): nat
    requires node.Folder? && i <= |node.children|
    decreases node, 0, i
  {
    if i == 0 then 0 else SizeOfAll(node, i - 1) + Size(node.children[i - 1])
  }

  /** A file with these bytes is what the path leads to. */
  ghost predicate FileAtPath(s: State, path: seq<string>, bytes: seq<Byte>) {
    var t := Resolve(s, ROOT, path);
    && t.Some? && HasInode(s, t.value)
    && var inode := s.inodes[s.tnodes[t.value].inode];
       && inode.kind == FILE && inode.ident in s.idents && inode.size <= |s.idents[inode.ident]|
       && s.idents[inode.ident][..inode.size] == bytes
  }

  /** What the path leads to is a folder; only the root is the root of a mount. */
  ghost predicate FolderIfBelow(s: State, path: seq<string>) {
    path != [] ==>
      var t := Resolve(s, ROOT, path);
      t.Some? && HasInode(s, t.value) && s.inodes[s.tnodes[t.value].inode].kind == FOLDER
  }

  /** The whole tree under a node is there. */
  ghost predicate Present(s: State, path: seq<string>, node: Node)
    decreases node
  {
    match node
    case File(_, bytes) => FileAtPath(s, path, bytes)
    case Folder(_, children) =>
      && Resolve(s, ROOT, path).Some? && Traversable(s, Resolve(s, ROOT, path).value) && FolderIfBelow(s, path)
      && forall i :: 0 <= i < |children| ==> Present(s, path + [children[i].name], children[i])
  }

  // ----- What stays the same -----

  /** There are k nodes more. */
  ghost predicate More(s: State, n: State, k: nat) {
    |n.tnodes| == |s.tnodes| + k && |n.inodes| == |s.inodes| + k
  }

  /** The same descriptors are open under the same handles. */
  ghost predicate SameOpen(s: State, n: State) {
    n.descs == s.descs && forall task, h {:trigger Fd(n, task, h)} :: Fd(n, task, h) == Fd(s, task, h)
  }

  lemma SameOpenTrans(s: State, m: State, n: State)
    requires SameOpen(s, m) && SameOpen(m, n)
    ensures SameOpen(s, n)
  {
    hide Fd;
    forall task, h
      ensures Fd(n, task, h) == Fd(s, task, h)
    {
      assert Fd(n, task, h) == Fd(m, task, h) == Fd(s, task, h);
    }
  }

  /** Inode i is as it was; only the folder ex may have more entries, behind those it had. */
  ghost predicate SameInode(s: State, n: State, ex: nat, i: nat) {
    && i in s.inodes && i in n.inodes
    && n.inodes[i].kind == s.inodes[i].kind && n.inodes[i].size == s.inodes[i].size
    && n.inodes[i].ident == s.inodes[i].ident && n.inodes[i].mount == s.inodes[i].mount
    && (if i == ex then s.inodes[i].kids <= n.inodes[i].kids else n.inodes[i].kids == s.inodes[i].kids)
  }

  ghost predicate Frame(s: State, n: State, ex: nat) {
    && (forall t {:trigger t in n.tnodes} :: t in s.tnodes ==> t in n.tnodes && n.tnodes[t] == s.tnodes[t])
    && (forall i {:trigger SameInode(s, n, ex, i)} :: i in s.inodes ==> SameInode(s, n, ex, i))
    && (forall x {:trigger x in n.idents} :: x in s.idents ==> x in n.idents && n.idents[x] == s.idents[x])
  }

  lemma FrameTrans(s: State, m: State, n: State, ex: nat, ey: nat)
    requires Frame(s, m, ex) && Frame(m, n, ey) && (ey == ex || ey !in s.inodes)
    ensures Frame(s, n, ex)
  {
    forall i | i in s.inodes
      ensures SameInode(s, n, ex, i)
    {
      assert SameInode(s, m, ex, i) && SameInode(m, n, ey, i);
    }
    forall t | t in s.tnodes
      ensures t in n.tnodes && n.tnodes[t] == s.tnodes[t]
    {
      assert t in m.tnodes;
    }
    forall x | x in s.idents
      ensures x in n.idents && n.idents[x] == s.idents[x]
    {
      assert x in m.idents;
    }
  }

  lemma {:induction false} FindKidPrefix(s: State, n: State, kids: seq<nat>, more: seq<nat>, name: string)
    requires kids <= more
    requires forall k <- kids :: k in s.tnodes && k in n.tnodes && n.tnodes[k] == s.tnodes[k]
    ensures FindKid(s, kids, name).Some? ==> FindKid(n, more, name) == FindKid(s, kids, name)
  {
    if kids != [] {
      assert kids[0] == more[0] && kids[1..] <= more[1..];
      FindKidPrefix(s, n, kids[1..], more[1..], name);
    }
  }

  /** Paths that lead somewhere go on leading there. */
  lemma {:induction false} FrameResolve(s: State, n: State, ex: nat, u: nat, toks: seq<string>)
    requires Inv(s) && Frame(s, n, ex) && u in s.tnodes
    ensures Resolve(s, u, toks).Some? ==> Resolve(n, u, toks) == Resolve(s, u, toks)
    decreases |toks|
  {
    hide Inv;
    if toks != [] {
      NodeFacts(s, u, ROOT);
      var i := s.tnodes[u].inode;
      assert SameInode(s, n, ex, i) && u in n.tnodes;
      KidsExist(s, i);
      FindKidPrefix(s, n, s.inodes[i].kids, n.inodes[i].kids, Cut(toks[0]));
      if Traversable(s, u) && Child(s, u, toks[0]).Some? {
        FrameResolve(s, n, ex, Child(s, u, toks[0]).value, toks[1..]);
      }
    }
  }

  lemma {:induction false} FramePresent(s: State, n: State, ex: nat, path: seq<string>, node: Node)
    requires Inv(s) && Frame(s, n, ex) && Present(s, path, node)
    ensures Present(n, path, node)
    decreases node
  {
    hide Inv, Frame, Resolve;
    RootResolves(s);
    FrameResolve(s, n, ex, ROOT, path);
    ResolveExists(s, ROOT, path);
    var t := Resolve(s, ROOT, path).value;
    FrameNode(s, n, ex, t);
    match node
    case File(_, bytes) =>
    case Folder(_, children) =>
      forall i | 0 <= i < |children|
        ensures Present(n, path + [children[i].name], children[i])
      {
        FramePresent(s, n, ex, path + [children[i].name], children[i]);
      }
  }

  lemma FrameNode(s: State, n: State, ex: nat, t: nat)
    requires Inv(s) && Frame(s, n, ex) && t in s.tnodes
    ensures HasInode(s, t) && HasInode(n, t) && n.tnodes[t] == s.tnodes[t] && SameInode(s, n, ex, s.tnodes[t].inode)
    ensures s.inodes[s.tnodes[t].inode].ident in s.idents
    ensures s.inodes[s.tnodes[t].inode].ident in n.idents
    ensures n.idents[s.inodes[s.tnodes[t].inode].ident] == s.idents[s.inodes[s.tnodes[t].inode].ident]
  {
    NodeFacts(s, t, ROOT);
    NodeFacts(s, t, s.tnodes[t].inode);
    hide Inv;
    assert SameInode(s, n, ex, s.tnodes[t].inode) && t in n.tnodes;
  }

  // ----- The steps of initrd_helper -----

  /** Where a node can be put: the folder exists and has no entry of that name. */
  ghost predicate Room(s: State, comps: seq<string>, name: string) {
    && (forall c <- comps :: IsName(c)) && IsName(name) && |name| < NAME_LEN
    && Resolve(s, ROOT, comps).Some? && Traversable(s, Resolve(s, ROOT, comps).value)
    && Child(s, Resolve(s, ROOT, comps).value, name).None?
  }

  /** The folder's inode. */
  function DirOf(s: State, comps: seq<string>): nat {
    var t := Resolve(s, ROOT, comps);
    if t.Some? && t.value in s.tnodes then s.tnodes[t.value].inode else 0
  }

  lemma RoomIsCreatable(s: State, comps: seq<string>, name: string)
    requires Room(s, comps, name)
    ensures var path := Join(comps + [name]);
            && Creatable(s, path) && Tokens(path[1..]) == comps + [name] && NewName(path) == name
            && Home(s, path) == Resolve(s, ROOT, comps)
  {
    hide Tokens, Resolve;
    var toks := comps + [name];
    assert toks[..|comps|] == comps;
    TokensOfJoin(toks);
    forall k | 0 <= k < |toks|
      ensures Resolve(s, ROOT, toks[..k]).Some?
    {
      ResolvePrefix(s, ROOT, comps, k);
      assert toks[..k] == comps[..k];
    }
    ResolveLast(s, ROOT, toks);
    CreatableHome(s, Join(toks));
  }

  /** The node at the path is new: its tnode is the last entry of the folder. */
  ghost predicate Added(s: State, n: State, comps: seq<string>, name: string, a: Fresh, kind: Kind) {
    && Frame(s, n, DirOf(s, comps)) && DirOf(s, comps) in s.inodes && DirOf(s, comps) in n.inodes
    && n.inodes[DirOf(s, comps)].kids == s.inodes[DirOf(s, comps)].kids + [a.tnode]
    && Resolve(n, ROOT, comps + [name]) == Some(a.tnode)
    && HasInode(n, a.tnode) && n.tnodes[a.tnode].name == name && n.tnodes[a.tnode].inode == a.inode
    && a.inode !in s.inodes && a.tnode !in s.tnodes
    && n.inodes[a.inode].kind == kind && n.inodes[a.inode].kids == [] && n.inodes[a.inode].ident == a.ident
    && a.ident !in s.idents && a.ident in n.idents
  }

  lemma CreateAdds(s: State, comps: seq<string>, name: string, kind: Kind, a: Fresh)
    requires Inv(s) && IsFresh(s, a) && Room(s, comps, name)
    ensures var n := Create(s, Join(comps + [name]), kind, a);
            && Inv(n) && Added(s, n, comps, name, a, kind) && n.inodes[a.inode].size == 0 && n.idents[a.ident] == []
            && SameOpen(s, n) && More(s, n, 1)
  {
    hide Inv, Home, NewName, Resolve, Tokens, Creatable;
    var path := Join(comps + [name]);
    RoomIsCreatable(s, comps, name);
    CreateKeepsInv(s, path, kind, a);
    CreateResolves(s, path, kind, a, comps + [name]);
    HomeFacts(s, path);
    hide Room, NamesEntry;
    assert Create(s, path, kind, a) == MakeNode(s, Home(s, path).value, name, kind, a);
    OneNodeMore(s, Home(s, path).value, name, kind, a);
    hide MakeNode;
  }

  lemma OneNodeMore(s: State, dir: nat, name: string, kind: Kind, a: Fresh)
    requires IsFresh(s, a) && HasInode(s, dir)
    ensures More(s, MakeNode(s, dir, name, kind, a), 1)
  {
    var n := MakeNode(s, dir, name, kind, a);
    assert n.tnodes.Keys == s.tnodes.Keys + {a.tnode};
    assert n.inodes.Keys == s.inodes.Keys + {a.inode};
  }

  /** An empty file and a path to it. */
  ghost predicate EmptyFile(c: State, path: string, t: nat) {
    && Lookup(c, path) == Some(t) && HasInode(c, t)
    && var inode := c.inodes[c.tnodes[t].inode];
       inode.kind == FILE && inode.size == 0 && inode.ident in c.idents && c.idents[inode.ident] == []
  }

  lemma OpensEmpty(c: State, path: string, t: nat, task: TaskId, d: nat)
    requires EmptyFile(c, path, t) && d !in c.descs
    ensures var o, h := Open(c, task, path, WRITE, d), |FilesOf(c, task)|;
            && Writable(o, task, h) == Some(d) && HasFile(o, d) && FileAt(o, d) == RamFile.File(0, [], 0)
            && o.descs[d].inode == c.tnodes[t].inode && o.inodes[c.tnodes[t].inode].kind == FILE
            && Fd(o, task, h) == Some(d)
  {
    hide Lookup;
  }

  /** The bytes an empty file holds after one write. */
  function Written(bytes: seq<Byte>, fill: nat -> Byte): (f: RamFile.File)
    requires |bytes| < RamFile.WORD
    ensures RamFile.FileOk(f) && f.size == |bytes| && f.data[..f.size] == bytes
  {
    RamFile.WriteMeaning(RamFile.File(0, [], 0), bytes, fill);
    assert RamFile.Over([], 0, bytes) == bytes;
    RamFile.Write(RamFile.File(0, [], 0), bytes, fill)
  }

  /** The state in which inode i is open once more, for writing. */
  function Opened(c: State, t: nat, i: nat, task: TaskId, d: nat): State
    requires i in c.inodes
  {
    c.(inodes := c.inodes[i := c.inodes[i].(refs := c.inodes[i].refs + 1)],
       descs := c.descs[d := Desc(t, i, WRITE, 0)],
       files := c.files[task := FilesOf(c, task) + [Some(d)]])
  }

  /** Closed again, with other contents. */
  lemma ClosedAgain(c: State, t: nat, i: nat, task: TaskId, d: nat, f: RamFile.File)
    requires i in c.inodes && c.inodes[i].ident in c.idents && d !in c.descs
    ensures HasFile(Opened(c, t, i, task, d), d)
    ensures var n := Close(PutFile(Opened(c, t, i, task, d), d, f), task, |FilesOf(c, task)|);
            && n.tnodes == c.tnodes && n.descs == c.descs
            && n.files == c.files[task := FilesOf(c, task) + [None]]
            && n.inodes == c.inodes[i := c.inodes[i].(size := f.size)]
            && n.idents == c.idents[c.inodes[i].ident := f.data]
  {
    var w, h := PutFile(Opened(c, t, i, task, d), d, f), |FilesOf(c, task)|;
    assert FilesOf(w, task) == FilesOf(c, task) + [Some(d)];
    assert (FilesOf(c, task) + [Some(d)])[h := None] == FilesOf(c, task) + [None];
    assert c.files[task := FilesOf(w, task)][task := FilesOf(c, task) + [None]]
        == c.files[task := FilesOf(c, task) + [None]];
  }

  /** vfs_open, vfs_write and vfs_close leave the bytes in the file, and counts and handles as before. */
  lemma Fills(c: State, path: string, t: nat, task: TaskId, d: nat, bytes: seq<Byte>, fill: nat -> Byte)
    requires EmptyFile(c, path, t) && d !in c.descs && |bytes| < RamFile.WORD
    ensures var o, h, i := Open(c, task, path, WRITE, d), |FilesOf(c, task)|, c.tnodes[t].inode;
            && CanWrite(o, task, h, |bytes|)
            && var n, f := Close(Write(o, task, h, bytes, fill), task, h), Written(bytes, fill);
               && n.tnodes == c.tnodes && n.descs == c.descs
               && n.files == c.files[task := FilesOf(c, task) + [None]]
               && n.inodes == c.inodes[i := c.inodes[i].(size := f.size)]
               && n.idents == c.idents[c.inodes[i].ident := f.data]
  {
    hide Lookup, RamFile.Write, RamFile.Sync, RamFile.SizeFor;
    OpensEmpty(c, path, t, task, d);
    var o, h := Open(c, task, path, WRITE, d), |FilesOf(c, task)|;
    assert RamFile.CanWrite(RamFile.File(0, [], 0), |bytes|);
    assert Write(o, task, h, bytes, fill) == PutFile(o, d, Written(bytes, fill));
    assert o == Opened(c, t, c.tnodes[t].inode, task, d);
    hide Written, Write, Open, PutFile, Close, CanWrite, Opened, EmptyFile;
    ClosedAgain(c, t, c.tnodes[t].inode, task, d, Written(bytes, fill));
  }

  /** A handle that is closed again is as good as one that does not exist. */
  lemma ClosedHandle(c: State, n: State, task: TaskId)
    requires n.descs == c.descs && n.files == c.files[task := FilesOf(c, task) + [None]]
    requires n.tnodes == c.tnodes && n.inodes.Keys == c.inodes.Keys
    ensures SameOpen(c, n) && More(c, n, 0)
  {
    assert |n.inodes| == |n.inodes.Keys| == |c.inodes|;
  }

  /** vfs_open, vfs_write and vfs_close of the new file put its bytes there. */
  lemma FillsFile(
    s: State, c: State, comps: seq<string>, name: string, a: Fresh, task: TaskId, d: nat, bytes: seq<Byte>,
    fill: nat -> Byte)
    requires Inv(s) && Inv(c) && Room(s, comps, name) && Added(s, c, comps, name, a, FILE)
    requires c.inodes[a.inode].size == 0 && c.idents[a.ident] == [] && d !in c.descs && |bytes| < RamFile.WORD
    ensures var path, h := Join(comps + [name]), |FilesOf(c, task)|;
            var o := Open(c, task, path, WRITE, d);
            && Lookup(c, path).Some? && CanWrite(o, task, h, |bytes|)
            && var n := Close(Write(o, task, h, bytes, fill), task, h);
               Added(s, n, comps, name, a, FILE) && FileAtPath(n, comps + [name], bytes) && SameOpen(c, n)
               && More(c, n, 0)
  {
    hide Inv, Room, Frame, Resolve, Lookup, Open, Write, Close, CanWrite, Written, SameOpen, More;
    NewFileLookup(s, c, comps, name, a);
    var path, h := Join(comps + [name]), |FilesOf(c, task)|;
    Fills(c, path, a.tnode, task, d, bytes, fill);
    var n := Close(Write(Open(c, task, path, WRITE, d), task, h, bytes, fill), task, h);
    FilledFrame(s, c, n, comps, name, a);
    ClosedHandle(c, n, task);
  }

  lemma NewFileLookup(s: State, c: State, comps: seq<string>, name: string, a: Fresh)
    requires Room(s, comps, name) && Added(s, c, comps, name, a, FILE)
    ensures Lookup(c, Join(comps + [name])) == Some(a.tnode)
  {
    hide Resolve, Tokens, Frame;
    var toks := comps + [name];
    TokensOfJoin(toks);
    forall k | 0 <= k < |toks|
      ensures Resolve(c, ROOT, toks[..k]).Some?
    {
      ResolvePrefix(c, ROOT, toks, k);
    }
    LookupIsResolve(c, Join(toks));
  }

  /** Changing the new inode's size and data, and counts, changes no path and nothing that was there. */
  lemma FilledFrame(s: State, c: State, n: State, comps: seq<string>, name: string, a: Fresh)
    requires Inv(s) && Inv(c) && Added(s, c, comps, name, a, FILE)
    requires n.tnodes == c.tnodes && n.inodes.Keys == c.inodes.Keys
    requires forall i <- c.inodes :: n.inodes[i] == c.inodes[i].(size := n.inodes[i].size, refs := n.inodes[i].refs)
    requires forall i <- c.inodes | i != a.inode :: n.inodes[i].size == c.inodes[i].size
    requires n.idents.Keys == c.idents.Keys && forall x <- c.idents | x != a.ident :: n.idents[x] == c.idents[x]
    ensures Added(s, n, comps, name, a, FILE)
  {
    hide Inv, Resolve;
    RootResolves(c);
    forall u <- c.tnodes
      ensures HasInode(c, u)
    {
      NodeFacts(c, u, ROOT);
    }
    ResolveSame(c, n, ROOT, comps + [name]);
    forall i | i in s.inodes
      ensures SameInode(s, n, DirOf(s, comps), i)
    {
      assert SameInode(s, c, DirOf(s, comps), i);
    }
    assert forall t :: t in s.tnodes ==> t in c.tnodes;
    assert forall x :: x in s.idents ==> x in c.idents;
  }

  // ----- Siblings -----

  /** The entry of folder d behind those it had and j more is named like child j. */
  ghost predicate EntryOk(s: State, n: State, d: nat, children: seq<Node>, j: nat) {
    && d in s.inodes && d in n.inodes && j < |children| && |s.inodes[d].kids| + j < |n.inodes[d].kids|
    && var k := n.inodes[d].kids[|s.inodes[d].kids| + j];
       k in n.tnodes && n.tnodes[k].name == children[j].name
  }

  /** The folder d has i entries more, named like the first i children. */
  ghost predicate Entries(s: State, n: State, d: nat, children: seq<Node>, i: nat) {
    && d in s.inodes && d in n.inodes && i <= |children|
    && s.inodes[d].kids <= n.inodes[d].kids && |n.inodes[d].kids| == |s.inodes[d].kids| + i
    && forall j: nat {:trigger EntryOk(s, n, d, children, j)} :: j < i ==> EntryOk(s, n, d, children, j)
  }

  /** Exactly one entry, with this name. */
  ghost predicate OneMore(s: State, n: State, d: nat, name: string) {
    && d in s.inodes && d in n.inodes
    && s.inodes[d].kids <= n.inodes[d].kids && |n.inodes[d].kids| == |s.inodes[d].kids| + 1
    && var k := n.inodes[d].kids[|s.inodes[d].kids|];
       k in n.tnodes && n.tnodes[k].name == name
  }

  /** Every child of the folder has room in it. */
  ghost predicate RoomForAll(s: State, at: seq<string>, children: seq<Node>, offset: nat) {
    && (forall c <- at :: IsName(c))
    && Resolve(s, ROOT, at).Some? && Traversable(s, Resolve(s, ROOT, at).value)
    && (forall i :: 0 <= i < |children| ==> WellFormed(children[i], offset))
    && (forall i :: 0 <= i < |children| ==> Child(s, Resolve(s, ROOT, at).value, children[i].name).None?)
    && forall i, j :: 0 <= i < j < |children| ==> children[i].name != children[j].name
  }

  /** No kid of the list has the name. */
  lemma {:induction false} FindNone(s: State, kids: seq<nat>, name: string)
    ensures FindKid(s, kids, name).None? <==>
            forall j :: 0 <= j < |kids| ==> kids[j] in s.tnodes ==> s.tnodes[kids[j]].name != name
  {
    if kids != [] {
      FindNone(s, kids[1..], name);
      assert forall j :: 1 <= j < |kids| ==> kids[j] == kids[1..][j - 1];
    }
  }

  /** After the first i children, the next one still has room. */
  lemma StillRoom(s: State, n: State, at: seq<string>, children: seq<Node>, offset: nat, i: nat)
    requires Inv(s) && RoomForAll(s, at, children, offset) && i < |children|
    requires Frame(s, n, DirOf(s, at)) && Entries(s, n, DirOf(s, at), children, i)
    ensures Room(n, at, children[i].name) && DirOf(n, at) == DirOf(s, at)
  {
    hide Inv, Resolve, FindKid;
    var name, t, d := children[i].name, Resolve(s, ROOT, at).value, DirOf(s, at);
    assert WellFormed(children[i], offset);
    RootResolves(s);
    FrameResolve(s, n, d, ROOT, at);
    ResolveExists(s, ROOT, at);
    FrameNode(s, n, d, t);
    KidsExist(s, d);
    var base, kids := s.inodes[d].kids, n.inodes[d].kids;
    FindNone(s, base, name);
    forall j | 0 <= j < |kids|
      ensures kids[j] in n.tnodes && n.tnodes[kids[j]].name != name
    {
      if j < |base| {
        assert kids[j] == base[j];
      } else {
        assert EntryOk(s, n, d, children, j - |base|) && children[j - |base|].name != name;
      }
    }
    FindNone(n, kids, name);
  }

  lemma OneEntryMore(s: State, m: State, n: State, d: nat, children: seq<Node>, i: nat)
    requires Entries(s, m, d, children, i) && i < |children| && OneMore(m, n, d, children[i].name) && Frame(m, n, d)
    ensures Entries(s, n, d, children, i + 1)
  {
    forall j: nat | j < i + 1
      ensures EntryOk(s, n, d, children, j)
    {
      if j < i {
        assert EntryOk(s, m, d, children, j);
      }
    }
  }

  /** The first i children of the folder have been unpacked into s, and nothing else. */
  ghost predicate Upto(s: State, n: State, at: seq<string>, node: Node, i: nat) {
    && node.Folder? && i <= |node.children|
    && Frame(s, n, DirOf(s, at)) && Entries(s, n, DirOf(s, at), node.children, i)
    && SameOpen(s, n) && More(s, n, SizeOfAll(node, i))
    && forall j :: 0 <= j < i ==> Present(n, at + [node.children[j].name], node.children[j])
  }

  lemma StartLoop(s: State, at: seq<string>, node: Node, offset: nat)
    requires Inv(s) && node.Folder? && RoomForAll(s, at, node.children, offset)
    ensures Upto(s, s, at, node, 0)
  {
    RootResolves(s);
    ResolveExists(s, ROOT, at);
    hide Inv, Resolve;
  }

  lemma NextChild(s: State, m: State, at: seq<string>, node: Node, offset: nat, i: nat)
    requires Inv(s) && node.Folder? && RoomForAll(s, at, node.children, offset) && i < |node.children|
    requires Upto(s, m, at, node, i)
    ensures WellFormed(node.children[i], offset) && Room(m, at, node.children[i].name)
    ensures DirOf(m, at) == DirOf(s, at)
  {
    StillRoom(s, m, at, node.children, offset, i);
    hide Inv, Upto, Room, DirOf;
  }

  lemma OneChildMore(s: State, m: State, n: State, at: seq<string>, node: Node, i: nat)
    requires Inv(m) && node.Folder? && i < |node.children| && Upto(s, m, at, node, i) && DirOf(m, at) == DirOf(s, at)
    requires Frame(m, n, DirOf(m, at)) && OneMore(m, n, DirOf(m, at), node.children[i].name)
    requires SameOpen(m, n) && More(m, n, Size(node.children[i]))
    requires Present(n, at + [node.children[i].name], node.children[i])
    ensures Upto(s, n, at, node, i + 1)
  {
    hide Inv, Frame, OneMore, Present, SameOpen, DirOf, Entries;
    var d := DirOf(s, at);
    FrameTrans(s, m, n, d, d);
    SameOpenTrans(s, m, n);
    OneEntryMore(s, m, n, d, node.children, i);
    forall j | 0 <= j < i
      ensures Present(n, at + [node.children[j].name], node.children[j])
    {
      FramePresent(m, n, d, at + [node.children[j].name], node.children[j]);
    }
  }

  /** A new empty folder has room for all its children. */
  lemma NewFolderRoom(s: State, n: State, comps: seq<string>, a: Fresh, node: Node, offset: nat)
    requires Room(s, comps, node.name) && Added(s, n, comps, node.name, a, FOLDER)
    requires node.Folder? && WellFormed(node, offset)
    ensures RoomForAll(n, comps + [node.name], node.children, offset + |node.name| + 1)
    ensures DirOf(n, comps + [node.name]) == a.inode && FolderIfBelow(n, comps + [node.name])
  {
    hide Resolve, Frame, Room, IsName;
    assert IsName(node.name) && forall c <- comps :: IsName(c) by {
      RoomNames(s, comps, node.name);
    }
    assert Traversable(n, a.tnode) && n.inodes[a.inode].kids == [];
  }

  lemma RoomNames(s: State, comps: seq<string>, name: string)
    requires Room(s, comps, name)
    ensures IsName(name) && forall c <- comps :: IsName(c)
  {
  }

  lemma AddedOneMore(s: State, n: State, comps: seq<string>, name: string, a: Fresh, kind: Kind)
    requires Added(s, n, comps, name, a, kind)
    ensures OneMore(s, n, DirOf(s, comps), name) && Frame(s, n, DirOf(s, comps))
  {
    hide Frame, Resolve;
  }

  /** Filling the new folder changes nothing else. */
  lemma FolderDone(s: State, m: State, n: State, comps: seq<string>, a: Fresh, name: string)
    requires Added(s, m, comps, name, a, FOLDER) && Frame(m, n, a.inode)
    ensures Frame(s, n, DirOf(s, comps)) && OneMore(s, n, DirOf(s, comps), name)
  {
    hide Resolve;
    FrameTrans(s, m, n, DirOf(s, comps), a.inode);
    assert SameInode(m, n, a.inode, DirOf(s, comps));
    assert a.tnode in n.tnodes;
  }

  // ----- initrd_helper -----

  /** An address that is not in use. */
  method NewAddress(used: set<nat>) returns (a: nat)
    ensures a !in used
  {
    a := 0;
    ghost var left := used;
    while a in used
      invariant left <= used && forall x <- used :: x >= a ==> x in left
      decreases |left|
    {
      left := left - {a};
      a := a + 1;
    }
  }

  class Loader {
    const vfs: V.Vfs
    const pathBuff: array<char>

    ghost predicate Valid()
      reads this, vfs
    {
      vfs.Valid() && pathBuff.Length == PATH_BUFF && pathBuff != vfs.tmpbuff
    }

    constructor (vfs: V.Vfs)
      requires vfs.Valid()
      ensures Valid() && this.vfs == vfs && fresh(pathBuff)
    {
      this.vfs := vfs;
      pathBuff := new char[PATH_BUFF](_ => ' ');
    }

    /** strcpy of a name to path_buff + offset, without the final zero. */
    method CopyName(name: string, offset: nat)
      requires offset + |name| <= pathBuff.Length
      modifies pathBuff
      ensures pathBuff[..offset + |name|] == old(pathBuff[..offset]) + name
    {
      var i := 0;
      while i < |name|
        invariant 0 <= i <= |name| && pathBuff[..offset + i] == old(pathBuff[..offset]) + name[..i]
      {
        pathBuff[offset + i] := name[i];
        i := i + 1;
      }
    }

    method NewNode() returns (a: Fresh)
      ensures IsFresh(vfs.View(), a)
    {
      var i := NewAddress(vfs.inodes.Keys);
      var t := NewAddress(vfs.tnodes.Keys);
      var x := NewAddress(vfs.idents.Keys);
      a := Fresh(i, t, x);
    }

    /** The branch of initrd_helper for a file: it is created, opened, written and closed. */
    method LoadFile(
      path: string, name: string, bytes: seq<Byte>, task: TaskId, fill: nat -> Byte, ghost comps: seq<string>)
      requires Valid() && Room(vfs.View(), comps, name) && path == Join(comps + [name])
      requires |path| <= PATH_BUFF && |bytes| < RamFile.WORD
      modifies vfs, vfs.tmpbuff
      ensures Valid() && FileAtPath(vfs.View(), comps + [name], bytes)
      ensures Frame(old(vfs.View()), vfs.View(), DirOf(old(vfs.View()), comps)) && SameOpen(old(vfs.View()), vfs.View())
      ensures More(old(vfs.View()), vfs.View(), 1)
      ensures OneMore(old(vfs.View()), vfs.View(), DirOf(old(vfs.View()), comps), name)
    {
      hide Inv, Room, Frame, OneMore, FileAtPath, Added, SameOpen;
      ghost var s := vfs.View();
      var a := NewNode();
      CreateAdds(s, comps, name, FILE, a);
      ShortPathsFit(s, path);
      var status := vfs.CreateNode(path, FILE, a);
      ghost var c := vfs.View();
      var d := NewAddress(vfs.descs.Keys);
      FillsFile(s, c, comps, name, a, task, d, bytes, fill);
      ShortPathsFit(c, path);
      var handle := vfs.OpenNode(task, path, WRITE, d);
      var r := vfs.WriteNode(task, handle, bytes, fill);
      status := vfs.CloseNode(task, handle);
      AddedOneMore(s, vfs.View(), comps, name, a, FILE);
      SameOpenTrans(s, c, vfs.View());
    }

    /** initrd_helper below the root: node goes into the folder that comps leads to, whose path with a
        slash behind it is what path_buff holds up to offset. */
    method Helper(node: Node, offset: nat, task: TaskId, fill: nat -> Byte, ghost comps: seq<string>)
      requires Valid() && WellFormed(node, offset) && Room(vfs.View(), comps, node.name)
      requires offset <= PATH_BUFF && pathBuff[..offset] == Join(comps) + "/"
      modifies vfs, vfs.tmpbuff, pathBuff
      ensures Valid() && pathBuff[..offset] == old(pathBuff[..offset])
      ensures Present(vfs.View(), comps + [node.name], node)
      ensures Frame(old(vfs.View()), vfs.View(), DirOf(old(vfs.View()), comps)) && SameOpen(old(vfs.View()), vfs.View())
      ensures More(old(vfs.View()), vfs.View(), Size(node))
      ensures OneMore(old(vfs.View()), vfs.View(), DirOf(old(vfs.View()), comps), node.name)
      decreases node, 2
    {
      hide Inv, Room, Frame, OneMore, FileAtPath, IsName, Present, WellFormed, FitsBelow, SameOpen;
      Sizes(node, offset);
      CopyName(node.name, offset);
      var end := offset + |node.name|;
      var path := pathBuff[..end];
      JoinAppend(comps, node.name);
      assert path == Join(comps + [node.name]);
      assert path[..offset] == old(pathBuff[..offset]);
      if node.Folder? {
        LoadFolder(node, offset, path, task, fill, comps);
      } else {
        LoadFile(path, node.name, node.bytes, task, fill, comps);
        FilePresent(vfs.View(), comps, node);
      }
      assert pathBuff[..offset] == pathBuff[..end][..offset];
    }

    /** The branch for a folder: it is created, a slash goes behind its path, and its children follow. */
    method LoadFolder(node: Node, offset: nat, path: string, task: TaskId, fill: nat -> Byte, ghost comps: seq<string>)
      requires Valid() && WellFormed(node, offset) && node.Folder? && Room(vfs.View(), comps, node.name)
      requires offset + |node.name| + 2 <= PATH_BUFF
      requires pathBuff[..offset + |node.name|] == path == Join(comps + [node.name])
      modifies vfs, vfs.tmpbuff, pathBuff
      ensures Valid() && pathBuff[..offset + |node.name|] == path
      ensures Present(vfs.View(), comps + [node.name], node)
      ensures Frame(old(vfs.View()), vfs.View(), DirOf(old(vfs.View()), comps)) && SameOpen(old(vfs.View()), vfs.View())
      ensures More(old(vfs.View()), vfs.View(), Size(node))
      ensures OneMore(old(vfs.View()), vfs.View(), DirOf(old(vfs.View()), comps), node.name)
      decreases node, 1
    {
      hide Inv, Room, Frame, OneMore, Added, RoomForAll, Present, WellFormed, SameOpen, FolderIfBelow, DirOf, Create,
           PathFits, IsFresh, Join;
      ghost var s := vfs.View();
      var end := offset + |node.name|;
      var a := NewNode();
      CreateAdds(s, comps, node.name, FOLDER, a);
      ShortPathsFit(s, path);
      var status := vfs.CreateNode(path, FOLDER, a);
      ghost var m := vfs.View();
      pathBuff[end] := '/';
      pathBuff[end + 1] := '\0';
      assert pathBuff[..end + 1] == path + "/";
      NewFolderRoom(s, m, comps, a, node, offset);
      Children(node, end + 1, task, fill, comps + [node.name]);
      FolderDone(s, m, vfs.View(), comps, a, node.name);
      SameOpenTrans(s, m, vfs.View());
      assert pathBuff[..end] == pathBuff[..end + 1][..end] == path;
    }

    /** The loop over the children of a folder. */
    method Children(node: Node, offset: nat, task: TaskId, fill: nat -> Byte, ghost at: seq<string>)
      requires Valid() && node.Folder? && RoomForAll(vfs.View(), at, node.children, offset)
      requires FolderIfBelow(vfs.View(), at)
      requires offset <= PATH_BUFF && pathBuff[..offset] == Join(at) + "/"
      modifies vfs, vfs.tmpbuff, pathBuff
      ensures Valid() && pathBuff[..offset] == old(pathBuff[..offset])
      ensures Present(vfs.View(), at, node)
      ensures Frame(old(vfs.View()), vfs.View(), DirOf(old(vfs.View()), at)) && SameOpen(old(vfs.View()), vfs.View())
      ensures More(old(vfs.View()), vfs.View(), SizeOfAll(node, |node.children|))
      decreases node, 0
    {
      hide Inv, Room, Frame, OneMore, Present, RoomForAll, WellFormed, SameOpen, FolderIfBelow, More, Size, SizeOfAll,
           DirOf, Join, Upto;
      ghost var s := vfs.View();
      StartLoop(s, at, node, offset);
      var i := 0;
      while i < |node.children|
        invariant 0 <= i <= |node.children| && Valid()
        invariant pathBuff[..offset] == old(pathBuff[..offset])
        invariant Upto(s, vfs.View(), at, node, i)
      {
        ghost var m := vfs.View();
        NextChild(s, m, at, node, offset, i);
        Helper(node.children[i], offset, task, fill, at);
        OneChildMore(s, m, vfs.View(), at, node, i);
        i := i + 1;
      }
      FolderPresent(s, vfs.View(), at, node, offset);
    }

    /** initrd_helper for the root of the archive, a folder without a name: vfs_create of the empty path
        fails and changes nothing, and the children go to "/". */
    method Unpack(root: Node, task: TaskId, fill: nat -> Byte)
      requires Valid() && root.Folder? && root.name == "" && FitsBelow(root, 0)
      requires forall i :: 0 <= i < |root.children| ==> Child(vfs.View(), ROOT, root.children[i].name).None?
      requires Traversable(vfs.View(), ROOT)
      modifies vfs, vfs.tmpbuff, pathBuff
      ensures Valid() && Present(vfs.View(), [], root)
      ensures AllReadBack(vfs.View(), root)
      ensures Frame(old(vfs.View()), vfs.View(), DirOf(old(vfs.View()), [])) && SameOpen(old(vfs.View()), vfs.View())
      ensures More(old(vfs.View()), vfs.View(), Size(root) - 1)
    {
      hide Inv, Present, Frame, AllReadBack, SameOpen;
      CopyName(root.name, 0);
      var a := NewNode();
      ShortPathsFit(vfs.View(), pathBuff[..0]);
      var status := vfs.CreateNode(pathBuff[..0], FOLDER, a);
      pathBuff[0] := '/';
      pathBuff[1] := '\0';
      assert pathBuff[..1] == Join([]) + "/";
      Children(root, 1, task, fill, []);
      ArchiveReadsBack(vfs.View(), root);
    }
  }

  /** The files of an archive with their paths. */
  function Files(node: Node, path: seq<string>): seq<(seq<string>, seq<Byte>)>
    decreases node, 1, 0
  {
    match node
    case File(_, bytes) => [(path, bytes)]
    case Folder(_, children) => FilesOfAll(node, path, |children|)
  }

  /** Those of the first i children. */
  function FilesOfAll(node: Node, path: seq<string>, i: nat): seq<(seq<string>, seq<Byte>)>
    requires node.Folder? && i <= |node.children|
    decreases node, 0, i
  {
    if i == 0 then []
    else FilesOfAll(node, path, i - 1) + Files(node.children[i - 1], path + [node.children[i - 1].name])
  }

  lemma {:induction false} PresentFiles(s: State, path: seq<string>, node: Node, k: nat)
    requires Present(s, path, node) && k < |Files(node, path)|
    ensures FileAtPath(s, Files(node, path)[k].0, Files(node, path)[k].1)
    decreases node, 1, 0
  {
    if node.Folder? {
      PresentFilesOfAll(s, path, node, |node.children|, k);
    }
  }

  lemma {:induction false} PresentFilesOfAll(s: State, path: seq<string>, node: Node, i: nat, k: nat)
    requires node.Folder? && Present(s, path, node) && i <= |node.children| && k < |FilesOfAll(node, path, i)|
    ensures FileAtPath(s, FilesOfAll(node, path, i)[k].0, FilesOfAll(node, path, i)[k].1)
    decreases node, 0, i
  {
    hide FileAtPath, Resolve;
    var before := FilesOfAll(node, path, i - 1);
    if k < |before| {
      PresentFilesOfAll(s, path, node, i - 1, k);
    } else {
      var child := node.children[i - 1];
      PresentFiles(s, path + [child.name], child, k - |before|);
    }
  }

  /** The files below the root of an archive have proper paths. */
  lemma {:induction false} FilesAreNamed(node: Node, path: seq<string>, offset: nat, k: nat)
    requires FitsBelow(node, offset) && (forall c <- path :: IsName(c)) && k < |Files(node, path)|
    requires node.Folder? || path != []
    ensures Files(node, path)[k].0 != [] && forall c <- Files(node, path)[k].0 :: IsName(c)
    decreases node, 1, 0
  {
    if node.Folder? {
      FilesOfAllAreNamed(node, path, offset, |node.children|, k);
    }
  }

  lemma {:induction false} FilesOfAllAreNamed(node: Node, path: seq<string>, offset: nat, i: nat, k: nat)
    requires node.Folder? && FitsBelow(node, offset) && (forall c <- path :: IsName(c))
    requires i <= |node.children| && k < |FilesOfAll(node, path, i)|
    ensures FilesOfAll(node, path, i)[k].0 != [] && forall c <- FilesOfAll(node, path, i)[k].0 :: IsName(c)
    decreases node, 0, i
  {
    hide IsName;
    var before := FilesOfAll(node, path, i - 1);
    if k < |before| {
      FilesOfAllAreNamed(node, path, offset, i - 1, k);
    } else {
      var child := node.children[i - 1];
      assert WellFormed(child, offset + |node.name| + 1);
      FilesAreNamed(child, path + [child.name], offset + |node.name| + 1, k - |before|);
    }
  }

  /** vfs_open of the path for reading succeeds, and vfs_read of len bytes returns exactly these bytes. */
  ghost predicate ReadsBack(s: State, path: seq<string>, bytes: seq<Byte>, task: TaskId, d: nat, len: nat) {
    var o, h := Open(s, task, Join(path), READ, d), |FilesOf(s, task)|;
    && Lookup(s, Join(path)).Some? && Fd(o, task, h) == Some(d)
    && CanRead(o, task, h, len) && Read(o, task, h, len).1 == bytes
  }

  /** Every file of the archive opens at its path, with any new descriptor d of any task, and reads back. */
  ghost predicate AllReadBack(s: State, root: Node) {
    forall k: nat, task, d, len {:trigger ReadsBack(s, Files(root, [])[k].0, Files(root, [])[k].1, task, d, len)} ::
      k < |Files(root, [])| && d !in s.descs && |Files(root, [])[k].1| <= len < RamFile.WORD ==>
        ReadsBack(s, Files(root, [])[k].0, Files(root, [])[k].1, task, d, len)
  }

  lemma ArchiveReadsBack(s: State, root: Node)
    requires Inv(s) && root.Folder? && FitsBelow(root, 0) && Present(s, [], root)
    ensures AllReadBack(s, root)
  {
    hide Inv, Present, FitsBelow, Files, FileAtPath, ReadsBack, IsName;
    forall k: nat, task, d, len: nat |
      k < |Files(root, [])| && d !in s.descs && |Files(root, [])[k].1| <= len < RamFile.WORD
      ensures ReadsBack(s, Files(root, [])[k].0, Files(root, [])[k].1, task, d, len)
    {
      PresentFiles(s, [], root, k);
      FilesAreNamed(root, [], 0, k);
      OpensAndReadsBack(s, Files(root, [])[k].0, Files(root, [])[k].1, task, d, len);
    }
  }

  /** A file that is present opens at its path, and a long enough read returns exactly its bytes. */
  lemma OpensAndReadsBack(s: State, path: seq<string>, bytes: seq<Byte>, task: TaskId, d: nat, len: nat)
    requires Inv(s) && FileAtPath(s, path, bytes) && path != [] && (forall c <- path :: IsName(c))
    requires d !in s.descs && |bytes| <= len < RamFile.WORD
    ensures ReadsBack(s, path, bytes, task, d, len)
  {
    hide Inv, Resolve, Tokens, Lookup;
    TokensOfJoin(path);
    forall k | 0 <= k < |path|
      ensures Resolve(s, ROOT, path[..k]).Some?
    {
      ResolvePrefix(s, ROOT, path, k);
    }
    LookupIsResolve(s, Join(path));
    OpenKeepsInv(s, task, Join(path), READ, d);
    var o, h := Open(s, task, Join(path), READ, d), |FilesOf(s, task)|;
    assert Fd(o, task, h) == Some(d);
    FdExists(o, task, h);
    RamFile.ReadMeaning(FileAt(o, d), len);
    var f := FileAt(o, d);
    assert RamFile.Contents(f)[0..f.size] == RamFile.Contents(f) == bytes;
  }

  lemma Sizes(node: Node, offset: nat)
    requires WellFormed(node, offset)
    ensures offset + |node.name| + 1 <= PATH_BUFF
    ensures node.File? ==> |node.bytes| < RamFile.WORD
    ensures node.Folder? ==> offset + |node.name| + 2 <= PATH_BUFF
  {
    hide IsName;
  }

  lemma FilePresent(s: State, comps: seq<string>, node: Node)
    requires node.File? && FileAtPath(s, comps + [node.name], node.bytes)
    ensures Present(s, comps + [node.name], node)
  {
    hide FileAtPath;
  }

  lemma FolderPresent(s: State, n: State, at: seq<string>, node: Node, offset: nat)
    requires Inv(s) && node.Folder? && RoomForAll(s, at, node.children, offset) && FolderIfBelow(s, at)
    requires Upto(s, n, at, node, |node.children|)
    ensures Present(n, at, node) && Frame(s, n, DirOf(s, at)) && SameOpen(s, n)
    ensures More(s, n, SizeOfAll(node, |node.children|))
  {
    hide Inv, Resolve, Frame, Entries, More, SameOpen, SizeOfAll;
    var d := DirOf(s, at);
    RootResolves(s);
    FrameResolve(s, n, d, ROOT, at);
    ResolveExists(s, ROOT, at);
    FrameNode(s, n, d, Resolve(s, ROOT, at).value);
  }
}
