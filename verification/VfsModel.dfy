/** The virtual file system on ramfs as values: one function for every call, what each of them keeps,
    and what paths resolve to afterwards. Addresses are numbers; kmfree takes a key out of a map. */
module VfsModel {
  import opened Common
  import opened Paths
  import RamFile
  import Vector

  type Byte = bv8
  type TaskId = nat

  /** kernel/fs/vfs/vfs.h: characters of a name that are kept and compared. */
  const NAME_LEN := 256

  datatype Kind = FILE | FOLDER | PIPE | BLOCK_DEVICE | CHAR_DEVICE | MOUNTPOINT

  datatype Mode = READ | WRITE | READWRITE

  /** kids is the child vector and alloc the size of its block in bytes. */
  datatype Inode = Inode(
    kind: Kind, size: nat, refs: int, mount: Option<nat>, kids: seq<nat>, ident: nat, alloc: nat)

  datatype Tnode = Tnode(name: string, inode: nat, parent: Option<nat>)

  datatype Desc = Desc(tnode: nat, inode: nat, mode: Mode, pos: nat)

  /** idents: the bytes that ramfs has allocated for a node; files: the handles of every task. intact: no
      copy has left its block so far; once one has, memory is no longer what the rest says. */
  datatype State = State(
    inodes: map<nat, Inode>, tnodes: map<nat, Tnode>, idents: map<nat, seq<Byte>>,
    descs: map<nat, Desc>, files: map<TaskId, seq<Option<nat>>>, intact: bool)

  /** The address of vfs_root. */
  const ROOT := 0

  /** What kmalloc returns for the node, the name and the data of a new file. */
  datatype Fresh = Fresh(inode: nat, tnode: nat, ident: nat)

  ghost predicate IsFresh(s: State, a: Fresh) {
    a.inode !in s.inodes && a.tnode !in s.tnodes && a.ident !in s.idents
  }

  /** memcpy of a name into a tnode. */
  function Cut(t: string): string {
    if |t| <= NAME_LEN then t else t[..NAME_LEN]
  }

  // ----- Looking up paths -----

  /** The inode a tnode points at. */
  predicate HasInode(s: State, t: nat) { t in s.tnodes && s.tnodes[t].inode in s.inodes }

  predicate Traversable(s: State, t: nat) {
    HasInode(s, t) && s.inodes[s.tnodes[t].inode].kind in {FOLDER, MOUNTPOINT}
  }

  /** The first of the kids with this name. */
  function FindKid(s: State, kids: seq<nat>, name: string): (r: Option<nat>)
    ensures r.Some? ==> r.value in kids && r.value in s.tnodes && s.tnodes[r.value].name == name
    ensures r.None? ==> forall k <- kids :: k in s.tnodes ==> s.tnodes[k].name != name
  {
    if kids == [] then None
    else if kids[0] in s.tnodes && s.tnodes[kids[0]].name == name then Some(kids[0])
    else FindKid(s, kids[1..], name)
  }

  /** The child of t that strncmp finds for a token. */
  function Child(s: State, t: nat, token: string): Option<nat> {
    if HasInode(s, t) then FindKid(s, s.inodes[s.tnodes[t].inode].kids, Cut(token)) else None
  }

  /** The usual meaning of a path: every component names a child of the folder before it. */
  function Resolve(s: State, t: nat, toks: seq<string>): Option<nat>
    decreases |toks|
  {
    if toks == [] then Some(t)
    else if !Traversable(s, t) then None
    else
      match Child(s, t, toks[0])
      case None => None
      case Some(c) => Resolve(s, c, toks[1..])
  }

  datatype Scanned = Scanned(node: nat, found: bool)

  /** What path_to_node does: a component that is not there is passed over, and the search goes on in the
      same folder. */
  function Scan(s: State, t: nat, found: bool, toks: seq<string>): Scanned
    decreases toks
  {
    if toks == [] then Scanned(t, found)
    else if !Traversable(s, t) then Scanned(t, false)
    else
      match Child(s, t, toks[0])
      case None => Scan(s, t, false, toks[1..])
      case Some(c) => Scan(s, c, true, toks[1..])
  }

  predicate IsAbsolute(path: string) { path != "" && path[0] == '/' }

  /** path_to_node without CREATE. */
  function Lookup(s: State, path: string): Option<nat> {
    if !IsAbsolute(path) then None
    else
      var r := Scan(s, ROOT, true, Tokens(path[1..]));
      if r.found then Some(r.node) else None
  }

  /** kernel/fs/vfs/vfs.h: VFS_MAX_PATH_LEN, the size of tmpbuff. */
  const MAX_PATH_LEN := 4096

  /** The components that the token loop copies to tmpbuff before it ends. */
  function Copied(s: State, t: nat, toks: seq<string>): seq<string>
    decreases |toks|
  {
    if toks == [] then []
    else if !Traversable(s, t) then [toks[0]]
    else
      match Child(s, t, toks[0])
      case None => [toks[0]] + Copied(s, t, toks[1..])
      case Some(c) => [toks[0]] + Copied(s, c, toks[1..])
  }

  /** Each of them fits tmpbuff with its final zero. A longer path may do so, too. */
  predicate PathFits(s: State, path: string) {
    IsAbsolute(path) ==> forall token <- Copied(s, ROOT, Tokens(path[1..])) :: |token| + 1 <= MAX_PATH_LEN
  }

  lemma {:induction false} CopiedAreTokens(s: State, t: nat, toks: seq<string>)
    ensures forall token <- Copied(s, t, toks) :: token in toks
    decreases |toks|
  {
    if toks != [] && Traversable(s, t) {
      match Child(s, t, toks[0])
      case None => CopiedAreTokens(s, t, toks[1..]);
      case Some(c) => CopiedAreTokens(s, c, toks[1..]);
    }
  }

  /** A path of at most 4096 characters fits in every tree. */
  lemma ShortPathsFit(s: State, path: string)
    requires |path| <= MAX_PATH_LEN
    ensures PathFits(s, path)
  {
    hide Tokens, Copied;
    if IsAbsolute(path) {
      var toks := Tokens(path[1..]);
      CopiedAreTokens(s, ROOT, toks);
      forall k | 0 <= k < |toks|
        ensures |toks[k]| + 1 <= MAX_PATH_LEN
      {
        TokensHaveNoSlash(path[1..], k);
      }
    }
  }

  /** The folder in which path_to_node with CREATE makes a node. */
  function Home(s: State, path: string): Option<nat> {
    if !IsAbsolute(path) then None
    else
      var r := Scan(s, ROOT, true, Tokens(path[1..]));
      if !r.found && Traversable(s, r.node) && EndsInName(path[1..]) then Some(r.node) else None
  }

  /** The name it gets. */
  function NewName(path: string): string {
    var toks := if IsAbsolute(path) then Tokens(path[1..]) else [];
    if toks == [] then "" else Cut(toks[|toks| - 1])
  }

  /** All components but the last resolve, one after the other. */
  ghost predicate PrefixesResolve(s: State, t: nat, toks: seq<string>) {
    forall k :: 0 <= k < |toks| ==> Resolve(s, t, toks[..k]).Some?
  }

  /** Resolving all components is resolving all but the last, and then the last. */
  lemma {:induction false} ResolveLast(s: State, t: nat, toks: seq<string>)
    requires toks != []
    ensures var n := |toks| - 1;
            var dir := Resolve(s, t, toks[..n]);
            Resolve(s, t, toks) ==
            if dir.None? || !Traversable(s, dir.value) then None else Child(s, dir.value, toks[n])
    decreases toks
  {
    var n := |toks| - 1;
    if n == 0 {
      assert toks[..0] == [] && toks[1..] == [];
    } else if Traversable(s, t) && Child(s, t, toks[0]).Some? {
      var c := Child(s, t, toks[0]).value;
      ResolveLast(s, c, toks[1..]);
      assert toks[..n][1..] == toks[1..][..n - 1];
    }
  }

  /** Where the folders of a path exist, path_to_node finds what the path means, and a new node goes into
      the last of them. */
  lemma {:induction false} ScanIsResolve(s: State, t: nat, found: bool, toks: seq<string>)
    requires toks != [] && PrefixesResolve(s, t, toks)
    ensures var r := Scan(s, t, found, toks);
            && r.found == Resolve(s, t, toks).Some?
            && (r.found ==> Some(r.node) == Resolve(s, t, toks))
            && (!r.found ==> Some(r.node) == Resolve(s, t, toks[..|toks| - 1]))
    decreases toks
  {
    if |toks| > 1 {
      assert Resolve(s, t, toks[..1]).Some?;
      assert toks[..1][0] == toks[0];
      var c := Child(s, t, toks[0]).value;
      forall k | 0 <= k < |toks| - 1
        ensures Resolve(s, c, toks[1..][..k]).Some?
      {
        assert toks[..k + 1][1..] == toks[1..][..k];
        assert Resolve(s, t, toks[..k + 1]).Some?;
      }
      ScanIsResolve(s, c, true, toks[1..]);
      assert toks[..|toks| - 1][1..] == toks[1..][..|toks| - 2];
    } else {
      assert toks[..0] == [] && toks[1..] == [];
    }
  }

  /** A component that is not the last and names nothing in its folder might as well not be there. */
  lemma {:induction false} MissingIsSkipped(s: State, t: nat, found: bool, toks: seq<string>, k: nat)
    requires k < |toks| - 1
    requires var dir := Resolve(s, t, toks[..k]);
             dir.Some? && Traversable(s, dir.value) && Child(s, dir.value, toks[k]).None?
    ensures Scan(s, t, found, toks) == Scan(s, t, false, toks[..k] + toks[k + 1..])
    decreases k
  {
    if k == 0 {
      assert toks[..0] + toks[1..] == toks[1..];
      assert toks[..0] == [];
      ScanIgnoresFlag(s, t, toks[1..], false, false);
    } else {
      var c := Child(s, t, toks[0]).value;
      assert toks[..k][1..] == toks[1..][..k - 1];
      MissingIsSkipped(s, c, true, toks[1..], k - 1);
      assert (toks[..k] + toks[k + 1..])[1..] == toks[1..][..k - 1] + toks[1..][k..];
      ScanIgnoresFlag(s, c, toks[1..][..k - 1] + toks[1..][k..], true, false);
    }
  }

  lemma ScanIgnoresFlag(s: State, t: nat, toks: seq<string>, a: bool, b: bool)
    requires toks != []
    ensures Scan(s, t, a, toks) == Scan(s, t, b, toks)
  {
  }

  /** The components that count: all but those that are not the last and name nothing where the search
      stands. */
  function Kept(s: State, t: nat, toks: seq<string>): (kept: seq<string>)
    ensures |kept| <= |toks| && (toks != [] ==> kept != [] && kept[|kept| - 1] == toks[|toks| - 1])
    decreases |toks|
  {
    if |toks| <= 1 || !Traversable(s, t) then toks
    else
      match Child(s, t, toks[0])
      case None => Kept(s, t, toks[1..])
      case Some(c) => [toks[0]] + Kept(s, c, toks[1..])
  }

  /** path_to_node walks the components that count, the way paths are meant to be walked. */
  lemma {:induction false} ScanIsKept(s: State, t: nat, found: bool, toks: seq<string>)
    requires toks != []
    ensures var r, kept := Scan(s, t, found, toks), Kept(s, t, toks);
            && r.found == Resolve(s, t, kept).Some?
            && (r.found ==> Some(r.node) == Resolve(s, t, kept))
    decreases |toks|
  {
    hide Traversable, Child;
    if |toks| == 1 {
      assert toks[1..] == [];
    } else if Traversable(s, t) {
      match Child(s, t, toks[0])
      case None => ScanIsKept(s, t, false, toks[1..]);
      case Some(c) =>
        ScanIsKept(s, c, true, toks[1..]);
        assert ([toks[0]] + Kept(s, c, toks[1..]))[1..] == Kept(s, c, toks[1..]);
    }
  }

  /** The folder that a path of components names, if there is one. */
  function FolderOf(s: State, t: nat, toks: seq<string>): Option<nat> {
    match Resolve(s, t, toks)
    case None => None
    case Some(dir) => if Traversable(s, dir) then Some(dir) else None
  }

  /** Where nothing is found, the search has ended in the folder that the components before the last name,
      or there is none. */
  lemma {:induction false} ScanEndsInFolder(s: State, t: nat, found: bool, toks: seq<string>)
    requires toks != [] && !Scan(s, t, found, toks).found
    ensures var r, kept := Scan(s, t, found, toks), Kept(s, t, toks);
            FolderOf(s, t, kept[..|kept| - 1]) == if Traversable(s, r.node) then Some(r.node) else None
    decreases |toks|
  {
    hide Traversable, Child;
    if |toks| == 1 {
      assert toks[..0] == [] && toks[1..] == [];
    } else if Traversable(s, t) {
      match Child(s, t, toks[0])
      case None => ScanEndsInFolder(s, t, false, toks[1..]);
      case Some(c) =>
        ScanEndsInFolder(s, c, true, toks[1..]);
        var rest := Kept(s, c, toks[1..]);
        var kept := [toks[0]] + rest;
        assert kept[..|kept| - 1] == [toks[0]] + rest[..|rest| - 1];
        assert kept[..|kept| - 1][1..] == rest[..|rest| - 1];
    }
  }

  /** When a component is dropped, neither the path nor the path of its folder means anything. */
  lemma {:induction false} DroppedMeansMissing(s: State, t: nat, toks: seq<string>)
    requires Kept(s, t, toks) != toks
    ensures Resolve(s, t, toks) == None && toks != [] && Resolve(s, t, toks[..|toks| - 1]) == None
    decreases |toks|
  {
    var front := toks[..|toks| - 1];
    match Child(s, t, toks[0])
    case None =>
    case Some(c) =>
      assert front[1..] == toks[1..][..|toks| - 2];
      assert toks == [toks[0]] + toks[1..];
      DroppedMeansMissing(s, c, toks[1..]);
  }

  // ----- The parts of the calls -----

  /** A new inode that nothing refers to yet, with empty data. */
  function AddInode(s: State, i: nat, kind: Kind, mount: Option<nat>, ident: nat): State {
    s.(inodes := s.inodes[i := Inode(kind, 0, 0, mount, [], ident, 0)], idents := s.idents[ident := []])
  }

  /** The folder's inode after vec_push_back of t. */
  function PushKid(d: Inode, t: nat): Inode {
    d.(kids := d.kids + [t], alloc := Vector.Grown(d.alloc, |d.kids| + 1))
  }

  /** A new name t for inode i, at the end of the folder d. */
  function AddName(s: State, i: nat, d: nat, name: string, t: nat): State
    requires i in s.inodes && d in s.inodes
  {
    var counted := s.inodes[i := s.inodes[i].(refs := s.inodes[i].refs + 1)];
    s.(inodes := counted[d := PushKid(counted[d], t)],
       tnodes := s.tnodes[t := Tnode(name, i, Some(d))])
  }

  /** vec_erase_val: without the first x. */
  function Without(q: seq<nat>, x: nat): seq<nat> {
    if q == [] then [] else if q[0] == x then q[1..] else [q[0]] + Without(q[1..], x)
  }

  /** The copy of vec_erase, when it takes t out of the list of its folder, stays inside the block. */
  predicate EraseSafe(s: State, t: nat) {
    t in s.tnodes && s.tnodes[t].parent.Some? && s.tnodes[t].parent.value in s.inodes ==>
      var folder := s.inodes[s.tnodes[t].parent.value];
      var index := Vector.IndexOf(folder.kids, t);
      index < |folder.kids| ==> Vector.EraseFits(|folder.kids|, index, Vector.Capacity(folder.alloc))
  }

  /** The name t goes, from its folder too. */
  function DropName(s: State, t: nat): State
    requires HasInode(s, t) && s.tnodes[t].parent.Some? && s.tnodes[t].parent.value in s.inodes
  {
    var i, p := s.tnodes[t].inode, s.tnodes[t].parent.value;
    var counted := s.inodes[i := s.inodes[i].(refs := s.inodes[i].refs - 1)];
    s.(inodes := counted[p := counted[p].(kids := Without(counted[p].kids, t))], tnodes := s.tnodes - {t},
       intact := s.intact && EraseSafe(s, t))
  }

  function DropInode(s: State, i: nat): State { s.(inodes := s.inodes - {i}) }

  function DropIdent(s: State, x: nat): State { s.(idents := s.idents - {x}) }

  // ----- The calls -----

  /** The node that vfs_create and vfs_link make. */
  function MakeNode(s: State, dir: nat, name: string, kind: Kind, a: Fresh): State
    requires HasInode(s, dir)
  {
    var d := s.tnodes[dir].inode;
    AddName(AddInode(s, a.inode, kind, s.inodes[d].mount, a.ident), a.inode, d, name, a.tnode)
  }

  function Create(s: State, path: string, kind: Kind, a: Fresh): State {
    match Home(s, path)
    case None => s
    case Some(dir) => MakeNode(s, dir, NewName(path), kind, a)
  }

  /** What vfs_link looks up: the inode to link, and the folder for the new name. */
  function LinkEnds(s: State, source: string, target: string): Option<(nat, nat)> {
    var t, dir := Lookup(s, source), Home(s, target);
    if t.None? || dir.None? || !HasInode(s, t.value) || !HasInode(s, dir.value) then None
    else Some((s.tnodes[t.value].inode, s.tnodes[dir.value].inode))
  }

  /** The node made first is gone at the end: when the mountpoints match, its inode; otherwise its tnode,
      which its folder goes on listing. */
  function Link(s: State, source: string, target: string, a: Fresh): State {
    match LinkEnds(s, source, target)
    case None => s
    case Some((i, d)) =>
      if i !in s.inodes || d !in s.inodes then s
      else if s.inodes[i].mount == s.inodes[d].mount then AddName(s, i, d, NewName(target), a.tnode)
      else
        var made := AddInode(s, a.inode, s.inodes[i].kind, s.inodes[d].mount, a.ident);
        var n := AddName(made, a.inode, d, NewName(target), a.tnode);
        n.(tnodes := n.tnodes - {a.tnode})
  }

  /** What vfs_unlink takes away: a name that is not the root's, of a node without kids. */
  function Removable(s: State, path: string): Option<nat> {
    match Lookup(s, path)
    case None => None
    case Some(t) =>
      if HasInode(s, t) && s.inodes[s.tnodes[t].inode].kids == []
         && s.tnodes[t].parent.Some? && s.tnodes[t].parent.value in s.inodes
      then Some(t) else None
  }

  /** The erase of vfs_unlink stays inside the block of the child vector. */
  predicate UnlinkFits(s: State, path: string) {
    Removable(s, path).Some? ==> EraseSafe(s, Removable(s, path).value)
  }

  /** The inode goes with its last reference, and its data too. */
  function Unlink(s: State, path: string): State {
    match Removable(s, path)
    case None => s
    case Some(t) =>
      var i := s.tnodes[t].inode;
      var n := DropName(s, t);
      if n.inodes[i].refs == 0 then DropInode(DropIdent(n, s.inodes[i].ident), i) else n
  }

  function FilesOf(s: State, task: TaskId): seq<Option<nat>> {
    if task in s.files then s.files[task] else []
  }

  function Open(s: State, task: TaskId, path: string, mode: Mode, d: nat): State {
    match Lookup(s, path)
    case None => s
    case Some(t) =>
      if !HasInode(s, t) then s
      else
        var i := s.tnodes[t].inode;
        s.(inodes := s.inodes[i := s.inodes[i].(refs := s.inodes[i].refs + 1)],
           descs := s.descs[d := Desc(t, i, mode, 0)],
           files := s.files[task := FilesOf(s, task) + [Some(d)]])
  }

  /** handle_to_fd; a negative handle is a huge size_t. */
  function Fd(s: State, task: TaskId, handle: int): Option<nat> {
    if 0 <= handle < |FilesOf(s, task)| then FilesOf(s, task)[handle] else None
  }

  /** The inode stays, whatever its count is then. */
  function Close(s: State, task: TaskId, handle: int): State {
    match Fd(s, task, handle)
    case None => s
    case Some(d) =>
      if d !in s.descs || s.descs[d].inode !in s.inodes then s
      else
        var i := s.descs[d].inode;
        s.(inodes := s.inodes[i := s.inodes[i].(refs := s.inodes[i].refs - 1)],
           descs := s.descs - {d},
           files := s.files[task := FilesOf(s, task)[handle := None]])
  }

  /** Only block devices and files have a fixed size. */
  predicate HasSize(kind: Kind) { kind in {FILE, BLOCK_DEVICE} }

  /** The inode behind a descriptor, its data and the position. */
  predicate HasFile(s: State, d: nat) {
    && d in s.descs && s.descs[d].inode in s.inodes && s.inodes[s.descs[d].inode].ident in s.idents
  }

  function FileAt(s: State, d: nat): RamFile.File
    requires HasFile(s, d)
  {
    var i := s.descs[d].inode;
    RamFile.File(s.inodes[i].size, s.idents[s.inodes[i].ident], s.descs[d].pos)
  }

  function PutFile(s: State, d: nat, f: RamFile.File): State
    requires HasFile(s, d)
  {
    var i := s.descs[d].inode;
    s.(inodes := s.inodes[i := s.inodes[i].(size := f.size)],
       idents := s.idents[s.inodes[i].ident := f.data],
       descs := s.descs[d := s.descs[d].(pos := f.pos)])
  }

  /** The descriptor of a handle that vfs_write accepts. */
  function Writable(s: State, task: TaskId, handle: int): Option<nat> {
    match Fd(s, task, handle)
    case None => None
    case Some(d) => if HasFile(s, d) && s.descs[d].mode != READ then Some(d) else None
  }

  function Readable(s: State, task: TaskId, handle: int): Option<nat> {
    match Fd(s, task, handle)
    case None => None
    case Some(d) => if HasFile(s, d) then Some(d) else None
  }

  /** vfs_write to a node with a size, where the end does not wrap around. */
  ghost predicate CanWrite(s: State, task: TaskId, handle: int, len: nat) {
    match Writable(s, task, handle)
    case None => true
    case Some(d) => HasSize(s.inodes[s.descs[d].inode].kind) && RamFile.CanWrite(FileAt(s, d), len)
  }

  ghost function Write(s: State, task: TaskId, handle: int, bytes: seq<Byte>, fill: nat -> Byte): State
    requires CanWrite(s, task, handle, |bytes|)
  {
    match Writable(s, task, handle)
    case None => s
    case Some(d) =>
      RamFile.WriteFitsExactly(FileAt(s, d), |bytes|, fill);
      PutFile(s, d, RamFile.Write(FileAt(s, d), bytes, fill))
  }

  ghost predicate CanRead(s: State, task: TaskId, handle: int, len: nat) {
    match Readable(s, task, handle)
    case None => true
    case Some(d) => HasSize(s.inodes[s.descs[d].inode].kind) && RamFile.CanRead(FileAt(s, d), len)
  }

  ghost function Read(s: State, task: TaskId, handle: int, len: nat): (State, seq<Byte>)
    requires CanRead(s, task, handle, len)
  {
    match Readable(s, task, handle)
    case None => (s, [])
    case Some(d) =>
      RamFile.ReadFitsExactly(FileAt(s, d), len);
      var (f, bytes) := RamFile.Read(FileAt(s, d), len);
      (PutFile(s, d, f), bytes)
  }

  function Seek(s: State, task: TaskId, handle: int, pos: nat): State {
    match Readable(s, task, handle)
    case None => s
    case Some(d) =>
      match RamFile.Seek(FileAt(s, d), s.descs[d].mode == READ, pos)
      case None => s
      case Some(f) => PutFile(s, d, f)
  }

  /** Where vfs_mount of ramfs may mount: an empty folder. */
  function MountAt(s: State, path: string): Option<nat> {
    match Lookup(s, path)
    case None => None
    case Some(t) =>
      if HasInode(s, t) && s.inodes[s.tnodes[t].inode].kind == FOLDER && s.inodes[s.tnodes[t].inode].kids == []
      then Some(t) else None
  }

  /** The folder's inode is freed, not its data, and the root of a new ramfs takes its place. */
  function Mount(s: State, path: string, i: nat, ident: nat): State {
    match MountAt(s, path)
    case None => s
    case Some(t) =>
      var was := s.tnodes[t].inode;
      var n := AddInode(DropInode(s, was), i, MOUNTPOINT, Some(t), ident);
      n.(inodes := n.inodes[i := n.inodes[i].(refs := 1)], tnodes := n.tnodes[t := n.tnodes[t].(inode := i)])
  }

  /** vfs_init: ramfs mounted on a root that has no file system. */
  function Boot(inode: nat, ident: nat): State {
    State(map[inode := Inode(MOUNTPOINT, 0, 1, Some(ROOT), [], ident, 0)],
          map[ROOT := Tnode("", inode, None)], map[ident := []], map[], map[], true)
  }

  // ----- The invariant -----

  /** The tnodes that point at inode i, and the descriptors open on it. */
  function Links(s: State, i: nat): set<nat> {
    set t | t in s.tnodes && s.tnodes[t].inode == i
  }

  function Opens(s: State, i: nat): set<nat> {
    set d | d in s.descs && s.descs[d].inode == i
  }

  /** A tnode points at an inode that exists; all but the root are in the list of their parent. */
  ghost predicate TnodeOk(s: State, t: nat) {
    && HasInode(s, t)
    && (t == ROOT <==> s.tnodes[t].parent.None?)
    && (t != ROOT ==>
          && s.tnodes[t].parent.value in s.inodes && t in s.inodes[s.tnodes[t].parent.value].kids
          && IsName(s.tnodes[t].name) && |s.tnodes[t].name| <= NAME_LEN)
  }

  /** The count of an inode is the number of names it has and of times it is open; its data exists. */
  ghost predicate InodeOk(s: State, i: nat) {
    && i in s.inodes && s.inodes[i].refs == |Links(s, i)| + |Opens(s, i)|
    && s.inodes[i].ident in s.idents
    && (s.inodes[i].kids != [] ==> s.inodes[i].kind in {FOLDER, MOUNTPOINT})
    && |s.inodes[i].kids| * Vector.ELEM <= s.inodes[i].alloc
  }

  /** The allocation covers the size. */
  ghost predicate SizeOk(s: State, i: nat) {
    && i in s.inodes && s.inodes[i].ident in s.idents
    && s.inodes[i].size <= |s.idents[s.inodes[i].ident]| < RamFile.WORD
  }

  /** No two inodes share their data. */
  ghost predicate ApartOk(s: State, i: nat, j: nat) {
    i in s.inodes && j in s.inodes && (s.inodes[i].ident == s.inodes[j].ident ==> i == j)
  }

  /** The kids of a folder know it, and no two have the same name. */
  ghost predicate KidsOk(s: State, i: nat, a: nat, b: nat)
    requires i in s.inodes
  {
    var kids := s.inodes[i].kids;
    a < |kids| && b < |kids| ==>
      && kids[a] in s.tnodes && s.tnodes[kids[a]].parent == Some(i)
      && kids[b] in s.tnodes
      && (a != b ==> kids[a] != kids[b] && s.tnodes[kids[a]].name != s.tnodes[kids[b]].name)
  }

  ghost predicate DescOk(s: State, d: nat) {
    d in s.descs && s.descs[d].inode in s.inodes && s.descs[d].pos < RamFile.WORD
  }

  /** Every handle is open, and no two handles share a descriptor. */
  ghost predicate HandleOk(s: State, task: TaskId, h: int, other: TaskId, k: int) {
    Fd(s, task, h).Some? && Fd(s, other, k).Some? ==>
      Fd(s, task, h).value in s.descs && (Fd(s, task, h) == Fd(s, other, k) ==> task == other && h == k)
  }

  ghost predicate Nodes(s: State) {
    && ROOT in s.tnodes
    && (forall t {:trigger TnodeOk(s, t)} :: t in s.tnodes ==> TnodeOk(s, t))
    && (forall i {:trigger InodeOk(s, i)} :: i in s.inodes ==> InodeOk(s, i))
    && (forall i {:trigger SizeOk(s, i)} :: i in s.inodes ==> SizeOk(s, i))
    && (forall i, j {:trigger ApartOk(s, i, j)} :: i in s.inodes && j in s.inodes ==> ApartOk(s, i, j))
    && (forall i, a: nat, b: nat {:trigger KidsOk(s, i, a, b)} :: i in s.inodes ==> KidsOk(s, i, a, b))
  }

  ghost predicate Handles(s: State) {
    && s.intact
    && (forall d {:trigger DescOk(s, d)} :: d in s.descs ==> DescOk(s, d))
    && (forall task, h, other, k {:trigger HandleOk(s, task, h, other, k)} :: HandleOk(s, task, h, other, k))
  }

  ghost predicate Inv(s: State) {
    Nodes(s) && Handles(s)
  }
}
