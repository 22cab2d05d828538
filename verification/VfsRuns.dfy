/** Runs of calls to the virtual file system. */
module VfsRuns {
  import opened Common
  import opened Paths
  import opened VfsModel
  import opened VfsInv
  import opened VfsPaths
  import opened VfsCalls
  import RamFile

  datatype Step =
    | DoCreate(path: string, kind: Kind, a: Fresh)
    | DoLink(source: string, target: string, a: Fresh)
    | DoUnlink(path: string)
    | DoOpen(task: TaskId, path: string, mode: Mode, d: nat)
    | DoClose(task: TaskId, handle: int)
    | DoWrite(task: TaskId, handle: int, bytes: seq<Byte>, fill: nat -> Byte)
    | DoRead(task: TaskId, handle: int, len: nat)
    | DoSeek(task: TaskId, handle: int, pos: nat)
    | DoMount(path: string, i: nat, ident: nat)

  /** vfs_link meets no two mountpoints. */
  ghost predicate SameMounts(s: State, source: string, target: string) {
    match LinkEnds(s, source, target)
    case None => true
    case Some((i, d)) => i in s.inodes && d in s.inodes && s.inodes[i].mount == s.inodes[d].mount
  }

  /** An empty root has no parent to be erased from. */
  ghost predicate NotEmptyRoot(s: State, path: string) {
    Lookup(s, path) == Some(ROOT) ==> HasInode(s, ROOT) && s.inodes[s.tnodes[ROOT].inode].kids != []
  }

  /** New memory is new, and the components of paths fit tmpbuff. Links stay within a mount. An empty root is
      not unlinked, and the erase in the folder's child vector stays inside its block. Reads and writes are
      those that ramfs can serve. Only a folder with a single reference is mounted over. */
  ghost predicate Enabled(s: State, step: Step) {
    match step
    case DoCreate(path, _, a) => IsFresh(s, a) && PathFits(s, path)
    case DoLink(source, target, a) =>
      IsFresh(s, a) && SameMounts(s, source, target) && PathFits(s, source) && PathFits(s, target)
    case DoUnlink(path) => NotEmptyRoot(s, path) && UnlinkFits(s, path) && PathFits(s, path)
    case DoOpen(_, path, _, d) => d !in s.descs && PathFits(s, path)
    case DoClose(_, _) => true
    case DoWrite(task, handle, bytes, _) => CanWrite(s, task, handle, |bytes|)
    case DoRead(task, handle, len) => CanRead(s, task, handle, len)
    case DoSeek(_, _, pos) => pos < RamFile.WORD
    case DoMount(path, i, ident) =>
      && MountFresh(s, path, i, ident) && PathFits(s, path)
      && (MountAt(s, path).Some? ==>
            HasInode(s, MountAt(s, path).value) && s.inodes[s.tnodes[MountAt(s, path).value].inode].refs == 1)
  }

  ghost function Next(s: State, step: Step): State
    requires Enabled(s, step)
  {
    match step
    case DoCreate(path, kind, a) => Create(s, path, kind, a)
    case DoLink(source, target, a) => Link(s, source, target, a)
    case DoUnlink(path) => Unlink(s, path)
    case DoOpen(task, path, mode, d) => Open(s, task, path, mode, d)
    case DoClose(task, handle) => Close(s, task, handle)
    case DoWrite(task, handle, bytes, fill) => Write(s, task, handle, bytes, fill)
    case DoRead(task, handle, len) => Read(s, task, handle, len).0
    case DoSeek(task, handle, pos) => Seek(s, task, handle, pos)
    case DoMount(path, i, ident) => Mount(s, path, i, ident)
  }

  lemma StepKeepsInv(s: State, step: Step)
    requires Inv(s) && Enabled(s, step)
    ensures Inv(Next(s, step))
  {
    hide Inv, PathFits, Create, Link, Unlink, Open, Close, Write, Read, Seek, Mount, LinkEnds, CanWrite, CanRead,
         MountFresh, Lookup, IsFresh;
    match step
    case DoCreate(path, kind, a) => CreateKeepsInv(s, path, kind, a);
    case DoLink(source, target, a) => LinkKeepsInvExactly(s, source, target, a);
    case DoUnlink(path) => UnlinkKeepsInv(s, path);
    case DoOpen(task, path, mode, d) => OpenKeepsInv(s, task, path, mode, d);
    case DoClose(task, handle) => CloseKeepsInv(s, task, handle);
    case DoWrite(task, handle, bytes, fill) => WriteKeepsInv(s, task, handle, bytes, fill);
    case DoRead(task, handle, len) => ReadKeepsInv(s, task, handle, len);
    case DoSeek(task, handle, pos) => SeekKeepsInv(s, task, handle, pos);
    case DoMount(path, i, ident) =>
      if MountAt(s, path).Some? {
        MountKeepsInv(s, path, i, ident);
      } else {
        NoMount(s, path, i, ident);
      }
  }

  lemma NoMount(s: State, path: string, i: nat, ident: nat)
    requires MountAt(s, path).None?
    ensures Mount(s, path, i, ident) == s
  {
  }

  ghost predicate Follows(s: State, step: Step, n: State) {
    Enabled(s, step) && n == Next(s, step)
  }

  /** Where the step is enabled, it leads from s to n. */
  ghost predicate IsStep(s: State, step: Step, n: State) {
    Enabled(s, step) ==> Follows(s, step, n)
  }

  /** A run from the state after vfs_init. */
  ghost predicate IsRun(run: seq<State>, steps: seq<Step>, inode: nat, ident: nat) {
    && |run| == |steps| + 1 && run[0] == Boot(inode, ident)
    && forall i :: 0 <= i < |steps| ==> Follows(run[i], steps[i], run[i + 1])
  }

  /** A state that some run ends in. */
  ghost predicate Reachable(s: State, inode: nat, ident: nat) {
    exists run, steps :: IsRun(run, steps, inode, ident) && run[|steps|] == s
  }

  lemma BootReachable(inode: nat, ident: nat)
    ensures Reachable(Boot(inode, ident), inode, ident)
  {
    assert IsRun([Boot(inode, ident)], [], inode, ident);
  }

  lemma NextReachable(s: State, step: Step, inode: nat, ident: nat)
    requires Reachable(s, inode, ident) && Enabled(s, step)
    ensures Reachable(Next(s, step), inode, ident) && Inv(Next(s, step))
  {
    hide Enabled, Next, Inv, Boot;
    var run, steps :| IsRun(run, steps, inode, ident) && run[|steps|] == s;
    var longer, more := run + [Next(s, step)], steps + [step];
    forall i | 0 <= i < |more|
      ensures Follows(longer[i], more[i], longer[i + 1])
    {
      if i < |steps| {
        assert Follows(run[i], steps[i], run[i + 1]);
      }
    }
    assert IsRun(longer, more, inode, ident);
    RunKeepsInv(longer, more, inode, ident, |more|);
  }

  lemma BootInv(inode: nat, ident: nat)
    ensures Inv(Boot(inode, ident)) && FoldersOnce(Boot(inode, ident))
  {
    var s := Boot(inode, ident);
    assert Links(s, inode) == {ROOT} && Opens(s, inode) == {};
  }

  lemma {:induction false} RunKeepsInv(run: seq<State>, steps: seq<Step>, inode: nat, ident: nat, i: nat)
    requires IsRun(run, steps, inode, ident) && i < |run|
    ensures Inv(run[i])
  {
    hide Inv, Next, Enabled, Boot;
    if i == 0 {
      BootInv(inode, ident);
    } else {
      RunKeepsInv(run, steps, inode, ident, i - 1);
      assert Follows(run[i - 1], steps[i - 1], run[i]);
      StepKeepsInv(run[i - 1], steps[i - 1]);
    }
  }

  /** In every state of every run the count of an inode is the number of its names and of the
      descriptors open on it; so whatever has a name or is open is there, with its data. */
  lemma CountsAreExact(run: seq<State>, steps: seq<Step>, inode: nat, ident: nat, k: nat, i: nat, t: nat, d: nat)
    requires IsRun(run, steps, inode, ident) && k < |run|
    ensures var s := run[k];
            && (i in s.inodes ==> s.inodes[i].refs == |Links(s, i)| + |Opens(s, i)|)
            && (t in s.tnodes ==> s.tnodes[t].inode in s.inodes && s.inodes[s.tnodes[t].inode].ident in s.idents)
            && (d in s.descs ==> s.descs[d].inode in s.inodes && s.inodes[s.descs[d].inode].ident in s.idents)
  {
    hide Inv, IsRun;
    RunKeepsInv(run, steps, inode, ident, k);
    var s := run[k];
    NodeFacts(s, t, i);
    if t in s.tnodes {
      NodeFacts(s, t, s.tnodes[t].inode);
    }
    if d in s.descs {
      DescFacts(s, d);
      NodeFacts(s, ROOT, s.descs[d].inode);
    }
  }

  /** In every state of every run, two entries of a folder have different names. */
  lemma SiblingsAreUnique(run: seq<State>, steps: seq<Step>, inode: nat, ident: nat, k: nat, i: nat, a: nat, b: nat)
    requires IsRun(run, steps, inode, ident) && k < |run| && i in run[k].inodes
    requires a < |run[k].inodes[i].kids| && b < |run[k].inodes[i].kids| && a != b
    ensures var s, kids := run[k], run[k].inodes[i].kids;
            && kids[a] in s.tnodes && kids[b] in s.tnodes && kids[a] != kids[b]
            && s.tnodes[kids[a]].name != s.tnodes[kids[b]].name
  {
    hide Inv, IsRun;
    RunKeepsInv(run, steps, inode, ident, k);
    KidFacts(run[k], i, a, b);
  }

  /** An unlink takes its name away and counts one reference less. Where that was the last reference, which
      means that the node has no other name and is not open, the inode and its data go; otherwise they stay.
      Nothing else changes but the list of the folder. */
  lemma UnlinkFreesTheUnused(s: State, path: string, t: nat)
    requires Inv(s) && Lookup(s, path) == Some(t) && t != ROOT && UnlinkFits(s, path)
    requires HasInode(s, t) && s.inodes[s.tnodes[t].inode].kids == []
    ensures var n, i := Unlink(s, path), s.tnodes[t].inode;
            && n.tnodes == s.tnodes - {t} && n.descs == s.descs && n.files == s.files
            && (i !in n.inodes <==> Links(s, i) == {t} && Opens(s, i) == {})
            && (s.inodes[i].ident !in n.idents <==> i !in n.inodes)
            && (i in n.inodes ==> n.inodes[i] == s.inodes[i].(refs := s.inodes[i].refs - 1))
            && (forall j <- s.inodes | j != i :: j in n.inodes
                  && n.inodes[j] == if s.tnodes[t].parent == Some(j) then s.inodes[j].(kids := n.inodes[j].kids)
                                    else s.inodes[j])
            && (forall x <- s.idents :: x != s.inodes[i].ident ==> x in n.idents)
            && (forall x <- n.idents :: x in s.idents && n.idents[x] == s.idents[x])
  {
    RemovableExactly(s, path, t);
    RemovableFacts(s, path);
    hide Inv, Lookup, Removable;
    var i := s.tnodes[t].inode;
    DropKeepsNode(s, t);
    NodeFacts(s, t, i);
    ParentOther(s, t);
    assert t in Links(s, i);
    var rest := Links(s, i) - {t};
    assert |rest| == |Links(s, i)| - 1;
    assert Links(s, i) == {t} <==> rest == {};
    hide Links, Opens, EraseSafe;
  }

  /** A node without entries is not the folder of its name. */
  lemma ParentOther(s: State, t: nat)
    requires Inv(s) && t in s.tnodes && t != ROOT && HasInode(s, t) && s.inodes[s.tnodes[t].inode].kids == []
    ensures s.tnodes[t].parent.Some? && s.tnodes[t].parent.value in s.inodes
    ensures s.tnodes[t].parent.value != s.tnodes[t].inode
  {
    NodeFacts(s, t, ROOT);
    hide Inv;
  }

  // ----- Trees -----

  /** A step that links no folder. */
  ghost predicate LinksNoFolder(s: State, step: Step) {
    step.DoLink? ==>
      match LinkEnds(s, step.source, step.target)
      case None => true
      case Some((i, _)) => i in s.inodes && s.inodes[i].kind !in {FOLDER, MOUNTPOINT}
  }

  lemma SameTnodesFoldersOnce(s: State, n: State)
    requires FoldersOnce(s) && n.tnodes.Keys <= s.tnodes.Keys
    requires forall t <- n.tnodes :: n.tnodes[t] == s.tnodes[t]
    requires forall t <- n.tnodes :: Traversable(n, t) ==> Traversable(s, t)
    ensures FoldersOnce(n)
  {
  }

  lemma AddedFoldersOnce(s: State, n: State, t: nat, i: nat)
    requires FoldersOnce(s) && t in n.tnodes && n.tnodes[t].inode == i && n.tnodes.Keys == s.tnodes.Keys + {t}
    requires forall u <- s.tnodes | u != t :: n.tnodes[u] == s.tnodes[u]
    requires forall u <- s.tnodes | u != t :: Traversable(n, u) ==> Traversable(s, u)
    requires Traversable(n, t) ==> forall u <- s.tnodes | u != t :: s.tnodes[u].inode != i
    ensures FoldersOnce(n)
  {
    forall u, v | u in n.tnodes && v in n.tnodes && Traversable(n, u) && n.tnodes[u].inode == n.tnodes[v].inode
      ensures u == v
    {
      assert Traversable(n, v);
    }
  }

  lemma StepKeepsFoldersOnce(s: State, step: Step)
    requires Inv(s) && Enabled(s, step) && FoldersOnce(s) && LinksNoFolder(s, step)
    ensures FoldersOnce(Next(s, step))
  {
    hide Inv, PathFits, FoldersOnce, Lookup, Home, NewName, IsFresh, CanRead, CanWrite, Fd, Link, Unlink, Create, Mount;
    var n := Next(s, step);
    match step
    case DoCreate(path, kind, a) => CreateFoldersOnce(s, path, kind, a);
    case DoLink(source, target, a) => LinkFoldersOnce(s, source, target, a);
    case DoUnlink(path) => UnlinkFoldersOnce(s, path);
    case DoMount(path, i, ident) => MountFoldersOnce(s, path, i, ident);
    case DoOpen(task, path, mode, d) => SameTnodesFoldersOnce(s, n);
    case DoClose(task, handle) => SameTnodesFoldersOnce(s, n);
    case DoWrite(task, handle, bytes, fill) => SameTnodesFoldersOnce(s, n);
    case DoRead(task, handle, len) => SameTnodesFoldersOnce(s, n);
    case DoSeek(task, handle, pos) => SameTnodesFoldersOnce(s, n);
  }

  lemma LinkFoldersOnce(s: State, source: string, target: string, a: Fresh)
    requires Inv(s) && FoldersOnce(s) && IsFresh(s, a) && SameMounts(s, source, target)
    requires LinksNoFolder(s, DoLink(source, target, a))
    ensures FoldersOnce(Link(s, source, target, a))
  {
    hide Inv, FoldersOnce, Lookup, Home, NewName;
    if LinkEnds(s, source, target).Some? {
      AddedFoldersOnce(s, Link(s, source, target, a), a.tnode, LinkEnds(s, source, target).value.0);
    }
  }

  lemma UnlinkFoldersOnce(s: State, path: string)
    requires Inv(s) && FoldersOnce(s)
    ensures FoldersOnce(Unlink(s, path))
  {
    hide Inv, FoldersOnce, Lookup, Removable;
    forall u <- s.tnodes
      ensures HasInode(s, u)
    {
      NodeFacts(s, u, ROOT);
    }
    if Removable(s, path).Some? {
      RemovableFacts(s, path);
      SameTnodesFoldersOnce(s, Unlink(s, path));
    }
  }

  lemma CreateFoldersOnce(s: State, path: string, kind: Kind, a: Fresh)
    requires Inv(s) && IsFresh(s, a) && FoldersOnce(s)
    ensures FoldersOnce(Create(s, path, kind, a))
  {
    hide Inv, FoldersOnce, Home, NewName;
    forall u <- s.tnodes
      ensures HasInode(s, u)
    {
      NodeFacts(s, u, ROOT);
    }
    if Home(s, path).Some? {
      HomeFacts(s, path);
      AddedFoldersOnce(s, Create(s, path, kind, a), a.tnode, a.inode);
    }
  }

  lemma MountFoldersOnce(s: State, path: string, i: nat, ident: nat)
    requires Inv(s) && Enabled(s, DoMount(path, i, ident)) && FoldersOnce(s)
    ensures FoldersOnce(Mount(s, path, i, ident))
  {
    hide Inv, FoldersOnce, Lookup;
    forall u <- s.tnodes
      ensures HasInode(s, u)
    {
      NodeFacts(s, u, ROOT);
    }
    if MountAt(s, path).Some? {
      MountFacts(s, path);
      SoleLink(s, MountAt(s, path).value);
      AddedFoldersOnce(s, Mount(s, path, i, ident), MountAt(s, path).value, i);
    }
  }

  lemma {:induction false} RunKeepsFoldersOnce(run: seq<State>, steps: seq<Step>, inode: nat, ident: nat, i: nat)
    requires IsRun(run, steps, inode, ident) && i < |run|
    requires forall j :: 0 <= j < |steps| ==> LinksNoFolder(run[j], steps[j])
    ensures FoldersOnce(run[i])
  {
    hide Inv, Next, Enabled, Boot, FoldersOnce, LinksNoFolder;
    if i == 0 {
      BootInv(inode, ident);
    } else {
      RunKeepsFoldersOnce(run, steps, inode, ident, i - 1);
      RunKeepsInv(run, steps, inode, ident, i - 1);
      assert Follows(run[i - 1], steps[i - 1], run[i]);
      StepKeepsFoldersOnce(run[i - 1], steps[i - 1]);
    }
  }

  /** While only nodes other than folders are linked, vfs_unlink takes away one path and no other. */
  lemma UnlinkTakesOnePath(
    run: seq<State>, steps: seq<Step>, inode: nat, ident: nat, i: nat, path: string, t: nat, toks: seq<string>)
    requires IsRun(run, steps, inode, ident) && i < |run|
    requires Lookup(run[i], path) == Some(t) && t != ROOT && UnlinkFits(run[i], path)
    requires HasInode(run[i], t) && run[i].inodes[run[i].tnodes[t].inode].kids == []
    requires forall j :: 0 <= j < |steps| ==> LinksNoFolder(run[j], steps[j])
    requires PrefixesResolve(run[i], ROOT, Tokens(path[1..])) && path[1..] != ""
    ensures var s, n, p := run[i], Unlink(run[i], path), Tokens(path[1..]);
            && Resolve(s, ROOT, p) == Some(t) && Resolve(n, ROOT, p) == None
            && (|toks| != |p| || (exists k :: 0 <= k < |p| && Cut(toks[k]) != Cut(p[k])) ==>
                  Resolve(n, ROOT, toks) == Resolve(s, ROOT, toks))
  {
    hide Inv, IsRun, FoldersOnce, Resolve, Scan, Unlink, Tokens;
    var s, p := run[i], Tokens(path[1..]);
    RunKeepsInv(run, steps, inode, ident, i);
    RunKeepsFoldersOnce(run, steps, inode, ident, i);
    ScanIsResolve(s, ROOT, true, p);
    UnlinkResolves(s, path, t, p);
    UnlinkResolves(s, path, t, toks);
    if Resolve(s, ROOT, toks) == Some(t) {
      PathsAreUnique(s, toks, p);
    }
  }
}
