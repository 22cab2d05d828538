/** The calls of the virtual file system keep the invariant, over all runs, and do to paths what they say. */
module VfsCalls {
  import opened Common
  import opened Paths
  import opened VfsModel
  import opened VfsInv
  import opened VfsPaths
  import RamFile
  import Vector

  // ----- Where path_to_node ends up -----

  lemma {:induction false} ScanExists(s: State, t: nat, found: bool, toks: seq<string>)
    requires Inv(s) && t in s.tnodes
    ensures Scan(s, t, found, toks).node in s.tnodes
    decreases |toks|
  {
    hide Inv;
    if toks != [] && Traversable(s, t) {
      match Child(s, t, toks[0])
      case None => ScanExists(s, t, false, toks[1..]);
      case Some(c) => ScanExists(s, c, true, toks[1..]);
    }
  }

  /** When nothing was found in a folder, the folder has no entry with the last name. */
  lemma {:induction false} ScanMissing(s: State, t: nat, found: bool, toks: seq<string>)
    requires toks != [] && !Scan(s, t, found, toks).found && Traversable(s, Scan(s, t, found, toks).node)
    ensures Child(s, Scan(s, t, found, toks).node, toks[|toks| - 1]) == None
    decreases |toks|
  {
    if |toks| > 1 && Traversable(s, t) {
      match Child(s, t, toks[0])
      case None => ScanMissing(s, t, false, toks[1..]);
      case Some(c) => ScanMissing(s, c, true, toks[1..]);
    }
  }

  /** The folder for a new node can take its name. */
  lemma HomeFacts(s: State, path: string)
    requires Inv(s) && Home(s, path).Some?
    ensures var dir := Home(s, path).value;
            && dir in s.tnodes && Traversable(s, dir)
            && IsName(NewName(path)) && |NewName(path)| <= NAME_LEN
            && forall k <- s.inodes[s.tnodes[dir].inode].kids :: k in s.tnodes ==> s.tnodes[k].name != NewName(path)
  {
    hide Inv, Scan, Tokens;
    var toks := Tokens(path[1..]);
    var dir := Home(s, path).value;
    RootResolves(s);
    ScanExists(s, ROOT, true, toks);
    LastToken(path[1..]);
    TokensHaveNoSlash(path[1..], |toks| - 1);
    ScanMissing(s, ROOT, true, toks);
    assert NewName(path) == Cut(toks[|toks| - 1]);
  }

  lemma LookupExists(s: State, path: string)
    requires Inv(s) && Lookup(s, path).Some?
    ensures Lookup(s, path).value in s.tnodes && HasInode(s, Lookup(s, path).value)
  {
    hide Inv, Scan, Tokens;
    RootResolves(s);
    ScanExists(s, ROOT, true, Tokens(path[1..]));
    NodeFacts(s, Lookup(s, path).value, ROOT);
  }

  /** Where the folders of a path exist, path_to_node finds what the path means. */
  lemma LookupIsResolve(s: State, path: string)
    requires IsAbsolute(path) && PrefixesResolve(s, ROOT, Tokens(path[1..]))
    ensures Lookup(s, path) == Resolve(s, ROOT, Tokens(path[1..]))
  {
    hide Tokens;
    if Tokens(path[1..]) != [] {
      ScanIsResolve(s, ROOT, true, Tokens(path[1..]));
    }
  }

  /** Other paths find nothing and make nothing. */
  lemma OnlyAbsolute(s: State, path: string)
    ensures !IsAbsolute(path) ==> Lookup(s, path) == None && Home(s, path) == None
  {
  }

  /** For every path: path_to_node finds what the components mean that it does not pass over. */
  lemma LookupIsKept(s: State, path: string)
    requires IsAbsolute(path)
    ensures Lookup(s, path) == Resolve(s, ROOT, Kept(s, ROOT, Tokens(path[1..])))
  {
    hide Tokens;
    if Tokens(path[1..]) != [] {
      ScanIsKept(s, ROOT, true, Tokens(path[1..]));
    }
  }

  /** So it finds what the path means exactly when it passes over nothing, or what is left means nothing. */
  lemma LookupIsResolveExactly(s: State, path: string)
    requires IsAbsolute(path)
    ensures var toks := Tokens(path[1..]);
            var kept := Kept(s, ROOT, toks);
            Lookup(s, path) == Resolve(s, ROOT, toks) <==> kept == toks || Resolve(s, ROOT, kept) == None
  {
    hide Tokens, Resolve, Kept, Lookup;
    LookupIsKept(s, path);
    if Kept(s, ROOT, Tokens(path[1..])) != Tokens(path[1..]) {
      DroppedMeansMissing(s, ROOT, Tokens(path[1..]));
    }
  }

  /** The folder in which a path asks for a new node: what it names without its last component, if that is
      a folder without such an entry, and the path does not end in a slash. */
  function HomeOf(s: State, toks: seq<string>, named: bool): Option<nat> {
    if toks == [] || !named || Resolve(s, ROOT, toks).Some? then None
    else FolderOf(s, ROOT, toks[..|toks| - 1])
  }

  /** For every path: the new node goes where the components ask for it that are not passed over, under the
      last name of the path. */
  lemma HomeIsKept(s: State, path: string)
    requires IsAbsolute(path)
    ensures var toks := Tokens(path[1..]);
            && Home(s, path) == HomeOf(s, Kept(s, ROOT, toks), EndsInName(path[1..]))
            && (toks != [] ==> NewName(path) == Cut(toks[|toks| - 1]))
  {
    hide Tokens, Resolve, Kept, Scan, FolderOf, Traversable;
    var toks := Tokens(path[1..]);
    if toks != [] {
      ScanIsKept(s, ROOT, true, toks);
      if !Scan(s, ROOT, true, toks).found {
        ScanEndsInFolder(s, ROOT, true, toks);
      }
    } else {
      NothingToScan(s);
    }
  }

  lemma NothingToScan(s: State)
    ensures Scan(s, ROOT, true, []) == Scanned(ROOT, true) && Kept(s, ROOT, []) == []
  {
  }

  /** So a new node goes where the path asks for it exactly when nothing is passed over, or none is made. */
  lemma HomeIsRightExactly(s: State, path: string)
    requires IsAbsolute(path)
    ensures var toks := Tokens(path[1..]);
            Home(s, path) == HomeOf(s, toks, EndsInName(path[1..])) <==>
            Kept(s, ROOT, toks) == toks || Home(s, path) == None
  {
    hide Tokens, Resolve, Kept, Home;
    HomeIsKept(s, path);
    if Kept(s, ROOT, Tokens(path[1..])) != Tokens(path[1..]) {
      DroppedMeansMissing(s, ROOT, Tokens(path[1..]));
    }
  }

  /** Where they do not, it may find something else: with nothing but a file "a" in the root, "/x/a" finds
      that file. */
  lemma MissingFolderIsIgnored(inode: nat, ident: nat, a: Fresh)
    requires IsFresh(Boot(inode, ident), a)
    ensures var s := Create(Boot(inode, ident), "/a", FILE, a);
            && Lookup(s, "/a") == Some(a.tnode) && Lookup(s, "/x/a") == Some(a.tnode)
            && Resolve(s, ROOT, ["x"]) == None && Resolve(s, ROOT, ["x", "a"]) == None
  {
    hide Tokens;
    var b := Boot(inode, ident);
    TokensOfJoin(["a"]);
    TokensOfJoin(["x", "a"]);
    assert Join(["a"]) == "/a" && Join(["x", "a"]) == "/x/a" by {
      assert ["a"][1..] == [] && ["x", "a"][1..] == ["a"];
      assert Join([]) == "" && Join(["a"]) == "/" + "a" + "";
    }
    assert Scan(b, ROOT, true, ["a"]) == Scan(b, ROOT, false, []) == Scanned(ROOT, false) by {
      assert ["a"][1..] == [];
    }
    var s := Create(b, "/a", FILE, a);
    assert Home(b, "/a") == Some(ROOT) && NewName("/a") == "a";
    assert s == MakeNode(b, ROOT, "a", FILE, a);
    assert s.inodes[inode].kids == [a.tnode] && s.tnodes[ROOT].inode == inode;
    assert Child(s, ROOT, "a") == Some(a.tnode) && Child(s, ROOT, "x") == None by {
      assert [a.tnode][1..] == [];
      assert FindKid(s, [], "x") == None;
    }
    assert ["x", "a"][1..] == ["a"] && ["a"][1..] == [];
    assert Scan(s, ROOT, true, ["a"]) == Scan(s, a.tnode, true, []) == Scanned(a.tnode, true);
    ScanIgnoresFlag(s, ROOT, ["a"], true, false);
    assert Scan(s, ROOT, true, ["x", "a"]) == Scan(s, ROOT, false, ["a"]);
  }

  // ----- vfs_create -----

  /** The new inode before it has its name. */
  function Bare(s: State, dir: nat, kind: Kind, a: Fresh): State
    requires HasInode(s, dir)
  {
    AddInode(s, a.inode, kind, s.inodes[s.tnodes[dir].inode].mount, a.ident)
  }

  lemma MakeNodeKeepsInv(s: State, dir: nat, name: string, kind: Kind, a: Fresh)
    requires Inv(s) && IsFresh(s, a) && Traversable(s, dir) && IsName(name) && |name| <= NAME_LEN
    requires forall k <- s.inodes[s.tnodes[dir].inode].kids :: k in s.tnodes ==> s.tnodes[k].name != name
    ensures Inv(MakeNode(s, dir, name, kind, a)) && Inv(Bare(s, dir, kind, a))
    ensures CanName(Bare(s, dir, kind, a), a.inode, s.tnodes[dir].inode, name, a.tnode)
  {
    hide Inv, AddName;
    var d := s.tnodes[dir].inode;
    AddInodeKeepsInv(s, a.inode, kind, s.inodes[d].mount, a.ident);
    AddNameKeepsInv(Bare(s, dir, kind, a), a.inode, d, name, a.tnode);
  }

  lemma CreateKeepsInv(s: State, path: string, kind: Kind, a: Fresh)
    requires Inv(s) && IsFresh(s, a)
    ensures Inv(Create(s, path, kind, a))
  {
    hide Inv, Home, NewName, MakeNode, Traversable;
    if Home(s, path).Some? {
      HomeFacts(s, path);
      MakeNodeKeepsInv(s, Home(s, path).value, NewName(path), kind, a);
    }
  }

  /** Where a path can be created: its folders exist, it names nothing yet, and it does not end in a slash. */
  ghost predicate Creatable(s: State, path: string) {
    && IsAbsolute(path) && EndsInName(path[1..])
    && var toks := Tokens(path[1..]);
       && toks != [] && PrefixesResolve(s, ROOT, toks) && Resolve(s, ROOT, toks) == None
       && Traversable(s, Resolve(s, ROOT, toks[..|toks| - 1]).value)
  }

  lemma CreatableHome(s: State, path: string)
    requires Creatable(s, path)
    ensures Home(s, path).Some? && Home(s, path) == Resolve(s, ROOT, Tokens(path[1..])[..|Tokens(path[1..])| - 1])
  {
    hide Scan, Resolve, Tokens;
    var toks := Tokens(path[1..]);
    ScanIsResolve(s, ROOT, true, toks);
    assert Resolve(s, ROOT, toks[..|toks| - 1]).Some?;
  }

  /** After vfs_create the path leads to the new node, which is empty, and every path that does not name
      the new entry leads where it led before. */
  lemma CreateResolves(s: State, path: string, kind: Kind, a: Fresh, toks: seq<string>)
    requires Inv(s) && IsFresh(s, a) && Creatable(s, path)
    ensures Home(s, path).Some? && HasInode(s, Home(s, path).value)
    ensures var n, d := Create(s, path, kind, a), s.tnodes[Home(s, path).value].inode;
            && Resolve(n, ROOT, toks) ==
               (if NamesEntry(s, ROOT, toks, d, NewName(path)) then Some(a.tnode) else Resolve(s, ROOT, toks))
            && NamesEntry(s, ROOT, Tokens(path[1..]), d, NewName(path))
            && HasInode(n, a.tnode) && n.tnodes[a.tnode].inode == a.inode
            && n.inodes[a.inode] == Inode(kind, 0, 1, s.inodes[d].mount, [], a.ident, 0) && n.idents[a.ident] == []
  {
    hide Inv, Home, Resolve, Tokens, Traversable;
    CreatableHome(s, path);
    HomeFacts(s, path);
    var dir := Home(s, path).value;
    NodeFacts(s, dir, ROOT);
    MakeNodeKeepsInv(s, dir, NewName(path), kind, a);
    RootResolves(s);
    var b, d := Bare(s, dir, kind, a), s.tnodes[dir].inode;
    AddNameResolve(b, a.inode, d, NewName(path), a.tnode, ROOT, toks);
    BareResolves(s, dir, kind, a, toks);
    if toks != [] {
      BareResolves(s, dir, kind, a, toks[..|toks| - 1]);
      ResolveExists(s, ROOT, toks[..|toks| - 1]);
      if Resolve(s, ROOT, toks[..|toks| - 1]).Some? {
        NodeFacts(s, Resolve(s, ROOT, toks[..|toks| - 1]).value, ROOT);
      }
    }
  }

  lemma BareResolves(s: State, dir: nat, kind: Kind, a: Fresh, toks: seq<string>)
    requires Inv(s) && IsFresh(s, a) && HasInode(s, dir)
    ensures Resolve(Bare(s, dir, kind, a), ROOT, toks) == Resolve(s, ROOT, toks)
  {
    hide Inv, Resolve;
    RootResolves(s);
    ResolveSame(s, Bare(s, dir, kind, a), ROOT, toks);
  }

  // ----- vfs_link -----

  lemma LinkKeepsInvExactly(s: State, source: string, target: string, a: Fresh)
    requires Inv(s) && IsFresh(s, a)
    ensures Inv(Link(s, source, target, a)) <==>
            var ends := LinkEnds(s, source, target);
            ends.None? || (ends.value.0 in s.inodes && ends.value.1 in s.inodes
                           && s.inodes[ends.value.0].mount == s.inodes[ends.value.1].mount)
  {
    hide Inv, Home, Lookup, NewName, AddName;
    if LinkEnds(s, source, target).Some? {
      HomeFacts(s, target);
      LookupExists(s, source);
      var dir := Home(s, target).value;
      var i, d := s.tnodes[Lookup(s, source).value].inode, s.tnodes[dir].inode;
      if s.inodes[i].mount == s.inodes[d].mount {
        AddNameKeepsInv(s, i, d, NewName(target), a.tnode);
      } else {
        MakeNodeKeepsInv(s, dir, NewName(target), s.inodes[i].kind, a);
        LeftBehind(Bare(s, dir, s.inodes[i].kind, a), a.inode, d, NewName(target), a.tnode);
      }
    }
  }

  /** Freeing a tnode that a folder still lists breaks the folder. */
  lemma LeftBehind(s: State, i: nat, d: nat, name: string, t: nat)
    requires i in s.inodes && d in s.inodes
    ensures var n := AddName(s, i, d, name, t); !Inv(n.(tnodes := n.tnodes - {t}))
  {
    var n := AddName(s, i, d, name, t);
    var last := |s.inodes[d].kids|;
    assert n.inodes[d].kids[last] == t;
    assert !KidsOk(n.(tnodes := n.tnodes - {t}), d, last, last);
  }

  /** path_to_node finds inode i at the old path; the new path can be created in the folder d, and both are in
      the same mount. */
  ghost predicate Linkable(s: State, source: string, target: string, i: nat, d: nat) {
    && Creatable(s, target)
    && var t, toks := Lookup(s, source), Tokens(target[1..]);
       var dir := Resolve(s, ROOT, toks[..|toks| - 1]);
       && t.Some? && HasInode(s, t.value) && s.tnodes[t.value].inode == i
       && dir.Some? && HasInode(s, dir.value) && s.tnodes[dir.value].inode == d
       && s.inodes[i].mount == s.inodes[d].mount
  }

  lemma LinkEndsAre(s: State, source: string, target: string, i: nat, d: nat)
    requires Linkable(s, source, target, i, d)
    ensures LinkEnds(s, source, target) == Some((i, d)) && Home(s, target).Some? && Lookup(s, source).Some?
    ensures i in s.inodes && d in s.inodes && s.inodes[i].mount == s.inodes[d].mount
  {
    CreatableHome(s, target);
    hide Home, Lookup, Resolve, Tokens, Creatable;
  }

  /** What changes is one reference more to the inode and one entry more in the folder. */
  lemma LinkFrame(s: State, source: string, target: string, a: Fresh, i: nat, d: nat)
    requires IsFresh(s, a) && Linkable(s, source, target, i, d)
    ensures var n := Link(s, source, target, a);
            && n.idents == s.idents && n.descs == s.descs && n.files == s.files && n.inodes.Keys == s.inodes.Keys
            && n.tnodes == s.tnodes[a.tnode := Tnode(NewName(target), i, Some(d))]
            && forall j <- s.inodes ::
                 n.inodes[j] == s.inodes[j].(
                   refs := if j == i then s.inodes[j].refs + 1 else s.inodes[j].refs,
                   kids := if j == d then s.inodes[j].kids + [a.tnode] else s.inodes[j].kids,
                   alloc := n.inodes[j].alloc)
  {
    LinkEndsAre(s, source, target, i, d);
    hide Home, Lookup, Resolve, Tokens, Creatable, NewName;
  }

  /** Nothing to link, or no place for the new name: nothing changes. */
  lemma LinkRefused(s: State, source: string, target: string, a: Fresh)
    requires Lookup(s, source).None? || Home(s, target).None?
    ensures Link(s, source, target, a) == s
  {
    hide Home, Lookup;
  }

  /** After vfs_link of any node, also a folder: a path to the new entry leads to the new name, and any path
      on from there leads where it leads from the old name; all paths that avoid the entry lead where they
      led before. */
  lemma LinkLeadsOn(
    s: State, source: string, target: string, a: Fresh, i: nat, d: nat, toks: seq<string>, rest: seq<string>)
    requires Inv(s) && IsFresh(s, a) && Linkable(s, source, target, i, d)
    ensures Lookup(s, source).Some?
    ensures var n := Link(s, source, target, a);
            && (NamesEntry(s, ROOT, toks, d, NewName(target)) ==>
                  Resolve(n, ROOT, toks + rest) ==
                  if rest == [] then Some(a.tnode) else Resolve(n, Lookup(s, source).value, rest))
            && (Avoids(s, ROOT, toks, d, NewName(target)) ==> Resolve(n, ROOT, toks) == Resolve(s, ROOT, toks))
            && NamesEntry(s, ROOT, Tokens(target[1..]), d, NewName(target))
  {
    hide Inv, Home, Lookup, Resolve, Tokens;
    CreatableHome(s, target);
    LinkEndsAre(s, source, target, i, d);
    HomeFacts(s, target);
    LookupExists(s, source);
    RootResolves(s);
    var n := Link(s, source, target, a);
    hide Creatable, Avoids, NamesEntry;
    if Avoids(s, ROOT, toks, d, NewName(target)) {
      AvoidingResolves(s, i, d, NewName(target), a.tnode, ROOT, toks);
    }
    if NamesEntry(s, ROOT, toks, d, NewName(target)) {
      NewEntryResolves(s, i, d, NewName(target), a.tnode, ROOT, toks);
      ResolveThrough(n, ROOT, toks, rest);
      if rest != [] {
        SameFolderSamePaths(n, a.tnode, Lookup(s, source).value, rest);
      } else {
        assert toks + rest == toks;
      }
    }
  }

  /** After vfs_link of a file the new path leads to the same inode, and all paths that do not name the new entry
      lead where they led before. */
  lemma LinkResolves(s: State, source: string, target: string, a: Fresh, i: nat, d: nat, toks: seq<string>)
    requires Inv(s) && IsFresh(s, a) && Linkable(s, source, target, i, d)
    requires i in s.inodes && s.inodes[i].kind !in {FOLDER, MOUNTPOINT}
    ensures var n := Link(s, source, target, a);
            && Resolve(n, ROOT, toks) ==
               (if NamesEntry(s, ROOT, toks, d, NewName(target)) then Some(a.tnode) else Resolve(s, ROOT, toks))
            && NamesEntry(s, ROOT, Tokens(target[1..]), d, NewName(target))
            && a.tnode in n.tnodes && n.tnodes[a.tnode].inode == i
  {
    hide Inv, Home, Lookup, Resolve, Tokens;
    CreatableHome(s, target);
    LinkEndsAre(s, source, target, i, d);
    HomeFacts(s, target);
    LookupExists(s, source);
    RootResolves(s);
    NodeFacts(s, ROOT, i);
    AddNameResolve(s, i, d, NewName(target), a.tnode, ROOT, toks);
  }

  // ----- vfs_unlink -----

  lemma RemovableFacts(s: State, path: string)
    requires Inv(s) && Removable(s, path).Some?
    ensures var t := Removable(s, path).value;
            CanDrop(s, t) && HasInode(s, t) && s.inodes[s.tnodes[t].inode].kids == []
  {
    LookupExists(s, path);
    RootResolves(s);
    hide Inv, Lookup;
  }

  /** What vfs_unlink takes away: every name that path_to_node finds, but for the root's and for those of
      nodes with entries; it does not matter whether the node has other names or is open. */
  lemma RemovableExactly(s: State, path: string, t: nat)
    requires Inv(s)
    ensures Lookup(s, path) == Some(t) ==> HasInode(s, t)
    ensures Removable(s, path) == Some(t) <==>
            Lookup(s, path) == Some(t) && t != ROOT && s.inodes[s.tnodes[t].inode].kids == []
  {
    if Lookup(s, path) == Some(t) {
      LookupExists(s, path);
      RootResolves(s);
      NodeFacts(s, t, ROOT);
    }
    hide Inv, Lookup;
  }

  lemma UnlinkKeepsInv(s: State, path: string)
    requires Inv(s) && UnlinkFits(s, path)
    ensures Inv(Unlink(s, path))
  {
    hide Inv, Removable, DropName, Free, EraseSafe;
    if Removable(s, path).Some? {
      RemovableFacts(s, path);
      var t := Removable(s, path).value;
      DropNameKeepsInv(s, t);
      DropKeepsNode(s, t);
      var i := s.tnodes[t].inode;
      if DropName(s, t).inodes[i].refs == 0 {
        FreeKeepsInv(DropName(s, t), i);
        UnlinkFrees(s, path, t);
      }
    }
  }

  /** vfs_unlink keeps the invariant exactly when the copy of vec_erase, with the size that vec_erase
      computes, stays inside the block of the folder's child vector. */
  lemma UnlinkKeepsInvExactly(s: State, path: string)
    requires Inv(s)
    ensures Inv(Unlink(s, path)) <==> UnlinkFits(s, path)
  {
    if UnlinkFits(s, path) {
      UnlinkKeepsInv(s, path);
    } else {
      RemovableFacts(s, path);
      DropDefined(s, Removable(s, path).value);
      hide Nodes, Removable, EraseSafe;
    }
  }

  /** What that means for the bytes: the copy reads and writes inside the block. */
  lemma UnlinkFitsExactly(s: State, path: string, t: nat)
    requires Inv(s) && Lookup(s, path) == Some(t) && t != ROOT
    requires HasInode(s, t) && s.inodes[s.tnodes[t].inode].kids == []
    ensures && t in s.tnodes && s.tnodes[t].parent.Some? && s.tnodes[t].parent.value in s.inodes
            && var folder := s.inodes[s.tnodes[t].parent.value];
               var index := Vector.IndexOf(folder.kids, t);
               && index < |folder.kids|
               && (UnlinkFits(s, path) <==>
                     Vector.CopyInside(|folder.kids|, index, Vector.Capacity(folder.alloc)))
  {
    RemovableExactly(s, path, t);
    RemovableFacts(s, path);
    hide Inv, Removable, Lookup, Vector.CopyInside, Vector.EraseFits, Vector.Capacity;
    DropDefined(s, t);
    var folder := s.inodes[s.tnodes[t].parent.value];
    var index := Vector.IndexOf(folder.kids, t);
    assert index < |folder.kids|;
    Vector.EraseFitsExact(|folder.kids|, index, Vector.Capacity(folder.alloc));
  }

  /** In a folder of at most 273 entries every unlink is safe: its block has a whole page. */
  lemma SmallFoldersAreSafe(s: State, path: string, t: nat)
    requires Inv(s) && Lookup(s, path) == Some(t) && t != ROOT
    requires HasInode(s, t) && s.inodes[s.tnodes[t].inode].kids == []
    requires s.tnodes[t].parent.Some? && s.tnodes[t].parent.value in s.inodes ==>
               |s.inodes[s.tnodes[t].parent.value].kids| <= 273
    ensures UnlinkFits(s, path)
  {
    RemovableExactly(s, path, t);
    RemovableFacts(s, path);
    DropDefined(s, t);
    NodeFacts(s, t, s.tnodes[t].parent.value);
    hide Inv, Removable, Lookup;
    var folder := s.inodes[s.tnodes[t].parent.value];
    assert folder.alloc >= 1;
    Vector.EveryEraseFits(|folder.kids|, Vector.Capacity(folder.alloc));
  }

  lemma DropKeepsNode(s: State, t: nat)
    requires Inv(s) && CanDrop(s, t)
    ensures HasInode(s, t) && s.tnodes[t].parent.Some? && s.tnodes[t].parent.value in s.inodes
    ensures var n, i := DropName(s, t), s.tnodes[t].inode;
            && i in n.inodes && n.inodes[i].ident == s.inodes[i].ident
            && (s.inodes[i].kids == [] ==> n.inodes[i].kids == [])
            && n.inodes[i].refs == s.inodes[i].refs - 1 && n.idents == s.idents && n.descs == s.descs
  {
    DropDefined(s, t);
    hide Inv;
  }

  lemma UnlinkFrees(s: State, path: string, t: nat)
    requires Inv(s) && Removable(s, path) == Some(t) && CanDrop(s, t) && HasInode(s, t)
    requires s.tnodes[t].parent.Some? && s.tnodes[t].parent.value in s.inodes
    requires s.tnodes[t].inode in DropName(s, t).inodes && DropName(s, t).inodes[s.tnodes[t].inode].refs == 0
    requires DropName(s, t).inodes[s.tnodes[t].inode].ident == s.inodes[s.tnodes[t].inode].ident
    ensures Unlink(s, path) == Free(DropName(s, t), s.tnodes[t].inode)
  {
    hide Inv, Removable, DropName;
  }

  /** After vfs_unlink of a name of a node without entries exactly the paths that led to this name lead
      nowhere, whatever other names the node has and whether it is open or not. */
  lemma UnlinkResolves(s: State, path: string, t: nat, toks: seq<string>)
    requires Inv(s) && Lookup(s, path) == Some(t) && t != ROOT && UnlinkFits(s, path)
    requires HasInode(s, t) && s.inodes[s.tnodes[t].inode].kids == []
    ensures Resolve(Unlink(s, path), ROOT, toks) ==
            if Resolve(s, ROOT, toks) == Some(t) then None else Resolve(s, ROOT, toks)
  {
    hide Inv, Removable, DropName, Free, Resolve, EraseSafe, Lookup;
    RemovableExactly(s, path, t);
    RemovableFacts(s, path);
    RootResolves(s);
    DropNameKeepsInv(s, t);
    DropNameResolve(s, t, ROOT, toks);
    DropKeepsNode(s, t);
    var n, i := DropName(s, t), s.tnodes[t].inode;
    if n.inodes[i].refs == 0 {
      UnlinkFrees(s, path, t);
      FreeResolves(n, i, toks);
    }
  }

  lemma FreeResolves(s: State, i: nat, toks: seq<string>)
    requires Inv(s) && CanFree(s, i)
    ensures Resolve(Free(s, i), ROOT, toks) == Resolve(s, ROOT, toks)
  {
    hide Inv, Resolve;
    RootResolves(s);
    Unreferenced(s, i);
    ResolveSame(s, Free(s, i), ROOT, toks);
  }

  // ----- vfs_open, vfs_close, vfs_read, vfs_write, vfs_seek -----

  lemma OpenKeepsInv(s: State, task: TaskId, path: string, mode: Mode, d: nat)
    requires Inv(s) && d !in s.descs
    ensures Inv(Open(s, task, path, mode, d))
  {
    hide Inv, Lookup;
    if Lookup(s, path).Some? {
      var t := Lookup(s, path).value;
      LookupExists(s, path);
      AddDescKeepsInv(s, task, s.tnodes[t].inode, d, Desc(t, s.tnodes[t].inode, mode, 0));
    }
  }

  lemma FdExists(s: State, task: TaskId, handle: int)
    requires Inv(s) && Fd(s, task, handle).Some?
    ensures var d := Fd(s, task, handle).value; HasFile(s, d) && RamFile.FileOk(FileAt(s, d))
  {
    hide Inv;
    HandleFacts(s, task, handle, task, handle);
    DescFacts(s, Fd(s, task, handle).value);
    NodeFacts(s, ROOT, s.descs[Fd(s, task, handle).value].inode);
  }

  lemma CloseKeepsInv(s: State, task: TaskId, handle: int)
    requires Inv(s)
    ensures Inv(Close(s, task, handle))
  {
    hide Inv;
    if Fd(s, task, handle).Some? {
      FdExists(s, task, handle);
      DropDescKeepsInv(s, task, handle, Fd(s, task, handle).value);
    }
  }

  lemma WriteKeepsInv(s: State, task: TaskId, handle: int, bytes: seq<Byte>, fill: nat -> Byte)
    requires Inv(s) && CanWrite(s, task, handle, |bytes|)
    ensures Inv(Write(s, task, handle, bytes, fill))
  {
    hide Inv, Fd, RamFile.Write;
    if Writable(s, task, handle).Some? {
      var d := Writable(s, task, handle).value;
      FdExists(s, task, handle);
      var f := FileAt(s, d);
      if f.pos <= f.size {
        RamFile.WriteMeaning(f, bytes, fill);
      } else {
        RamFile.WriteBehindEnd(f, bytes, fill);
      }
      PutFileKeepsInv(s, d, RamFile.Write(f, bytes, fill));
    }
  }

  lemma ReadKeepsInv(s: State, task: TaskId, handle: int, len: nat)
    requires Inv(s) && CanRead(s, task, handle, len)
    ensures Inv(Read(s, task, handle, len).0)
  {
    hide Inv, Fd, RamFile.Read;
    if Readable(s, task, handle).Some? {
      var d := Readable(s, task, handle).value;
      FdExists(s, task, handle);
      RamFile.ReadMeaning(FileAt(s, d), len);
      PutFileKeepsInv(s, d, RamFile.Read(FileAt(s, d), len).0);
    }
  }

  lemma SeekKeepsInv(s: State, task: TaskId, handle: int, pos: nat)
    requires Inv(s) && pos < RamFile.WORD
    ensures Inv(Seek(s, task, handle, pos))
  {
    hide Inv, Fd;
    if Readable(s, task, handle).Some? {
      var d := Readable(s, task, handle).value;
      FdExists(s, task, handle);
      PutFileKeepsInv(s, d, FileAt(s, d).(pos := pos));
    }
  }

  // ----- vfs_mount -----

  ghost predicate MountFresh(s: State, path: string, i: nat, ident: nat) {
    && (i in s.inodes ==> MountAt(s, path).Some? && HasInode(s, MountAt(s, path).value)
                          && i == s.tnodes[MountAt(s, path).value].inode)
    && ident !in s.idents
  }

  lemma MountFacts(s: State, path: string)
    requires Inv(s) && MountAt(s, path).Some?
    ensures var t := MountAt(s, path).value;
            && HasInode(s, t) && TnodeOk(s, t) && InodeOk(s, s.tnodes[t].inode) && t in Links(s, s.tnodes[t].inode)
            && s.inodes[s.tnodes[t].inode].kids == [] && s.inodes[s.tnodes[t].inode].refs >= 1
  {
    hide Inv, Lookup;
    var t := MountAt(s, path).value;
    NodeFacts(s, t, s.tnodes[t].inode);
    assert t in Links(s, s.tnodes[t].inode);
  }

  /** A folder with one reference has that one name, and is not open. */
  lemma SoleLink(s: State, t: nat)
    requires HasInode(s, t) && InodeOk(s, s.tnodes[t].inode) && s.inodes[s.tnodes[t].inode].refs == 1
    ensures forall u <- s.tnodes :: s.tnodes[u].inode == s.tnodes[t].inode ==> u == t
    ensures forall d <- s.descs :: s.descs[d].inode != s.tnodes[t].inode
  {
    var i := s.tnodes[t].inode;
    assert t in Links(s, i);
    var rest := Links(s, i) - {t};
    assert |rest| == |Links(s, i)| - 1;
    assert rest == {} && Opens(s, i) == {};
    assert forall u <- s.tnodes :: s.tnodes[u].inode == i && u != t ==> u in rest;
    assert forall d <- s.descs :: s.descs[d].inode == i ==> d in Opens(s, i);
  }

  lemma MountNode(s: State, path: string, i: nat, ident: nat, u: nat, j: nat)
    requires Inv(s) && MountFresh(s, path, i, ident) && MountAt(s, path).Some?
    requires HasInode(s, MountAt(s, path).value) && s.inodes[s.tnodes[MountAt(s, path).value].inode].refs == 1
    ensures var n := Mount(s, path, i, ident);
            && (u in n.tnodes ==> TnodeOk(n, u))
            && (j in n.inodes ==> InodeOk(n, j) && SizeOk(n, j))
  {
    hide Inv, Lookup, Links, Opens;
    var n, t := Mount(s, path, i, ident), MountAt(s, path).value;
    MountFacts(s, path);
    SoleLink(s, t);
    NodeFacts(s, u, j);
    MountLinks(s, path, i, ident, j);
    hide MountAt, MountFresh;
  }

  lemma MountLinks(s: State, path: string, i: nat, ident: nat, j: nat)
    requires Inv(s) && MountFresh(s, path, i, ident) && MountAt(s, path).Some?
    requires HasInode(s, MountAt(s, path).value) && s.inodes[s.tnodes[MountAt(s, path).value].inode].refs == 1
    ensures var n := Mount(s, path, i, ident);
            && (j == i ==> |Links(n, j)| == 1 && Opens(n, j) == {})
            && (j != i && j in n.inodes ==> Links(n, j) == Links(s, j) && Opens(n, j) == Opens(s, j))
  {
    hide Inv, Lookup;
    var n, t := Mount(s, path, i, ident), MountAt(s, path).value;
    MountFacts(s, path);
    SoleLink(s, t);
    if i !in s.inodes {
      NewHasNoLinks(s, i);
    }
    hide MountAt, InodeOk;
    if j == i {
      assert Links(n, i) == {t} by {
        assert forall u <- s.tnodes :: s.tnodes[u].inode == i ==> u in Links(s, i);
      }
      assert Opens(n, i) == {} by {
        assert forall d <- s.descs :: s.descs[d].inode == i ==> d in Opens(s, i);
      }
    }
  }

  lemma MountPair(s: State, path: string, i: nat, ident: nat, j: nat, k: nat, a: nat, b: nat)
    requires Inv(s) && MountFresh(s, path, i, ident) && MountAt(s, path).Some?
    ensures var n := Mount(s, path, i, ident);
            && (j in n.inodes && k in n.inodes ==> ApartOk(n, j, k))
            && (j in n.inodes ==> KidsOk(n, j, a, b))
  {
    hide Inv, Lookup, Links, Opens;
    NodeFacts(s, ROOT, j);
    NodeFacts(s, ROOT, k);
    if j in s.inodes {
      KidFacts(s, j, a, b);
      if k in s.inodes {
        ApartFacts(s, j, k);
      }
    }
  }

  lemma MountKeepsInv(s: State, path: string, i: nat, ident: nat)
    requires Inv(s) && MountFresh(s, path, i, ident) && MountAt(s, path).Some?
    requires HasInode(s, MountAt(s, path).value) && s.inodes[s.tnodes[MountAt(s, path).value].inode].refs == 1
    ensures Inv(Mount(s, path, i, ident))
  {
    var n := Mount(s, path, i, ident);
    MountFacts(s, path);
    RootResolves(s);
    SoleLink(s, MountAt(s, path).value);
    hide Lookup, Links, Opens;
    SameHandles(s, n);
    assert ROOT in n.tnodes;
    hide Inv, TnodeOk, InodeOk, SizeOk, ApartOk, KidsOk, MountAt, Mount, MountFresh;
    forall t <- n.tnodes
      ensures TnodeOk(n, t)
    {
      MountNode(s, path, i, ident, t, i);
    }
    forall j <- n.inodes
      ensures InodeOk(n, j) && SizeOk(n, j)
    {
      MountNode(s, path, i, ident, ROOT, j);
    }
    forall j, k | j in n.inodes && k in n.inodes
      ensures ApartOk(n, j, k)
    {
      MountPair(s, path, i, ident, j, k, 0, 0);
    }
    forall j, a: nat, b: nat | j in n.inodes
      ensures KidsOk(n, j, a, b)
    {
      MountPair(s, path, i, ident, j, j, a, b);
    }
    Assemble(n);
  }

  /** Mounting keeps the invariant exactly when the folder has one name and is not open: the inode is freed
      without a look at its count. */
  lemma MountKeepsInvExactly(s: State, path: string, i: nat, ident: nat)
    requires Inv(s) && MountFresh(s, path, i, ident) && MountAt(s, path).Some?
    ensures HasInode(s, MountAt(s, path).value)
    ensures Inv(Mount(s, path, i, ident)) <==> s.inodes[s.tnodes[MountAt(s, path).value].inode].refs == 1
  {
    var n, t := Mount(s, path, i, ident), MountAt(s, path).value;
    MountFacts(s, path);
    hide Lookup;
    var was := s.tnodes[t].inode;
    if s.inodes[was].refs == 1 {
      MountKeepsInv(s, path, i, ident);
    } else if i == was {
      assert Links(n, i) == Links(s, was) && Opens(n, i) == Opens(s, was);
      assert !InodeOk(n, i);
    } else if Opens(s, was) != {} {
      var d :| d in Opens(s, was);
      assert d in n.descs && !DescOk(n, d);
    } else {
      assert |Links(s, was) - {t}| == |Links(s, was)| - 1;
      var u :| u in Links(s, was) - {t};
      assert u in n.tnodes && !TnodeOk(n, u);
    }
  }

  // ----- What mounting does -----

  /** What changes is the folder's inode, which goes, the new one with its data, and where the name points. */
  lemma MountFrame(s: State, path: string, t: nat, i: nat, ident: nat)
    requires Lookup(s, path) == Some(t) && HasInode(s, t)
    requires var was := s.inodes[s.tnodes[t].inode]; was.kind == FOLDER && was.kids == []
    requires (i in s.inodes ==> i == s.tnodes[t].inode) && ident !in s.idents
    ensures var n, was := Mount(s, path, i, ident), s.tnodes[t].inode;
            && n.tnodes == s.tnodes[t := s.tnodes[t].(inode := i)] && n.descs == s.descs && n.files == s.files
            && i in n.inodes && n.inodes[i] == Inode(MOUNTPOINT, 0, 1, Some(t), [], ident, 0)
            && ident in n.idents && n.idents[ident] == [] && (was in n.inodes ==> was == i)
            && (forall j <- s.inodes | j != was :: j in n.inodes && n.inodes[j] == s.inodes[j])
            && (forall x <- s.idents :: x in n.idents && n.idents[x] == s.idents[x])
  {
    hide Lookup;
  }

  lemma MountSameKids(s: State, path: string, t: nat, i: nat, ident: nat, u: nat)
    requires Inv(s) && Lookup(s, path) == Some(t) && HasInode(s, t) && u in s.tnodes
    requires var was := s.inodes[s.tnodes[t].inode]; was.kind == FOLDER && was.kids == [] && was.refs == 1
    requires (i in s.inodes ==> i == s.tnodes[t].inode) && ident !in s.idents
    ensures SameKids(s, Mount(s, path, i, ident), u)
  {
    NodeFacts(s, t, s.tnodes[t].inode);
    NodeFacts(s, u, ROOT);
    SoleLink(s, t);
    hide Inv, Lookup, Links, Opens, Mount;
    MountFrame(s, path, t, i, ident);
  }

  /** An empty folder with one reference becomes the root of an empty ramfs, and every path leads where it led. */
  lemma MountMeaning(s: State, path: string, t: nat, i: nat, ident: nat, toks: seq<string>)
    requires Inv(s) && Lookup(s, path) == Some(t) && HasInode(s, t)
    requires var was := s.inodes[s.tnodes[t].inode]; was.kind == FOLDER && was.kids == [] && was.refs == 1
    requires (i in s.inodes ==> i == s.tnodes[t].inode) && ident !in s.idents
    ensures var n := Mount(s, path, i, ident);
            && HasInode(n, t) && n.inodes[n.tnodes[t].inode] == Inode(MOUNTPOINT, 0, 1, Some(t), [], ident, 0)
            && Resolve(n, ROOT, toks) == Resolve(s, ROOT, toks)
  {
    RootResolves(s);
    var n := Mount(s, path, i, ident);
    hide Inv, Lookup, Resolve, Mount, SameKids;
    MountFrame(s, path, t, i, ident);
    forall u <- s.tnodes
      ensures SameKids(s, n, u)
    {
      MountSameKids(s, path, t, i, ident, u);
    }
    MountedResolve(s, n, ROOT, toks);
  }

  /** Where path_to_node finds no empty folder, nothing is mounted. */
  lemma MountRefused(s: State, path: string, i: nat, ident: nat)
    requires var node := Lookup(s, path);
             node.Some? && HasInode(s, node.value) ==>
               s.inodes[s.tnodes[node.value].inode].kind != FOLDER || s.inodes[s.tnodes[node.value].inode].kids != []
    ensures Mount(s, path, i, ident) == s
  {
    hide Lookup;
  }

  ghost predicate SameKids(s: State, n: State, v: nat) {
    && HasInode(s, v) && HasInode(n, v) && n.tnodes[v].name == s.tnodes[v].name
    && n.inodes[n.tnodes[v].inode].kids == s.inodes[s.tnodes[v].inode].kids
    && Traversable(n, v) == Traversable(s, v)
  }

  /** Paths do not see that an empty folder has got another inode. */
  lemma {:induction false} MountedResolve(s: State, n: State, u: nat, toks: seq<string>)
    requires Inv(s) && u in s.tnodes && n.tnodes.Keys == s.tnodes.Keys
    requires forall v {:trigger SameKids(s, n, v)} :: v in s.tnodes ==> SameKids(s, n, v)
    ensures Resolve(n, u, toks) == Resolve(s, u, toks)
    decreases |toks|
  {
    if toks != [] {
      hide Inv;
      assert SameKids(s, n, u);
      KidsExist(s, s.tnodes[u].inode);
      forall k <- s.inodes[s.tnodes[u].inode].kids
        ensures SameKids(s, n, k)
      {
        assert k in s.tnodes;
      }
      FindKidSame(s, n, s.inodes[s.tnodes[u].inode].kids, Cut(toks[0]));
      if Traversable(s, u) && Child(s, u, toks[0]).Some? {
        MountedResolve(s, n, Child(s, u, toks[0]).value, toks[1..]);
      }
    }
  }
}
