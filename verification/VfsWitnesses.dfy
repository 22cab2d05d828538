/** Runs from vfs_init that reach the calls which break the virtual file system. */
module VfsWitnesses {
  import opened Common
  import opened Paths
  import opened VfsModel
  import opened VfsInv
  import opened VfsPaths
  import opened VfsCalls
  import opened VfsRuns
  import opened Initrd
  import RamFile
  import Vector

  /** The root's inode is at 0, and all addresses are below k. */
  ghost predicate Rooted(s: State, k: nat) {
    && Traversable(s, ROOT) && s.tnodes[ROOT].inode == 0
    && forall a | a in s.inodes || a in s.tnodes || a in s.idents :: a < k
  }

  /** A run has reached such a state. */
  ghost predicate Reached(s: State, k: nat) {
    Reachable(s, 0, 0) && Inv(s) && Rooted(s, k)
  }

  /** A new node in the root, with the address k for all of its memory. */
  function Made(s: State, name: string, kind: Kind, k: nat): State {
    Create(s, Join([name]), kind, Fresh(k, k, k))
  }

  /** The same, entry by entry. */
  function MadeOf(s: State, name: string, kind: Kind, k: nat): State
    requires 0 in s.inodes
  {
    s.(inodes := s.inodes[k := Inode(kind, 0, 1, s.inodes[0].mount, [], k, 0)][0 := PushKid(s.inodes[0], k)],
       tnodes := s.tnodes[k := Tnode(name, k, Some(0))],
       idents := s.idents[k := []])
  }

  predicate FreeName(s: State, name: string) {
    IsName(name) && |name| <= 16 && Child(s, ROOT, name) == None
  }

  lemma StartReached()
    ensures Reached(Boot(0, 0), 1)
  {
    BootReachable(0, 0);
    BootInv(0, 0);
    hide Reachable, Inv;
  }

  lemma RootEntry(s: State, name: string)
    requires Traversable(s, ROOT) && IsName(name)
    ensures Lookup(s, Join([name])) == Resolve(s, ROOT, [name]) == Child(s, ROOT, name)
  {
    hide Lookup, Tokens, Child, Traversable;
    TokensOfJoin([name]);
    assert [name][..0] == [] && [name][1..] == [];
    LookupIsResolve(s, Join([name]));
  }

  lemma HasRoom(s: State, name: string, k: nat)
    requires Reached(s, k) && FreeName(s, name)
    ensures Room(s, [], name) && Home(s, Join([name])) == Some(ROOT) && NewName(Join([name])) == name
    ensures IsFresh(s, Fresh(k, k, k)) && PathFits(s, Join([name]))
  {
    hide Reachable, Inv, Tokens, Lookup, Home, NewName, PathFits, Child;
    assert [] + [name] == [name];
    assert Resolve(s, ROOT, []) == Some(ROOT);
    RoomIsCreatable(s, [], name);
    hide Creatable;
    assert |Join([name])| <= 17 by {
      assert [name][1..] == [];
    }
    ShortPathsFit(s, Join([name]));
  }

  lemma MadeIs(s: State, name: string, kind: Kind, k: nat)
    requires Reached(s, k) && FreeName(s, name) && k > 0
    ensures 0 in s.inodes && Made(s, name, kind, k) == MadeOf(s, name, kind, k)
    ensures Rooted(Made(s, name, kind, k), k + 1) && Traversable(Made(s, name, kind, k), ROOT)
  {
    HasRoom(s, name, k);
    NodeIs(s, name, kind, k);
    hide Reachable, Inv, Lookup, Home, NewName, Room, PathFits, MakeNode, MadeOf, Rooted, Traversable;
  }

  lemma NodeIs(s: State, name: string, kind: Kind, k: nat)
    requires Rooted(s, k) && k > 0
    ensures HasInode(s, ROOT) && 0 in s.inodes
    ensures MakeNode(s, ROOT, name, kind, Fresh(k, k, k)) == MadeOf(s, name, kind, k)
    ensures Rooted(MadeOf(s, name, kind, k), k + 1) && Traversable(MadeOf(s, name, kind, k), ROOT)
  {
  }

  lemma MakesEntry(s: State, name: string, kind: Kind, k: nat)
    requires Reached(s, k) && FreeName(s, name) && k > 0
    ensures 0 in s.inodes && Made(s, name, kind, k) == MadeOf(s, name, kind, k)
    ensures Reached(Made(s, name, kind, k), k + 1) && Lookup(Made(s, name, kind, k), Join([name])) == Some(k)
  {
    MadeIs(s, name, kind, k);
    HasRoom(s, name, k);
    hide Reachable, Inv, Lookup, Home, NewName, PathFits, Frame, Room, Create, Rooted, MadeOf, Traversable;
    var path, a := Join([name]), Fresh(k, k, k);
    assert [] + [name] == [name];
    CreateAdds(s, [], name, kind, a);
    NextReachable(s, DoCreate(path, kind, a), 0, 0);
    RootEntry(Made(s, name, kind, k), name);
  }

  // ----- A read behind the end, a link across mounts, a mount over an open folder -----

  lemma JoinedNames()
    ensures Join(["a"]) == "/a" && Join(["d"]) == "/d" && Join(["d", "b"]) == "/d/b" && Join(["x", "a"]) == "/x/a"
  {
    assert ["a"][1..] == ["d"][1..] == ["b"][1..] == [];
    assert ["d", "b"][1..] == ["b"] && ["x", "a"][1..] == ["a"];
    assert Join(["b"]) == "/b" && Join(["a"]) == "/a";
  }

  /** A file is made and opened for reading and writing. */
  function OpenFile(): State {
    Open(Made(Boot(0, 0), "a", FILE, 1), 0, "/a", READWRITE, 0)
  }

  /** Its handle is moved to position 1. */
  function PastEnd(): State {
    Seek(OpenFile(), 0, 0, 1)
  }

  lemma OpensFile()
    ensures var s := OpenFile();
            && Reachable(s, 0, 0) && Readable(s, 0, 0) == Some(0) && HasFile(s, 0) && s.descs[0].mode == READWRITE
            && FileAt(s, 0) == RamFile.File(0, [], 0)
  {
    hide Reachable, Inv, Lookup, Create, PathFits;
    JoinedNames();
    StartReached();
    NothingIn(Boot(0, 0), "a");
    MakesEntry(Boot(0, 0), "a", FILE, 1);
    var m := Made(Boot(0, 0), "a", FILE, 1);
    ShortPathsFit(m, "/a");
    NextReachable(m, DoOpen(0, "/a", READWRITE, 0), 0, 0);
    assert FilesOf(m, 0) == [];
  }

  /** Reading one byte then asks ramfs for more than it has. */
  lemma ReadPastEnd()
    ensures var s := PastEnd();
            && Reachable(s, 0, 0) && Readable(s, 0, 0) == Some(0) && HasFile(s, 0)
            && FileAt(s, 0) == RamFile.File(0, [], 1) && !CanRead(s, 0, 0, 1)
            && FileAt(s, 0).pos + RamFile.ReadLen(FileAt(s, 0), 1) > |FileAt(s, 0).data|
  {
    hide Reachable, Inv, OpenFile;
    OpensFile();
    NextReachable(OpenFile(), DoSeek(0, 0, 1), 0, 0);
    RamFile.ReadFitsExactly(FileAt(PastEnd(), 0), 1);
  }

  lemma NothingIn(s: State, name: string)
    requires HasInode(s, ROOT) && s.inodes[s.tnodes[ROOT].inode].kids == []
    ensures Child(s, ROOT, name) == None
  {
  }

  /** A folder is made and opened. */
  function OpenFolder(): State {
    Open(Made(Boot(0, 0), "d", FOLDER, 1), 0, "/d", READ, 0)
  }

  lemma OpensFolder()
    ensures var s := OpenFolder();
            && Reachable(s, 0, 0) && Inv(s) && s.inodes.Keys == s.tnodes.Keys == s.idents.Keys == {0, 1}
            && s.tnodes[1] == Tnode("d", 1, Some(0)) && s.inodes[1].kind == FOLDER && s.inodes[1].kids == []
            && s.inodes[1].refs == 2
            && Traversable(s, ROOT) && s.inodes[s.tnodes[ROOT].inode].kids == [1]
  {
    hide Reachable, Inv, Lookup, Create, PathFits;
    JoinedNames();
    StartReached();
    NothingIn(Boot(0, 0), "d");
    MakesEntry(Boot(0, 0), "d", FOLDER, 1);
    var m := Made(Boot(0, 0), "d", FOLDER, 1);
    ShortPathsFit(m, "/d");
    NextReachable(m, DoOpen(0, "/d", READ, 0), 0, 0);
  }

  /** Mounting over it frees an inode that is still open. */
  lemma MountOverOpen()
    ensures var s := OpenFolder();
            && Reachable(s, 0, 0) && Inv(s) && MountFresh(s, "/d", 2, 2) && MountAt(s, "/d") == Some(1)
            && !Inv(Mount(s, "/d", 2, 2))
  {
    hide Reachable, Inv, Lookup, OpenFolder, Mount;
    JoinedNames();
    OpensFolder();
    var s := OpenFolder();
    RootEntry(s, "d");
    assert FindKid(s, [1], "d") == Some(1);
    MountKeepsInvExactly(s, "/d", 2, 2);
  }

  /** A file "a", and a folder "d" over which ramfs is mounted. */
  function TwoFolders(): State {
    Made(Made(Boot(0, 0), "a", FILE, 1), "d", FOLDER, 2)
  }

  function TwoMounts(): State {
    Mount(TwoFolders(), "/d", 3, 3)
  }

  /** The two are there. */
  ghost predicate HasTwo(s: State) {
    && 0 in s.inodes && s.inodes[0].mount == Some(ROOT) && s.inodes[0].kids == [1, 2]
    && s.inodes.Keys == s.tnodes.Keys == s.idents.Keys == {0, 1, 2}
    && s.tnodes[ROOT].inode == 0 && Traversable(s, ROOT)
    && s.tnodes[1] == Tnode("a", 1, Some(0)) && s.tnodes[2] == Tnode("d", 2, Some(0))
    && s.inodes[1].kind == FILE && s.inodes[1].mount == Some(ROOT)
    && s.inodes[2].kind == FOLDER && s.inodes[2].kids == [] && s.inodes[2].refs == 1
  }

  lemma MakesTwo()
    ensures Reached(TwoFolders(), 3) && Lookup(TwoFolders(), "/d") == Some(2) && HasTwo(TwoFolders())
  {
    hide Reachable, Inv, Lookup, Create;
    JoinedNames();
    StartReached();
    NothingIn(Boot(0, 0), "a");
    MakesEntry(Boot(0, 0), "a", FILE, 1);
    var m := Made(Boot(0, 0), "a", FILE, 1);
    assert [1][1..] == [] && FindKid(m, [], "d") == None;
    assert m.inodes[0].kids == [1] && m.tnodes[1].name == "a";
    assert FindKid(m, [1], "d") == None;
    MakesEntry(m, "d", FOLDER, 2);
  }

  /** The folder of the name 2 is in another mount than the file of the name 1. */
  ghost predicate MountsDiffer(s: State) {
    && HasInode(s, 1) && s.inodes[s.tnodes[1].inode].mount == Some(ROOT)
    && Traversable(s, 2) && s.inodes[s.tnodes[2].inode].mount == Some(2) && s.inodes[s.tnodes[2].inode].kids == []
    && Traversable(s, ROOT) && s.inodes[s.tnodes[ROOT].inode].kids == [1, 2]
    && s.tnodes[1].name == "a" && s.tnodes[2].name == "d"
  }

  lemma MountSplits(s: State)
    requires HasTwo(s) && Lookup(s, "/d") == Some(2)
    ensures MountFresh(s, "/d", 3, 3)
    ensures MountAt(s, "/d") == Some(2) && HasInode(s, 2) && s.inodes[s.tnodes[2].inode].refs == 1
    ensures MountsDiffer(Mount(s, "/d", 3, 3)) && IsFresh(Mount(s, "/d", 3, 3), Fresh(4, 4, 4))
  {
    hide Lookup;
  }

  lemma MountsTwo()
    ensures Reachable(TwoMounts(), 0, 0) && Inv(TwoMounts())
    ensures MountsDiffer(TwoMounts()) && IsFresh(TwoMounts(), Fresh(4, 4, 4))
  {
    hide Reachable, Inv, Lookup, TwoFolders, HasTwo, MountsDiffer, Mount, IsFresh, MountAt, MountFresh, PathFits;
    MakesTwo();
    MountSplits(TwoFolders());
    ShortPathsFit(TwoFolders(), "/d");
    NextReachable(TwoFolders(), DoMount("/d", 3, 3), 0, 0);
  }

  /** What the paths of two entries of the root lead to. */
  lemma TwoEntries(s: State)
    requires Traversable(s, ROOT) && s.inodes[s.tnodes[ROOT].inode].kids == [1, 2]
    requires 1 in s.tnodes && 2 in s.tnodes && s.tnodes[1].name == "a" && s.tnodes[2].name == "d"
    ensures Lookup(s, "/a") == Some(1) && Resolve(s, ROOT, ["d"]) == Some(2)
  {
    hide Lookup;
    JoinedNames();
    RootEntry(s, "a");
    RootEntry(s, "d");
    assert [1, 2][1..] == [2] && FindKid(s, [2], "d") == Some(2);
  }

  /** Linking the file into the other mount leaves a name in the folder that has been freed. */
  lemma LinkAcrossMounts()
    ensures var s := TwoMounts();
            Reachable(s, 0, 0) && Inv(s) && IsFresh(s, Fresh(4, 4, 4)) && !Inv(Link(s, "/a", "/d/b", Fresh(4, 4, 4)))
  {
    hide Reachable, Inv, TwoMounts, Lookup, Home;
    JoinedNames();
    MountsTwo();
    var s := TwoMounts();
    TwoEntries(s);
    NothingInFolder(s, 2, "b");
    assert ["d"] + ["b"] == ["d", "b"];
    RoomIsCreatable(s, ["d"], "b");
    LinkKeepsInvExactly(s, "/a", "/d/b", Fresh(4, 4, 4));
  }

  lemma NothingInFolder(s: State, t: nat, name: string)
    requires HasInode(s, t) && s.inodes[s.tnodes[t].inode].kids == []
    ensures Child(s, t, name) == None
  {
  }

  // ----- Missing folders -----

  /** Where there is no folder "x", creating "/x/a" makes "/a", and "/x/a" still means nothing. */
  lemma CreatesElsewhere(kind: Kind)
    ensures Create(Boot(0, 0), "/x/a", kind, Fresh(1, 1, 1)) == Made(Boot(0, 0), "a", kind, 1)
    ensures var s := Made(Boot(0, 0), "a", kind, 1);
            Reachable(s, 0, 0) && Resolve(s, ROOT, ["a"]) == Some(1) && Resolve(s, ROOT, ["x", "a"]) == None
  {
    hide Reachable, Inv, Lookup, Create, Tokens;
    JoinedNames();
    StartReached();
    var b := Boot(0, 0);
    NothingIn(b, "a");
    NothingIn(b, "x");
    MakesEntry(b, "a", kind, 1);
    TokensOfJoin(["a"]);
    TokensOfJoin(["x", "a"]);
    assert ["x", "a"][1..] == ["a"] && ["a"][1..] == [];
    SameHome(b, kind, Fresh(1, 1, 1));
    var s := Made(b, "a", kind, 1);
    RootEntry(s, "a");
    assert [1][1..] == [] && FindKid(s, [], "x") == None;
    assert Child(s, ROOT, "x") == None;
  }

  lemma SameHome(s: State, kind: Kind, a: Fresh)
    requires Traversable(s, ROOT) && Child(s, ROOT, "a") == None && Child(s, ROOT, "x") == None
    ensures Create(s, "/x/a", kind, a) == Create(s, "/a", kind, a)
  {
    hide Tokens, Child, Traversable, MakeNode;
    JoinedNames();
    TokensOfJoin(["a"]);
    TokensOfJoin(["x", "a"]);
    assert ["x", "a"][1..] == ["a"] && ["a"][1..] == [];
    ScanIgnoresFlag(s, ROOT, ["a"], true, false);
  }

  // ----- A folder whose child vector is too short for vec_erase -----

  /** Two letters for each number below 1024. */
  function Letters(k: nat): string
    requires k < 1024
  {
    [('A' as int + k / 32) as char, ('A' as int + k % 32) as char]
  }

  /** Files are made in the root, n of them. */
  function Filled(n: nat): State
    requires n < 1024
  {
    if n == 0 then Boot(0, 0) else Made(Filled(n - 1), Letters(n), FILE, n)
  }

  /** The allocation of a vector after n pushes. */
  function AllocAfter(n: nat): nat {
    if n == 0 then 0 else Vector.Grown(AllocAfter(n - 1), n)
  }

  /** After 1, 3, 7, 15, ... pushes there is room for as many again. */
  lemma {:induction false} AllocStays(lo: nat, n: nat)
    requires lo <= n <= 2 * lo && AllocAfter(lo) == 16 * lo
    ensures AllocAfter(n) == 16 * lo
    ensures n == 2 * lo ==> AllocAfter(2 * lo + 1) == 16 * (2 * lo + 1)
  {
    if n > lo {
      AllocStays(lo, n - 1);
    }
  }

  lemma SomeAllocs()
    ensures AllocAfter(273) == AllocAfter(274) == 4080 && AllocAfter(1022) == 8176
  {
    assert AllocAfter(1) == 16 by { assert AllocAfter(0) == 0; }
    AllocStays(1, 2);
    AllocStays(3, 6);
    AllocStays(7, 14);
    AllocStays(15, 30);
    AllocStays(31, 62);
    AllocStays(63, 126);
    AllocStays(127, 254);
    AllocStays(255, 273);
    AllocStays(255, 274);
    AllocStays(255, 510);
    AllocStays(511, 1022);
  }

  /** The root lists file k where it belongs, under its name. */
  ghost predicate Listed(s: State, k: nat) {
    && 0 in s.inodes && 0 < k <= |s.inodes[0].kids| && s.inodes[0].kids[k - 1] == k
    && k < 1024 && k in s.tnodes && s.tnodes[k].name == Letters(k)
  }

  /** The root lists the files in the order they were made. */
  ghost predicate ListsFiles(s: State, n: nat) {
    && 0 in s.inodes && |s.inodes[0].kids| == n && s.inodes[0].alloc == AllocAfter(n)
    && forall k {:trigger Listed(s, k)} :: 0 < k <= n ==> Listed(s, k)
  }

  lemma LettersDiffer(j: nat, k: nat)
    requires j < k < 1024
    ensures Letters(j) != Letters(k) && IsName(Letters(k)) && |Letters(k)| <= 16
  {
    assert j == 32 * (j / 32) + j % 32 && k == 32 * (k / 32) + k % 32;
  }

  lemma NameIsFree(s: State, n: nat)
    requires n < 1023 && ListsFiles(s, n) && Rooted(s, n + 1)
    ensures FreeName(s, Letters(n + 1))
  {
    hide Letters;
    LettersDiffer(n, n + 1);
    forall i | 0 <= i < n
      ensures s.inodes[0].kids[i] in s.tnodes && s.tnodes[s.inodes[0].kids[i]].name != Letters(n + 1)
    {
      assert Listed(s, i + 1);
      LettersDiffer(i + 1, n + 1);
    }
  }

  lemma ListsOneMore(s: State, n: nat)
    requires n < 1023 && ListsFiles(s, n) && Rooted(s, n + 1)
    ensures ListsFiles(MadeOf(s, Letters(n + 1), FILE, n + 1), n + 1)
  {
    hide Letters, Traversable, Vector.Grown;
    var m := MadeOf(s, Letters(n + 1), FILE, n + 1);
    assert m.inodes[0].kids == s.inodes[0].kids + [n + 1];
    forall k | 0 < k <= n + 1
      ensures Listed(m, k)
    {
      if k <= n {
        assert Listed(s, k);
      }
    }
  }

  lemma {:induction false} FilledIs(n: nat)
    requires n < 1024
    ensures Reached(Filled(n), n + 1) && ListsFiles(Filled(n), n)
    ensures n > 0 ==> Lookup(Filled(n), Join([Letters(n)])) == Some(n) && n in Filled(n).tnodes && n in Filled(n).inodes
    ensures n > 0 ==> Filled(n).tnodes[n] == Tnode(Letters(n), n, Some(0)) && Filled(n).inodes[n].kids == []
  {
    hide Reachable, Inv, Lookup, Made, Letters, Rooted, Traversable;
    if n == 0 {
      StartReached();
    } else {
      FilledIs(n - 1);
      NameIsFree(Filled(n - 1), n - 1);
      ListsOneMore(Filled(n - 1), n - 1);
      MakesEntry(Filled(n - 1), Letters(n), FILE, n);
    }
  }

  /** Unlinking the last of n files is safe exactly when 15 bytes for each of them fit the block. */
  lemma LastUnlinkFits(n: nat)
    requires 0 < n < 1024
    ensures var s, path := Filled(n), Join([Letters(n)]);
            && Reachable(s, 0, 0) && Inv(s) && Removable(s, path) == Some(n)
            && (UnlinkFits(s, path) <==> 15 * n <= Vector.Capacity(AllocAfter(n)))
  {
    hide Reachable, Inv, Lookup, Made, Letters, Vector.Capacity, AllocAfter, Filled;
    FilledIs(n);
    var s := Filled(n);
    var kids := s.inodes[0].kids;
    var index := Vector.IndexOf(kids, n);
    assert Listed(s, n);
    assert index < |kids|;
    assert Listed(s, index + 1);
    assert index == n - 1;
  }

  /** From 274 files on, the limit that SmallFoldersAreSafe gives, unlinking the last file breaks the
      invariant. With 1022 files the copy ends behind the page that follows the block, so it changes the
      contents of the next block, not only its header. */
  lemma UnlinkOverruns()
    ensures var s, path := Filled(274), Join([Letters(274)]);
            Reachable(s, 0, 0) && Inv(s) && Removable(s, path) == Some(274) && !Inv(Unlink(s, path))
    ensures var s, path := Filled(1022), Join([Letters(1022)]);
            Reachable(s, 0, 0) && Inv(s) && Removable(s, path) == Some(1022) && !Inv(Unlink(s, path))
    ensures Vector.Capacity(AllocAfter(1022)) + PAGE_SIZE < 1021 * Vector.ELEM + Vector.EraseCopy(1022, 1021)
  {
    hide Reachable, Inv, Filled, Removable, Unlink, Letters, AllocAfter;
    SomeAllocs();
    LastUnlinkFits(274);
    UnlinkKeepsInvExactly(Filled(274), Join([Letters(274)]));
    LastUnlinkFits(1022);
    UnlinkKeepsInvExactly(Filled(1022), Join([Letters(1022)]));
  }
}
