/** What paths resolve to after names come and go. */
module VfsPaths {
  import opened Common
  import opened Paths
  import opened VfsModel
  import opened VfsInv

  // ----- Searching a folder -----

  lemma {:induction false} FindKidAppend(s: State, kids: seq<nat>, t: nat, name: string)
    ensures FindKid(s, kids + [t], name) ==
            if FindKid(s, kids, name).Some? then FindKid(s, kids, name)
            else if t in s.tnodes && s.tnodes[t].name == name then Some(t) else None
  {
    if kids == [] {
      assert kids + [t] == [t];
    } else {
      assert (kids + [t])[1..] == kids[1..] + [t];
      FindKidAppend(s, kids[1..], t, name);
    }
  }

  /** The search goes by the names of the kids only. */
  lemma {:induction false} FindKidSame(s: State, n: State, kids: seq<nat>, name: string)
    requires forall k <- kids :: k in s.tnodes && k in n.tnodes && n.tnodes[k].name == s.tnodes[k].name
    ensures FindKid(n, kids, name) == FindKid(s, kids, name)
  {
    if kids != [] {
      FindKidSame(s, n, kids[1..], name);
    }
  }

  /** Taking a kid out of a list without duplicate names hides exactly that kid. */
  lemma {:induction false} FindKidWithout(s: State, kids: seq<nat>, t: nat, name: string)
    requires forall k <- kids :: k in s.tnodes
    requires forall a, b :: 0 <= a < b < |kids| ==>
               kids[a] != kids[b] && s.tnodes[kids[a]].name != s.tnodes[kids[b]].name
    ensures FindKid(s, Without(kids, t), name) ==
            if FindKid(s, kids, name) == Some(t) then None else FindKid(s, kids, name)
  {
    if kids != [] {
      FindKidWithout(s, kids[1..], t, name);
      if kids[0] == t {
        if s.tnodes[t].name == name {
          assert forall k <- kids[1..] :: s.tnodes[k].name != name;
        } else {
          assert t !in kids[1..];
        }
      }
    }
  }

  /** The kids of a folder, as the invariant describes them. */
  lemma KidsExist(s: State, i: nat)
    requires Inv(s) && i in s.inodes
    ensures forall k <- s.inodes[i].kids :: k in s.tnodes && s.tnodes[k].parent == Some(i)
    ensures var kids := s.inodes[i].kids;
            forall a, b :: 0 <= a < b < |kids| ==>
              kids[a] != kids[b] && s.tnodes[kids[a]].name != s.tnodes[kids[b]].name
  {
    hide Inv;
    var kids := s.inodes[i].kids;
    forall a: nat | a < |kids|
      ensures kids[a] in s.tnodes && s.tnodes[kids[a]].parent == Some(i)
    {
      KidFacts(s, i, a, a);
    }
    forall a: nat, b: nat | a < b < |kids|
      ensures kids[a] != kids[b] && s.tnodes[kids[a]].name != s.tnodes[kids[b]].name
    {
      KidFacts(s, i, a, b);
    }
  }

  /** A path leads to tnodes that exist. */
  lemma {:induction false} ResolveExists(s: State, t: nat, toks: seq<string>)
    requires Inv(s) && t in s.tnodes
    ensures Resolve(s, t, toks).Some? ==> Resolve(s, t, toks).value in s.tnodes
    decreases |toks|
  {
    hide Inv;
    if toks != [] && Traversable(s, t) && Child(s, t, toks[0]).Some? {
      ResolveExists(s, Child(s, t, toks[0]).value, toks[1..]);
    }
  }

  ghost predicate SameFolder(s: State, n: State, i: nat) {
    i in s.inodes && i in n.inodes && n.inodes[i].kids == s.inodes[i].kids && n.inodes[i].kind == s.inodes[i].kind
  }

  /** The same tnodes over the same folders: the same paths. */
  lemma {:induction false} ResolveSame(s: State, n: State, t: nat, toks: seq<string>)
    requires Inv(s) && t in s.tnodes && n.tnodes == s.tnodes
    requires forall u <- s.tnodes :: HasInode(s, u) ==> SameFolder(s, n, s.tnodes[u].inode)
    ensures Resolve(n, t, toks) == Resolve(s, t, toks)
    decreases |toks|
  {
    if toks != [] {
      NodeFacts(s, t, ROOT);
      hide Inv;
      KidsExist(s, s.tnodes[t].inode);
      FindKidSame(s, n, s.inodes[s.tnodes[t].inode].kids, Cut(toks[0]));
      if Traversable(s, t) && Child(s, t, toks[0]).Some? {
        ResolveSame(s, n, Child(s, t, toks[0]).value, toks[1..]);
      }
    }
  }

  // ----- A new name -----

  /** The path toks ends in the name of a new entry of the folder d. */
  ghost predicate NamesEntry(s: State, u: nat, toks: seq<string>, d: nat, name: string) {
    && toks != []
    && var dir := Resolve(s, u, toks[..|toks| - 1]);
       dir.Some? && HasInode(s, dir.value) && s.tnodes[dir.value].inode == d && Cut(toks[|toks| - 1]) == name
  }

  lemma AddNameChild(s: State, i: nat, d: nat, name: string, t: nat, v: nat, token: string)
    requires Inv(s) && CanName(s, i, d, name, t) && v in s.tnodes
    ensures var n := AddName(s, i, d, name, t);
            && Traversable(n, v) == Traversable(s, v)
            && Child(n, v, token) ==
               if s.tnodes[v].inode == d && Cut(token) == name then Some(t) else Child(s, v, token)
  {
    NodeFacts(s, v, ROOT);
    hide Inv;
    var n, j := AddName(s, i, d, name, t), s.tnodes[v].inode;
    KidsExist(s, j);
    FindKidSame(s, n, s.inodes[j].kids, Cut(token));
    FindKidAppend(n, s.inodes[j].kids, t, Cut(token));
  }

  /** A new name for an inode without kids is found where it was put, and no other path changes. */
  lemma {:induction false} AddNameResolve(s: State, i: nat, d: nat, name: string, t: nat, u: nat, toks: seq<string>)
    requires Inv(s) && CanName(s, i, d, name, t) && u in s.tnodes && i != d && s.inodes[i].kids == []
    ensures Resolve(AddName(s, i, d, name, t), u, toks) ==
            if NamesEntry(s, u, toks, d, name) then Some(t) else Resolve(s, u, toks)
    decreases |toks|
  {
    if toks != [] {
      hide Inv, CanName, AddName, Resolve, Traversable, Child;
      var n, front := AddName(s, i, d, name, t), toks[..|toks| - 1];
      AddNameResolve(s, i, d, name, t, u, front);
      ResolveLast(s, u, toks);
      ResolveLast(n, u, toks);
      ResolveExists(s, u, front);
      var dir := Resolve(s, u, front);
      if NamesEntry(s, u, front, d, name) {
        NewIsDeadEnd(s, i, d, name, t, toks[|toks| - 1]);
        EntryWasFree(s, i, d, name, t, u, front);
      } else if dir.Some? {
        AddNameChild(s, i, d, name, t, dir.value, toks[|toks| - 1]);
        FolderTraversable(s, i, d, name, t, dir.value);
      }
    }
  }

  lemma FolderTraversable(s: State, i: nat, d: nat, name: string, t: nat, v: nat)
    requires Inv(s) && CanName(s, i, d, name, t) && v in s.tnodes
    ensures HasInode(s, v) && (s.tnodes[v].inode == d ==> Traversable(s, v))
  {
    NodeFacts(s, v, ROOT);
    hide Inv;
  }

  lemma NewIsDeadEnd(s: State, i: nat, d: nat, name: string, t: nat, token: string)
    requires CanName(s, i, d, name, t) && i != d && s.inodes[i].kids == []
    ensures Child(AddName(s, i, d, name, t), t, token) == None
  {
  }

  lemma EntryWasFree(s: State, i: nat, d: nat, name: string, t: nat, u: nat, toks: seq<string>)
    requires Inv(s) && CanName(s, i, d, name, t) && u in s.tnodes && NamesEntry(s, u, toks, d, name)
    ensures Resolve(s, u, toks) == None
  {
    hide Inv, Resolve;
    ResolveLast(s, u, toks);
    KidsExist(s, d);
  }

  /** No part of the path toks names the new entry. */
  ghost predicate Avoids(s: State, u: nat, toks: seq<string>, d: nat, name: string) {
    forall k :: 0 < k <= |toks| ==> !NamesEntry(s, u, toks[..k], d, name)
  }

  /** Any new name, also one for a folder: paths that avoid it lead where they led. */
  lemma {:induction false} AvoidingResolves(s: State, i: nat, d: nat, name: string, t: nat, u: nat, toks: seq<string>)
    requires Inv(s) && CanName(s, i, d, name, t) && u in s.tnodes && Avoids(s, u, toks, d, name)
    ensures Resolve(AddName(s, i, d, name, t), u, toks) == Resolve(s, u, toks)
    decreases |toks|
  {
    if toks != [] {
      hide Inv, CanName, AddName, Resolve, Traversable, Child, NamesEntry;
      var n, front := AddName(s, i, d, name, t), toks[..|toks| - 1];
      forall k | 0 < k <= |front|
        ensures !NamesEntry(s, u, front[..k], d, name)
      {
        assert front[..k] == toks[..k];
      }
      AvoidingResolves(s, i, d, name, t, u, front);
      ResolveLast(s, u, toks);
      ResolveLast(n, u, toks);
      ResolveExists(s, u, front);
      var dir := Resolve(s, u, front);
      if dir.Some? {
        AddNameChild(s, i, d, name, t, dir.value, toks[|toks| - 1]);
        FolderTraversable(s, i, d, name, t, dir.value);
        assert toks[..|toks|] == toks;
        NotNamed(s, u, toks, d, name);
      }
    }
  }

  lemma NotNamed(s: State, u: nat, toks: seq<string>, d: nat, name: string)
    requires toks != [] && !NamesEntry(s, u, toks, d, name)
    ensures var dir := Resolve(s, u, toks[..|toks| - 1]);
            dir.Some? && HasInode(s, dir.value) ==> s.tnodes[dir.value].inode != d || Cut(toks[|toks| - 1]) != name
  {
  }

  /** The folders on the way to the new entry do not lead through it. */
  lemma {:induction false} FrontAvoids(s: State, i: nat, d: nat, name: string, t: nat, u: nat, toks: seq<string>)
    requires Inv(s) && CanName(s, i, d, name, t) && u in s.tnodes && Resolve(s, u, toks).Some?
    ensures Avoids(s, u, toks, d, name)
  {
    hide Inv, CanName, Resolve, NamesEntry;
    forall k | 0 < k <= |toks|
      ensures !NamesEntry(s, u, toks[..k], d, name)
    {
      if NamesEntry(s, u, toks[..k], d, name) {
        EntryWasFree(s, i, d, name, t, u, toks[..k]);
        ResolvePrefix(s, u, toks, k);
        assert false;
      }
    }
  }

  lemma {:induction false} ResolvePrefix(s: State, u: nat, toks: seq<string>, k: nat)
    requires Resolve(s, u, toks).Some? && k <= |toks|
    ensures Resolve(s, u, toks[..k]).Some?
    decreases |toks|
  {
    if k > 0 {
      var c := Child(s, u, toks[0]).value;
      ResolvePrefix(s, c, toks[1..], k - 1);
      assert toks[..k][1..] == toks[1..][..k - 1];
    }
  }

  /** Walking p + q is walking p and then q. */
  lemma {:induction false} ResolveThrough(s: State, u: nat, p: seq<string>, q: seq<string>)
    requires Resolve(s, u, p).Some?
    ensures Resolve(s, u, p + q) == Resolve(s, Resolve(s, u, p).value, q)
    decreases |p|
  {
    if p == [] {
      assert p + q == q;
    } else {
      ResolveThrough(s, Child(s, u, p[0]).value, p[1..], q);
      assert (p + q)[1..] == p[1..] + q;
    }
  }

  /** The path to a new entry leads to it, and on from there as from every other name of its inode. */
  lemma NewEntryResolves(s: State, i: nat, d: nat, name: string, t: nat, u: nat, toks: seq<string>)
    requires Inv(s) && CanName(s, i, d, name, t) && u in s.tnodes && NamesEntry(s, u, toks, d, name)
    ensures Resolve(AddName(s, i, d, name, t), u, toks) == Some(t)
  {
    var n, front := AddName(s, i, d, name, t), toks[..|toks| - 1];
    hide Inv, CanName, AddName, Resolve, Traversable, Child;
    FrontAvoids(s, i, d, name, t, u, front);
    AvoidingResolves(s, i, d, name, t, u, front);
    ResolveExists(s, u, front);
    ResolveLast(n, u, toks);
    var dir := Resolve(s, u, front).value;
    AddNameChild(s, i, d, name, t, dir, toks[|toks| - 1]);
    FolderTraversable(s, i, d, name, t, dir);
  }

  lemma SameFolderSamePaths(n: State, t: nat, v: nat, toks: seq<string>)
    requires t in n.tnodes && v in n.tnodes && n.tnodes[t].inode == n.tnodes[v].inode && toks != []
    ensures Resolve(n, t, toks) == Resolve(n, v, toks)
  {
  }

  // ----- A name goes -----

  lemma DropNameChild(s: State, t: nat, v: nat, token: string)
    requires Inv(s) && CanDrop(s, t) && v in s.tnodes && v != t
    ensures HasInode(s, t) && s.tnodes[t].parent.Some? && s.tnodes[t].parent.value in s.inodes
    ensures var n := DropName(s, t);
            && Traversable(n, v) == Traversable(s, v)
            && Child(n, v, token) == if Child(s, v, token) == Some(t) then None else Child(s, v, token)
  {
    hide Inv, Without, Pos, CanDrop;
    NodeFacts(s, v, ROOT);
    DropDefined(s, t);
    var n, p, j := DropName(s, t), s.tnodes[t].parent.value, s.tnodes[v].inode;
    KidsExist(s, j);
    if j == p {
      KidsLeft(s, t);
      FindKidWithout(s, s.inodes[p].kids, t, Cut(token));
      FindKidSame(s, n, Without(s.inodes[p].kids, t), Cut(token));
    } else {
      assert t !in s.inodes[j].kids;
      FindKidSame(s, n, s.inodes[j].kids, Cut(token));
    }
  }

  lemma KidsLeft(s: State, t: nat)
    requires Inv(s) && CanDrop(s, t)
    ensures HasInode(s, t) && s.tnodes[t].parent.Some? && s.tnodes[t].parent.value in s.inodes
    ensures forall k <- Without(s.inodes[s.tnodes[t].parent.value].kids, t) :: k in s.tnodes && k != t
  {
    hide Inv, Without, Pos;
    DropDefined(s, t);
    var kids := s.inodes[s.tnodes[t].parent.value].kids;
    KidsExist(s, s.tnodes[t].parent.value);
    WithoutAt(kids, t);
    var left, k := Without(kids, t), Pos(kids, t);
    forall a: nat | a < |left|
      ensures left[a] in s.tnodes && left[a] != t
    {
      assert left[a] == kids[if a < k then a else a + 1];
      assert kids[k] == t;
    }
  }

  /** The paths to a name without kids stop resolving, and no other path changes. */
  lemma {:induction false} DropNameResolve(s: State, t: nat, u: nat, toks: seq<string>)
    requires Inv(s) && CanDrop(s, t) && u in s.tnodes && u != t
    requires HasInode(s, t) && s.inodes[s.tnodes[t].inode].kids == []
    ensures s.tnodes[t].parent.Some? && s.tnodes[t].parent.value in s.inodes
    ensures Resolve(DropName(s, t), u, toks) ==
            if Resolve(s, u, toks) == Some(t) then None else Resolve(s, u, toks)
    decreases |toks|
  {
    DropDefined(s, t);
    if toks != [] {
      hide Inv, DropName, Resolve;
      var n, front := DropName(s, t), toks[..|toks| - 1];
      DropNameResolve(s, t, u, front);
      ResolveLast(s, u, toks);
      ResolveLast(n, u, toks);
      ResolveExists(s, u, front);
      var dir := Resolve(s, u, front);
      if dir.Some? && dir.value != t {
        DropNameChild(s, t, dir.value, toks[|toks| - 1]);
      }
    }
  }

  // ----- One path for each node -----

  /** No folder is linked twice. */
  ghost predicate FoldersOnce(s: State) {
    forall t, u :: t in s.tnodes && u in s.tnodes && Traversable(s, t) && s.tnodes[t].inode == s.tnodes[u].inode ==>
      t == u
  }

  /** Then two paths to the same node have the same components, as far as names are compared. */
  lemma {:induction false} PathsAreUnique(s: State, p: seq<string>, q: seq<string>)
    requires Inv(s) && FoldersOnce(s)
    requires Resolve(s, ROOT, p).Some? && Resolve(s, ROOT, p) == Resolve(s, ROOT, q)
    ensures |p| == |q| && forall k :: 0 <= k < |p| ==> Cut(p[k]) == Cut(q[k])
    decreases |p| + |q|
  {
    hide Inv, Resolve;
    NodeFacts(s, ROOT, ROOT);
    RootResolves(s);
    if p != [] {
      LastStep(s, p);
    }
    if q != [] {
      LastStep(s, q);
    }
    if p != [] && q != [] {
      var pf, qf := p[..|p| - 1], q[..|q| - 1];
      assert Resolve(s, ROOT, pf) == Resolve(s, ROOT, qf);
      PathsAreUnique(s, pf, qf);
      forall k | 0 <= k < |p|
        ensures Cut(p[k]) == Cut(q[k])
      {
        if k < |p| - 1 {
          assert p[k] == pf[k] && q[k] == qf[k];
        }
      }
    }
  }

  lemma RootResolves(s: State)
    requires Inv(s)
    ensures ROOT in s.tnodes && s.tnodes[ROOT].parent == None && Resolve(s, ROOT, []) == Some(ROOT)
  {
    hide Handles, KidsOk, ApartOk, InodeOk, SizeOk;
    assert TnodeOk(s, ROOT);
  }

  /** The last component names a kid of what the rest resolves to. */
  lemma LastStep(s: State, p: seq<string>)
    requires Inv(s) && p != [] && Resolve(s, ROOT, p).Some?
    ensures var dir, t := Resolve(s, ROOT, p[..|p| - 1]), Resolve(s, ROOT, p).value;
            && dir.Some? && dir.value in s.tnodes && Traversable(s, dir.value)
            && t in s.tnodes && s.tnodes[t].parent == Some(s.tnodes[dir.value].inode)
            && s.tnodes[t].name == Cut(p[|p| - 1])
  {
    hide Inv, Resolve;
    RootResolves(s);
    ResolveLast(s, ROOT, p);
    ResolveExists(s, ROOT, p[..|p| - 1]);
    var dir := Resolve(s, ROOT, p[..|p| - 1]);
    NodeFacts(s, dir.value, ROOT);
    KidsExist(s, s.tnodes[dir.value].inode);
  }
}
