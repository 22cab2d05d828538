/** Every part of a call keeps the invariant of the virtual file system. */
module VfsInv {
  import opened Common
  import opened Paths
  import opened VfsModel

  /** What the invariant says of single nodes, without unfolding it. */
  lemma NodeFacts(s: State, t: nat, i: nat)
    requires Inv(s)
    ensures s.intact
    ensures t in s.tnodes ==> TnodeOk(s, t) && HasInode(s, t)
    ensures i in s.inodes ==> InodeOk(s, i) && SizeOk(s, i)
  {
    hide HandleOk, DescOk, KidsOk, ApartOk;
    assert t in s.tnodes ==> TnodeOk(s, t);
    assert i in s.inodes ==> InodeOk(s, i) && SizeOk(s, i);
  }

  lemma KidFacts(s: State, i: nat, a: nat, b: nat)
    requires Inv(s) && i in s.inodes
    ensures KidsOk(s, i, a, b)
  {
    hide Handles, HandleOk, TnodeOk, InodeOk, SizeOk, ApartOk, KidsOk;
  }

  lemma ApartFacts(s: State, i: nat, j: nat)
    requires Inv(s) && i in s.inodes && j in s.inodes
    ensures ApartOk(s, i, j)
  {
    hide Handles, HandleOk, TnodeOk, InodeOk, SizeOk, KidsOk, ApartOk;
  }

  lemma HandleFacts(s: State, task: TaskId, h: int, other: TaskId, k: int)
    requires Inv(s)
    ensures HandleOk(s, task, h, other, k)
  {
    hide Nodes, DescOk, HandleOk;
  }

  lemma DescFacts(s: State, d: nat)
    requires Inv(s) && d in s.descs
    ensures DescOk(s, d) && s.descs[d].inode in s.inodes
  {
    hide Nodes, HandleOk;
    assert DescOk(s, d);
  }

  /** Descriptors and handles stay as they are, and no inode that is open goes. */
  lemma SameHandles(s: State, n: State)
    requires Inv(s) && n.descs == s.descs && n.files == s.files && n.intact
    requires forall d <- s.descs :: s.descs[d].inode in s.inodes ==> s.descs[d].inode in n.inodes
    ensures Handles(n)
  {
    hide Nodes, HandleOk;
    forall task, h, other, k
      ensures HandleOk(n, task, h, other, k)
    {
      SameHandle(s, n, task, h, other, k);
    }
    forall d <- n.descs
      ensures DescOk(n, d)
    {
      assert DescOk(s, d);
    }
  }

  lemma SameHandle(s: State, n: State, task: TaskId, h: int, other: TaskId, k: int)
    requires Inv(s) && n.descs == s.descs && n.files == s.files
    ensures HandleOk(n, task, h, other, k)
  {
    HandleFacts(s, task, h, other, k);
    hide Inv;
  }

  /** Puts the pieces together again. */
  lemma Assemble(n: State)
    requires ROOT in n.tnodes && Handles(n)
    requires forall t {:trigger TnodeOk(n, t)} :: t in n.tnodes ==> TnodeOk(n, t)
    requires forall i {:trigger InodeOk(n, i)} :: i in n.inodes ==> InodeOk(n, i)
    requires forall i {:trigger SizeOk(n, i)} :: i in n.inodes ==> SizeOk(n, i)
    requires forall i, j {:trigger ApartOk(n, i, j)} :: i in n.inodes && j in n.inodes ==> ApartOk(n, i, j)
    requires forall i, a: nat, b: nat {:trigger KidsOk(n, i, a, b)} :: i in n.inodes ==> KidsOk(n, i, a, b)
    ensures Inv(n)
  {
    hide TnodeOk, InodeOk, SizeOk, ApartOk, KidsOk, Handles;
  }

  lemma SameLinks(s: State, n: State, i: nat)
    requires n.tnodes == s.tnodes && n.descs == s.descs
    ensures Links(n, i) == Links(s, i) && Opens(n, i) == Opens(s, i)
  {
  }

  // ----- A new inode -----

  lemma NewHasNoLinks(s: State, i: nat)
    requires Inv(s) && i !in s.inodes
    ensures Links(s, i) == {} && Opens(s, i) == {}
  {
    forall t <- s.tnodes
      ensures s.tnodes[t].inode != i
    {
      NodeFacts(s, t, i);
    }
    forall d <- s.descs
      ensures s.descs[d].inode != i
    {
      DescFacts(s, d);
    }
    hide Inv;
  }

  lemma AddInodeNode(s: State, i: nat, kind: Kind, mount: Option<nat>, ident: nat, t: nat, j: nat)
    requires Inv(s) && i !in s.inodes && ident !in s.idents
    ensures var n := AddInode(s, i, kind, mount, ident);
            && (t in n.tnodes ==> TnodeOk(n, t))
            && (j in n.inodes ==> InodeOk(n, j) && SizeOk(n, j))
  {
    NodeFacts(s, t, j);
    SameLinks(s, AddInode(s, i, kind, mount, ident), j);
    NewHasNoLinks(s, i);
    hide Inv, Links, Opens;
  }

  lemma AddInodePair(s: State, i: nat, kind: Kind, mount: Option<nat>, ident: nat, j: nat, k: nat, a: nat, b: nat)
    requires Inv(s) && i !in s.inodes && ident !in s.idents
    ensures var n := AddInode(s, i, kind, mount, ident);
            && (j in n.inodes && k in n.inodes ==> ApartOk(n, j, k))
            && (j in n.inodes ==> KidsOk(n, j, a, b))
  {
    NodeFacts(s, ROOT, j);
    NodeFacts(s, ROOT, k);
    if j in s.inodes {
      KidFacts(s, j, a, b);
      if k in s.inodes {
        ApartFacts(s, j, k);
      }
    }
    hide Inv, Links, Opens;
  }

  lemma AddInodeKeepsInv(s: State, i: nat, kind: Kind, mount: Option<nat>, ident: nat)
    requires Inv(s) && i !in s.inodes && ident !in s.idents
    ensures Inv(AddInode(s, i, kind, mount, ident))
  {
    var n := AddInode(s, i, kind, mount, ident);
    SameHandles(s, n);
    assert ROOT in n.tnodes;
    hide Inv, TnodeOk, InodeOk, SizeOk, ApartOk, KidsOk, AddInode;
    forall t <- n.tnodes
      ensures TnodeOk(n, t)
    {
      AddInodeNode(s, i, kind, mount, ident, t, i);
    }
    forall j <- n.inodes
      ensures InodeOk(n, j) && SizeOk(n, j)
    {
      AddInodeNode(s, i, kind, mount, ident, ROOT, j);
    }
    forall j, k | j in n.inodes && k in n.inodes
      ensures ApartOk(n, j, k)
    {
      AddInodePair(s, i, kind, mount, ident, j, k, 0, 0);
    }
    forall j, a: nat, b: nat | j in n.inodes
      ensures KidsOk(n, j, a, b)
    {
      AddInodePair(s, i, kind, mount, ident, j, j, a, b);
    }
    Assemble(n);
  }

  // ----- A new name -----

  ghost predicate CanName(s: State, i: nat, d: nat, name: string, t: nat) {
    && i in s.inodes && d in s.inodes && t !in s.tnodes && IsName(name) && |name| <= NAME_LEN
    && s.inodes[d].kind in {FOLDER, MOUNTPOINT}
    && forall k <- s.inodes[d].kids :: k in s.tnodes ==> s.tnodes[k].name != name
  }

  lemma MoreLinks(s: State, n: State, t: nat, j: nat)
    requires t !in s.tnodes && t in n.tnodes && n.tnodes == s.tnodes[t := n.tnodes[t]]
    ensures |Links(n, j)| == |Links(s, j)| + if j == n.tnodes[t].inode then 1 else 0
  {
    if j == n.tnodes[t].inode {
      assert Links(n, j) == Links(s, j) + {t};
    } else {
      assert Links(n, j) == Links(s, j);
    }
  }

  lemma AddNameLinks(s: State, i: nat, d: nat, name: string, t: nat, j: nat)
    requires CanName(s, i, d, name, t)
    ensures var n := AddName(s, i, d, name, t);
            |Links(n, j)| == |Links(s, j)| + (if j == i then 1 else 0) && Opens(n, j) == Opens(s, j)
  {
    var n := AddName(s, i, d, name, t);
    assert Opens(n, j) == Opens(s, j);
    MoreLinks(s, n, t, j);
    hide Links, Opens;
  }

  lemma AddNameNode(s: State, i: nat, d: nat, name: string, t: nat, u: nat, j: nat)
    requires Inv(s) && CanName(s, i, d, name, t)
    ensures var n := AddName(s, i, d, name, t);
            && (u in n.tnodes ==> TnodeOk(n, u))
            && (j in n.inodes ==> InodeOk(n, j) && SizeOk(n, j))
  {
    NodeFacts(s, u, j);
    NodeFacts(s, ROOT, j);
    AddNameLinks(s, i, d, name, t, j);
    hide Inv, Links, Opens;
    var kids := s.inodes[d].kids + [t];
    assert kids[|kids| - 1] == t;
  }

  lemma AddNamePair(s: State, i: nat, d: nat, name: string, t: nat, j: nat, k: nat, a: nat, b: nat)
    requires Inv(s) && CanName(s, i, d, name, t)
    ensures var n := AddName(s, i, d, name, t);
            && (j in n.inodes && k in n.inodes ==> ApartOk(n, j, k))
            && (j in n.inodes ==> KidsOk(n, j, a, b))
  {
    if j in s.inodes {
      KidFacts(s, j, a, b);
      KidFacts(s, j, a, a);
      KidFacts(s, j, b, b);
      if k in s.inodes {
        ApartFacts(s, j, k);
      }
    }
    hide Inv, Links, Opens;
  }

  lemma AddNameKeepsInv(s: State, i: nat, d: nat, name: string, t: nat)
    requires Inv(s) && CanName(s, i, d, name, t)
    ensures Inv(AddName(s, i, d, name, t))
  {
    var n := AddName(s, i, d, name, t);
    SameHandles(s, n);
    assert ROOT in n.tnodes;
    hide Inv, TnodeOk, InodeOk, SizeOk, ApartOk, KidsOk, AddName, CanName;
    forall u <- n.tnodes
      ensures TnodeOk(n, u)
    {
      AddNameNode(s, i, d, name, t, u, i);
    }
    forall j <- n.inodes
      ensures InodeOk(n, j) && SizeOk(n, j)
    {
      AddNameNode(s, i, d, name, t, ROOT, j);
    }
    forall j, k | j in n.inodes && k in n.inodes
      ensures ApartOk(n, j, k)
    {
      AddNamePair(s, i, d, name, t, j, k, 0, 0);
    }
    forall j, a: nat, b: nat | j in n.inodes
      ensures KidsOk(n, j, a, b)
    {
      AddNamePair(s, i, d, name, t, j, j, a, b);
    }
    Assemble(n);
  }

  // ----- A name goes -----

  /** The first position of x. */
  function Pos(q: seq<nat>, x: nat): (k: nat)
    requires x in q
    ensures k < |q| && q[k] == x
  {
    if q[0] == x then 0 else 1 + Pos(q[1..], x)
  }

  /** Without takes out exactly that position. */
  lemma {:induction false} WithoutAt(q: seq<nat>, x: nat)
    requires x in q
    ensures |Without(q, x)| == |q| - 1
    ensures forall a {:trigger Without(q, x)[a]} :: 0 <= a < |q| - 1 ==>
              Without(q, x)[a] == q[if a < Pos(q, x) then a else a + 1]
    ensures forall u :: u in q && u != x ==> u in Without(q, x)
  {
    if q[0] != x {
      WithoutAt(q[1..], x);
    }
  }

  ghost predicate CanDrop(s: State, t: nat) {
    t in s.tnodes && t != ROOT
  }

  lemma DropDefined(s: State, t: nat)
    requires Inv(s) && CanDrop(s, t)
    ensures HasInode(s, t) && s.tnodes[t].parent.Some? && s.tnodes[t].parent.value in s.inodes
    ensures t in s.inodes[s.tnodes[t].parent.value].kids
    ensures s.inodes[s.tnodes[t].inode].kids != [] ==> s.inodes[s.tnodes[t].inode].kind in {FOLDER, MOUNTPOINT}
  {
    NodeFacts(s, t, ROOT);
    NodeFacts(s, t, s.tnodes[t].inode);
    hide Inv;
  }

  lemma DropLinks(s: State, t: nat, j: nat)
    requires Inv(s) && CanDrop(s, t)
    ensures HasInode(s, t) && s.tnodes[t].parent.Some? && s.tnodes[t].parent.value in s.inodes
    ensures var n := DropName(s, t);
            |Links(n, j)| == |Links(s, j)| - (if j == s.tnodes[t].inode then 1 else 0) && Opens(n, j) == Opens(s, j)
  {
    DropDefined(s, t);
    hide Inv;
    var n := DropName(s, t);
    assert t in Links(s, s.tnodes[t].inode);
    assert Links(n, j) == if j == s.tnodes[t].inode then Links(s, j) - {t} else Links(s, j);
  }

  lemma DropNode(s: State, t: nat, u: nat, j: nat)
    requires Inv(s) && CanDrop(s, t)
    ensures HasInode(s, t) && s.tnodes[t].parent.Some? && s.tnodes[t].parent.value in s.inodes
    ensures var n := DropName(s, t);
            && (u in n.tnodes ==> TnodeOk(n, u))
            && (j in n.inodes ==> InodeOk(n, j) && SizeOk(n, j))
  {
    DropDefined(s, t);
    DropLinks(s, t, j);
    NodeFacts(s, u, j);
    WithoutAt(s.inodes[s.tnodes[t].parent.value].kids, t);
    hide Inv, Links, Opens, Without, Pos;
  }

  lemma DropSiblings(s: State, t: nat, a: nat, b: nat)
    requires Inv(s) && CanDrop(s, t)
    ensures HasInode(s, t) && s.tnodes[t].parent.Some? && s.tnodes[t].parent.value in s.inodes
    ensures KidsOk(DropName(s, t), s.tnodes[t].parent.value, a, b)
  {
    hide Inv, Without, Pos, CanDrop;
    DropDefined(s, t);
    var p := s.tnodes[t].parent.value;
    var kids, left := s.inodes[p].kids, Without(s.inodes[p].kids, t);
    assert DropName(s, t).inodes[p].kids == left;
    WithoutAt(kids, t);
    var k := Pos(kids, t);
    if a < |left| && b < |left| {
      var a0, b0 := if a < k then a else a + 1, if b < k then b else b + 1;
      assert left[a] == kids[a0] && left[b] == kids[b0];
      DropKids(s, t, a0, b0);
      hide KidsOk;
      KidsMove(s, DropName(s, t), p, a0, b0, a, b);
    }
  }

  lemma KidsMove(s: State, n: State, p: nat, a0: nat, b0: nat, a: nat, b: nat)
    requires p in s.inodes && p in n.inodes && KidsOk(s, p, a0, b0) && (a0 == b0 <==> a == b)
    requires a0 < |s.inodes[p].kids| && b0 < |s.inodes[p].kids|
    requires a < |n.inodes[p].kids| && b < |n.inodes[p].kids|
    requires n.inodes[p].kids[a] == s.inodes[p].kids[a0] && n.inodes[p].kids[b] == s.inodes[p].kids[b0]
    requires var x := s.inodes[p].kids[a0]; x in n.tnodes && (x in s.tnodes ==> n.tnodes[x] == s.tnodes[x])
    requires var x := s.inodes[p].kids[b0]; x in n.tnodes && (x in s.tnodes ==> n.tnodes[x] == s.tnodes[x])
    ensures KidsOk(n, p, a, b)
  {
  }

  lemma DropPair(s: State, t: nat, j: nat, l: nat, a: nat, b: nat)
    requires Inv(s) && CanDrop(s, t)
    ensures HasInode(s, t) && s.tnodes[t].parent.Some? && s.tnodes[t].parent.value in s.inodes
    ensures var n := DropName(s, t);
            && (j in n.inodes && l in n.inodes ==> ApartOk(n, j, l))
            && (j in n.inodes ==> KidsOk(n, j, a, b))
  {
    hide Inv, Links, Opens, Without, EraseSafe, TnodeOk, InodeOk, SizeOk, CanDrop;
    DropDefined(s, t);
    var p := s.tnodes[t].parent.value;
    if j in s.inodes && l in s.inodes {
      ApartFacts(s, j, l);
    }
    if j == p {
      DropSiblings(s, t, a, b);
    } else if j in s.inodes {
      KidFacts(s, j, a, b);
      KidFacts(s, j, b, b);
      ParentListsKid(s, t);
    }
  }

  lemma ParentListsKid(s: State, t: nat)
    requires Inv(s) && CanDrop(s, t)
    ensures t in s.tnodes
  {
    hide Inv;
  }

  lemma DropKids(s: State, t: nat, a: nat, b: nat)
    requires Inv(s) && CanDrop(s, t)
    ensures HasInode(s, t) && s.tnodes[t].parent.Some? && s.tnodes[t].parent.value in s.inodes
    ensures var p := s.tnodes[t].parent.value;
            var kids := s.inodes[p].kids;
            && t in kids && KidsOk(s, p, a, b)
            && (a < |kids| && b < |kids| ==> kids[a] in s.tnodes && kids[b] in s.tnodes)
            && (a < |kids| && a != Pos(kids, t) ==> kids[a] != t)
            && (b < |kids| && b != Pos(kids, t) ==> kids[b] != t)
  {
    DropDefined(s, t);
    var p := s.tnodes[t].parent.value;
    var k := Pos(s.inodes[p].kids, t);
    KidFacts(s, p, a, b);
    KidFacts(s, p, a, k);
    KidFacts(s, p, b, k);
    hide Inv, Pos;
  }

  /** A name whose erase stays inside the block of the child vector. */
  lemma DropNameKeepsInv(s: State, t: nat)
    requires Inv(s) && CanDrop(s, t) && EraseSafe(s, t)
    ensures HasInode(s, t) && s.tnodes[t].parent.Some? && s.tnodes[t].parent.value in s.inodes
    ensures Inv(DropName(s, t))
  {
    DropDefined(s, t);
    var n := DropName(s, t);
    SameHandles(s, n);
    assert ROOT in n.tnodes;
    hide Inv, TnodeOk, InodeOk, SizeOk, ApartOk, KidsOk, DropName;
    forall u <- n.tnodes
      ensures TnodeOk(n, u)
    {
      DropNode(s, t, u, ROOT);
    }
    forall j <- n.inodes
      ensures InodeOk(n, j) && SizeOk(n, j)
    {
      DropNode(s, t, ROOT, j);
    }
    forall j, k | j in n.inodes && k in n.inodes
      ensures ApartOk(n, j, k)
    {
      DropPair(s, t, j, k, 0, 0);
    }
    forall j, a: nat, b: nat | j in n.inodes
      ensures KidsOk(n, j, a, b)
    {
      DropPair(s, t, j, j, a, b);
    }
    Assemble(n);
  }

  // ----- An inode goes, and its data -----

  /** Nothing refers to i, and i lists nothing. */
  lemma Unreferenced(s: State, i: nat)
    requires Inv(s) && i in s.inodes && s.inodes[i].refs == 0 && s.inodes[i].kids == []
    ensures Links(s, i) == {} && Opens(s, i) == {}
    ensures forall t <- s.tnodes :: s.tnodes[t].inode != i && s.tnodes[t].parent != Some(i)
    ensures forall d <- s.descs :: s.descs[d].inode != i
  {
    NodeFacts(s, ROOT, i);
    forall t <- s.tnodes
      ensures s.tnodes[t].inode != i && s.tnodes[t].parent != Some(i)
    {
      NodeFacts(s, t, i);
      assert t !in Links(s, i);
    }
    forall d <- s.descs
      ensures s.descs[d].inode != i
    {
      assert d !in Opens(s, i);
    }
  }

  ghost predicate CanFree(s: State, i: nat) {
    i in s.inodes && s.inodes[i].refs == 0 && s.inodes[i].kids == []
  }

  function Free(s: State, i: nat): State
    requires i in s.inodes
  {
    DropInode(DropIdent(s, s.inodes[i].ident), i)
  }

  lemma FreeNode(s: State, i: nat, t: nat, j: nat)
    requires Inv(s) && CanFree(s, i)
    ensures var n := Free(s, i);
            && (t in n.tnodes ==> TnodeOk(n, t))
            && (j in n.inodes ==> InodeOk(n, j) && SizeOk(n, j))
  {
    Unreferenced(s, i);
    NodeFacts(s, t, j);
    SameLinks(s, Free(s, i), j);
    if j in s.inodes {
      ApartFacts(s, i, j);
    }
    hide Inv, Links, Opens;
  }

  lemma FreePair(s: State, i: nat, j: nat, k: nat, a: nat, b: nat)
    requires Inv(s) && CanFree(s, i)
    ensures var n := Free(s, i);
            && (j in n.inodes && k in n.inodes ==> ApartOk(n, j, k))
            && (j in n.inodes ==> KidsOk(n, j, a, b))
  {
    if j in s.inodes {
      KidFacts(s, j, a, b);
      if k in s.inodes {
        ApartFacts(s, j, k);
      }
    }
    hide Inv, Links, Opens;
  }

  lemma FreeKeepsInv(s: State, i: nat)
    requires Inv(s) && CanFree(s, i)
    ensures Inv(Free(s, i))
  {
    var n := Free(s, i);
    Unreferenced(s, i);
    SameHandles(s, n);
    assert ROOT in n.tnodes;
    hide Inv, TnodeOk, InodeOk, SizeOk, ApartOk, KidsOk, Free;
    forall u <- n.tnodes
      ensures TnodeOk(n, u)
    {
      FreeNode(s, i, u, i);
    }
    forall j <- n.inodes
      ensures InodeOk(n, j) && SizeOk(n, j)
    {
      FreeNode(s, i, ROOT, j);
    }
    forall j, k | j in n.inodes && k in n.inodes
      ensures ApartOk(n, j, k)
    {
      FreePair(s, i, j, k, 0, 0);
    }
    forall j, a: nat, b: nat | j in n.inodes
      ensures KidsOk(n, j, a, b)
    {
      FreePair(s, i, j, j, a, b);
    }
    Assemble(n);
  }

  // ----- Descriptors come and go -----

  /** The tree is the same; inodes differ in their counts, or one in its size and data. */
  ghost predicate SameTree(s: State, n: State, i: nat) {
    && n.tnodes == s.tnodes && n.inodes.Keys == s.inodes.Keys && n.idents.Keys == s.idents.Keys
    && i in s.inodes && s.inodes[i].ident in s.idents
    && (forall j <- s.inodes :: n.inodes[j] == s.inodes[j].(refs := n.inodes[j].refs, size := n.inodes[j].size))
    && (forall j <- s.inodes | j != i :: n.inodes[j] == s.inodes[j])
    && (forall x <- s.idents | x != s.inodes[i].ident :: n.idents[x] == s.idents[x])
    && n.inodes[i].size <= |n.idents[s.inodes[i].ident]| < RamFile.WORD
  }

  lemma SameTreeNode(s: State, n: State, i: nat, t: nat, j: nat)
    requires Inv(s) && SameTree(s, n, i)
    ensures t in n.tnodes ==> TnodeOk(n, t)
    ensures j in n.inodes ==> SizeOk(n, j)
    ensures j in n.inodes && j != i && Opens(n, j) == Opens(s, j) ==> InodeOk(n, j)
    ensures n.inodes[i].refs == |Links(s, i)| + |Opens(n, i)| ==> InodeOk(n, i)
  {
    NodeFacts(s, t, j);
    NodeFacts(s, t, i);
    if j in s.inodes {
      ApartFacts(s, i, j);
    }
    assert Links(n, j) == Links(s, j) && Links(n, i) == Links(s, i);
    hide Inv, Links, Opens;
  }

  lemma SameTreePair(s: State, n: State, i: nat, j: nat, k: nat, a: nat, b: nat)
    requires Inv(s) && SameTree(s, n, i)
    ensures j in n.inodes && k in n.inodes ==> ApartOk(n, j, k)
    ensures j in n.inodes ==> KidsOk(n, j, a, b)
  {
    if j in s.inodes {
      KidFacts(s, j, a, b);
      if k in s.inodes {
        ApartFacts(s, j, k);
      }
    }
    hide Inv;
  }

  lemma SameTreeKeepsInv(s: State, n: State, i: nat)
    requires Inv(s) && SameTree(s, n, i) && Handles(n)
    requires n.inodes[i].refs == |Links(s, i)| + |Opens(n, i)|
    requires forall j <- s.inodes | j != i :: Opens(n, j) == Opens(s, j)
    ensures Inv(n)
  {
    NodeFacts(s, ROOT, ROOT);
    assert ROOT in n.tnodes;
    forall t <- n.tnodes
      ensures TnodeOk(n, t)
    {
      SameTreeNode(s, n, i, t, i);
    }
    forall j <- n.inodes
      ensures InodeOk(n, j) && SizeOk(n, j)
    {
      SameTreeNode(s, n, i, ROOT, j);
    }
    forall j, k | j in n.inodes && k in n.inodes
      ensures ApartOk(n, j, k)
    {
      SameTreePair(s, n, i, j, k, 0, 0);
    }
    forall j, a: nat, b: nat | j in n.inodes
      ensures KidsOk(n, j, a, b)
    {
      SameTreePair(s, n, i, j, j, a, b);
    }
    hide TnodeOk, InodeOk, SizeOk, ApartOk, KidsOk, SameTree, Handles, Links, Opens;
    Assemble(n);
  }

  /** A descriptor d for inode i under a new handle of the task. */
  function AddDesc(s: State, task: TaskId, i: nat, d: nat, desc: Desc): State
    requires i in s.inodes
  {
    s.(inodes := s.inodes[i := s.inodes[i].(refs := s.inodes[i].refs + 1)], descs := s.descs[d := desc],
       files := s.files[task := FilesOf(s, task) + [Some(d)]])
  }

  lemma AddDescHandle(s: State, task: TaskId, i: nat, d: nat, desc: Desc, x: TaskId, h: int, y: TaskId, k: int)
    requires Inv(s) && i in s.inodes && d !in s.descs
    ensures HandleOk(AddDesc(s, task, i, d, desc), x, h, y, k)
  {
    HandleFacts(s, x, h, y, k);
    HandleFacts(s, x, h, x, h);
    HandleFacts(s, y, k, y, k);
    hide Inv;
  }

  lemma AddDescKeepsInv(s: State, task: TaskId, i: nat, d: nat, desc: Desc)
    requires Inv(s) && i in s.inodes && d !in s.descs && desc.inode == i && desc.pos < RamFile.WORD
    ensures Inv(AddDesc(s, task, i, d, desc))
  {
    var n := AddDesc(s, task, i, d, desc);
    NodeFacts(s, ROOT, i);
    forall x, h, y, k
      ensures HandleOk(n, x, h, y, k)
    {
      AddDescHandle(s, task, i, d, desc, x, h, y, k);
    }
    forall e <- n.descs
      ensures DescOk(n, e)
    {
      if e in s.descs {
        DescFacts(s, e);
      }
    }
    hide Inv, HandleOk, FilesOf;
    assert Opens(n, i) == Opens(s, i) + {d};
    assert d !in Opens(s, i);
    forall j <- s.inodes | j != i
      ensures Opens(n, j) == Opens(s, j)
    {
    }
    hide Opens, Links;
    SameTreeKeepsInv(s, n, i);
  }

  function DropDesc(s: State, task: TaskId, handle: int, d: nat): State
    requires d in s.descs && s.descs[d].inode in s.inodes && 0 <= handle < |FilesOf(s, task)|
  {
    var i := s.descs[d].inode;
    s.(inodes := s.inodes[i := s.inodes[i].(refs := s.inodes[i].refs - 1)], descs := s.descs - {d},
       files := s.files[task := FilesOf(s, task)[handle := None]])
  }

  lemma DropDescHandle(s: State, task: TaskId, handle: int, d: nat, x: TaskId, h: int, y: TaskId, k: int)
    requires Inv(s) && Fd(s, task, handle) == Some(d) && d in s.descs && s.descs[d].inode in s.inodes
    ensures HandleOk(DropDesc(s, task, handle, d), x, h, y, k)
  {
    HandleFacts(s, x, h, y, k);
    HandleFacts(s, x, h, task, handle);
    hide Inv;
  }

  lemma DropDescKeepsInv(s: State, task: TaskId, handle: int, d: nat)
    requires Inv(s) && Fd(s, task, handle) == Some(d) && d in s.descs && s.descs[d].inode in s.inodes
    ensures Inv(DropDesc(s, task, handle, d))
  {
    var n, i := DropDesc(s, task, handle, d), s.descs[d].inode;
    NodeFacts(s, ROOT, i);
    forall x, h, y, k
      ensures HandleOk(n, x, h, y, k)
    {
      DropDescHandle(s, task, handle, d, x, h, y, k);
    }
    forall e <- n.descs
      ensures DescOk(n, e)
    {
      DescFacts(s, e);
    }
    hide Inv, HandleOk, FilesOf;
    assert Opens(n, i) == Opens(s, i) - {d};
    assert d in Opens(s, i);
    forall j <- s.inodes | j != i
      ensures Opens(n, j) == Opens(s, j)
    {
    }
    hide Opens, Links;
    SameTreeKeepsInv(s, n, i);
  }

  /** New bytes, size and position behind a descriptor. */
  lemma PutFileKeepsInv(s: State, d: nat, f: RamFile.File)
    requires Inv(s) && HasFile(s, d) && RamFile.FileOk(f)
    ensures Inv(PutFile(s, d, f))
  {
    var n, i := PutFile(s, d, f), s.descs[d].inode;
    NodeFacts(s, ROOT, i);
    forall x, h, y, k
      ensures HandleOk(n, x, h, y, k)
    {
      HandleFacts(s, x, h, y, k);
    }
    forall e <- n.descs
      ensures DescOk(n, e)
    {
      DescFacts(s, e);
    }
    hide Inv, HandleOk, FilesOf;
    forall j
      ensures Opens(n, j) == Opens(s, j)
    {
    }
    hide Opens, Links;
    SameTreeKeepsInv(s, n, i);
  }
}
