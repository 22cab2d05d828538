/** The virtual file system as the kernel runs it: loops over the path and the entries of a folder, and
    counts and lists updated one after the other. */
module Vfs {
  import opened Common
  import opened Paths
  import opened VfsModel
  import C = VfsCalls
  import I = VfsInv
  import R = VfsRuns
  import RamFile
  import Vector

  lemma {:induction false} SlashIs(p: string, i: nat)
    requires i <= |p| && '/' !in p[..i] && (i < |p| ==> p[i] == '/')
    ensures Slash(p) == i
    decreases i
  {
    if i > 0 {
      assert p[0] == p[..i][0];
      assert p[1..][..i - 1] == p[..i][1..];
      SlashIs(p[1..], i - 1);
    }
  }

  /** Before the first slash there is none. */
  lemma NoSlashBefore(path: string, at: nat, i: nat)
    requires at + i < |path| && '/' !in path[at..at + i] && path[at + i] != '/' && i <= Slash(path[at..])
    ensures i < Slash(path[at..])
  {
    assert path[at..][i] == path[at + i];
  }

  /** What is left of the path from position i on; i may be one past the end. */
  function Rest(p: string, i: nat): string {
    if i <= |p| then p[i..] else ""
  }

  /** One round of the token loop. */
  lemma TokenStep(p: string, at: nat, i: nat)
    requires at < |p| && at + i <= |p| && '/' !in p[at..at + i] && (at + i < |p| ==> p[at + i] == '/')
    ensures Tokens(Rest(p, at)) == [p[at..at + i]] + Tokens(Rest(p, at + i + 1))
    ensures at + i + 1 <= |p| ==> p[at + i] == '/'
    ensures at + i + 1 > |p| ==> EndsInName(p)
  {
    hide Tokens, Slash;
    var q := p[at..];
    assert q[..i] == p[at..at + i];
    SlashIs(q, i);
    TokensUnfold(q);
    if i < |q| {
      assert q[i + 1..] == p[at + i + 1..];
    } else {
      assert q == p[at..at + i];
      assert p[|p| - 1] == p[at..at + i][i - 1];
    }
  }

  lemma ScanStep(s: State, t: nat, found: bool, token: string, rest: seq<string>)
    ensures Scan(s, t, found, [token] + rest) ==
            if !Traversable(s, t) then Scanned(t, false)
            else if Child(s, t, token).None? then Scan(s, t, false, rest)
            else Scan(s, Child(s, t, token).value, true, rest)
  {
    assert ([token] + rest)[1..] == rest;
  }

  /** The loop of vec_erase_val: finds the first x and closes the gap. */
  method EraseVal(q: seq<nat>, x: nat) returns (r: seq<nat>, index: nat)
    ensures r == Without(q, x) && index == Vector.IndexOf(q, x)
  {
    index := 0;
    while index < |q|
      invariant 0 <= index <= |q| && forall j :: 0 <= j < index ==> q[j] != x
      invariant Without(q, x) == q[..index] + Without(q[index..], x)
    {
      assert q[index..][1..] == q[index + 1..];
      if q[index] == x {
        return q[..index] + q[index + 1..], index;
      }
      assert q[..index] + ([q[index]] + Without(q[index + 1..], x)) == q[..index + 1] + Without(q[index + 1..], x);
      index := index + 1;
    }
    return q, index;
  }

  lemma CopiedStep(s: State, t: nat, token: string, rest: seq<string>)
    ensures Copied(s, t, [token] + rest) ==
            if !Traversable(s, t) then [token]
            else if Child(s, t, token).None? then [token] + Copied(s, t, rest)
            else [token] + Copied(s, Child(s, t, token).value, rest)
  {
    assert ([token] + rest)[1..] == rest;
  }

  /** Components that fit. */
  ghost predicate Fit(toks: seq<string>) {
    forall token <- toks :: |token| + 1 <= MAX_PATH_LEN
  }

  lemma FitStep(token: string, rest: seq<string>)
    requires Fit([token] + rest)
    ensures |token| < MAX_PATH_LEN && Fit(rest)
  {
    assert ([token] + rest)[0] == token;
    assert forall x <- rest :: x in [token] + rest;
  }

  class Vfs {
    var inodes: map<nat, Inode>
    var tnodes: map<nat, Tnode>
    var idents: map<nat, seq<Byte>>
    var descs: map<nat, Desc>
    var files: map<TaskId, seq<Option<nat>>>
    const tmpbuff: array<char>
    /** Whether every copy has stayed inside its block so far. */
    ghost var intact: bool

    ghost function View(): State
      reads this
    {
      State(inodes, tnodes, idents, descs, files, intact)
    }

    ghost predicate Valid()
      reads this
    {
      Inv(View()) && tmpbuff.Length == MAX_PATH_LEN
    }

    /** Copies the next token to tmpbuff. */
    method Token(path: string, at: nat) returns (i: nat)
      requires at < |path| && Slash(path[at..]) < tmpbuff.Length == MAX_PATH_LEN
      modifies tmpbuff
      ensures at + i <= |path| && i == Slash(path[at..]) && tmpbuff[..i] == path[at..at + i]
      ensures '/' !in path[at..at + i] && (at + i < |path| ==> path[at + i] == '/')
    {
      hide Slash;
      i := 0;
      while at + i < |path| && path[at + i] != '/'
        invariant at + i <= |path| && i <= Slash(path[at..])
        invariant tmpbuff[..i] == path[at..at + i] && '/' !in path[at..at + i]
      {
        NoSlashBefore(path, at, i);
        tmpbuff[i] := path[at + i];
        i := i + 1;
      }
      assert path[at..][..i] == path[at..at + i];
      SlashIs(path[at..], i);
      tmpbuff[i] := '\0';
    }

    /** Looks for a child of t. */
    method FindChild(t: nat, name: string) returns (child: Option<nat>)
      requires Valid() && HasInode(View(), t)
      ensures child == FindKid(View(), inodes[tnodes[t].inode].kids, name)
    {
      var kids := inodes[tnodes[t].inode].kids;
      I.KidFacts(View(), tnodes[t].inode, 0, 0);
      hide Inv;
      var j := 0;
      while j < |kids|
        invariant 0 <= j <= |kids|
        invariant FindKid(View(), kids, name) == FindKid(View(), kids[j..], name)
      {
        I.KidFacts(View(), tnodes[t].inode, j, j);
        if tnodes[kids[j]].name == name {
          return Some(kids[j]);
        }
        j := j + 1;
      }
      return None;
    }

    /** Cuts the next token off, and says where the search goes with it. */
    method NextToken(
      p: string, at: nat, ghost curr: nat, ghost found: bool, ghost seen: seq<string>, ghost last: string)
      returns (token: string, next: nat)
      requires tmpbuff.Length == MAX_PATH_LEN && at < |p|
      requires Searching(View(), p, curr, found, at) && Consumed(p, at, seen, last, found)
      modifies tmpbuff
      ensures at < next
      ensures Consumed(p, next, seen + [token], token, true) && Consumed(p, next, seen + [token], token, false)
      ensures !Traversable(View(), curr) ==> Scan(View(), ROOT, true, Tokens(p)) == Scanned(curr, false)
      ensures Traversable(View(), curr) ==>
                match Child(View(), curr, token)
                case None => Searching(View(), p, curr, false, next)
                case Some(c) => Searching(View(), p, c, true, next)
    {
      hide Tokens, Scan, Traversable, Child, EndsInName, Slash, Searching, Consumed;
      TokenFits(View(), p, curr, found, at);
      var i := Token(p, at);
      token := tmpbuff[..i];
      TokenStep(p, at, i);
      Round(View(), p, curr, found, at, i);
      ConsumedStep(p, at, i, seen, last, token, found);
      next := at + i + 1;
    }

    /** The token loop of path_to_node. */
    method Walk(path: string) returns (curr: nat, found: bool, past: bool, token: string)
      requires Valid() && IsAbsolute(path) && PathFits(View(), path)
      modifies tmpbuff
      ensures Scanned(curr, found) == Scan(View(), ROOT, true, Tokens(path[1..]))
      ensures HasInode(View(), curr)
      ensures !found && Traversable(View(), curr) ==> (past <==> EndsInName(path[1..])) && Cut(token) == NewName(path)
    {
      StartSearch(View(), path);
      StartConsumed(path[1..]);
      hide Inv, Tokens, Scan, Traversable, Child, EndsInName, PathFits, Slash, Searching, Consumed;
      curr, found, token := ROOT, true, "";
      var p := path[1..];
      var at := 0;
      ghost var s := View();
      ghost var seen: seq<string> := [];
      RootNode(s);
      while at < |p|
        invariant Consumed(p, at, seen, token, found)
        invariant curr in tnodes && HasInode(s, curr)
        invariant Searching(s, p, curr, found, at)
        decreases |p| - at
      {
        token, at := NextToken(p, at, curr, found, seen, token);
        seen := seen + [token];
        found := false;
        if inodes[tnodes[curr].inode].kind !in {FOLDER, MOUNTPOINT} {
          NotTraversable(s, curr);
          return curr, false, at > |p|, token;
        }
        YesTraversable(s, curr);
        var child := FindChild(curr, Cut(token));
        ChildIs(s, curr, token);
        if child.Some? {
          found := true;
          curr := child.value;
          KidNode(s, curr);
        }
      }
      past := at > |p|;
      EndSearch(s, p, curr, found, at);
      EndConsumed(path, at, seen, token, found);
    }

    constructor (inode: nat, ident: nat)
      ensures Valid() && View() == Boot(inode, ident) && fresh(tmpbuff)
    {
      inodes := map[inode := Inode(MOUNTPOINT, 0, 1, Some(ROOT), [], ident, 0)];
      tnodes := map[ROOT := Tnode("", inode, None)];
      idents, descs, files, intact := map[ident := []], map[], map[], true;
      tmpbuff := new char[MAX_PATH_LEN](_ => ' ');
      new;
      R.BootInv(inode, ident);
    }

    /** A node of this name in the folder curr. */
    method AllocNode(curr: nat, name: string, kind: Kind, a: Fresh)
      requires HasInode(View(), curr) && IsFresh(View(), a)
      modifies this`inodes, this`tnodes, this`idents
      ensures View() == MakeNode(old(View()), curr, name, kind, a)
    {
      var d := tnodes[curr].inode;
      inodes := inodes[a.inode := Inode(kind, 0, 1, inodes[d].mount, [], a.ident, 0)];
      tnodes := tnodes[a.tnode := Tnode(name, a.inode, Some(d))];
      inodes := inodes[d := PushKid(inodes[d], a.tnode)];
      idents := idents[a.ident := []];
    }

    /** path_to_node; create and errOnExist are the flags CREATE and ERR_ON_EXIST, and a the addresses that
        kmalloc hands out for a new node. */
    method PathToNode(path: string, create: bool, errOnExist: bool, kind: Kind, a: Fresh) returns (node: Option<nat>)
      requires Valid() && PathFits(View(), path) && IsFresh(View(), a)
      modifies this`inodes, this`tnodes, this`idents, tmpbuff
      ensures Valid()
      ensures Lookup(old(View()), path).Some? ==>
                View() == old(View()) && node == if errOnExist then None else Lookup(old(View()), path)
      ensures Lookup(old(View()), path).None? ==>
                && View() == (if create then Create(old(View()), path, kind, a) else old(View()))
                && node == if create && Home(old(View()), path).Some? then Some(a.tnode) else None
    {
      hide Inv, Tokens, Scan, NewName, MakeNode, IsFresh;
      if path == "" || path[0] != '/' {
        return None;
      }
      var curr, found, past, token := Walk(path);
      if found {
        return if errOnExist then None else Some(curr);
      }
      var d := tnodes[curr].inode;
      if inodes[d].kind !in {FOLDER, MOUNTPOINT} {
        return None;
      }
      if create && past {
        C.CreateKeepsInv(View(), path, kind, a);
        AllocNode(curr, Cut(token), kind, a);
        return Some(a.tnode);
      }
      return None;
    }

    method CreateNode(path: string, kind: Kind, a: Fresh) returns (status: int)
      requires Valid() && PathFits(View(), path) && IsFresh(View(), a)
      modifies this`inodes, this`tnodes, this`idents, tmpbuff
      ensures Valid() && View() == Create(old(View()), path, kind, a)
      ensures R.IsStep(old(View()), R.DoCreate(path, kind, a), View())
      ensures status == if Home(old(View()), path).Some? then 0 else -1
    {
      hide Inv;
      LookupOrHome(View(), path);
      NoHome(View(), path, kind, a);
      var node := PathToNode(path, true, true, kind, a);
      status := if node.None? then -1 else 0;
    }

    method LinkNode(source: string, target: string, a: Fresh) returns (status: int)
      requires Valid() && PathFits(View(), source) && PathFits(View(), target) && IsFresh(View(), a)
      modifies this`inodes, this`tnodes, this`idents, tmpbuff
      ensures View() == Link(old(View()), source, target, a) && tmpbuff.Length == MAX_PATH_LEN
      ensures R.IsStep(old(View()), R.DoLink(source, target, a), View())
      ensures Valid() <==> R.SameMounts(old(View()), source, target)
      ensures status == if Lookup(old(View()), source).Some? && Home(old(View()), target).Some?
                           && R.SameMounts(old(View()), source, target) then 0 else -1
    {
      hide Inv, Lookup, Home, NewName, Create, AddName, AddInode, IsFresh;
      ghost var s := View();
      C.LinkKeepsInvExactly(s, source, target, a);
      LookupOrHome(s, target);
      var src := PathToNode(source, false, false, FILE, a);
      if src.None? {
        return -1;
      }
      C.LookupExists(s, source);
      var i := tnodes[src.value].inode;
      var kind := inodes[i].kind;
      NoHome(s, target, kind, a);
      var made := PathToNode(target, true, true, kind, a);
      if made.None? {
        return -1;
      }
      C.HomeFacts(s, target);
      CreateIs(s, target, kind, a);
      MadeIs(s, Home(s, target).value, NewName(target), kind, a);
      if inodes[tnodes[made.value].inode].mount != inodes[i].mount {
        // setlink leaves the data of an inode with references alone, and so does freeing the tnode
        tnodes := tnodes - {made.value};
        return -1;
      }
      TakeOver(made.value, i, s, Home(s, target).value, NewName(target), kind, a);
      return 0;
    }

    /** The tnode t, made a moment ago, gets the inode i; its own inode and data go again. */
    method TakeOver(
      t: nat, i: nat, ghost s: State, ghost dir: nat, ghost name: string, ghost kind: Kind, ghost a: Fresh)
      requires HasInode(s, dir) && IsFresh(s, a) && i in s.inodes && t == a.tnode
      requires View() == MakeNode(s, dir, name, kind, a)
      modifies this`inodes, this`tnodes, this`idents
      ensures View() == AddName(s, i, s.tnodes[dir].inode, name, t)
    {
      TakenOver(s, dir, name, kind, a, i);
      hide MakeNode, AddName;
      var made := tnodes[t].inode;
      inodes := inodes[i := inodes[i].(refs := inodes[i].refs + 1)];
      inodes := inodes[made := inodes[made].(refs := 0)];
      idents := idents - {inodes[made].ident};
      tnodes := tnodes[t := tnodes[t].(inode := i)];
      inodes := inodes - {made};
    }

    /** vec_erase_val on the child list of p. Its copy may leave the block. */
    method EraseKid(p: nat, t: nat)
      requires p in inodes
      modifies this`inodes, this`intact
      ensures inodes == old(inodes)[p := old(inodes)[p].(kids := Without(old(inodes)[p].kids, t))]
      ensures var folder := old(inodes)[p];
              var index := Vector.IndexOf(folder.kids, t);
              var fits := index < |folder.kids| ==>
                            Vector.EraseFits(|folder.kids|, index, Vector.Capacity(folder.alloc));
              intact == (old(intact) && fits)
    {
      var kids, index := EraseVal(inodes[p].kids, t);
      if index < |inodes[p].kids| {
        intact := intact && Vector.EraseFits(|inodes[p].kids|, index, Vector.Capacity(inodes[p].alloc));
      }
      inodes := inodes[p := inodes[p].(kids := kids)];
    }

    /** The steps of vfs_unlink once the name t is known: the count, the data, the folder's list, and
        vfs_free_nodes. */
    method RemoveName(t: nat)
      requires HasInode(View(), t) && tnodes[t].parent.Some? && tnodes[t].parent.value in inodes
      requires inodes[tnodes[t].inode].kids == []
      modifies this`inodes, this`tnodes, this`idents, this`intact
      ensures var s, n := old(View()), DropName(old(View()), t);
              var i := s.tnodes[t].inode;
              View() == if n.inodes[i].refs == 0 then DropInode(DropIdent(n, s.inodes[i].ident), i) else n
    {
      hide Without;
      var i, p := tnodes[t].inode, tnodes[t].parent.value;
      inodes := inodes[i := inodes[i].(refs := inodes[i].refs - 1)];
      if inodes[i].refs == 0 {
        idents := idents - {inodes[i].ident};
      }
      EraseKid(p, t);
      if inodes[i].refs == 0 {
        inodes := inodes - {i};
      }
      tnodes := tnodes - {t};
    }

    method UnlinkNode(path: string) returns (status: int)
      requires Valid() && PathFits(View(), path) && R.NotEmptyRoot(View(), path)
      modifies this`inodes, this`tnodes, this`idents, this`intact, tmpbuff
      ensures View() == Unlink(old(View()), path) && tmpbuff.Length == MAX_PATH_LEN
      ensures R.IsStep(old(View()), R.DoUnlink(path), View())
      ensures Valid() <==> UnlinkFits(old(View()), path)
      ensures var s, node := old(View()), Lookup(old(View()), path);
              && (node.Some? ==> HasInode(s, node.value))
              && status == if node.Some? && s.inodes[s.tnodes[node.value].inode].kids == [] then 0 else -1
    {
      hide Inv, Lookup, DropName, EraseSafe;
      ghost var s := View();
      C.UnlinkKeepsInvExactly(s, path);
      var node := Find(path);
      if node.None? {
        return -1;
      }
      var t := node.value;
      ParentOf(s, t);
      if inodes[tnodes[t].inode].kids != [] {
        return -1;
      }
      RemoveName(t);
      return 0;
    }

    /** path_to_node with NO_CREATE. */
    method Find(path: string) returns (node: Option<nat>)
      requires Valid() && PathFits(View(), path)
      modifies tmpbuff
      ensures node == Lookup(View(), path) && (node.Some? ==> HasInode(View(), node.value))
    {
      hide Inv, Scan, Tokens;
      if path == "" || path[0] != '/' {
        return None;
      }
      var curr, found, past, token := Walk(path);
      return if found then Some(curr) else None;
    }

    /** vfs_open; d is the address of the new descriptor. */
    method OpenNode(task: TaskId, path: string, mode: Mode, d: nat) returns (handle: int)
      requires Valid() && PathFits(View(), path) && d !in descs
      modifies this`inodes, this`descs, this`files, tmpbuff
      ensures Valid() && View() == Open(old(View()), task, path, mode, d)
      ensures R.IsStep(old(View()), R.DoOpen(task, path, mode, d), View())
      ensures handle == if Lookup(old(View()), path).Some? then |FilesOf(old(View()), task)| else -1
      ensures Lookup(old(View()), path).Some? ==> Fd(View(), task, handle) == Some(d)
    {
      hide Inv, Lookup, PathFits, R.IsStep;
      OpenIsStep(View(), task, path, mode, d);
      C.OpenKeepsInv(View(), task, path, mode, d);
      var node := Find(path);
      if node.None? {
        return -1;
      }
      var i := tnodes[node.value].inode;
      inodes := inodes[i := inodes[i].(refs := inodes[i].refs + 1)];
      descs := descs[d := Desc(node.value, i, mode, 0)];
      var open := if task in files then files[task] else [];
      files := files[task := open + [Some(d)]];
      return |open|;
    }

    /** handle_to_fd */
    method HandleToFd(task: TaskId, handle: int) returns (d: Option<nat>)
      requires Valid()
      ensures d == Fd(View(), task, handle) && (d.Some? ==> HasFile(View(), d.value))
    {
      if Fd(View(), task, handle).Some? {
        C.FdExists(View(), task, handle);
      }
      hide Inv;
      if handle < 0 || task !in files || handle >= |files[task]| {
        return None;
      }
      return files[task][handle];
    }

    method CloseNode(task: TaskId, handle: int) returns (status: int)
      requires Valid()
      modifies this`inodes, this`descs, this`files
      ensures Valid() && View() == Close(old(View()), task, handle)
      ensures R.IsStep(old(View()), R.DoClose(task, handle), View())
      ensures status == if Fd(old(View()), task, handle).Some? then 0 else -1
    {
      hide Inv;
      C.CloseKeepsInv(View(), task, handle);
      var fd := HandleToFd(task, handle);
      if fd.None? {
        return -1;
      }
      var i := descs[fd.value].inode;
      inodes := inodes[i := inodes[i].(refs := inodes[i].refs - 1)];
      descs := descs - {fd.value};
      files := files[task := files[task][handle := None]];
      return 0;
    }

    /** vfs_read from a node with a size, at a position inside it. */
    method ReadNode(task: TaskId, handle: int, len: nat) returns (r: int, buff: seq<Byte>)
      requires Valid() && CanRead(View(), task, handle, len)
      modifies this`descs
      ensures Valid() && View() == Read(old(View()), task, handle, len).0
      ensures R.IsStep(old(View()), R.DoRead(task, handle, len), View())
      ensures buff == Read(old(View()), task, handle, len).1 && r == |buff|
    {
      hide Inv, R.IsStep;
      ReadIsStep(View(), task, handle, len);
      C.ReadKeepsInv(View(), task, handle, len);
      var fd := HandleToFd(task, handle);
      if fd.None? {
        return 0, [];
      }
      ghost var f := FileAt(View(), fd.value);
      RamFile.ReadFitsExactly(f, len);
      PutPosition(View(), fd.value, f.pos + RamFile.ReadLen(f, len));
      hide RamFile.CanRead, PutFile;
      var desc := descs[fd.value];
      var inode := inodes[desc.inode];
      var n := len;
      if (desc.pos + len) % RamFile.WORD > inode.size {
        n := (inode.size - desc.pos) % RamFile.WORD;
        if n == 0 {
          return 0, [];
        }
      }
      buff := idents[inode.ident][desc.pos..desc.pos + n];
      descs := descs[fd.value := desc.(pos := desc.pos + n)];
      return n, buff;
    }

    /** The part of vfs_write under the lock: the size and the allocation grow, the bytes are copied. */
    method Store(d: nat, bytes: seq<Byte>, fill: nat -> Byte)
      requires HasFile(View(), d) && FileAt(View(), d).size <= |FileAt(View(), d).data|
      requires RamFile.CanWrite(FileAt(View(), d), |bytes|)
      modifies this`inodes, this`idents, this`descs
      ensures HasFile(old(View()), d)
      ensures var f := FileAt(old(View()), d);
              && f.pos + |bytes| <= |RamFile.Sync(f.data, RamFile.SizeFor(f, |bytes|), fill)|
              && View() == PutFile(old(View()), d, RamFile.Write(f, bytes, fill))
    {
      StoreIs(View(), d, bytes, fill);
      hide RamFile.Patch, RamFile.CanWrite, RamFile.Sync, RamFile.Write, RamFile.SizeFor, PutFile;
      var desc := descs[d];
      Grow(desc.inode, (desc.pos + |bytes|) % RamFile.WORD, fill);
      var ident := inodes[desc.inode].ident;
      assert desc.pos + |bytes| <= |idents[ident]|;
      idents := idents[ident := RamFile.Patch(idents[ident], desc.pos, bytes)];
      descs := descs[d := desc.(pos := desc.pos + |bytes|)];
    }

    /** The file grows to end bytes if it is shorter, and with ramfs_sync the allocation. */
    method Grow(i: nat, end: nat, fill: nat -> Byte)
      requires i in inodes && inodes[i].ident in idents && inodes[i].size <= |idents[inodes[i].ident]|
      modifies this`inodes, this`idents
      ensures var size := if end > old(inodes)[i].size then end else old(inodes)[i].size;
              && inodes == old(inodes)[i := old(inodes)[i].(size := size)]
              && idents == old(idents)[inodes[i].ident := RamFile.Sync(old(idents)[inodes[i].ident], size, fill)]
    {
      if end > inodes[i].size {
        inodes := inodes[i := inodes[i].(size := end)];
        if end > |idents[inodes[i].ident]| {
          idents := idents[inodes[i].ident := RamFile.Sync(idents[inodes[i].ident], end, fill)];
        }
      }
    }

    /** vfs_write to a node with a size; fill is what kmrealloc's new memory holds. */
    method WriteNode(task: TaskId, handle: int, bytes: seq<Byte>, fill: nat -> Byte) returns (r: int)
      requires Valid() && CanWrite(View(), task, handle, |bytes|)
      modifies this`inodes, this`idents, this`descs
      ensures Valid() && View() == Write(old(View()), task, handle, bytes, fill)
      ensures R.IsStep(old(View()), R.DoWrite(task, handle, bytes, fill), View())
      ensures var s, fd := old(View()), Fd(old(View()), task, handle);
              && (fd.Some? ==> HasFile(s, fd.value))
              && r == if fd.Some? && s.descs[fd.value].mode != READ then |bytes| else 0
    {
      hide Inv, PutFile, Fd, RamFile.Write, RamFile.Sync, RamFile.SizeFor;
      C.WriteKeepsInv(View(), task, handle, bytes, fill);
      var fd := HandleToFd(task, handle);
      if fd.None? || descs[fd.value].mode == READ {
        return 0;
      }
      C.FdExists(View(), task, handle);
      Store(fd.value, bytes, fill);
      return |bytes|;
    }

    method SeekNode(task: TaskId, handle: int, pos: nat) returns (status: int)
      requires Valid() && pos < RamFile.WORD
      modifies this`descs
      ensures Valid() && View() == Seek(old(View()), task, handle, pos)
      ensures R.IsStep(old(View()), R.DoSeek(task, handle, pos), View())
      ensures var s, fd := old(View()), Fd(old(View()), task, handle);
              && (fd.Some? ==> HasFile(s, fd.value))
              && status == if fd.Some? && (s.descs[fd.value].mode != READ || pos < FileAt(s, fd.value).size)
                           then 0 else -1
    {
      hide Inv;
      C.SeekKeepsInv(View(), task, handle, pos);
      var fd := HandleToFd(task, handle);
      if fd.None? {
        return -1;
      }
      var desc := descs[fd.value];
      if pos >= inodes[desc.inode].size && desc.mode == READ {
        return -1;
      }
      descs := descs[fd.value := desc.(pos := pos)];
      assert View() == PutFile(old(View()), fd.value, FileAt(old(View()), fd.value).(pos := pos));
      return 0;
    }

    /** vfs_mount of ramfs; the new root may get the address that the folder's inode had. */
    method MountRamfs(path: string, i: nat, ident: nat) returns (status: int)
      requires Valid() && PathFits(View(), path) && C.MountFresh(View(), path, i, ident)
      modifies this`inodes, this`tnodes, this`idents, tmpbuff
      ensures View() == Mount(old(View()), path, i, ident) && tmpbuff.Length == MAX_PATH_LEN
      ensures R.IsStep(old(View()), R.DoMount(path, i, ident), View())
      ensures Valid() <==> R.Enabled(old(View()), R.DoMount(path, i, ident))
      ensures var s, node := old(View()), Lookup(old(View()), path);
              && (node.Some? ==> HasInode(s, node.value))
              && status == if node.Some? && s.inodes[s.tnodes[node.value].inode].kind == FOLDER
                              && s.inodes[s.tnodes[node.value].inode].kids == [] then 0 else -1
    {
      hide Inv, Lookup, R.IsStep;
      ghost var s := View();
      MountIsStep(s, path, i, ident);
      if MountAt(s, path).Some? {
        C.MountKeepsInvExactly(s, path, i, ident);
      }
      var node := Find(path);
      if node.None? {
        return -1;
      }
      var t := node.value;
      var was := tnodes[t].inode;
      if inodes[was].kind != FOLDER || inodes[was].kids != [] {
        return -1;
      }
      inodes := inodes - {was};
      inodes := inodes[i := Inode(MOUNTPOINT, 0, 1, None, [], ident, 0)];
      idents := idents[ident := []];
      tnodes := tnodes[t := tnodes[t].(inode := i)];
      inodes := inodes[i := inodes[i].(mount := Some(t))];
      return 0;
    }
  }

  lemma OpenIsStep(s: State, task: TaskId, path: string, mode: Mode, d: nat)
    ensures R.IsStep(s, R.DoOpen(task, path, mode, d), Open(s, task, path, mode, d))
  {
    hide Open, PathFits;
  }

  lemma ReadIsStep(s: State, task: TaskId, handle: int, len: nat)
    requires CanRead(s, task, handle, len)
    ensures R.IsStep(s, R.DoRead(task, handle, len), Read(s, task, handle, len).0)
  {
    hide Read, CanRead;
  }

  lemma MountIsStep(s: State, path: string, i: nat, ident: nat)
    ensures R.IsStep(s, R.DoMount(path, i, ident), Mount(s, path, i, ident))
  {
    hide Mount, MountAt, PathFits;
  }

  /** The new state of a write, in the steps in which the maps change. */
  lemma StoreIs(s: State, d: nat, bytes: seq<Byte>, fill: nat -> Byte)
    requires HasFile(s, d) && FileAt(s, d).size <= |FileAt(s, d).data| && RamFile.CanWrite(FileAt(s, d), |bytes|)
    ensures var f, i, ident := FileAt(s, d), s.descs[d].inode, s.inodes[s.descs[d].inode].ident;
            var end := (f.pos + |bytes|) % RamFile.WORD;
            var size := if end > f.size then end else f.size;
            var room := RamFile.Sync(f.data, size, fill);
            && size == RamFile.SizeFor(f, |bytes|) && f.pos + |bytes| <= |room|
            && PutFile(s, d, RamFile.Write(f, bytes, fill)) ==
               s.(inodes := s.inodes[i := s.inodes[i].(size := size)],
                  idents := s.idents[ident := room][ident := RamFile.Patch(room, f.pos, bytes)],
                  descs := s.descs[d := s.descs[d].(pos := f.pos + |bytes|)])
  {
    RamFile.WriteFitsExactly(FileAt(s, d), |bytes|, fill);
    hide RamFile.Patch, RamFile.Sync;
  }

  /** A new position only. */
  lemma PutPosition(s: State, d: nat, pos: nat)
    requires HasFile(s, d)
    ensures PutFile(s, d, FileAt(s, d).(pos := pos)) == s.(descs := s.descs[d := s.descs[d].(pos := pos)])
    ensures PutFile(s, d, FileAt(s, d)) == s
  {
  }

  lemma ParentOf(s: State, t: nat)
    requires Inv(s) && t in s.tnodes
    ensures HasInode(s, t)
    ensures t != ROOT ==> s.tnodes[t].parent.Some? && s.tnodes[t].parent.value in s.inodes
  {
    I.NodeFacts(s, t, ROOT);
    hide Inv;
  }

  /** The new node's tnode with inode i instead of its own is a new name for i. */
  lemma TakenOver(s: State, dir: nat, name: string, kind: Kind, a: Fresh, i: nat)
    requires HasInode(s, dir) && IsFresh(s, a) && i in s.inodes
    ensures var n := MakeNode(s, dir, name, kind, a);
            && i in n.inodes && a.inode in n.inodes && i != a.inode && a.tnode in n.tnodes
            && n.tnodes[a.tnode].inode == a.inode && n.inodes[a.inode].ident == a.ident
            && AddName(s, i, s.tnodes[dir].inode, name, a.tnode) ==
               n.(inodes := n.inodes[i := n.inodes[i].(refs := n.inodes[i].refs + 1)] - {a.inode},
                  tnodes := n.tnodes[a.tnode := n.tnodes[a.tnode].(inode := i)], idents := n.idents - {a.ident})
  {
    var n, d := MakeNode(s, dir, name, kind, a), s.tnodes[dir].inode;
    var x := AddName(s, i, d, name, a.tnode);
    assert n.idents - {a.ident} == x.idents;
    assert n.tnodes[a.tnode := n.tnodes[a.tnode].(inode := i)] == x.tnodes;
    assert n.inodes[i := n.inodes[i].(refs := n.inodes[i].refs + 1)] - {a.inode} == x.inodes;
  }

  lemma MadeIs(s: State, dir: nat, name: string, kind: Kind, a: Fresh)
    requires HasInode(s, dir) && IsFresh(s, a)
    ensures var n := MakeNode(s, dir, name, kind, a);
            && HasInode(n, a.tnode) && n.inodes[n.tnodes[a.tnode].inode].mount == s.inodes[s.tnodes[dir].inode].mount
            && forall i <- s.inodes :: i in n.inodes && n.inodes[i].mount == s.inodes[i].mount
  {
  }

  /** A path that finds something has no home. */
  lemma LookupOrHome(s: State, path: string)
    ensures Lookup(s, path).None? || Home(s, path).None?
  {
    hide Scan, Tokens;
  }

  lemma NoHome(s: State, path: string, kind: Kind, a: Fresh)
    ensures Home(s, path).None? ==> Create(s, path, kind, a) == s
  {
    hide Home;
  }

  lemma CreateIs(s: State, path: string, kind: Kind, a: Fresh)
    requires Home(s, path).Some? && HasInode(s, Home(s, path).value)
    ensures Create(s, path, kind, a) == MakeNode(s, Home(s, path).value, NewName(path), kind, a)
  {
    hide Home, NewName;
  }

  /** The state of the token loop at position at: what is left leads where the whole path leads, and all
      that will be copied fits. */
  ghost predicate Searching(s: State, p: string, curr: nat, found: bool, at: nat) {
    && Scan(s, curr, found, Tokens(Rest(p, at))) == Scan(s, ROOT, true, Tokens(p))
    && Fit(Copied(s, curr, Tokens(Rest(p, at))))
  }

  lemma StartSearch(s: State, path: string)
    requires IsAbsolute(path) && PathFits(s, path)
    ensures Searching(s, path[1..], ROOT, true, 0)
  {
    hide Tokens, Scan, Copied;
    assert Rest(path[1..], 0) == path[1..];
  }

  lemma EndSearch(s: State, p: string, curr: nat, found: bool, at: nat)
    requires Searching(s, p, curr, found, at) && at >= |p|
    ensures Scan(s, ROOT, true, Tokens(p)) == Scanned(curr, found) && Tokens(Rest(p, at)) == []
  {
    assert Rest(p, at) == "" && Tokens("") == [];
    hide Tokens, Fit, Copied;
    assert Scan(s, curr, found, []) == Scanned(curr, found);
  }

  /** The next token fits. */
  lemma TokenFits(s: State, p: string, curr: nat, found: bool, at: nat)
    requires at < |p| && Searching(s, p, curr, found, at)
    ensures Slash(p[at..]) < MAX_PATH_LEN
  {
    hide Tokens, Slash, Scan, Fit, Copied;
    var q := p[at..];
    TokensUnfold(q);
    assert Rest(p, at) == q && q[..|q|] == q;
    var rest := if Slash(q) < |q| then Tokens(q[Slash(q) + 1..]) else [];
    assert Tokens(q) == [q[..Slash(q)]] + rest;
    FirstFits(s, curr, q[..Slash(q)], rest);
  }

  lemma FirstFits(s: State, t: nat, token: string, rest: seq<string>)
    requires Fit(Copied(s, t, [token] + rest))
    ensures |token| < MAX_PATH_LEN
  {
    CopiedStep(s, t, token, rest);
    hide Copied, Traversable, Child;
    var copied := Copied(s, t, [token] + rest);
    assert copied[0] == token && copied[0] in copied;
  }

  /** One round: the token of i characters at position at. */
  lemma Round(s: State, p: string, curr: nat, found: bool, at: nat, i: nat)
    requires Searching(s, p, curr, found, at) && at < |p| && at + i <= |p|
    requires Tokens(Rest(p, at)) == [p[at..at + i]] + Tokens(Rest(p, at + i + 1))
    ensures !Traversable(s, curr) ==> Scan(s, ROOT, true, Tokens(p)) == Scanned(curr, false)
    ensures Traversable(s, curr) ==>
              match Child(s, curr, p[at..at + i])
              case None => Searching(s, p, curr, false, at + i + 1)
              case Some(c) => Searching(s, p, c, true, at + i + 1)
  {
    var token, rest := p[at..at + i], Tokens(Rest(p, at + i + 1));
    ScanStep(s, curr, found, token, rest);
    CopiedStep(s, curr, token, rest);
    hide Tokens, Traversable, Child, Scan, Copied, Fit;
    if Traversable(s, curr) {
      FitStep(token, Copied(s, if Child(s, curr, token).None? then curr else Child(s, curr, token).value, rest));
    }
  }

  lemma RootNode(s: State)
    requires Inv(s)
    ensures HasInode(s, ROOT)
  {
    I.NodeFacts(s, ROOT, ROOT);
    assert ROOT in s.tnodes;
    hide Inv;
  }

  lemma KidNode(s: State, t: nat)
    requires Inv(s) && t in s.tnodes
    ensures HasInode(s, t)
  {
    I.NodeFacts(s, t, ROOT);
    hide Inv;
  }

  lemma NotTraversable(s: State, t: nat)
    requires HasInode(s, t) && s.inodes[s.tnodes[t].inode].kind !in {FOLDER, MOUNTPOINT}
    ensures !Traversable(s, t)
  {
  }

  lemma YesTraversable(s: State, t: nat)
    requires HasInode(s, t) && s.inodes[s.tnodes[t].inode].kind in {FOLDER, MOUNTPOINT}
    ensures Traversable(s, t)
  {
  }

  lemma ChildIs(s: State, t: nat, token: string)
    requires HasInode(s, t)
    ensures Child(s, t, token) == FindKid(s, s.inodes[s.tnodes[t].inode].kids, Cut(token))
  {
  }

  /** What the token loop has cut off so far, the last piece of it being token. */
  ghost predicate Consumed(p: string, at: nat, seen: seq<string>, token: string, found: bool) {
    && at <= |p| + 1 && Tokens(p) == seen + Tokens(Rest(p, at))
    && (seen == [] <==> at == 0) && (seen == [] ==> found)
    && (seen != [] ==> token == seen[|seen| - 1])
    && (0 < at <= |p| ==> p[at - 1] == '/')
    && (at > |p| ==> EndsInName(p))
  }

  lemma StartConsumed(p: string)
    ensures Consumed(p, 0, [], "", true)
  {
    hide Tokens, EndsInName;
    assert Rest(p, 0) == p;
    assert [] + Tokens(p) == Tokens(p);
  }

  lemma ConsumedStep(p: string, at: nat, i: nat, seen: seq<string>, last: string, token: string, found: bool)
    requires Consumed(p, at, seen, last, found)
    requires at < |p| && at + i <= |p| && token == p[at..at + i]
    requires Tokens(Rest(p, at)) == [token] + Tokens(Rest(p, at + i + 1))
    requires at + i + 1 <= |p| ==> p[at + i] == '/'
    requires at + i + 1 > |p| ==> EndsInName(p)
    ensures Consumed(p, at + i + 1, seen + [token], token, true)
    ensures Consumed(p, at + i + 1, seen + [token], token, false)
  {
    hide Tokens, EndsInName;
    assert seen + ([token] + Tokens(Rest(p, at + i + 1))) == seen + [token] + Tokens(Rest(p, at + i + 1));
  }

  lemma EndConsumed(path: string, at: nat, seen: seq<string>, token: string, found: bool)
    requires IsAbsolute(path) && Consumed(path[1..], at, seen, token, found) && at >= |path| - 1
    requires Tokens(Rest(path[1..], at)) == []
    ensures !found ==> (at > |path| - 1 <==> EndsInName(path[1..])) && Cut(token) == NewName(path)
  {
    hide Tokens;
    assert Tokens(path[1..]) == seen;
  }
}
