/** The operations on names of the home-made file system, as they change the directory blocks and block headers
    (kernel/fs/asvfs.c). */
module Asvfs {
  import opened PathNames
  import opened Namespace

  datatype Status = Ok | PathNotFound | NotADirectory

  datatype DirEntry = DirEntry(name: string, kind: nat, blockId: Id)

  /** The directory in which the last part of a path is looked up or created, or 0. */
  function ParentBlock(d: Disk, path: string): Id
    requires Shaped(d)
  {
    var es := Elements(path);
    if LastPart(path, "") == "" || es == [] then Walk(d, es) else Walk(d, es[..|es| - 1])
  }

  /** How far a block is from the front of a list of entries; the length if it is not there. */
  function Find(es: seq<Id>, c: Id): (k: nat)
    ensures k <= |es| && (k < |es| ==> es[k] == c) && (k == |es| ==> c !in es) && forall i :: 0 <= i < k ==> es[i] != c
  {
    if es == [] then 0 else if es[0] == c then 0 else 1 + Find(es[1..], c)
  }

  class FileSystem {
    const root: Id
    var nextFree: Id
    var metas: seq<Meta>
    var blocks: seq<Block>

    function State(): Disk
      reads this
    {
      Disk(metas, blocks, root, nextFree)
    }

    constructor (d: Disk)
      requires DiskOk(d)
      ensures State() == d
    {
      root, nextFree, metas, blocks := d.root, d.nextFree, d.metas, d.blocks;
    }

    /** asvfs_readdir */
    method ReadDir(blockId: Id) returns (entries: seq<DirEntry>)
      requires Shaped(State()) && blockId < |blocks|
      ensures !IsDir(State(), blockId) ==> entries == []
      ensures IsDir(State(), blockId) ==>
                |entries| == blocks[blockId].nextIndex + 2 && blocks[blockId].nextIndex <= |blocks[blockId].index| &&
                entries[0] == DirEntry(".", DIRECTORY, 0) && entries[1] == DirEntry("..", DIRECTORY, 0) &&
                forall i :: 0 <= i < blocks[blockId].nextIndex ==>
                  var e := blocks[blockId].index[i];
                  e < |metas| && entries[i + 2].name == metas[e].name && entries[i + 2].blockId == metas[e].id &&
                  entries[i + 2].kind == if metas[e].kind == DIRECTORY then DIRECTORY else FILE
    {
      assert BlockOk(State(), blockId);
      var block := blocks[blockId];
      if block.kind != DIRECTORY { return []; }
      entries := [DirEntry(".", DIRECTORY, 0), DirEntry("..", DIRECTORY, 0)];
      for i := 0 to block.nextIndex
        invariant |entries| == i + 2
        invariant entries[0] == DirEntry(".", DIRECTORY, 0) && entries[1] == DirEntry("..", DIRECTORY, 0)
        invariant forall k :: 0 <= k < i ==>
                    var e := block.index[k];
                    e < |metas| && entries[k + 2].name == metas[e].name && entries[k + 2].blockId == metas[e].id &&
                    entries[k + 2].kind == if metas[e].kind == DIRECTORY then DIRECTORY else FILE
      {
        var meta := metas[block.index[i]];
        var kind := if meta.kind == DIRECTORY then DIRECTORY else FILE;
        entries := entries + [DirEntry(meta.name, kind, meta.id)];
      }
    }

    /** asvfs_get_block_meta_from_dir */
    method GetBlockMetaFromDir(dirBlockId: Id, name: string) returns (r: Id)
      requires Shaped(State()) && dirBlockId < |blocks|
      ensures r == Lookup(State(), dirBlockId, name) && r < |blocks|
    {
      ghost var d := State();
      LookupInRange(d, dirBlockId, name);
      assert BlockOk(d, dirBlockId);
      var entries := ReadDir(dirBlockId);
      ghost var es := if IsDir(d, dirBlockId) then Entries(blocks[dirBlockId]) else [];
      for i := 0 to |entries|
        invariant i > 0 ==> name != "."
        invariant i > 1 ==> name != ".." && i - 2 <= |es| && FirstNamed(d, es, name) == FirstNamed(d, es[i - 2..], name)
      {
        if entries[i].name == name { return entries[i].blockId; }
        if i > 1 { assert es[i - 2..][1..] == es[i - 1..] && es[i - 2..][0] == blocks[dirBlockId].index[i - 2]; }
        if i == 1 { assert es[0..] == es; }
      }
      return 0;
    }

    /** asvfs_get_block_id_from_pathname */
    method GetBlockIdFromPathname(pathname: string) returns (r: Id)
      requires Shaped(State())
      ensures r == Resolve(State(), pathname)
    {
      ghost var d, all := State(), Elements(pathname);
      if pathname == "/" {
        assert "/"[1..] == "";
        return root;
      }
      r := root;
      var name, pathIndex := "", 0;
      ghost var done: seq<string> := [];
      assert pathname[0..] == pathname && [] + all == all;
      while pathIndex <= |pathname|
        invariant 0 <= pathIndex <= |pathname| + 1 && r == Walk(d, done) && r != 0 && r < |blocks|
        invariant pathIndex <= |pathname| ==> done + Parts(pathname[pathIndex..], name) == all
        invariant pathIndex > |pathname| ==> done == all
      {
        if pathIndex < |pathname| && pathname[pathIndex] != '/' {
          name := name + [pathname[pathIndex]];
          assert pathname[pathIndex..][1..] == pathname[pathIndex + 1..];
        } else {
          ghost var later := if pathIndex < |pathname| then Parts(pathname[pathIndex + 1..], "") else [];
          if pathIndex < |pathname| { assert pathname[pathIndex..][1..] == pathname[pathIndex + 1..]; }
          assert done + (Flush(name) + later) == all;
          assert done + Flush(name) + later == all;
          if name != "" {
            WalkOne(d, done, name);
            var next := GetBlockMetaFromDir(r, name);
            if next == 0 {
              WalkFailed(d, done + [name], later);
              return 0;
            }
            r := next;
          } else {
            assert done + [] == done;
          }
          done := done + Flush(name);
          name := "";
          if pathIndex == |pathname| { assert done + [] == done; }
        }
        pathIndex := pathIndex + 1;
      }
    }

    /** Splits a path and resolves the parent. */
    method FindParent(pathname: string) returns (parent: Id, child: string)
      requires Shaped(State())
      ensures parent == ParentBlock(State(), pathname) && child == LastPart(pathname, "") &&
              parent < nextFree <= |blocks|
      ensures Resolve(State(), pathname)
           == if child == "" then parent else if parent == 0 then 0 else Lookup(State(), parent, child)
    {
      var parentDir;
      parentDir, child := GetPathParts(pathname);
      PathAgreement(State(), pathname, parentDir, child);
      parent := GetBlockIdFromPathname(parentDir);
      WalkBelow(State(), Elements(parentDir));
      if child == "" {
        assert Elements(parentDir) + [] == Elements(parentDir);
      } else {
        assert Elements(pathname)[..|Elements(pathname)| - 1] == Elements(parentDir);
      }
    }

    /** The next free block becomes the last entry of the parent, as a file. */
    method LinkFile(parent: Id, name: string, mode: int)
      requires DiskOk(State()) && IsDir(State(), parent) && blocks[parent].nextIndex < MAX_ENTRIES &&
               nextFree < |blocks|
      modifies this`nextFree, this`metas, this`blocks
      ensures nextFree == old(nextFree) + 1 && Added(old(State()), State(), parent, name, FILE) && DiskOk(State())
      ensures old(nextFree) < |metas| == |old(metas)| &&
              metas[old(nextFree)] == old(metas[nextFree]).(inUse := true, name := name, kind := 1, permissions := mode)
    {
      assert BlockOk(State(), parent) && BlockOk(State(), nextFree);
      var id, meta, block := nextFree, metas[nextFree], blocks[parent];
      nextFree := nextFree + 1;
      block := block.(index := block.index[block.nextIndex := id], nextIndex := block.nextIndex + 1);
      meta := meta.(inUse := true, name := name, kind := FILE, permissions := mode);
      blocks := blocks[parent := block];
      metas := metas[id := meta];
      AddedKeepsDisk(old(State()), State(), parent, name, FILE);
    }

    /** The same, as an empty directory. */
    method LinkDirectory(parent: Id, name: string, mode: int)
      requires DiskOk(State()) && IsDir(State(), parent) && blocks[parent].nextIndex < MAX_ENTRIES &&
               nextFree < |blocks|
      modifies this`nextFree, this`metas, this`blocks
      ensures nextFree == old(nextFree) + 1 && Added(old(State()), State(), parent, name, DIRECTORY) && DiskOk(State())
      ensures old(nextFree) < |metas| == |old(metas)| &&
              metas[old(nextFree)] == old(metas[nextFree]).(inUse := true, name := name, kind := 2, permissions := mode)
    {
      assert BlockOk(State(), parent) && BlockOk(State(), nextFree);
      var id, meta, block := nextFree, metas[nextFree], blocks[parent];
      nextFree := nextFree + 1;
      block := block.(index := block.index[block.nextIndex := id], nextIndex := block.nextIndex + 1);
      meta := meta.(inUse := true, name := name, kind := DIRECTORY, permissions := mode);
      var newDir := Block(DIRECTORY, seq(SLOTS, i => 0), 0);
      blocks := blocks[parent := block];
      blocks := blocks[id := newDir];
      metas := metas[id := meta];
      AddedKeepsDisk(old(State()), State(), parent, name, DIRECTORY);
    }

    /** asvfs_mknod */
    method Mknod(pathname: string, mode: int) returns (status: Status)
      requires DiskOk(State()) && nextFree < |blocks|
      requires var p := ParentBlock(State(), pathname);
               p < |blocks| && (IsDir(State(), p) ==> blocks[p].nextIndex < MAX_ENTRIES)
      modifies this`nextFree, this`metas, this`blocks
      ensures DiskOk(State()) && nextFree >= old(nextFree)
      ensures CreateDone(old(State()), State(), pathname, FILE, status)
      ensures status == Ok ==>
                old(nextFree) < |metas| == |old(metas)| &&
                metas[old(nextFree)] == old(metas[nextFree]).(inUse := true, name := LastPart(pathname, ""), kind := 1,
                                                              permissions := mode)
    {
      var parent, child := FindParent(pathname);
      if parent == 0 { return PathNotFound; }
      assert BlockOk(State(), parent);
      if metas[parent].kind != DIRECTORY { return NotADirectory; }
      LinkFile(parent, child, mode);
      return Ok;
    }

    /** asvfs_mkdir */
    method Mkdir(pathname: string, mode: int) returns (status: Status)
      requires DiskOk(State()) && nextFree < |blocks|
      requires var p := ParentBlock(State(), pathname);
               p < |blocks| && (IsDir(State(), p) ==> blocks[p].nextIndex < MAX_ENTRIES)
      modifies this`nextFree, this`metas, this`blocks
      ensures DiskOk(State()) && nextFree >= old(nextFree)
      ensures CreateDone(old(State()), State(), pathname, DIRECTORY, status)
      ensures status == Ok ==>
                old(nextFree) < |metas| == |old(metas)| &&
                metas[old(nextFree)] == old(metas[nextFree]).(inUse := true, name := LastPart(pathname, ""), kind := 2,
                                                              permissions := mode)
    {
      var parent, child := FindParent(pathname);
      if parent == 0 { return PathNotFound; }
      assert BlockOk(State(), parent);
      if metas[parent].kind != DIRECTORY { return NotADirectory; }
      LinkDirectory(parent, child, mode);
      return Ok;
    }

    /** The loop of asvfs_unlink on the slots of a directory. */
    method CloseSlot(index: array<Id>, nextIndex: nat, child: Id)
      requires index.Length == SLOTS && nextIndex <= SLOTS
      modifies index
      ensures index[..] == Closed(old(index[..]), nextIndex, Find(old(index[..nextIndex]), child))
    {
      ghost var was := index[..];
      ghost var k := Find(index[..nextIndex], child);
      var useNext := false;
      for i := 0 to nextIndex
        invariant useNext <==> k < i
        invariant forall j :: 0 <= j < i ==> index[j] == Closed(was, nextIndex, k)[j]
        invariant forall j :: i <= j < SLOTS ==> index[j] == was[j]
      {
        if index[i] == child { useNext := true; }
        if useNext {
          if i + 1 >= SLOTS {
            index[i] := 0;
          } else if i == nextIndex - 1 {
            index[i] := 0;
          } else {
            index[i] := index[i + 1];
          }
        }
      }
    }

    /** asvfs_unlink. A path that ends in a slash must not name a file: its block is taken for a directory. */
    method Unlink(pathname: string) returns (status: Status)
      requires DiskOk(State())
      requires LastPart(pathname, "") == "" ==>
                 ParentBlock(State(), pathname) == 0 || IsDir(State(), ParentBlock(State(), pathname))
      modifies this`blocks
      ensures DiskOk(State())
      ensures UnlinkDone(old(State()), State(), pathname, status)
    {
      var parent, child := FindParent(pathname);
      if parent == 0 { return PathNotFound; }
      var childId := GetBlockIdFromPathname(pathname);
      if childId == 0 { return PathNotFound; }
      if child != "" { LookupInRange(State(), parent, child); }
      assert BlockOk(State(), parent);
      var block := blocks[parent];
      var index := new Id[SLOTS](i requires 0 <= i < SLOTS => block.index[i]);
      assert index[..] == block.index && index[..block.nextIndex] == Entries(block);
      CloseSlot(index, block.nextIndex, childId);
      block := block.(index := index[..]);
      if block.nextIndex != 0 { block := block.(nextIndex := block.nextIndex - 1); }
      blocks := blocks[parent := block];
      RemovedKeepsDisk(old(State()), State(), parent, Find(old(Entries(blocks[parent])), childId));
      return Ok;
    }

    /** asvfs_rename. The source may not end in a slash; the new parent must be a directory that is not full. */
    method Rename(from: string, to: string) returns (status: Status)
      requires DiskOk(State()) && LastPart(from, "") != ""
      requires var q := ParentBlock(State(), to); q == 0 || (IsDir(State(), q) && blocks[q].nextIndex < MAX_ENTRIES)
      modifies this`metas, this`blocks
      ensures DiskOk(State())
      ensures RenameDone(old(State()), State(), from, to, status)
    {
      var fromParent, fromName := FindParent(from);
      var toParent, toName := FindParent(to);
      if fromParent == 0 { return PathNotFound; }
      if toParent == 0 { return PathNotFound; }
      var id := GetBlockIdFromPathname(from);
      if id == 0 { return PathNotFound; }
      FoundSlot(State(), fromParent, fromName);
      assert BlockOk(State(), id);
      if fromParent == toParent {
        metas := metas[id := metas[id].(name := toName)];
        RenamedKeepsDisk(old(State()), State(), id, toName);
        return Ok;
      }
      MoveEntry(from, fromParent, fromName, toParent, toName, id);
      return Ok;
    }

    /** The "hard path" of asvfs_rename: into another directory. */
    method MoveEntry(from: string, fromParent: Id, fromName: string, toParent: Id, toName: string, id: Id)
      requires DiskOk(State()) && fromName == LastPart(from, "") != "" &&
               fromParent == ParentBlock(State(), from) != toParent
      requires 0 != fromParent < |blocks| && id == Resolve(State(), from) == Lookup(State(), fromParent, fromName) != 0
      requires IsDir(State(), toParent) && blocks[toParent].nextIndex < MAX_ENTRIES
      modifies this`metas, this`blocks
      ensures DiskOk(State())
      ensures exists d1, d2 :: Transferred(old(State()), d1, d2, State(), fromParent, toParent, id, toName)
    {
      FoundSlot(State(), fromParent, fromName);
      assert BlockOk(State(), id);
      ghost var d := State();
      var unlinked := Unlink(from);
      ghost var d1 := State();
      RemovedEntries(d, d1, fromParent, Find(Entries(d.blocks[fromParent]), id));
      AppendEntry(toParent, id);
      ghost var d2 := State();
      if fromName != toName {
        metas := metas[id := metas[id].(name := toName)];
      } else {
        assert metas[id := metas[id].(name := toName)] == metas;
      }
      RenamedKeepsDisk(d2, State(), id, toName);
      RenameSteps(d, d1, d2, State(), fromParent, toParent, id, toName);
    }

    /** A block becomes the last entry of a directory. */
    method AppendEntry(parent: Id, id: Id)
      requires DiskOk(State()) && IsDir(State(), parent) && blocks[parent].nextIndex < MAX_ENTRIES
      requires 0 < id < nextFree && id != root && forall b, i: nat :: !InSlot(State(), b, i, id)
      modifies this`blocks
      ensures MovedIn(old(State()), State(), parent, id) && DiskOk(State())
    {
      assert BlockOk(State(), parent);
      var block := blocks[parent];
      block := block.(index := block.index[block.nextIndex := id], nextIndex := block.nextIndex + 1);
      blocks := blocks[parent := block];
      MovedInKeepsDisk(old(State()), State(), parent, id);
    }
  }

  /** A name that is found is in a slot of its directory. */
  lemma FoundSlot(d: Disk, p: Id, name: string)
    requires DiskOk(d) && p < |d.blocks| && Lookup(d, p, name) != 0
    ensures IsDir(d, p) && d.blocks[p].nextIndex <= |d.blocks[p].index|
    ensures var c, es := Lookup(d, p, name), Entries(d.blocks[p]);
            var k := Find(es, c);
            k < |es| && InSlot(d, p, k, c) && 0 < c < d.nextFree && d.metas[c].name == name && Known(d, es) &&
            forall i :: 0 <= i < k ==> d.metas[es[i]].name != name
  {
    var c := Lookup(d, p, name);
    LookupInRange(d, p, name);
    assert BlockOk(d, p);
    var es := Entries(d.blocks[p]);
    FirstNamedIs(d, es, name);
    var i :| 0 <= i < |es| && es[i] == c && d.metas[es[i]].name == name &&
             forall k :: 0 <= k < i ==> d.metas[es[k]].name != name;
    assert InSlot(d, p, i, c) && InSlot(d, p, Find(es, c), c);
  }

  /** What renaming does: a new name in the same directory, or out of one directory and last into another. */
  ghost predicate RenameDone(d: Disk, d': Disk, from: string, to: string, status: Status)
    requires DiskOk(d)
  {
    var p, q, e := ParentBlock(d, from), ParentBlock(d, to), Resolve(d, from);
    if p == 0 || q == 0 || e == 0 then status == PathNotFound && d' == d
    else
      status == Ok && e < |d.metas| &&
      if p == q then Renamed(d, d', e, LastPart(to, ""))
      else exists d1, d2 :: Transferred(d, d1, d2, d', p, q, e, LastPart(to, ""))
  }

  /** Block e goes from directory p to directory q and gets a name. */
  ghost predicate Transferred(d: Disk, d1: Disk, d2: Disk, d': Disk, p: Id, q: Id, e: Id, name: string) {
    DiskOk(d) && IsDir(d, p) && d.blocks[p].nextIndex <= |d.blocks[p].index| &&
      Removed(d, d1, p, Find(Entries(d.blocks[p]), e)) &&
    DiskOk(d1) && IsDir(d1, q) && d1.blocks[q].nextIndex < MAX_ENTRIES && MovedIn(d1, d2, q, e) &&
    e < |d2.metas| && DiskOk(d2) && Renamed(d2, d', e, name)
  }

  lemma RenameSteps(d: Disk, d1: Disk, d2: Disk, d': Disk, p: Id, q: Id, e: Id, name: string)
    requires Transferred(d, d1, d2, d', p, q, e, name)
    ensures exists d1, d2 :: Transferred(d, d1, d2, d', p, q, e, name)
  {
  }

  /** What creating a name does. */
  ghost predicate CreateDone(d: Disk, d': Disk, path: string, kind: nat, status: Status)
    requires DiskOk(d) && d.nextFree < |d.blocks| && ParentBlock(d, path) < |d.blocks|
  {
    var p := ParentBlock(d, path);
    if p == 0 then status == PathNotFound && d' == d
    else if !IsDir(d, p) then status == NotADirectory && d' == d
    else d.blocks[p].nextIndex < MAX_ENTRIES && status == Ok && Added(d, d', p, LastPart(path, ""), kind)
  }

  /** What unlinking a path does: the first slot of the parent that holds the block is taken out, or the last one if
      none does. */
  ghost predicate UnlinkDone(d: Disk, d': Disk, path: string, status: Status)
    requires DiskOk(d)
  {
    var p, c := ParentBlock(d, path), Resolve(d, path);
    if p == 0 || c == 0 then status == PathNotFound && d' == d
    else status == Ok && IsDir(d, p) && d.blocks[p].nextIndex <= |d.blocks[p].index| &&
         Removed(d, d', p, Find(Entries(d.blocks[p]), c))
  }
}
