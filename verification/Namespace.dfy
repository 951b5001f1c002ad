/** The namespace of the home-made file system as a state: what paths resolve to, the invariant of the directories,
    and what adding, taking out and renaming an entry does to every path (kernel/fs/asvfs.c). */
module Namespace {
  import opened PathNames

  /** ASVFS_BLOCK_TYPE_FILE and ASVFS_BLOCK_TYPE_DIRECTORY */
  const FILE := 1
  const DIRECTORY := 2
  /** The slots of a directory block, and how many of them fit the entry list of readdir with "." and "..". */
  const SLOTS := 256
  const MAX_ENTRIES := 98

  type Id = nat

  datatype Meta = Meta(id: Id, kind: nat, name: string, inUse: bool, permissions: int)

  /** A block read as a directory. */
  datatype Block = Block(kind: nat, index: seq<Id>, nextIndex: nat)

  datatype Disk = Disk(metas: seq<Meta>, blocks: seq<Block>, root: Id, nextFree: Id)

  /** The entries of a directory block, in order. */
  function Entries(b: Block): seq<Id>
    requires b.nextIndex <= |b.index|
  {
    b.index[..b.nextIndex]
  }

  predicate IsDir(d: Disk, b: Id) {
    b < |d.blocks| && d.blocks[b].kind == DIRECTORY
  }

  // ---------- the invariant ----------

  predicate BlockOk(d: Disk, b: Id)
    requires b < |d.blocks| == |d.metas|
  {
    d.metas[b].id == b &&
    (b >= d.nextFree ==> d.blocks[b].kind != DIRECTORY) &&
    (b < d.nextFree ==> (d.metas[b].kind == DIRECTORY <==> d.blocks[b].kind == DIRECTORY)) &&
    (d.blocks[b].kind == DIRECTORY ==>
       |d.blocks[b].index| == SLOTS && d.blocks[b].nextIndex <= MAX_ENTRIES &&
       forall i :: 0 <= i < d.blocks[b].nextIndex ==> 0 < d.blocks[b].index[i] < d.nextFree)
  }

  predicate Shaped(d: Disk) {
    |d.metas| == |d.blocks| && 0 < d.root < d.nextFree <= |d.blocks| && IsDir(d, d.root) &&
    forall b :: 0 <= b < |d.blocks| ==> BlockOk(d, b)
  }

  /** Block e is in slot i of directory b. */
  predicate InSlot(d: Disk, b: Id, i: nat, e: Id) {
    IsDir(d, b) && i < d.blocks[b].nextIndex && i < |d.blocks[b].index| && d.blocks[b].index[i] == e
  }

  /** No block is in two slots. */
  ghost predicate SlotsUnique(d: Disk) {
    forall b, i, b', i', e :: InSlot(d, b, i, e) && InSlot(d, b', i', e) ==> b == b' && i == i'
  }

  /** The root is in no slot. */
  ghost predicate RootFree(d: Disk) {
    forall b, i: nat :: !InSlot(d, b, i, d.root)
  }

  ghost predicate DiskOk(d: Disk) {
    Shaped(d) && SlotsUnique(d) && RootFree(d)
  }

  // ---------- resolution ----------

  predicate Known(d: Disk, es: seq<Id>) {
    forall i :: 0 <= i < |es| ==> es[i] < |d.metas|
  }

  /** The first of the entries with a name, or 0. */
  function FirstNamed(d: Disk, es: seq<Id>, name: string): Id
    requires Known(d, es)
  {
    if es == [] then 0
    else if d.metas[es[0]].name == name then d.metas[es[0]].id
    else FirstNamed(d, es[1..], name)
  }

  /** "." and ".." are listed first, without a block. */
  predicate Dotted(name: string) {
    name == "." || name == ".."
  }

  function Lookup(d: Disk, b: Id, name: string): Id
    requires Shaped(d) && b < |d.blocks|
  {
    if !IsDir(d, b) || Dotted(name) then 0
    else
      assert BlockOk(d, b);
      FirstNamed(d, Entries(d.blocks[b]), name)
  }

  /** Where a list of path elements leads from the root, or 0. */
  function Walk(d: Disk, es: seq<string>): (r: Id)
    requires Shaped(d)
    ensures r < |d.blocks|
  {
    if es == [] then d.root
    else
      var b := Walk(d, es[..|es| - 1]);
      if b == 0 then 0
      else
        assert BlockOk(d, b);
        LookupInRange(d, b, es[|es| - 1]);
        Lookup(d, b, es[|es| - 1])
  }

  lemma LookupInRange(d: Disk, b: Id, name: string)
    requires Shaped(d) && b < |d.blocks|
    ensures Lookup(d, b, name) < |d.blocks|
    ensures Lookup(d, b, name) != 0 ==>
              IsDir(d, b) && !Dotted(name) && d.metas[Lookup(d, b, name)].name == name &&
              exists i :: InSlot(d, b, i, Lookup(d, b, name))
  {
    if IsDir(d, b) && !Dotted(name) {
      assert BlockOk(d, b);
      var es := Entries(d.blocks[b]);
      FirstNamedIs(d, es, name);
      if Lookup(d, b, name) != 0 {
        var i: nat :| i < |es| && es[i] == Lookup(d, b, name) && d.metas[es[i]].name == name;
        assert InSlot(d, b, i, es[i]);
      }
    }
  }

  /** FirstNamed finds the first entry with the name, if there is one. */
  lemma {:induction false} FirstNamedIs(d: Disk, es: seq<Id>, name: string)
    requires Shaped(d) && Known(d, es) && forall i :: 0 <= i < |es| ==> es[i] > 0
    ensures FirstNamed(d, es, name) == 0 ==> forall i :: 0 <= i < |es| ==> d.metas[es[i]].name != name
    ensures FirstNamed(d, es, name) != 0 ==>
              exists i :: 0 <= i < |es| && es[i] == FirstNamed(d, es, name) && d.metas[es[i]].name == name &&
                          forall k :: 0 <= k < i ==> d.metas[es[k]].name != name
  {
    if es != [] {
      assert BlockOk(d, es[0]);
      if d.metas[es[0]].name != name {
        FirstNamedIs(d, es[1..], name);
        if FirstNamed(d, es[1..], name) != 0 {
          var i :| 0 <= i < |es| - 1 && es[1..][i] == FirstNamed(d, es, name) && d.metas[es[1..][i]].name == name &&
                   forall k :: 0 <= k < i ==> d.metas[es[1..][k]].name != name;
          assert forall k :: 0 <= k < i + 1 ==> d.metas[es[k]].name != name by {
            assert forall k :: 0 < k < i + 1 ==> es[k] == es[1..][k - 1];
          }
          assert es[i + 1] == FirstNamed(d, es, name);
        } else {
          assert forall i :: 0 < i < |es| ==> es[i] == es[1..][i - 1];
        }
      } else {
        assert es[0] == FirstNamed(d, es, name);
      }
    }
  }

  /** What a path resolves to. */
  function Resolve(d: Disk, path: string): Id
    requires Shaped(d)
  {
    Walk(d, Elements(path))
  }

  /** Once a walk has failed it stays failed. */
  lemma {:induction false} WalkFailed(d: Disk, es: seq<string>, more: seq<string>)
    requires Shaped(d) && Walk(d, es) == 0
    ensures Walk(d, es + more) == 0
    decreases |more|
  {
    if more == [] {
      assert es + more == es;
    } else {
      var n := |more| - 1;
      assert (es + more)[..|es + more| - 1] == es + more[..n];
      WalkFailed(d, es, more[..n]);
    }
  }

  lemma WalkOne(d: Disk, es: seq<string>, name: string)
    requires Shaped(d)
    ensures Walk(d, es + [name]) == if Walk(d, es) == 0 then 0 else Lookup(d, Walk(d, es), name)
  {
    assert (es + [name])[..|es + [name]| - 1] == es;
  }

  /** Resolving a path agrees with splitting it: the child is looked up in what the parent resolves to. */
  lemma PathAgreement(d: Disk, path: string, parent: string, child: string)
    requires Shaped(d) && Elements(path) == Elements(parent) + Flush(child)
    ensures child == "" ==> Resolve(d, path) == Resolve(d, parent)
    ensures child != "" ==>
              Resolve(d, path) == if Resolve(d, parent) == 0 then 0 else Lookup(d, Resolve(d, parent), child)
  {
    if child == "" {
      assert Elements(parent) + [] == Elements(parent);
    } else {
      WalkOne(d, Elements(parent), child);
    }
  }

  // ---------- an entry is added ----------

  /** Block `fresh` becomes the last entry of directory p, as a file or as an empty directory. */
  ghost predicate Added(d: Disk, d': Disk, p: Id, name: string, kind: nat)
    requires Shaped(d) && IsDir(d, p) && d.blocks[p].nextIndex < MAX_ENTRIES && d.nextFree < |d.blocks|
  {
    assert BlockOk(d, p);
    var e, n := d.nextFree, d.blocks[p].nextIndex;
    d'.root == d.root && d'.nextFree == e + 1 && |d'.metas| == |d'.blocks| == |d.blocks| &&
    d'.blocks[p] == d.blocks[p].(index := d.blocks[p].index[n := e], nextIndex := n + 1) &&
    (forall b :: 0 <= b < |d.blocks| && b != p && b != e ==> d'.blocks[b] == d.blocks[b]) &&
    (kind == DIRECTORY ==>
       d'.blocks[e].kind == DIRECTORY && |d'.blocks[e].index| == SLOTS && d'.blocks[e].nextIndex == 0) &&
    (kind != DIRECTORY ==> d'.blocks[e] == d.blocks[e]) &&
    (forall b :: 0 <= b < |d.metas| && b != e ==> d'.metas[b] == d.metas[b]) &&
    d'.metas[e].id == d.metas[e].id && d'.metas[e].name == name && d'.metas[e].kind == kind
  }

  lemma AddedKeepsDisk(d: Disk, d': Disk, p: Id, name: string, kind: nat)
    requires DiskOk(d) && IsDir(d, p) && d.blocks[p].nextIndex < MAX_ENTRIES && d.nextFree < |d.blocks|
    requires Added(d, d', p, name, kind)
    ensures DiskOk(d')
  {
    var e := d.nextFree;
    assert BlockOk(d, p) && BlockOk(d, e) && p != e;
    forall b | 0 <= b < |d'.blocks| ensures BlockOk(d', b) {
      assert BlockOk(d, b);
    }
    assert Shaped(d');
    forall b, i, b', i', x | InSlot(d', b, i, x) && InSlot(d', b', i', x) ensures b == b' && i == i' {
      AddedSlot(d, d', p, name, kind, b, i, x);
      AddedSlot(d, d', p, name, kind, b', i', x);
    }
    forall b, i: nat ensures !InSlot(d', b, i, d'.root) {
      if InSlot(d', b, i, d'.root) { AddedSlot(d, d', p, name, kind, b, i, d'.root); }
    }
  }

  /** A slot is an old one, or the new one. */
  lemma AddedSlot(d: Disk, d': Disk, p: Id, name: string, kind: nat, b: Id, i: nat, x: Id)
    requires Shaped(d) && IsDir(d, p) && d.blocks[p].nextIndex < MAX_ENTRIES && d.nextFree < |d.blocks|
    requires Added(d, d', p, name, kind) && InSlot(d', b, i, x)
    ensures if x == d.nextFree then b == p && i == d.blocks[p].nextIndex else InSlot(d, b, i, x)
  {
    assert BlockOk(d, p) && BlockOk(d, b) && BlockOk(d, d.nextFree);
  }

  /** The same entries with the same headers give the same result. */
  lemma {:induction false} FirstNamedSame(d: Disk, d': Disk, es: seq<Id>, name: string)
    requires Known(d, es) && Known(d', es) && forall i :: 0 <= i < |es| ==> d'.metas[es[i]] == d.metas[es[i]]
    ensures FirstNamed(d', es, name) == FirstNamed(d, es, name)
  {
    if es != [] {
      FirstNamedSame(d, d', es[1..], name);
    }
  }

  lemma {:induction false} FirstNamedSplit(d: Disk, es: seq<Id>, more: seq<Id>, name: string)
    requires Shaped(d) && Known(d, es) && Known(d, more) && forall i :: 0 <= i < |es| ==> es[i] > 0
    ensures FirstNamed(d, es + more, name)
         == if FirstNamed(d, es, name) != 0 then FirstNamed(d, es, name) else FirstNamed(d, more, name)
  {
    if es == [] {
      assert es + more == more;
    } else {
      assert BlockOk(d, es[0]);
      assert (es + more)[1..] == es[1..] + more;
      FirstNamedSplit(d, es[1..], more, name);
    }
  }

  lemma AddedLookup(d: Disk, d': Disk, p: Id, name: string, kind: nat, b: Id, n: string)
    requires DiskOk(d) && IsDir(d, p) && d.blocks[p].nextIndex < MAX_ENTRIES && d.nextFree < |d.blocks|
    requires Added(d, d', p, name, kind) && DiskOk(d') && b < d.nextFree
    ensures Lookup(d', b, n)
         == if b == p && n == name && !Dotted(n) && Lookup(d, p, n) == 0 then d.nextFree else Lookup(d, b, n)
  {
    var e := d.nextFree;
    assert BlockOk(d, b) && BlockOk(d', b) && BlockOk(d, p) && BlockOk(d', e);
    if IsDir(d, b) && !Dotted(n) {
      var es := Entries(d.blocks[b]);
      FirstNamedSame(d, d', es, n);
      if b == p {
        assert Entries(d'.blocks[p]) == es + [e];
        FirstNamedSplit(d', es, [e], n);
        OneNamed(d', e, n);
      }
    }
  }

  lemma OneNamed(d: Disk, e: Id, n: string)
    requires Shaped(d) && e < |d.metas|
    ensures FirstNamed(d, [e], n) == if d.metas[e].name == n then e else 0
  {
    assert BlockOk(d, e);
    assert [e][1..] == [];
  }

  /** Whatever resolves is below next_free. */
  lemma WalkBelow(d: Disk, es: seq<string>)
    requires Shaped(d)
    ensures Walk(d, es) < d.nextFree
  {
    if es != [] {
      var b, n := Walk(d, es[..|es| - 1]), es[|es| - 1];
      if b != 0 {
        LookupInRange(d, b, n);
        if Lookup(d, b, n) != 0 {
          var i :| InSlot(d, b, i, Lookup(d, b, n));
          assert BlockOk(d, b);
        }
      }
    }
  }

  /** What a list of elements leads to after an entry was added: what it led to before; or the new block, if it leads to
      the directory and ends in the new name. */
  lemma {:induction false} AddedWalk(d: Disk, d': Disk, p: Id, name: string, kind: nat, es: seq<string>)
    requires DiskOk(d) && IsDir(d, p) && d.blocks[p].nextIndex < MAX_ENTRIES && d.nextFree < |d.blocks| && p != 0
    requires Added(d, d', p, name, kind) && DiskOk(d')
    ensures Walk(d', es)
         == if Walk(d, es) != 0 then Walk(d, es)
            else if es != [] && Walk(d, es[..|es| - 1]) == p && es[|es| - 1] == name && !Dotted(name) then d.nextFree
            else 0
    decreases |es|
  {
    if es != [] {
      var pre, n := es[..|es| - 1], es[|es| - 1];
      AddedWalk(d, d', p, name, kind, pre);
      WalkBelow(d, pre);
      if Walk(d, pre) != 0 {
        AddedLookup(d, d', p, name, kind, Walk(d, pre), n);
      } else if Walk(d', pre) != 0 {
        NewBlockEmpty(d, d', p, name, kind, n);
      }
    }
  }

  lemma NewBlockEmpty(d: Disk, d': Disk, p: Id, name: string, kind: nat, n: string)
    requires DiskOk(d) && IsDir(d, p) && d.blocks[p].nextIndex < MAX_ENTRIES && d.nextFree < |d.blocks|
    requires Added(d, d', p, name, kind) && DiskOk(d')
    ensures Lookup(d', d.nextFree, n) == 0
  {
    assert BlockOk(d, d.nextFree) && BlockOk(d', d.nextFree);
  }

  /** Creating a name is conservative: a path that did not resolve, and whose parent is the directory, resolves to the
      old next_free exactly unless its last element is "." or ".."; and what resolved before resolves to the same
      block. */
  lemma CreateIsConservative(d: Disk, d': Disk, kind: nat, path: string, parent: string, child: string)
    requires DiskOk(d) && child != "" && Elements(path) == Elements(parent) + [child] && Resolve(d, path) == 0
    requires var p := Resolve(d, parent);
             p != 0 && IsDir(d, p) && d.blocks[p].nextIndex < MAX_ENTRIES && d.nextFree < |d.blocks| &&
             Added(d, d', p, child, kind) && DiskOk(d')
    ensures Resolve(d', path) == (if Dotted(child) then 0 else d.nextFree)
    ensures forall q: string :: Resolve(d, q) != 0 ==> Resolve(d', q) == Resolve(d, q)
    ensures forall q: string :: Resolve(d', q) != Resolve(d, q) ==>
              Resolve(d', q) == d.nextFree &&
              exists es :: Elements(q) == es + [child] && Walk(d, es) == Resolve(d, parent)
  {
    var p := Resolve(d, parent);
    forall q: string
      ensures Resolve(d, q) != 0 ==> Resolve(d', q) == Resolve(d, q)
      ensures Resolve(d', q) != Resolve(d, q) ==>
                Resolve(d', q) == d.nextFree && exists es :: Elements(q) == es + [child] && Walk(d, es) == p
    {
      var es := Elements(q);
      AddedWalk(d, d', p, child, kind, es);
      if Resolve(d', q) != Resolve(d, q) {
        assert es == es[..|es| - 1] + [child];
      }
    }
    var es := Elements(path);
    assert es[..|es| - 1] == Elements(parent) && es[|es| - 1] == child;
    AddedWalk(d, d', p, child, kind, es);
  }

  // ---------- an entry is taken out ----------

  /** A directory's slots without slot k: the later entries move up and the last slot is cleared. If k is not a slot in
      use, only the number of entries goes down. */
  function Closed(index: seq<Id>, n: nat, k: nat): (r: seq<Id>)
    requires n <= |index|
    ensures |r| == |index|
  {
    seq(|index|, i requires 0 <= i < |index| =>
      if k <= i < n - 1 then index[i + 1] else if k < n && i == n - 1 then 0 else index[i])
  }

  /** Slot k of directory p is taken out. */
  ghost predicate Removed(d: Disk, d': Disk, p: Id, k: nat)
    requires Shaped(d) && IsDir(d, p)
  {
    assert BlockOk(d, p);
    var b := d.blocks[p];
    d'.root == d.root && d'.nextFree == d.nextFree && d'.metas == d.metas && |d'.blocks| == |d.blocks| &&
    d'.blocks[p] == Block(b.kind, Closed(b.index, b.nextIndex, k), if b.nextIndex != 0 then b.nextIndex - 1 else 0) &&
    forall b' :: 0 <= b' < |d.blocks| && b' != p ==> d'.blocks[b'] == d.blocks[b']
  }

  /** Where an entry was before. */
  function Before(k: nat, i: nat): nat {
    if i < k then i else i + 1
  }

  lemma RemovedSlot(d: Disk, d': Disk, p: Id, k: nat, b: Id, i: nat, x: Id)
    requires Shaped(d) && IsDir(d, p) && Removed(d, d', p, k) && InSlot(d', b, i, x)
    ensures InSlot(d, b, if b == p then Before(k, i) else i, x)
  {
    assert BlockOk(d, p) && BlockOk(d, b);
  }

  lemma RemovedKeepsDisk(d: Disk, d': Disk, p: Id, k: nat)
    requires DiskOk(d) && IsDir(d, p) && Removed(d, d', p, k)
    ensures DiskOk(d')
  {
    assert BlockOk(d, p);
    forall b | 0 <= b < |d'.blocks| ensures BlockOk(d', b) {
      assert BlockOk(d, b);
      if b == p {
        forall i | 0 <= i < d'.blocks[p].nextIndex ensures 0 < d'.blocks[p].index[i] < d.nextFree {
          assert InSlot(d', p, i, d'.blocks[p].index[i]);
          RemovedSlot(d, d', p, k, p, i, d'.blocks[p].index[i]);
        }
      }
    }
    assert Shaped(d');
    forall b, i, b', i', x | InSlot(d', b, i, x) && InSlot(d', b', i', x) ensures b == b' && i == i' {
      RemovedSlot(d, d', p, k, b, i, x);
      RemovedSlot(d, d', p, k, b', i', x);
    }
    forall b, i: nat ensures !InSlot(d', b, i, d'.root) {
      if InSlot(d', b, i, d'.root) { RemovedSlot(d, d', p, k, b, i, d'.root); }
    }
  }

  /** The other entries keep their order. */
  lemma RemovedEntries(d: Disk, d': Disk, p: Id, k: nat)
    requires DiskOk(d) && IsDir(d, p) && Removed(d, d', p, k) && DiskOk(d') &&
             k < d.blocks[p].nextIndex <= |d.blocks[p].index|
    ensures Entries(d'.blocks[p]) == Entries(d.blocks[p])[..k] + Entries(d.blocks[p])[k + 1..]
    ensures forall b, i: nat :: !InSlot(d', b, i, d.blocks[p].index[k])
  {
    assert BlockOk(d, p) && BlockOk(d', p);
    var c := d.blocks[p].index[k];
    assert InSlot(d, p, k, c);
    forall b, i: nat ensures !InSlot(d', b, i, c) {
      if InSlot(d', b, i, c) { RemovedSlot(d, d', p, k, b, i, c); }
    }
  }

  /** The walk along these elements takes the entry `name` of directory p. */
  predicate Takes(d: Disk, es: seq<string>, p: Id, name: string)
    requires Shaped(d)
  {
    exists k :: 0 <= k < |es| && Walk(d, es[..k]) == p && es[k] == name
  }

  /** Lookups after the first entry with its name was taken out: the next entry of that name shows, all else is the
      same. */
  lemma RemovedLookup(d: Disk, d': Disk, p: Id, k: nat, b: Id, n: string)
    requires DiskOk(d) && IsDir(d, p) && Removed(d, d', p, k) && DiskOk(d') && b < |d.blocks|
    requires k < d.blocks[p].nextIndex <= |d.blocks[p].index| && Known(d, Entries(d.blocks[p]))
    requires var es := Entries(d.blocks[p]); forall i :: 0 <= i < k ==> d.metas[es[i]].name != d.metas[es[k]].name
    ensures var es := Entries(d.blocks[p]);
            Lookup(d', b, n) == if b == p && n == d.metas[es[k]].name && !Dotted(n) then FirstNamed(d, es[k + 1..], n)
                                else Lookup(d, b, n)
  {
    assert BlockOk(d, b) && BlockOk(d', b) && BlockOk(d, p);
    if IsDir(d, b) && !Dotted(n) {
      FirstNamedSame(d, d', Entries(d'.blocks[b]), n);
      if b == p {
        RemovedEntries(d, d', p, k);
        FirstNamedWithout(d, Entries(d.blocks[p]), k, n);
      }
    }
  }

  lemma FirstNamedWithout(d: Disk, es: seq<Id>, k: nat, n: string)
    requires Shaped(d) && Known(d, es) && k < |es| && forall i :: 0 <= i < |es| ==> es[i] > 0
    requires forall i :: 0 <= i < k ==> d.metas[es[i]].name != d.metas[es[k]].name
    ensures FirstNamed(d, es[..k] + es[k + 1..], n)
         == if n == d.metas[es[k]].name then FirstNamed(d, es[k + 1..], n) else FirstNamed(d, es, n)
  {
    var front, back := es[..k], es[k + 1..];
    assert es == front + ([es[k]] + back);
    FirstNamedSplit(d, front, [es[k]] + back, n);
    FirstNamedSplit(d, front, back, n);
    FirstNamedSplit(d, [es[k]], back, n);
    assert BlockOk(d, es[k]);
    OneNamed(d, es[k], n);
    if n == d.metas[es[k]].name { FirstNamedIs(d, front, n); }
  }

  /** Paths that do not take the removed entry resolve as before. */
  lemma {:induction false} RemovedWalk(d: Disk, d': Disk, p: Id, k: nat, es: seq<string>)
    requires DiskOk(d) && IsDir(d, p) && Removed(d, d', p, k) && DiskOk(d') && p != 0
    requires k < d.blocks[p].nextIndex <= |d.blocks[p].index| && Known(d, Entries(d.blocks[p]))
    requires var xs := Entries(d.blocks[p]); forall i :: 0 <= i < k ==> d.metas[xs[i]].name != d.metas[xs[k]].name
    requires !Takes(d, es, p, d.metas[Entries(d.blocks[p])[k]].name)
    ensures Walk(d', es) == Walk(d, es)
    decreases |es|
  {
    if es != [] {
      var pre, n := es[..|es| - 1], es[|es| - 1];
      assert forall j :: 0 <= j < |pre| ==> es[..j] == pre[..j] && es[j] == pre[j];
      RemovedWalk(d, d', p, k, pre);
      if Walk(d, pre) != 0 {
        RemovedLookup(d, d', p, k, Walk(d, pre), n);
        assert es[..|es| - 1] == pre;
      }
    }
  }

  // ---------- an entry is renamed or moved ----------

  /** Block e gets another name. */
  ghost predicate Renamed(d: Disk, d': Disk, e: Id, name: string)
    requires e < |d.metas|
  {
    d' == d.(metas := d.metas[e := d.metas[e].(name := name)])
  }

  lemma RenamedKeepsDisk(d: Disk, d': Disk, e: Id, name: string)
    requires DiskOk(d) && e < |d.metas| && Renamed(d, d', e, name)
    ensures DiskOk(d')
  {
    forall b | 0 <= b < |d'.blocks| ensures BlockOk(d', b) {
      assert BlockOk(d, b);
    }
    assert Shaped(d');
    forall b, i, b', i', x | InSlot(d', b, i, x) && InSlot(d', b', i', x) ensures b == b' && i == i' {
      assert InSlot(d, b, i, x) && InSlot(d, b', i', x);
    }
    forall b, i: nat ensures !InSlot(d', b, i, d'.root) {
      assert !InSlot(d, b, i, d.root);
    }
  }

  /** A block that is in no slot becomes the last entry of directory q. */
  ghost predicate MovedIn(d: Disk, d': Disk, q: Id, e: Id)
    requires Shaped(d) && IsDir(d, q) && d.blocks[q].nextIndex < MAX_ENTRIES
  {
    assert BlockOk(d, q);
    var n := d.blocks[q].nextIndex;
    d' == d.(blocks := d.blocks[q := d.blocks[q].(index := d.blocks[q].index[n := e], nextIndex := n + 1)])
  }

  lemma MovedSlot(d: Disk, d': Disk, q: Id, e: Id, b: Id, i: nat, x: Id)
    requires Shaped(d) && IsDir(d, q) && d.blocks[q].nextIndex < MAX_ENTRIES && MovedIn(d, d', q, e) &&
             InSlot(d', b, i, x)
    ensures InSlot(d, b, i, x) || (x == e && b == q && i == d.blocks[q].nextIndex)
  {
    assert BlockOk(d, q) && BlockOk(d, b);
  }

  lemma MovedInKeepsDisk(d: Disk, d': Disk, q: Id, e: Id)
    requires DiskOk(d) && IsDir(d, q) && d.blocks[q].nextIndex < MAX_ENTRIES && MovedIn(d, d', q, e)
    requires 0 < e < d.nextFree && e != d.root && forall b, i: nat :: !InSlot(d, b, i, e)
    ensures DiskOk(d')
  {
    assert BlockOk(d, q);
    forall b | 0 <= b < |d'.blocks| ensures BlockOk(d', b) {
      assert BlockOk(d, b);
    }
    assert Shaped(d');
    forall b, i, b', i', x | InSlot(d', b, i, x) && InSlot(d', b', i', x) ensures b == b' && i == i' {
      MovedSlot(d, d', q, e, b, i, x);
      MovedSlot(d, d', q, e, b', i', x);
    }
    forall b, i: nat ensures !InSlot(d', b, i, d'.root) {
      if InSlot(d', b, i, d'.root) { MovedSlot(d, d', q, e, b, i, d'.root); }
    }
  }
}
