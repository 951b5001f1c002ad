/** What unlinking and renaming do to all paths of the home-made file system (kernel/fs/asvfs.c). */
module NamespaceTheorems {
  import opened PathNames
  import opened Namespace
  import opened Asvfs

  // ---------- unlink ----------

  /** Unlinking a path takes out exactly the entry that resolution found: the others keep their order, no slot holds the
      block any more, paths that do not take the entry resolve as before, and the path itself resolves to the next entry
      of that name, if there is one. */
  lemma UnlinkRemovesEntry(d: Disk, d': Disk, path: string)
    requires DiskOk(d) && LastPart(path, "") != "" && ParentBlock(d, path) != 0 && Resolve(d, path) != 0
    requires UnlinkDone(d, d', path, Ok)
    ensures DiskOk(d') && d'.nextFree == d.nextFree && Elements(path) != []
    ensures var p, c := ParentBlock(d, path), Resolve(d, path);
            IsDir(d, p) && d.blocks[p].nextIndex <= |d.blocks[p].index| &&
            var es := Entries(d.blocks[p]);
            var k := Find(es, c);
            k < |es| && es[k] == c && Known(d, es) && d'.blocks[p].nextIndex <= |d'.blocks[p].index| &&
            Entries(d'.blocks[p]) == es[..k] + es[k + 1..] &&
            (forall b, i: nat :: !InSlot(d', b, i, c)) &&
            (forall q :: !Takes(d, Elements(q), p, LastPart(path, "")) ==> Resolve(d', q) == Resolve(d, q)) &&
            (!Takes(d, Elements(path)[..|Elements(path)| - 1], p, LastPart(path, "")) ==>
               Resolve(d', path) == FirstNamed(d, es[k + 1..], LastPart(path, "")))
  {
    var p, name, all := ParentBlock(d, path), LastPart(path, ""), Elements(path);
    LastElement(path);
    FoundSlot(d, p, name);
    var es := Entries(d.blocks[p]);
    var k := Find(es, Resolve(d, path));
    RemovedKeepsDisk(d, d', p, k);
    RemovedEntries(d, d', p, k);
    assert BlockOk(d', p);
    forall q | !Takes(d, Elements(q), p, name) ensures Resolve(d', q) == Resolve(d, q) {
      RemovedWalk(d, d', p, k, Elements(q));
    }
    if !Takes(d, all[..|all| - 1], p, name) {
      RemovedWalk(d, d', p, k, all[..|all| - 1]);
      RemovedLookup(d, d', p, k, p, name);
      LookupInRange(d, p, name);
    }
  }

  /** The last part of a path, if not empty, is its last element. */
  lemma LastElement(path: string)
    requires LastPart(path, "") != ""
    ensures Elements(path) != [] && Elements(path)[|Elements(path)| - 1] == LastPart(path, "")
  {
    LastElementFrom(path, "");
  }

  lemma {:induction false} LastElementFrom(path: string, name: string)
    requires LastPart(path, name) != ""
    ensures Parts(path, name) != [] && Parts(path, name)[|Parts(path, name)| - 1] == LastPart(path, name)
    decreases |path|
  {
    if path != "" {
      LastElementFrom(path[1..], if path[0] == '/' then "" else name + [path[0]]);
    }
  }

  /** What a path with elements resolves to is in a slot, and not in one of its own: its chain of directories starts at
      the root, which is in none. */
  lemma {:induction false} WalkedSlot(d: Disk, es: seq<string>)
    requires DiskOk(d) && Walk(d, es) != 0
    ensures es != [] ==> exists b, i: nat :: b != Walk(d, es) && InSlot(d, b, i, Walk(d, es))
    ensures forall i: nat :: !InSlot(d, Walk(d, es), i, Walk(d, es))
    decreases |es|
  {
    if es != [] {
      var pre, c := es[..|es| - 1], Walk(d, es);
      WalkedSlot(d, pre);
      LookupInRange(d, Walk(d, pre), es[|es| - 1]);
      var i :| InSlot(d, Walk(d, pre), i, c);
      assert Walk(d, pre) != c;
    }
  }

  /** A path that ends in a slash loses not itself but the last entry of the directory it names, or nothing if that
      directory is empty. */
  lemma UnlinkTrailingSlash(d: Disk, d': Disk, path: string)
    requires DiskOk(d) && LastPart(path, "") == "" && Resolve(d, path) != 0 && UnlinkDone(d, d', path, Ok)
    ensures var p := Resolve(d, path);
            IsDir(d, p) && d.blocks[p].nextIndex <= |d.blocks[p].index| &&
            if d.blocks[p].nextIndex == 0 then d' == d
            else d'.blocks[p].nextIndex <= |d'.blocks[p].index| &&
                 Entries(d'.blocks[p]) == Entries(d.blocks[p])[..d.blocks[p].nextIndex - 1]
    ensures forall b, i: nat :: InSlot(d', b, i, Resolve(d, path)) <==> InSlot(d, b, i, Resolve(d, path))
  {
    var p := Resolve(d, path);
    assert BlockOk(d, p) && ParentBlock(d, path) == p;
    var b := d.blocks[p];
    WalkedSlot(d, Elements(path));
    NotListed(d, p);
    assert Closed(b.index, b.nextIndex, b.nextIndex) == b.index;
    if b.nextIndex == 0 { assert d'.blocks == d.blocks; }
  }

  lemma NotListed(d: Disk, p: Id)
    requires DiskOk(d) && IsDir(d, p) && d.blocks[p].nextIndex <= |d.blocks[p].index|
    requires forall i: nat :: !InSlot(d, p, i, p)
    ensures p !in Entries(d.blocks[p]) && Find(Entries(d.blocks[p]), p) == d.blocks[p].nextIndex
  {
    var es := Entries(d.blocks[p]);
    if k: nat :| k < |es| && es[k] == p { assert InSlot(d, p, k, p); }
  }

  /** Unlinking takes what the path names out of its slot, exactly if the path does not end in a slash. */
  lemma UnlinkTakesOut(d: Disk, d': Disk, path: string)
    requires DiskOk(d) && Elements(path) != [] && Resolve(d, path) != 0 && UnlinkDone(d, d', path, Ok)
    ensures (forall b, i: nat :: !InSlot(d', b, i, Resolve(d, path))) <==> LastPart(path, "") != ""
  {
    if LastPart(path, "") != "" {
      UnlinkRemovesEntry(d, d', path);
    } else {
      UnlinkTrailingSlash(d, d', path);
      WalkedSlot(d, Elements(path));
      var b, i: nat :| InSlot(d, b, i, Resolve(d, path));
      assert InSlot(d', b, i, Resolve(d, path));
    }
  }

  // ---------- rename ----------

  /** The walk along these elements comes to block e. */
  predicate Passes(d: Disk, es: seq<string>, e: Id)
    requires Shaped(d)
  {
    exists k :: 0 <= k <= |es| && Walk(d, es[..k]) == e
  }

  lemma PassesShorter(d: Disk, es: seq<string>, e: Id)
    requires Shaped(d) && es != [] && !Passes(d, es, e)
    ensures !Passes(d, es[..|es| - 1], e) && Walk(d, es) != e
  {
    var pre := es[..|es| - 1];
    assert es[..|es|] == es;
    forall k | 0 <= k <= |pre| ensures Walk(d, pre[..k]) != e {
      assert pre[..k] == es[..k];
    }
  }

  /** Who does not come to the block does not take its entry. */
  lemma NotTaken(d: Disk, es: seq<string>, p: Id, name: string, e: Id)
    requires Shaped(d) && !Passes(d, es, e) && p < |d.blocks| && p != 0 && Lookup(d, p, name) == e
    ensures !Takes(d, es, p, name)
  {
    if k :| 0 <= k < |es| && Walk(d, es[..k]) == p && es[k] == name {
      assert es[..k + 1] == es[..k] + [name];
      WalkOne(d, es[..k], name);
    }
  }

  lemma MovedLookup(d: Disk, d': Disk, q: Id, e: Id, b: Id, n: string)
    requires DiskOk(d) && DiskOk(d') && IsDir(d, q) && d.blocks[q].nextIndex < MAX_ENTRIES && MovedIn(d, d', q, e)
    requires e < |d.metas| && b < |d.blocks|
    ensures Lookup(d, b, n) != 0 ==> Lookup(d', b, n) == Lookup(d, b, n)
    ensures Lookup(d, q, n) == 0 && !Dotted(n) ==> Lookup(d', q, n) == if d.metas[e].name == n then e else 0
  {
    assert BlockOk(d, b) && BlockOk(d, q) && BlockOk(d', b);
    var es := Entries(d.blocks[q]);
    assert Entries(d'.blocks[q]) == es + [e];
    FirstNamedSplit(d, es, [e], n);
    OneNamed(d, e, n);
    FirstNamedSame(d, d', es + [e], n);
    if IsDir(d, b) && b != q {
      FirstNamedSame(d, d', Entries(d.blocks[b]), n);
    }
  }

  lemma {:induction false} MovedWalk(d: Disk, d': Disk, q: Id, e: Id, es: seq<string>)
    requires DiskOk(d) && DiskOk(d') && IsDir(d, q) && d.blocks[q].nextIndex < MAX_ENTRIES && MovedIn(d, d', q, e)
    requires e < |d.metas| && Walk(d, es) != 0
    ensures Walk(d', es) == Walk(d, es)
    decreases |es|
  {
    if es != [] {
      var pre := es[..|es| - 1];
      MovedWalk(d, d', q, e, pre);
      MovedLookup(d, d', q, e, Walk(d, pre), es[|es| - 1]);
    }
  }

  /** Another block's name changes: the first entry with some other name stays the first. */
  lemma {:induction false} FirstNamedRenamed(d: Disk, d': Disk, es: seq<Id>, e: Id, name: string, n: string)
    requires Shaped(d) && Known(d, es) && e < |d.metas| && Renamed(d, d', e, name) && (n != name || e !in es)
    requires FirstNamed(d, es, n) != 0 && FirstNamed(d, es, n) != e
    ensures FirstNamed(d', es, n) == FirstNamed(d, es, n)
  {
    if es != [] {
      assert BlockOk(d, es[0]);
      if d.metas[es[0]].name != n {
        FirstNamedRenamed(d, d', es[1..], e, name, n);
      }
    }
  }

  /** The entry with a name that has none of that name before it is found. */
  lemma {:induction false} FirstNamedAt(d: Disk, es: seq<Id>, k: nat, name: string)
    requires Shaped(d) && Known(d, es) && k < |es| && d.metas[es[k]].name == name
    requires forall i :: 0 <= i < k ==> d.metas[es[i]].name != name
    ensures FirstNamed(d, es, name) == es[k]
  {
    assert BlockOk(d, es[0]);
    if k > 0 { FirstNamedAt(d, es[1..], k - 1, name); }
  }

  /** What the name shows after e got it in directory q: the first of e and of the entry that had the name. */
  function ShownIn(d: Disk, q: Id, e: Id, name: string): Id
    requires Shaped(d) && IsDir(d, q) && d.blocks[q].nextIndex <= |d.blocks[q].index|
  {
    var es, x := Entries(d.blocks[q]), Lookup(d, q, name);
    if Dotted(name) then 0 else if x == 0 || Find(es, e) <= Find(es, x) then e else x
  }

  /** In directory q, which holds e, e gets the name: no other lookup changes. */
  lemma RenamedLookup(d: Disk, d': Disk, q: Id, i: nat, e: Id, name: string, b: Id, n: string)
    requires DiskOk(d) && DiskOk(d') && InSlot(d, q, i, e) && e < |d.metas| && Renamed(d, d', e, name)
    requires b < |d.blocks| && (b != q || n != name) && Lookup(d, b, n) != 0 && Lookup(d, b, n) != e
    ensures Lookup(d', b, n) == Lookup(d, b, n)
  {
    assert BlockOk(d, b) && BlockOk(d', b);
    var es := Entries(d.blocks[b]);
    if n == name && e in es {
      var j :| 0 <= j < |es| && es[j] == e;
      assert InSlot(d, b, j, e);
    }
    FirstNamedRenamed(d, d', es, e, name, n);
  }

  /** And the name shows the first. */
  lemma RenamedShows(d: Disk, d': Disk, q: Id, i: nat, e: Id, name: string)
    requires DiskOk(d) && DiskOk(d') && InSlot(d, q, i, e) && 0 < e < |d.metas| && Renamed(d, d', e, name)
    ensures d.blocks[q].nextIndex <= |d.blocks[q].index| && Lookup(d', q, name) == ShownIn(d, q, e, name)
  {
    assert BlockOk(d, q) && BlockOk(d', q);
    if !Dotted(name) {
      var es := Entries(d.blocks[q]);
      assert es[i] == e && Entries(d'.blocks[q]) == es;
      FirstOfRenamed(d, d', es, e, name);
    }
  }

  lemma FirstOfRenamed(d: Disk, d': Disk, es: seq<Id>, e: Id, name: string)
    requires Shaped(d) && Shaped(d') && Known(d, es) && (forall i :: 0 <= i < |es| ==> es[i] > 0) && e in es
    requires e < |d.metas| && Renamed(d, d', e, name)
    ensures var x := FirstNamed(d, es, name);
            FirstNamed(d', es, name) == if x == 0 || Find(es, e) <= Find(es, x) then e else x
  {
    var x, k := FirstNamed(d, es, name), Find(es, e);
    if x == 0 {
      FirstNamedIs(d, es, name);
    } else {
      BeforeFirst(d, es, name);
    }
    var first := if x == 0 || k <= Find(es, x) then k else Find(es, x);
    FirstNamedAt(d', es, first, name);
  }

  /** Before the entry that a name shows there is none of that name. */
  lemma BeforeFirst(d: Disk, es: seq<Id>, name: string)
    requires Shaped(d) && Known(d, es) && (forall i :: 0 <= i < |es| ==> es[i] > 0) && FirstNamed(d, es, name) != 0
    ensures var m := Find(es, FirstNamed(d, es, name));
            m < |es| && d.metas[es[m]].name == name && forall i :: 0 <= i < m ==> d.metas[es[i]].name != name
  {
    FirstNamedIs(d, es, name);
    var x := FirstNamed(d, es, name);
    var i :| 0 <= i < |es| && es[i] == x && d.metas[es[i]].name == name &&
             forall k :: 0 <= k < i ==> d.metas[es[k]].name != name;
    assert Find(es, x) <= i;
  }

  lemma TakesShorter(d: Disk, es: seq<string>, q: Id, name: string)
    requires Shaped(d) && es != [] && !Takes(d, es, q, name)
    ensures !Takes(d, es[..|es| - 1], q, name)
    ensures Walk(d, es[..|es| - 1]) != q || es[|es| - 1] != name
  {
    var pre := es[..|es| - 1];
    assert es[..|es| - 1] == pre;
    forall k | 0 <= k < |pre| ensures Walk(d, pre[..k]) != q || pre[k] != name {
      assert pre[..k] == es[..k] && pre[k] == es[k];
    }
  }

  /** A name that shows nothing is not taken by a walk that gets somewhere. */
  lemma FreeIsNotTaken(d: Disk, es: seq<string>, q: Id, name: string)
    requires Shaped(d) && Walk(d, es) != 0 && q < |d.blocks| && Lookup(d, q, name) == 0
    ensures !Takes(d, es, q, name)
  {
    if k :| 0 <= k < |es| && Walk(d, es[..k]) == q && es[k] == name {
      assert es[..k + 1] == es[..k] + [name] && es == es[..k + 1] + es[k + 1..];
      WalkOne(d, es[..k], name);
      WalkFailed(d, es[..k + 1], es[k + 1..]);
    }
  }

  /** A walk does not come to a block twice. */
  lemma {:induction false} WalkOnce(d: Disk, es: seq<string>, k: nat)
    requires DiskOk(d) && k < |es| && Walk(d, es) != 0
    ensures Walk(d, es[..k]) != Walk(d, es)
    decreases k
  {
    var pre := es[..|es| - 1];
    LookupInRange(d, Walk(d, pre), es[|es| - 1]);
    var i :| InSlot(d, Walk(d, pre), i, Walk(d, es));
    if k > 0 && Walk(d, es[..k]) == Walk(d, es) {
      var early := es[..k];
      assert early[..k - 1] == es[..k - 1] == pre[..k - 1];
      LookupInRange(d, Walk(d, early[..k - 1]), early[k - 1]);
      var j :| InSlot(d, Walk(d, early[..k - 1]), j, Walk(d, early));
      WalkOnce(d, pre, k - 1);
    }
  }

  /** The walk to a directory does not take any entry of it. */
  lemma NotTakenBefore(d: Disk, es: seq<string>, name: string)
    requires DiskOk(d) && Walk(d, es) != 0
    ensures !Takes(d, es, Walk(d, es), name)
  {
    if k :| 0 <= k < |es| && Walk(d, es[..k]) == Walk(d, es) && es[k] == name { WalkOnce(d, es, k); }
  }

  lemma {:induction false} RenamedWalk(d: Disk, d': Disk, q: Id, i: nat, e: Id, name: string, es: seq<string>)
    requires DiskOk(d) && DiskOk(d') && InSlot(d, q, i, e) && e < |d.metas| && Renamed(d, d', e, name)
    requires Walk(d, es) != 0 && !Passes(d, es, e)
    requires q < |d.blocks| && (!Takes(d, es, q, name) || Lookup(d', q, name) == Lookup(d, q, name))
    ensures Walk(d', es) == Walk(d, es)
    decreases |es|
  {
    if es != [] {
      var pre, n := es[..|es| - 1], es[|es| - 1];
      PassesShorter(d, es, e);
      if !Takes(d, es, q, name) { TakesShorter(d, es, q, name); }
      RenamedWalk(d, d', q, i, e, name, pre);
      if Walk(d, pre) != q || n != name { RenamedLookup(d, d', q, i, e, name, Walk(d, pre), n); }
    }
  }

  /** What the new path shows: the block, unless its last part is "." or "..", or there is another entry of that name
      that comes first. An entry from another directory comes last. */
  function Shown(d: Disk, p: Id, q: Id, e: Id, name: string): Id
    requires Shaped(d) && IsDir(d, q) && d.blocks[q].nextIndex <= |d.blocks[q].index|
  {
    if p == q then ShownIn(d, q, e, name)
    else if Dotted(name) then 0
    else if Lookup(d, q, name) == 0 then e
    else Lookup(d, q, name)
  }

  /** A path is renamed, to a free name or to one that is taken (nothing is replaced then): every path that resolved,
      and does not pass through the block, still resolves to the same, unless it takes the new name and that shows
      something else now; and what the new path resolves to, if its parent does not pass through the block. */
  lemma RenameIsConservative(d: Disk, d': Disk, from: string, to: string)
    requires DiskOk(d) && LastPart(from, "") != "" && LastPart(to, "") != "" && RenameDone(d, d', from, to, Ok)
    requires IsDir(d, ParentBlock(d, to))
    ensures DiskOk(d') && Elements(to) != []
    ensures var q, name := ParentBlock(d, to), LastPart(to, "");
            d.blocks[q].nextIndex <= |d.blocks[q].index| &&
            var shown := Shown(d, ParentBlock(d, from), q, Resolve(d, from), name);
            (forall es :: Walk(d, es) != 0 && !Passes(d, es, Resolve(d, from)) &&
                          (Lookup(d, q, name) == 0 || Lookup(d, q, name) == shown || !Takes(d, es, q, name)) ==>
               Walk(d', es) == Walk(d, es)) &&
            (!Passes(d, Elements(to)[..|Elements(to)| - 1], Resolve(d, from)) ==> Resolve(d', to) == shown)
  {
    var p, q, e, name := ParentBlock(d, from), ParentBlock(d, to), Resolve(d, from), LastPart(to, "");
    LastElement(from);
    LastElement(to);
    FoundSlot(d, p, LastPart(from, ""));
    assert BlockOk(d, q);
    if p == q {
      var i := Find(Entries(d.blocks[p]), e);
      RenamedKeepsDisk(d, d', e, name);
      RenamedShows(d, d', q, i, e, name);
      RenamedWalks(d, d', q, i, e, name);
    } else {
      var d1, d2 :| Transferred(d, d1, d2, d', p, q, e, name);
      RenamedKeepsDisk(d2, d', e, name);
      forall es | Walk(d, es) != 0 && !Passes(d, es, e) ensures Walk(d', es) == Walk(d, es) {
        TransferredWalk(d, d1, d2, d', p, q, e, LastPart(from, ""), name, es);
      }
      TransferredLookup(d, d1, d2, d', p, q, e, LastPart(from, ""), name);
    }
    var es := Elements(to);
    var pre := es[..|es| - 1];
    assert Walk(d, pre) == q;
    NotTakenBefore(d, pre, name);
    if !Passes(d, pre, e) { assert Walk(d', pre) == q; }
  }

  lemma RenamedWalks(d: Disk, d': Disk, q: Id, i: nat, e: Id, name: string)
    requires DiskOk(d) && DiskOk(d') && InSlot(d, q, i, e) && e < |d.metas| && Renamed(d, d', e, name)
    requires q < |d.blocks|
    ensures forall es :: Walk(d, es) != 0 && !Passes(d, es, e) &&
                         (Lookup(d, q, name) == 0 || Lookup(d, q, name) == Lookup(d', q, name) ||
                          !Takes(d, es, q, name)) ==>
              Walk(d', es) == Walk(d, es)
  {
    forall es | Walk(d, es) != 0 && !Passes(d, es, e) &&
                (Lookup(d, q, name) == 0 || Lookup(d, q, name) == Lookup(d', q, name) || !Takes(d, es, q, name))
      ensures Walk(d', es) == Walk(d, es)
    {
      if Lookup(d, q, name) == 0 { FreeIsNotTaken(d, es, q, name); }
      RenamedWalk(d, d', q, i, e, name, es);
    }
  }

  /** Moving an entry puts it last in the new directory. */
  lemma TransferredLookup(d: Disk, d1: Disk, d2: Disk, d': Disk, p: Id, q: Id, e: Id, was: string, name: string)
    requires Transferred(d, d1, d2, d', p, q, e, name) && p != q && q < |d.blocks| && DiskOk(d')
    requires Lookup(d, p, was) == e && e != 0
    ensures IsDir(d, q) && d.blocks[q].nextIndex <= |d.blocks[q].index|
    ensures Lookup(d', q, name) == Shown(d, p, q, e, name)
    ensures InSlot(d2, q, d1.blocks[q].nextIndex, e)
    ensures was != name || Lookup(d, q, name) != 0 ==> Lookup(d2, q, name) == Lookup(d, q, name)
    ensures was == name ==> d' == d2
  {
    FoundSlot(d, p, was);
    var k := Find(Entries(d.blocks[p]), e);
    RemovedLookup(d, d1, p, k, q, name);
    MovedLookup(d1, d2, q, e, q, name);
    assert BlockOk(d, q) && BlockOk(d1, q) && BlockOk(d2, q);
    if was == name {
      assert d2.metas[e := d2.metas[e].(name := name)] == d2.metas;
    } else {
      RenamedShows(d2, d', q, d1.blocks[q].nextIndex, e, name);
      LastIsBehind(d1, d2, q, e, name);
    }
  }

  /** The entry that was moved in is behind all others. */
  lemma LastIsBehind(d1: Disk, d2: Disk, q: Id, e: Id, name: string)
    requires DiskOk(d1) && DiskOk(d2) && IsDir(d1, q) && d1.blocks[q].nextIndex < MAX_ENTRIES && MovedIn(d1, d2, q, e)
    requires Lookup(d2, q, name) == Lookup(d1, q, name) && 0 < e < |d1.metas|
    ensures IsDir(d2, q) && d2.blocks[q].nextIndex <= |d2.blocks[q].index|
    ensures var x := Lookup(d1, q, name); ShownIn(d2, q, e, name) == if Dotted(name) then 0 else if x == 0 then e else x
  {
    assert BlockOk(d1, q) && BlockOk(d2, q);
    var es, es2, x := Entries(d1.blocks[q]), Entries(d2.blocks[q]), Lookup(d1, q, name);
    assert es2 == es + [e];
    if x != 0 && !Dotted(name) {
      BeforeFirst(d1, es, name);
      var m := Find(es, x);
      assert es2[m] == x && Find(es2, x) <= m;
      if Find(es2, e) <= Find(es2, x) && x != e {
        assert es2[Find(es2, e)] == e && InSlot(d2, q, Find(es2, e), e) && InSlot(d2, q, |es|, e);
      }
    }
  }

  lemma TransferredWalk(d: Disk, d1: Disk, d2: Disk, d': Disk, p: Id, q: Id, e: Id, was: string, name: string,
                        es: seq<string>)
    requires Transferred(d, d1, d2, d', p, q, e, name) && p != q && p != 0 && q < |d.blocks| && DiskOk(d')
    requires Lookup(d, p, was) == e && e != 0
    requires Walk(d, es) != 0 && !Passes(d, es, e)
    ensures Walk(d', es) == Walk(d, es)
  {
    FoundSlot(d, p, was);
    var k := Find(Entries(d.blocks[p]), e);
    TransferredLookup(d, d1, d2, d', p, q, e, was, name);
    NotTaken(d, es, p, was, e);
    RemovedWalk(d, d1, p, k, es);
    MovedWalk(d1, d2, q, e, es);
    if was != name {
      StillPasses(d, d1, d2, p, q, k, e, was, es);
      if Lookup(d2, q, name) == 0 { FreeIsNotTaken(d2, es, q, name); }
      if Dotted(name) { assert Lookup(d2, q, name) == 0; }
      RenamedWalk(d2, d', q, d1.blocks[q].nextIndex, e, name, es);
    }
  }

  lemma StillPasses(d: Disk, d1: Disk, d2: Disk, p: Id, q: Id, k: nat, e: Id, was: string, es: seq<string>)
    requires DiskOk(d) && DiskOk(d1) && DiskOk(d2) && IsDir(d, p) && p != 0 && Removed(d, d1, p, k)
    requires k < d.blocks[p].nextIndex <= |d.blocks[p].index| && Known(d, Entries(d.blocks[p]))
    requires var xs := Entries(d.blocks[p]);
             d.metas[xs[k]].name == was && forall i :: 0 <= i < k ==> d.metas[xs[i]].name != was
    requires Lookup(d, p, was) == e && e < |d.metas|
    requires IsDir(d1, q) && d1.blocks[q].nextIndex < MAX_ENTRIES && MovedIn(d1, d2, q, e)
    requires Walk(d, es) != 0 && !Passes(d, es, e)
    ensures !Passes(d2, es, e)
  {
    forall j | 0 <= j <= |es| ensures Walk(d2, es[..j]) != e {
      PassesPrefix(d, es, j, e);
      StillWalks(d, d1, d2, p, q, k, e, was, es[..j]);
    }
  }

  lemma PassesPrefix(d: Disk, es: seq<string>, j: nat, e: Id)
    requires Shaped(d) && j <= |es| && Walk(d, es) != 0 && !Passes(d, es, e)
    ensures Walk(d, es[..j]) != 0 && !Passes(d, es[..j], e)
  {
    var pre := es[..j];
    assert pre + es[j..] == es;
    if Walk(d, pre) == 0 { WalkFailed(d, pre, es[j..]); }
    forall i | 0 <= i <= j ensures Walk(d, pre[..i]) != e {
      assert pre[..i] == es[..i];
    }
  }

  /** A walk that does not come to the block that is moved is the same afterwards. */
  lemma StillWalks(d: Disk, d1: Disk, d2: Disk, p: Id, q: Id, k: nat, e: Id, was: string, es: seq<string>)
    requires DiskOk(d) && DiskOk(d1) && DiskOk(d2) && IsDir(d, p) && p != 0 && Removed(d, d1, p, k)
    requires k < d.blocks[p].nextIndex <= |d.blocks[p].index| && Known(d, Entries(d.blocks[p]))
    requires var xs := Entries(d.blocks[p]);
             d.metas[xs[k]].name == was && forall i :: 0 <= i < k ==> d.metas[xs[i]].name != was
    requires Lookup(d, p, was) == e && e < |d.metas|
    requires IsDir(d1, q) && d1.blocks[q].nextIndex < MAX_ENTRIES && MovedIn(d1, d2, q, e)
    requires Walk(d, es) != 0 && !Passes(d, es, e)
    ensures Walk(d2, es) == Walk(d, es) != e
  {
    assert es[..|es|] == es;
    NotTaken(d, es, p, was, e);
    RemovedWalk(d, d1, p, k, es);
    MovedWalk(d1, d2, q, e, es);
  }
}
