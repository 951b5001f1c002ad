/** Which operations of the home-made file system keep every block below the root (kernel/fs/asvfs.c). */
module Reachability {
  import opened PathNames
  import opened Namespace
  import opened Asvfs
  import opened NamespaceTheorems

  /** Block x is in a slot of directory b. */
  ghost predicate Holds(d: Disk, b: Id, x: Id) {
    exists i: nat :: InSlot(d, b, i, x)
  }

  /** Directories from the root down, each in a slot of the one before. */
  ghost predicate Chain(d: Disk, ids: seq<Id>) {
    ids != [] && ids[0] == d.root && forall k :: 0 < k < |ids| ==> Holds(d, ids[k - 1], ids[k])
  }

  ghost predicate Reachable(d: Disk, x: Id) {
    exists ids :: Chain(d, ids) && ids[|ids| - 1] == x
  }

  /** Nothing in a slot is cut off from the root. */
  ghost predicate AllReachable(d: Disk) {
    forall b, x :: Holds(d, b, x) ==> Reachable(d, x)
  }

  lemma ReachNext(d: Disk, b: Id, x: Id)
    requires Reachable(d, b) && Holds(d, b, x)
    ensures Reachable(d, x)
  {
    var ids :| Chain(d, ids) && ids[|ids| - 1] == b;
    var more := ids + [x];
    forall k | 0 < k < |more| ensures Holds(d, more[k - 1], more[k]) {
      if k < |ids| { assert Holds(d, ids[k - 1], ids[k]); }
    }
    assert Chain(d, more);
  }

  lemma ReachRoot(d: Disk)
    ensures Reachable(d, d.root)
  {
    assert Chain(d, [d.root]);
  }

  /** If all slots but those of e are kept, what is reachable stays so, given that e does. */
  lemma {:induction false} ReachKept(d: Disk, d': Disk, ids: seq<Id>, e: Id)
    requires d'.root == d.root && Chain(d, ids) && (e in ids ==> Reachable(d', e))
    requires forall b, x :: Holds(d, b, x) && x != e ==> Holds(d', b, x)
    ensures Reachable(d', ids[|ids| - 1])
    decreases |ids|
  {
    var n := |ids| - 1;
    if n == 0 {
      ReachRoot(d');
    } else if ids[n] != e {
      ReachKept(d, d', ids[..n], e);
      ReachNext(d', ids[n - 1], ids[n]);
    }
  }

  /** What cannot be entered from outside is not reached, if the root is not part of it. */
  lemma {:induction false} ClosedIsCutOff(d: Disk, s: set<Id>, ids: seq<Id>)
    requires Chain(d, ids) && d.root !in s
    requires forall b, x :: Holds(d, b, x) && x in s ==> b in s
    ensures ids[|ids| - 1] !in s
    decreases |ids|
  {
    if |ids| > 1 {
      ClosedIsCutOff(d, s, ids[..|ids| - 1]);
      assert Holds(d, ids[|ids| - 2], ids[|ids| - 1]);
    }
  }

  lemma NotFailed(d: Disk, es: seq<string>, k: nat)
    requires Shaped(d) && k <= |es| && Walk(d, es) != 0
    ensures Walk(d, es[..k]) != 0
  {
    assert es == es[..k] + es[k..];
    if Walk(d, es[..k]) == 0 { WalkFailed(d, es[..k], es[k..]); }
  }

  /** Every step of a walk goes down into a slot. */
  lemma WalkStep(d: Disk, es: seq<string>, k: nat)
    requires DiskOk(d) && k < |es| && Walk(d, es) != 0
    ensures Walk(d, es[..k]) != 0 && Walk(d, es[..k + 1]) != 0 && Holds(d, Walk(d, es[..k]), Walk(d, es[..k + 1]))
  {
    NotFailed(d, es, k);
    NotFailed(d, es, k + 1);
    assert es[..k + 1] == es[..k] + [es[k]];
    WalkOne(d, es[..k], es[k]);
    LookupInRange(d, Walk(d, es[..k]), es[k]);
  }

  /** Where a walk comes to, only the directory before holds it, and it is not the root. */
  lemma WalkHolder(d: Disk, es: seq<string>, b: Id)
    requires DiskOk(d) && es != [] && Walk(d, es) != 0
    ensures Walk(d, es[..|es| - 1]) != 0 && Walk(d, es) != d.root
    ensures Holds(d, b, Walk(d, es)) ==> b == Walk(d, es[..|es| - 1])
  {
    var n := |es| - 1;
    WalkStep(d, es, n);
    assert es[..n + 1] == es;
    var i: nat :| InSlot(d, Walk(d, es[..n]), i, Walk(d, es));
  }

  /** What a path resolves to is reachable, also in a disk that keeps all slots but those of a block the walk avoids. */
  lemma {:induction false} WalkReaches(d: Disk, d': Disk, es: seq<string>, e: Id)
    requires DiskOk(d) && Walk(d, es) != 0 && !Passes(d, es, e) && d'.root == d.root
    requires forall b, x :: Holds(d, b, x) && x != e ==> Holds(d', b, x)
    ensures Reachable(d', Walk(d, es))
    decreases |es|
  {
    if es == [] {
      ReachRoot(d');
    } else {
      var n := |es| - 1;
      PassesShorter(d, es, e);
      WalkStep(d, es, n);
      assert es[..n + 1] == es;
      WalkReaches(d, d', es[..n], e);
      ReachNext(d', Walk(d, es[..n]), Walk(d, es));
    }
  }

  // ---------- creating ----------

  /** Creating a name cuts nothing off, and the new block is below the root. */
  lemma CreateKeepsReachable(d: Disk, d': Disk, path: string, kind: nat)
    requires DiskOk(d) && AllReachable(d) && d.nextFree < |d.blocks| && ParentBlock(d, path) < |d.blocks|
    requires IsDir(d, ParentBlock(d, path)) && ParentBlock(d, path) != 0 && CreateDone(d, d', path, kind, Ok)
    ensures AllReachable(d') && Reachable(d', d.nextFree)
  {
    var p, e := ParentBlock(d, path), d.nextFree;
    assert BlockOk(d, p) && BlockOk(d, e);
    forall b, x | Holds(d, b, x) ensures Holds(d', b, x) {
      var i: nat :| InSlot(d, b, i, x);
      assert BlockOk(d, b);
      assert InSlot(d', b, i, x);
    }
    var es := ParentElements(path);
    NoBlockIsZero(d, es);
    WalkReaches(d, d', es, 0);
    assert InSlot(d', p, d.blocks[p].nextIndex, e);
    ReachNext(d', p, e);
    forall b, x | Holds(d', b, x) ensures Reachable(d', x) {
      var i: nat :| InSlot(d', b, i, x);
      AddedSlot(d, d', p, LastPart(path, ""), kind, b, i, x);
      if x != e {
        assert Holds(d, b, x);
        var ids :| Chain(d, ids) && ids[|ids| - 1] == x;
        ChainAvoidsFresh(d, ids);
        ReachKept(d, d', ids, e);
      }
    }
  }

  /** The elements of the directory in which the last part of a path is looked up. */
  function ParentElements(path: string): (es: seq<string>)
    ensures forall d: Disk :: Shaped(d) ==> ParentBlock(d, path) == Walk(d, es)
  {
    var es := Elements(path);
    if LastPart(path, "") == "" || es == [] then es else es[..|es| - 1]
  }

  lemma NoBlockIsZero(d: Disk, es: seq<string>)
    requires DiskOk(d) && Walk(d, es) != 0
    ensures !Passes(d, es, 0)
  {
    forall k | 0 <= k <= |es| ensures Walk(d, es[..k]) != 0 {
      if k < |es| { WalkStep(d, es, k); } else { assert es[..k] == es; }
    }
  }

  lemma ChainAvoidsFresh(d: Disk, ids: seq<Id>)
    requires DiskOk(d) && Chain(d, ids)
    ensures d.nextFree !in ids
  {
    forall k | 0 <= k < |ids| ensures ids[k] != d.nextFree {
      if k > 0 {
        var i: nat :| InSlot(d, ids[k - 1], i, ids[k]);
        assert BlockOk(d, ids[k - 1]);
      }
    }
  }

  // ---------- unlinking ----------

  /** Unlinking cuts nothing off exactly if it is no directory with entries that is taken out. The source does not
      look. */
  lemma UnlinkKeepsReachable(d: Disk, d': Disk, path: string)
    requires DiskOk(d) && AllReachable(d) && LastPart(path, "") != "" && Resolve(d, path) != 0 &&
             UnlinkDone(d, d', path, Ok)
    ensures AllReachable(d') <==> !IsDir(d, Resolve(d, path)) || d.blocks[Resolve(d, path)].nextIndex == 0
  {
    var p, c := ParentBlock(d, path), Resolve(d, path);
    UnlinkRemovesEntry(d, d', path);
    var es := Entries(d.blocks[p]);
    var k := Find(es, c);
    assert BlockOk(d, p) && BlockOk(d, c);
    WalkedSlot(d, Elements(path));
    assert c != p by {
      if c == p { assert InSlot(d, p, k, c); }
    }
    assert c != d.root by { assert InSlot(d, p, k, c); }
    forall b, x | Holds(d, b, x) && x != c ensures Holds(d', b, x) {
      var i: nat :| InSlot(d, b, i, x);
      RemovedKeepsSlot(d, d', p, k, b, i, x);
    }
    if IsDir(d, c) && d.blocks[c].nextIndex > 0 {
      assert InSlot(d', c, 0, d.blocks[c].index[0]);
      LostDirectory(d', c, d.blocks[c].index[0]);
    } else {
      forall b, x | Holds(d', b, x) ensures Reachable(d', x) {
        var i: nat :| InSlot(d', b, i, x);
        RemovedSlot(d, d', p, k, b, i, x);
        assert Holds(d, b, x) && x != c;
        var ids :| Chain(d, ids) && ids[|ids| - 1] == x;
        EmptyIsNoHolder(d, c, ids);
        ReachKept(d, d', ids, c);
      }
    }
  }

  /** What is in a directory that is in no slot is cut off. */
  lemma LostDirectory(d: Disk, c: Id, x: Id)
    requires DiskOk(d) && c != d.root && (forall b, i: nat :: !InSlot(d, b, i, c)) && InSlot(d, c, 0, x)
    ensures !AllReachable(d)
  {
    if Reachable(d, x) {
      var ids :| Chain(d, ids) && ids[|ids| - 1] == x;
      OnlyHolder(d, c, 0, x);
      ClosedIsCutOff(d, {c, x}, ids);
    }
    assert Holds(d, c, x);
  }

  /** A block is held by one directory. */
  lemma OnlyHolder(d: Disk, b: Id, i: nat, x: Id)
    requires DiskOk(d) && InSlot(d, b, i, x)
    ensures forall b' :: Holds(d, b', x) ==> b' == b
  {
  }

  /** A chain does not go through what holds nothing. */
  lemma EmptyIsNoHolder(d: Disk, c: Id, ids: seq<Id>)
    requires Chain(d, ids) && (!IsDir(d, c) || d.blocks[c].nextIndex == 0) && ids[|ids| - 1] != c
    ensures c !in ids
  {
    forall k | 0 <= k < |ids| ensures ids[k] != c {
      if k + 1 < |ids| { assert Holds(d, ids[k + 1 - 1], ids[k + 1]); }
    }
  }

  /** The other entries of the directory are still in slots of it. */
  lemma RemovedKeepsSlot(d: Disk, d': Disk, p: Id, k: nat, b: Id, i: nat, x: Id)
    requires DiskOk(d) && IsDir(d, p) && Removed(d, d', p, k) && InSlot(d, b, i, x)
    requires k < d.blocks[p].nextIndex <= |d.blocks[p].index| && x != d.blocks[p].index[k]
    ensures Holds(d', b, x)
  {
    assert BlockOk(d, p);
    assert InSlot(d', b, if b == p && i > k then i - 1 else i, x);
  }

  // ---------- renaming ----------

  /** Moving an entry: its block is then held by the new directory and nothing else is held elsewhere. */
  lemma TransferredHolds(d: Disk, d1: Disk, d2: Disk, d': Disk, p: Id, q: Id, e: Id, was: string, name: string)
    requires Transferred(d, d1, d2, d', p, q, e, name) && p < |d.blocks| && Lookup(d, p, was) == e != 0
    ensures forall b, x :: x != e ==> (Holds(d', b, x) <==> Holds(d, b, x))
    ensures forall b :: Holds(d', b, e) <==> b == q
    ensures d'.root == d.root != e
  {
    FoundSlot(d, p, was);
    var k := Find(Entries(d.blocks[p]), e);
    assert InSlot(d, p, k, e);
    assert BlockOk(d, p) && BlockOk(d1, q);
    RemovedEntries(d, d1, p, k);
    forall b, x | x != e ensures Holds(d', b, x) <==> Holds(d, b, x) {
      if i: nat :| InSlot(d, b, i, x) {
        RemovedKeepsSlot(d, d1, p, k, b, i, x);
        var j: nat :| InSlot(d1, b, j, x);
        assert InSlot(d', b, j, x);
      }
      if i: nat :| InSlot(d', b, i, x) {
        MovedSlot(d1, d2, q, e, b, i, x);
        RemovedSlot(d, d1, p, k, b, i, x);
      }
    }
    assert InSlot(d', q, d1.blocks[q].nextIndex, e);
    forall b | Holds(d', b, e) ensures b == q {
      var i: nat :| InSlot(d', b, i, e);
      MovedSlot(d1, d2, q, e, b, i, e);
    }
  }

  /** Renaming into another directory cuts nothing off exactly if the path of that directory does not pass through what
      is moved: a directory that is moved below itself is lost with all that is in it. The source does not look. */
  lemma RenameKeepsReachable(d: Disk, d': Disk, from: string, to: string)
    requires DiskOk(d) && AllReachable(d) && LastPart(from, "") != "" && RenameDone(d, d', from, to, Ok)
    ensures ParentBlock(d, from) == ParentBlock(d, to) ==> AllReachable(d')
    ensures ParentBlock(d, from) != ParentBlock(d, to) ==>
              (AllReachable(d') <==> !Passes(d, ParentElements(to), Resolve(d, from)))
  {
    var p, q, e, es := ParentBlock(d, from), ParentBlock(d, to), Resolve(d, from), ParentElements(to);
    LastElement(from);
    if p == q {
      SameSlotsSameReach(d, d');
    } else {
      var d1, d2 :| Transferred(d, d1, d2, d', p, q, e, LastPart(to, ""));
      TransferredHolds(d, d1, d2, d', p, q, e, LastPart(from, ""), LastPart(to, ""));
      if Passes(d, es, e) {
        MovedBelowItself(d, d', q, e, es);
      } else {
        WalkReaches(d, d', es, e);
        ReachNext(d', q, e);
        forall b, x | Holds(d', b, x) ensures Reachable(d', x) {
          if x != e {
            var ids :| Chain(d, ids) && ids[|ids| - 1] == x;
            ReachKept(d, d', ids, e);
          }
        }
      }
    }
  }

  lemma SameSlotsSameReach(d: Disk, d': Disk)
    requires AllReachable(d) && d'.root == d.root && d'.blocks == d.blocks
    ensures AllReachable(d')
  {
    assert forall b, i: nat, x :: InSlot(d', b, i, x) <==> InSlot(d, b, i, x);
    forall b, x | Holds(d', b, x) ensures Reachable(d', x) {
      assert Holds(d, b, x);
      var ids :| Chain(d, ids) && ids[|ids| - 1] == x;
      assert forall k :: 0 < k < |ids| ==> Holds(d, ids[k - 1], ids[k]);
      assert Chain(d', ids);
    }
  }

  /** The blocks that a walk comes to after its first k elements. */
  function Onward(d: Disk, es: seq<string>, k: nat): (s: set<Id>)
    requires Shaped(d)
    ensures Walk(d, es) in s
    decreases |es|
  {
    {Walk(d, es)} + if |es| <= k then {} else Onward(d, es[..|es| - 1], k)
  }

  /** They can only be entered from each other, but for the first, and the root is no other. */
  lemma {:induction false} OnwardIsClosed(d: Disk, es: seq<string>, k: nat, e: Id)
    requires DiskOk(d) && k <= |es| && Walk(d, es) != 0 && Walk(d, es[..k]) == e
    ensures e in Onward(d, es, k)
    ensures forall b, x :: Holds(d, b, x) && x in Onward(d, es, k) && x != e ==> b in Onward(d, es, k)
    ensures e != d.root ==> d.root !in Onward(d, es, k)
    decreases |es|
  {
    if k == |es| {
      assert es[..k] == es;
    } else {
      var pre := es[..|es| - 1];
      assert pre[..k] == es[..k];
      WalkHolder(d, es, 0);
      OnwardIsClosed(d, pre, k, e);
      forall b | Holds(d, b, Walk(d, es)) ensures b == Walk(d, pre) { WalkHolder(d, es, b); }
    }
  }

  /** A block that is held by a directory below it is cut off. */
  lemma MovedBelowItself(d: Disk, d': Disk, q: Id, e: Id, es: seq<string>)
    requires DiskOk(d) && Walk(d, es) == q != 0 && Passes(d, es, e)
    requires forall b, x :: x != e ==> (Holds(d', b, x) <==> Holds(d, b, x))
    requires (forall b :: Holds(d', b, e) <==> b == q) && d'.root == d.root != e
    ensures !AllReachable(d')
  {
    var k :| 0 <= k <= |es| && Walk(d, es[..k]) == e;
    var s := Onward(d, es, k);
    OnwardIsClosed(d, es, k, e);
    if Reachable(d', e) {
      var ids :| Chain(d', ids) && ids[|ids| - 1] == e;
      ClosedIsCutOff(d', s, ids);
    }
    assert Holds(d', q, e);
  }
}
