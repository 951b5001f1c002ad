/** A small disk on which the operations of the home-made file system do less than their names promise
    (kernel/fs/asvfs.c). */
module NamespaceExamples {
  import opened PathNames
  import opened Namespace
  import opened Asvfs
  import opened NamespaceTheorems
  import opened Reachability

  function Header(id: Id, kind: nat, name: string): Meta {
    Meta(id, kind, name, kind == DIRECTORY, 0)
  }

  function Directory(entries: seq<Id>): Block
    requires |entries| <= 1
  {
    Block(DIRECTORY, entries + seq(SLOTS - |entries|, i => 0), |entries|)
  }

  /** Block 1 is the root, with "/a" in block 2 and "/a/b" in block 3, both directories. Block 4 is free. */
  function Example(): Disk {
    Disk([Header(0, 0, ""), Header(1, DIRECTORY, ""), Header(2, DIRECTORY, "a"), Header(3, DIRECTORY, "b"),
          Header(4, 0, "")],
         [Block(0, [], 0), Directory([2]), Directory([3]), Directory([]), Block(0, [], 0)], 1, 4)
  }

  lemma ExampleIsShaped()
    ensures Shaped(Example())
  {
    var d := Example();
    forall b | 0 <= b < |d.blocks| ensures BlockOk(d, b) {
      if b == 0 {} else if b == 1 {} else if b == 2 {} else if b == 3 {} else {}
    }
  }

  /** The two slots in use. */
  lemma ExampleSlots(b: Id, i: nat, x: Id)
    ensures InSlot(Example(), b, i, x) <==> i == 0 && ((b == 1 && x == 2) || (b == 2 && x == 3))
  {
    if b == 1 {} else if b == 2 {} else if b == 3 {} else if b == 0 {} else {}
  }

  lemma ExampleIsOk()
    ensures DiskOk(Example()) && AllReachable(Example())
  {
    var d := Example();
    ExampleIsShaped();
    forall b, i, b', i', x | InSlot(d, b, i, x) && InSlot(d, b', i', x) ensures b == b' && i == i' {
      ExampleSlots(b, i, x);
      ExampleSlots(b', i', x);
    }
    forall b, i: nat ensures !InSlot(d, b, i, d.root) { ExampleSlots(b, i, d.root); }
    ExampleReach();
  }

  lemma ExampleReach()
    ensures AllReachable(Example())
  {
    var d := Example();
    ReachRoot(d);
    ExampleSlots(1, 0, 2);
    ExampleSlots(2, 0, 3);
    ReachNext(d, 1, 2);
    ReachNext(d, 2, 3);
    forall b, x | Holds(d, b, x) ensures Reachable(d, x) {
      var i: nat :| InSlot(d, b, i, x);
      ExampleSlots(b, i, x);
    }
  }

  lemma ExampleLookups()
    ensures Shaped(Example()) && Example().root == 1 && |Example().blocks| == 5
    ensures Lookup(Example(), 1, "a") == 2 && Lookup(Example(), 2, "b") == 3
  {
    ExampleIsShaped();
    var d := Example();
    OneNamed(d, 2, "a");
    OneNamed(d, 3, "b");
    assert Entries(d.blocks[1]) == [2] && Entries(d.blocks[2]) == [3];
  }

  /** Where the walks lead. */
  lemma ExampleWalks()
    ensures Shaped(Example())
    ensures Walk(Example(), []) == 1 && Walk(Example(), ["a"]) == 2 && Walk(Example(), ["a", "b"]) == 3
    ensures Lookup(Example(), 1, "a") == 2 && Lookup(Example(), 2, "b") == 3
  {
    hide Example, Walk, Lookup;
    ExampleLookups();
    TwoSteps(Example(), "a", "b");
  }

  lemma TwoSteps(d: Disk, a: string, b: string)
    requires Shaped(d) && Lookup(d, d.root, a) != 0
    ensures Walk(d, []) == d.root && Walk(d, [a]) == Lookup(d, d.root, a)
    ensures Walk(d, [a]) < |d.blocks| && Walk(d, [a, b]) == Lookup(d, Walk(d, [a]), b)
  {
    WalkOne(d, [], a);
    WalkOne(d, [a], b);
    assert [] + [a] == [a] && [a] + [b] == [a, b];
  }

  /** The element that a path of one letter behind a slash adds. */
  lemma PathOfLetter(path: string, c: char)
    requires c != '/'
    ensures Elements(path + ['/', c]) == Elements(path) + [[c]] && LastPart(path + ['/', c], "") == [c]
  {
    PartsOfJoin(path, "", [c]);
    assert "/" + [c] == ['/', c];
    LastOfJoin(path, "", c);
  }

  lemma {:induction false} LastOfJoin(path: string, name: string, c: char)
    requires c != '/'
    ensures LastPart(path + ['/', c], name) == [c]
  {
    var s := path + ['/', c];
    if path == "" {
      assert path + ['/', c] == ['/', c] && s[1..] == [c] && [c][1..] == "" && "" + [c] == [c];
      assert LastPart([c], "") == LastPart("", [c]);
    } else {
      assert s[1..] == path[1..] + ['/', c];
      LastOfJoin(path[1..], if path[0] == '/' then "" else name + [path[0]], c);
    }
  }

  lemma ExamplePaths()
    ensures Elements("/a") == ["a"] && LastPart("/a", "") == "a"
    ensures Elements("/a/b/c") == ["a", "b", "c"] && LastPart("/a/b/c", "") == "c"
    ensures Elements("/a/") == ["a"] && LastPart("/a/", "") == ""
    ensures Elements("/.") == ["."] && LastPart("/.", "") == "."
  {
    PathOfLetter("", 'a');
    PathOfLetter("/a", 'b');
    PathOfLetter("/a/b", 'c');
    PathOfLetter("", '.');
    assert "" + ['/', 'a'] == "/a" && "/a" + ['/', 'b'] == "/a/b" && "/a/b" + ['/', 'c'] == "/a/b/c";
    assert "" + ['/', '.'] == "/.";
    assert ["a"] + ["b"] == ["a", "b"] && ["a", "b"] + ["c"] == ["a", "b", "c"];
    SlashBehind("/a");
    assert "/a" + "/" == "/a/";
  }

  lemma SlashBehind(path: string)
    ensures Elements(path + "/") == Elements(path) && LastPart(path + "/", "") == ""
  {
    SlashBehindFrom(path, "");
  }

  lemma {:induction false} SlashBehindFrom(path: string, name: string)
    ensures Parts(path + "/", name) == Parts(path, name) && LastPart(path + "/", name) == ""
  {
    var s := path + "/";
    if path == "" {
      assert s[1..] == "" && Flush(name) + [] == Flush(name);
    } else {
      assert s[1..] == path[1..] + "/";
      SlashBehindFrom(path[1..], if path[0] == '/' then "" else name + [path[0]]);
    }
  }

  /** Unlinking "/a" leaves "/a/b" cut off. */
  method UnlinkCutsOff() returns (d: Disk, d': Disk)
    ensures d == Example() && DiskOk(d) && UnlinkDone(d, d', "/a", Ok) && !AllReachable(d')
  {
    d := Example();
    ExampleIsOk();
    ExampleWalks();
    ExamplePaths();
    var fs := new FileSystem(d);
    var status := fs.Unlink("/a");
    d' := fs.State();
    UnlinkKeepsReachable(d, d', "/a");
  }

  /** Unlinking "/a/" takes out "/a/b", and "/a" stays. */
  method UnlinkTakesAnother() returns (d: Disk, d': Disk)
    ensures d == Example() && DiskOk(d) && UnlinkDone(d, d', "/a/", Ok)
    ensures InSlot(d', 1, 0, 2) && forall i: nat :: !InSlot(d', 2, i, 3)
  {
    d := Example();
    ExampleIsOk();
    ExampleWalks();
    ExamplePaths();
    var fs := new FileSystem(d);
    var status := fs.Unlink("/a/");
    d' := fs.State();
    UnlinkTrailingSlash(d, d', "/a/");
    ExampleSlots(1, 0, 2);
  }

  /** Renaming "/a" to "/a/b/c" cuts both directories off. */
  method RenameCutsOff() returns (d: Disk, d': Disk)
    ensures d == Example() && DiskOk(d) && RenameDone(d, d', "/a", "/a/b/c", Ok) && !AllReachable(d')
  {
    d := Example();
    ExampleIsOk();
    ExampleWalks();
    ExamplePaths();
    assert ["a", "b", "c"][..2] == ["a", "b"] && ["a", "b"][..1] == ["a"];
    var fs := new FileSystem(d);
    var status := fs.Rename("/a", "/a/b/c");
    d' := fs.State();
    RenameKeepsReachable(d, d', "/a", "/a/b/c");
    assert Walk(d, ["a", "b"][..1]) == 2;
  }

  /** Creating "/." succeeds, and the path does not resolve. */
  method CreateDoesNotResolve() returns (d: Disk, d': Disk)
    ensures d == Example() && DiskOk(d) && Shaped(d') && CreateDone(d, d', "/.", FILE, Ok) && Resolve(d', "/.") == 0
  {
    d := Example();
    ExampleIsOk();
    ExampleWalks();
    ExamplePaths();
    var fs := new FileSystem(d);
    var status := fs.Mknod("/.", 0);
    d' := fs.State();
    WalkOne(d', [], ".");
    assert [] + ["."] == ["."];
  }
}
