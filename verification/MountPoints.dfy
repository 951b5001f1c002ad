/** Which mounted file system is responsible for a path: the one with the longest root that is a prefix of the path,
    component by component (kernel/fs/vfs.c). */
module MountPoints {

  datatype Mount = Mount(root: string, driveId: int)
  datatype Found = NoMount | Found(mount: Mount)

  // ---------- normalised absolute paths ----------

  predicate IsName(s: string) {
    s != "" && forall i :: 0 <= i < |s| ==> s[i] != '/'
  }

  predicate AllNames(names: seq<string>) {
    forall i :: 0 <= i < |names| ==> IsName(names[i])
  }

  /** Every name with a slash in front. */
  function Slashed(names: seq<string>): string {
    if names == [] then "" else "/" + names[0] + Slashed(names[1..])
  }

  /** The absolute path with these names. */
  function PathOf(names: seq<string>): string {
    if names == [] then "/" else Slashed(names)
  }

  lemma {:induction false} SlashedAppend(names: seq<string>, name: string)
    ensures Slashed(names + [name]) == Slashed(names) + "/" + name
  {
    if names == [] {
      assert [name][1..] == [];
    } else {
      assert (names + [name])[1..] == names[1..] + [name];
      SlashedAppend(names[1..], name);
    }
  }

  // ---------- the first mount with a root ----------

  /** avs_list_find_data on the list of mount points. */
  function FirstAt(mounts: seq<Mount>, root: string): (f: Found)
    ensures f.Found? ==> f.mount in mounts && f.mount.root == root
    ensures f == NoMount ==> forall m :: m in mounts ==> m.root != root
  {
    if mounts == [] then NoMount else if mounts[0].root == root then Found(mounts[0]) else FirstAt(mounts[1..], root)
  }

  /** It is the first mount at that root in the order of the list. */
  lemma {:induction false} FirstAtIsFirst(mounts: seq<Mount>, k: nat)
    requires k < |mounts| && forall i :: 0 <= i < k ==> mounts[i].root != mounts[k].root
    ensures FirstAt(mounts, mounts[k].root) == Found(mounts[k])
  {
    if k > 0 { FirstAtIsFirst(mounts[1..], k - 1); }
  }

  /** The mount with the deepest root among the first n components of the path. */
  function Deepest(mounts: seq<Mount>, names: seq<string>): Found {
    if FirstAt(mounts, PathOf(names)).Found? then FirstAt(mounts, PathOf(names))
    else if names == [] then NoMount
    else Deepest(mounts, names[..|names| - 1])
  }

  /** No mount lies deeper on the path than the one that is found. */
  lemma {:induction false} DeepestIsLongest(mounts: seq<Mount>, names: seq<string>)
    requires FirstAt(mounts, "/").Found?
    ensures Deepest(mounts, names).Found?
    ensures var m := Deepest(mounts, names).mount;
            m in mounts &&
            exists k :: 0 <= k <= |names| && m.root == PathOf(names[..k]) &&
                        forall j, other :: k < j <= |names| && other in mounts ==> other.root != PathOf(names[..j])
    decreases |names|
  {
    assert names[..|names|] == names;
    if FirstAt(mounts, PathOf(names)) == NoMount {
      var shorter := names[..|names| - 1];
      DeepestIsLongest(mounts, shorter);
      var m := Deepest(mounts, names).mount;
      var k :| 0 <= k <= |shorter| && m.root == PathOf(shorter[..k]) &&
               forall j, other :: k < j <= |shorter| && other in mounts ==> other.root != PathOf(shorter[..j]);
      assert shorter[..k] == names[..k];
      NoneDeeper(mounts, names, k);
    }
  }

  lemma NoneDeeper(mounts: seq<Mount>, names: seq<string>, k: nat)
    requires names != [] && k < |names| && FirstAt(mounts, PathOf(names)) == NoMount
    requires var shorter := names[..|names| - 1];
             forall j, other :: k < j <= |shorter| && other in mounts ==> other.root != PathOf(shorter[..j])
    ensures forall j, other :: k < j <= |names| && other in mounts ==> other.root != PathOf(names[..j])
  {
    var shorter := names[..|names| - 1];
    forall j, other | k < j <= |names| && other in mounts ensures other.root != PathOf(names[..j]) {
      if j < |names| { assert shorter[..j] == names[..j]; } else { assert names[..j] == names; }
    }
  }

  // ---------- vfs_get_mount_point_from_path ----------

  /** In a path, name j starts at `start`. */
  predicate NameStarts(path: string, names: seq<string>, j: nat, start: nat) {
    j < |names| && start <= |path| && path[start..] == names[j] + Slashed(names[j + 1..])
  }

  /** What comes after a name. */
  lemma AfterName(path: string, names: seq<string>, j: nat, start: nat)
    requires AllNames(names) && NameStarts(path, names, j, start)
    ensures var end := start + |names[j]|;
            start < end <= |path| && path[start..end] == names[j] && (end == |path| <==> j + 1 == |names|) &&
            (end < |path| ==> path[end] == '/' && end + 1 < |path| && NameStarts(path, names, j + 1, end + 1))
  {
    var end, rest := start + |names[j]|, Slashed(names[j + 1..]);
    assert path[start..][..|names[j]|] == names[j] && path[start..][|names[j]|..] == rest;
    assert path[end..] == rest;
    if j + 1 < |names| {
      assert names[j + 1..][1..] == names[j + 2..];
      assert rest == "/" + names[j + 1] + Slashed(names[j + 2..]);
      assert path[end + 1..] == rest[1..];
    }
  }

  /** The inner loop: characters up to the next slash or the end. */
  method ReadName(pathname: string, start: nat) returns (name: string, end: nat)
    requires start <= |pathname|
    ensures start <= end <= |pathname| && name == pathname[start..end]
    ensures end == |pathname| || pathname[end] == '/'
    ensures forall i :: start <= i < end ==> pathname[i] != '/'
  {
    name, end := "", start;
    while end < |pathname| && pathname[end] != '/'
      invariant start <= end <= |pathname| && name == pathname[start..end]
      invariant forall i :: start <= i < end ==> pathname[i] != '/'
    {
      name := name + [pathname[end]];
      end := end + 1;
    }
  }

  /** The first loop: the path in pieces, "/" first. */
  method SplitPath(pathname: string, ghost names: seq<string>) returns (elements: seq<string>)
    requires AllNames(names) && pathname == PathOf(names)
    ensures elements == ["/"] + names
  {
    var name, pathIndex := ReadName(pathname, 0);
    assert pathname[0] == '/';
    elements := ["/"];
    pathIndex := pathIndex + 1;
    ghost var j := 0;
    if names != [] { assert pathname[1..] == names[0] + Slashed(names[1..]); }
    while pathIndex < |pathname|
      invariant 0 <= j <= |names| && elements == ["/"] + names[..j]
      invariant if pathIndex < |pathname| then NameStarts(pathname, names, j, pathIndex) else j == |names|
      decreases |pathname| - pathIndex
    {
      AfterName(pathname, names, j, pathIndex);
      ghost var start := pathIndex;
      name, pathIndex := ReadName(pathname, pathIndex);
      NameEnds(pathname, names, j, start, pathIndex);
      elements := elements + [name];
      pathIndex := pathIndex + 1;
      j := j + 1;
    }
  }

  lemma NameEnds(path: string, names: seq<string>, j: nat, start: nat, end: nat)
    requires AllNames(names) && NameStarts(path, names, j, start) && start <= end <= |path|
    requires end == |path| || path[end] == '/'
    requires forall i :: start <= i < end ==> path[i] != '/'
    ensures end == start + |names[j]| && path[start..end] == names[j]
  {
    AfterName(path, names, j, start);
    var e := start + |names[j]|;
    forall i | start <= i < e ensures path[i] != '/' {
      assert path[i] == path[start..e][i - start];
    }
  }

  lemma OneDeeper(names: seq<string>, n: nat)
    requires n < |names|
    ensures PathOf(names[..n + 1]) == (if n > 0 then PathOf(names[..n]) + "/" else PathOf(names[..n])) + names[n]
  {
    assert names[..n] + [names[n]] == names[..n + 1];
    SlashedAppend(names[..n], names[n]);
    if n == 0 { assert names[..0] == []; }
  }

  /** vfs_get_mount_point_from_path, for a normalised absolute path. Without a mount at "/" there is none for any
      path. */
  method GetMountPoint(mounts: seq<Mount>, pathname: string, ghost names: seq<string>) returns (mount: Found)
    requires AllNames(names) && pathname == PathOf(names)
    ensures mount == if FirstAt(mounts, "/") == NoMount then NoMount else Deepest(mounts, names)
  {
    var elements := SplitPath(pathname, names);
    var pathToTest := elements[0];
    mount := NoMount;
    for n := 0 to |elements|
      invariant n < |elements| ==> pathToTest == PathOf(names[..n])
      invariant n > 0 ==> FirstAt(mounts, "/").Found? && mount == Deepest(mounts, names[..n - 1])
    {
      if n == 0 && pathToTest[0] == '/' {
        mount := FirstAt(mounts, "/");
        if mount == NoMount { return; }
      } else {
        var found := FirstAt(mounts, pathToTest);
        if found != NoMount { mount := found; }
        assert names[..n][..n - 1] == names[..n - 1];
      }
      if n + 1 < |elements| {
        OneDeeper(names, n);
        if n > 0 { pathToTest := pathToTest + "/"; }
        pathToTest := pathToTest + elements[n + 1];
      }
    }
    assert names[..|names|] == names;
  }
}
