/** Path names of the home-made file system: their elements, and how they are split into parent and child
    (kernel/fs/asvfs.c). */
module PathNames {
  import Bytes

  /** The elements of a path that starts with `name`, which is the beginning of an element. */
  function Parts(path: string, name: string): seq<string> {
    if path == "" then Flush(name)
    else if path[0] == '/' then Flush(name) + Parts(path[1..], "")
    else Parts(path[1..], name + [path[0]])
  }

  function Flush(name: string): seq<string> {
    if name == "" then [] else [name]
  }

  /** The non-empty stretches between slashes. */
  function Elements(path: string): seq<string> {
    Parts(path, "")
  }

  /** What comes after the last slash; `name` is what came so far. */
  function LastPart(path: string, name: string): string {
    if path == "" then name
    else if path[0] == '/' then LastPart(path[1..], "")
    else LastPart(path[1..], name + [path[0]])
  }

  predicate NoSlash(name: string) {
    forall i :: 0 <= i < |name| ==> name[i] != '/'
  }

  /** A path that ends in a slash and a name. */
  lemma {:induction false} PartsOfJoin(path: string, name: string, last: string)
    requires NoSlash(last) && last != ""
    ensures Parts(path + ("/" + last), name) == Parts(path, name) + [last]
  {
    if path == "" {
      var s := "/" + last;
      assert path + s == s && s[1..] == last;
      PartsOfName(last, "");
      assert "" + last == last;
    } else {
      assert (path + ("/" + last))[1..] == path[1..] + ("/" + last);
      if path[0] == '/' {
        PartsOfJoin(path[1..], "", last);
      } else {
        PartsOfJoin(path[1..], name + [path[0]], last);
      }
    }
  }

  lemma {:induction false} PartsOfName(rest: string, name: string)
    requires NoSlash(rest)
    ensures Parts(rest, name) == Flush(name + rest)
    decreases |rest|
  {
    if rest == "" {
      assert name + rest == name;
    } else {
      assert name + rest == name + [rest[0]] + rest[1..];
      PartsOfName(rest[1..], name + [rest[0]]);
    }
  }

  /** parent_dir[0] = '/' */
  function Rooted(parent: string): string {
    if parent == "" then "/" else parent[0 := '/']
  }

  /** A parent directory with one more element. */
  function JoinName(parent: string, name: string): string {
    (if parent != "/" then parent + "/" else parent) + name
  }

  /** A path of elements as a parent directory is spelled: each with a slash in front. */
  function Spelled(es: seq<string>): string {
    if es == [] then "/" else JoinName(Spelled(es[..|es| - 1]), es[|es| - 1])
  }

  lemma SpelledMore(es: seq<string>, name: string)
    ensures Spelled(es + [name]) == JoinName(Spelled(es), name)
  {
    assert (es + [name])[..|es|] == es;
  }

  predicate Started(parent: string) {
    parent == "" || parent[0] == '/'
  }

  lemma RootedElements(parent: string)
    requires Started(parent)
    ensures Started(Rooted(parent)) && Elements(Rooted(parent)) == Elements(parent)
  {
    if parent == "" {
      assert "/"[1..] == "";
    } else {
      assert Rooted(parent) == parent;
    }
  }

  lemma JoinedElements(parent: string, name: string)
    requires Started(parent) && NoSlash(name) && name != ""
    ensures Started(JoinName(parent, name)) && Elements(JoinName(parent, name)) == Elements(parent) + [name]
  {
    if parent == "/" {
      PartsOfJoin("", "", name);
      assert "" + ("/" + name) == JoinName(parent, name);
      assert "/"[1..] == "";
    } else {
      PartsOfJoin(parent, "", name);
      assert parent + ("/" + name) == JoinName(parent, name);
    }
  }

  /** The parent directory so far is empty, or spelled in full. */
  predicate InOrder(parent: string) {
    Started(parent) && (parent == "" || parent == Spelled(Elements(parent)))
  }

  /** At a slash, the element before it is added to the parent directory. */
  method AtSlash(parent: string, name: string) returns (longer: string)
    requires InOrder(parent) && NoSlash(name)
    ensures longer != "" && InOrder(longer) && Elements(longer) == Elements(parent) + Flush(name)
  {
    if name == "" {
      RootedElements(parent);
      assert Elements(parent) + [] == Elements(parent);
      longer := Rooted(parent);
    } else {
      JoinedElements(parent, name);
      SpelledMore(Elements(parent), name);
      longer := JoinName(parent, name);
    }
  }

  /** asvfs_get_path_parts: the child is what follows the last slash; the parent has all elements before it, each with a
      slash in front, or is empty if there is no slash. */
  method GetPathParts(pathname: string) returns (parent: string, child: string)
    ensures child == LastPart(pathname, "") && NoSlash(child)
    ensures Elements(pathname) == Elements(parent) + Flush(child)
    ensures parent == if pathname == child && child != "" then "" else Spelled(Elements(parent))
  {
    var name := "";
    parent, child := "", "";
    var pathIndex := 0;
    assert pathname[0..] == pathname && [] + Elements(pathname) == Elements(pathname);
    while pathIndex < |pathname|
      invariant 0 <= pathIndex <= |pathname| && NoSlash(name) && child == "" && InOrder(parent)
      invariant LastPart(pathname, "") == LastPart(pathname[pathIndex..], name)
      invariant Elements(pathname) == Elements(parent) + Parts(pathname[pathIndex..], name)
      invariant if parent == "" then name == pathname[..pathIndex] else !NoSlash(pathname[..pathIndex])
    {
      var c := pathname[pathIndex];
      assert pathname[pathIndex..][1..] == pathname[pathIndex + 1..];
      assert pathname[..pathIndex + 1] == pathname[..pathIndex] + [c];
      if c == '/' {
        Bytes.Regroup(Elements(parent), Flush(name), Parts(pathname[pathIndex + 1..], ""));
        parent := AtSlash(parent, name);
        name := "";
      } else {
        name := name + [c];
      }
      pathIndex := pathIndex + 1;
    }
    if name == "" {
      assert Elements(parent) + [] == Elements(parent);
      parent := AtSlash(parent, name);
    } else {
      child := name;
      assert pathname[..pathIndex] == pathname;
    }
  }
}
