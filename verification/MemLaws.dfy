/**
 What memfs (kernel/fs/vfs.c) promises its callers, in terms of the tree alone: what a path means,
 when creating, removing and renaming succeed, and which nodes and paths they change.
 */
module MemLaws {
  import opened Options
  import opened MemTree
  import opened MemPaths
  import opened MemFs
  import opened MemRuns

  // --- What a path means ----------------------------------------------------------------

  /** The names one after the other, each behind a slash. */
  function Spelled(names: seq<string>): string {
    if names == [] then "" else Spelled(names[..|names| - 1]) + "/" + names[|names| - 1]
  }

  /** Names of 1 to 63 characters without a slash. */
  predicate Names(names: seq<string>) {
    forall k | 0 <= k < |names| :: 0 < |names[k]| <= 63 && '/' !in names[k]
  }

  /** One more component on a path. */
  lemma ComponentsMore(path: string, comp: string)
    requires path != "" && path[0] == '/' && 0 < |comp| <= 63 && '/' !in comp
    ensures (path + "/" + comp)[0] == '/' && Components((path + "/" + comp)[1..]) == Components(path[1..]) + [comp]
  {
    assert (path + "/" + comp)[1..] == path[1..] + "/" + comp;
    ComponentsJoin(path[1..], comp);
    SingleComponent(comp);
  }

  lemma OneName(name: string)
    requires 0 < |name| <= 63 && '/' !in name
    ensures Spelled([name]) == "/" + name && Components(Spelled([name])[1..]) == [name]
  {
    assert Spelled([]) + "/" + name == "/" + name && ("/" + name)[1..] == name;
    SingleComponent(name);
  }

  lemma {:induction false} SpelledComponents(names: seq<string>)
    requires Names(names) && names != []
    ensures Spelled(names) != "" && Spelled(names)[0] == '/' && Components(Spelled(names)[1..]) == names
  {
    var front, last := names[..|names| - 1], names[|names| - 1];
    assert names == front + [last];
    if front == [] {
      OneName(last);
    } else {
      SpelledComponents(front);
      ComponentsMore(Spelled(front), last);
    }
  }

  /** A spelled-out path leads where its names lead from the root. */
  lemma PathMeans(fs: seq<Node>, names: seq<string>)
    requires |fs| > 0 && Names(names) && names != [] && Undotted(names)
    ensures Resolve(fs, Spelled(names)) == Descend(fs, ROOT, names)
    ensures Resolve(fs, "/") == ROOT
  {
    SpelledComponents(names);
    WalkIsDescend(fs, ROOT, names);
    assert Components("") == [] && "/"[1..] == "";
  }

  lemma ResolveMore(fs: seq<Node>, path: string, comp: string)
    requires |fs| > 0 && path != "" && path[0] == '/' && 0 < |comp| <= 63 && '/' !in comp
    ensures var r := Resolve(fs, path); Resolve(fs, path + "/" + comp) == if r < 0 then -1 else Step(fs, r, comp)
  {
    ComponentsMore(path, comp);
    WalkSplit(fs, ROOT, Components(path[1..]), comp);
  }

  /** A slash at the end and a dot change nothing; two dots lead to the parent, and from the root nowhere. */
  lemma DottedMeans(fs: seq<Node>, path: string)
    requires TreeOk(fs) && path != "" && path[0] == '/'
    ensures Resolve(fs, path + "/") == Resolve(fs, path)
    ensures Resolve(fs, path + "/" + ".") == Resolve(fs, path)
    ensures Resolve(fs, path + "/" + "..") ==
            if Resolve(fs, path) <= 0 then Resolve(fs, path) else fs[Resolve(fs, path)].parent
  {
    TrailingSlash(fs, path);
    ResolveMore(fs, path, ".");
    ResolveMore(fs, path, "..");
    StepUp(fs, path);
  }

  lemma StepUp(fs: seq<Node>, path: string)
    requires TreeOk(fs)
    ensures var r := Resolve(fs, path); r >= 0 ==> Step(fs, r, "..") == if r == 0 then r else fs[r].parent
  {
    ResolveLive(fs, path);
    if Resolve(fs, path) > 0 { assert NodeOk(fs, Resolve(fs, path)); }
  }

  lemma TrailingSlash(fs: seq<Node>, path: string)
    requires |fs| > 0 && path != "" && path[0] == '/'
    ensures Resolve(fs, path + "/") == Resolve(fs, path)
  {
    assert (path + "/")[1..] == path[1..] + "/" + "";
    ComponentsJoin(path[1..], "");
    assert Components(path[1..]) + Components("") == Components(path[1..]);
  }

  /** A path is split at its last slash; a name of 64 or more characters is cut to 63, and a parent path of 256 or
      more to 255. */
  lemma SplitMeans(fs: seq<Node>, dir: string, name: string)
    requires |fs| > 0 && '/' !in name && (dir != "" ==> dir[0] == '/')
    ensures var r := Resolve(fs, if dir == "" then "/" else if |dir| < 256 then dir else dir[..255]);
            Split(fs, dir + "/" + name) ==
            if name == "" || r < 0 then None else Some((r, if |name| < 64 then name else name[..63]))
  {
    var path := dir + "/" + name;
    LastSlashAt(path, |dir|);
    assert Basename(path) == name;
    assert path[..if |dir| == 0 then 1 else |dir|] == if dir == "" then "/" else dir;
  }

  lemma LastSlashAt(path: string, k: nat)
    requires k < |path| && path[0] == '/' && path[k] == '/' && forall j | k < j < |path| :: path[j] != '/'
    ensures LastSlash(path) == k
  {
  }

  // --- What stays the same ----------------------------------------------------------------

  /** Name, kind, place and life of a node. */
  predicate KeptNode(a: Node, b: Node) {
    a.name == b.name && a.isDir == b.isDir && a.parent == b.parent && a.live == b.live
  }

  /** Every node but these two is as it was, but for its child list. */
  predicate OthersKept(fs: seq<Node>, f: seq<Node>, x: int, y: int) {
    |f| == |fs| && forall i | 0 <= i < |fs| && i != x && i != y :: KeptNode(fs[i], f[i])
  }

  // --- Removing -----------------------------------------------------------------------

  /** unlink and rmdir succeed exactly on an empty directory or, for unlink, a file, other than the root;
      they free that node alone, and its path then leads nowhere. */
  lemma RemoveResult(max: nat, s: State, path: string, rmdir: bool)
    requires FsOk(max, s)
    ensures var (s', r) := Remove(s, path, rmdir);
            var x := Resolve(s.files, path);
            && (r == 0 <==> x > 0 && (rmdir ==> s.files[x].isDir) && (s.files[x].isDir ==> s.files[x].children == []))
            && (r != 0 ==> r == -1 && s' == s)
            && (r == 0 ==>
                  && s'.num == s.num - 1 && !s'.files[x].live && OthersKept(s.files, s'.files, x, x)
                  && Resolve(s'.files, path) == -1)
  {
    var x := Resolve(s.files, path);
    ResolveLive(s.files, path);
    if Remove(s, path, rmdir).1 == 0 {
      assert NodeOk(s.files, x);
      WalkGone(s.files, x, ROOT, Components(path[1..]));
    }
  }

  /** And every other list of names leads where it led. */
  lemma RemoveKeepsPaths(max: nat, s: State, path: string, rmdir: bool, names: seq<string>)
    requires FsOk(max, s) && Remove(s, path, rmdir).1 == 0
    ensures Descend(Remove(s, path, rmdir).0.files, ROOT, names) ==
            if Descend(s.files, ROOT, names) == Resolve(s.files, path) then -1 else Descend(s.files, ROOT, names)
  {
    var x := Resolve(s.files, path);
    ResolveLive(s.files, path);
    assert NodeOk(s.files, x);
    DescendGone(s.files, x, ROOT, names);
  }

  /** A child of a node is found as before, but for the node removed. */
  lemma FindGone(fs: seq<Node>, x: int, i: int, name: string)
    requires TreeOk(fs) && Live(fs, x) && Live(fs, i) && i != x
    ensures FindChild(Detached(fs, x), i, name) ==
            if FindChild(fs, i, name) == x then -1 else FindChild(fs, i, name)
  {
    var f := Detached(fs, x);
    var c, c' := FindChild(fs, i, name), FindChild(f, i, name);
    assert NodeOk(fs, i);
    if c' >= 0 {
      assert c' in fs[i].children && fs[c'].name == name;
    }
    if c >= 0 && c != x { assert c in f[i].children; }
  }

  lemma {:induction false} WalkGone(fs: seq<Node>, x: int, cur: int, comps: seq<string>)
    requires TreeOk(fs) && Live(fs, x) && x != ROOT && fs[x].children == [] && Live(fs, cur) && cur != x
    ensures Walk(fs, cur, comps) == x ==> Walk(Detached(fs, x), cur, comps) == -1
    decreases |comps|
  {
    if comps != [] {
      var next := Step(fs, cur, comps[0]);
      assert NodeOk(fs, cur);
      FindGone(fs, x, cur, comps[0]);
      if next >= 0 && next != x {
        assert Step(Detached(fs, x), cur, comps[0]) == next;
        WalkGone(fs, x, next, comps[1..]);
      }
    }
  }

  lemma {:induction false} DescendGone(fs: seq<Node>, x: int, i: int, names: seq<string>)
    requires TreeOk(fs) && Live(fs, x) && x != ROOT && fs[x].children == [] && Live(fs, i) && i != x
    ensures Descend(Detached(fs, x), i, names) == if Descend(fs, i, names) == x then -1 else Descend(fs, i, names)
    decreases |names|
  {
    if names != [] {
      var c := FindChild(fs, i, names[0]);
      FindGone(fs, x, i, names[0]);
      if c == x {
        LeafEnds(fs, x, names[1..]);
      } else if c >= 0 {
        DescendGone(fs, x, c, names[1..]);
      }
    }
  }

  // --- Creating -----------------------------------------------------------------------

  /** O_CREAT opens what is there, at its slot plus 3; else it makes an empty regular file in the first free
      slot, whenever the path has a parent and a slot is free. */
  lemma CreateResult(max: nat, s: State, path: string)
    requires FsOk(max, s)
    ensures var (s', r) := Make(max, s, path, false);
            var x := Resolve(s.files, path);
            if x >= 0 then r == x + 3 && s' == s
            else if Split(s.files, path).None? || forall i | 0 <= i < |s.files| :: s.files[i].live
            then r == -1 && s' == s
            else 3 <= r < 3 + |s.files| && MadeAt(s, s', path, r - 3, false)
  {
    if Makes(s, path, false) { NodeMade(max, s, path, false); }
  }

  /** mkdir makes an empty directory likewise, but fails on what is there and below a file. */
  lemma MkdirResult(max: nat, s: State, path: string)
    requires FsOk(max, s)
    ensures var (s', r) := Make(max, s, path, true);
            if Resolve(s.files, path) >= 0 || Split(s.files, path).None? ||
               !s.files[Split(s.files, path).value.0].isDir || forall i | 0 <= i < |s.files| :: s.files[i].live
            then r == -1 && s' == s
            else r == 0 && exists i | 0 <= i < |s.files| :: MadeAt(s, s', path, i, true)
  {
    if Makes(s, path, true) { NodeMade(max, s, path, true); }
  }

  lemma NodeMade(max: nat, s: State, path: string, isDir: bool)
    requires FsOk(max, s) && Makes(s, path, isDir)
    ensures MadeAt(s, Make(max, s, path, isDir).0, path, FreeSlot(s.files, 0), isDir)
  {
    ResolveLive(s.files, path);
    var (p, base) := Split(s.files, path).value;
    AttachedNodes(max, s.files, FreeSlot(s.files, 0), p, base, isDir);
  }

  lemma AttachedNodes(max: nat, fs: seq<Node>, slot: int, p: int, name: string, isDir: bool)
    requires TreeOk(fs) && InTable(fs, slot) && !fs[slot].live && Live(fs, p)
    ensures var f := Attached(max, fs, slot, p, name, isDir);
            && OthersKept(fs, f, slot, slot)
            && KeptNode(f[slot], Node(name, true, isDir, p, [])) && f[slot].children == []
  {
  }

  /** The first free slot now holds an empty node of that kind, under the parent and name of the path. */
  predicate MadeAt(s: State, s': State, path: string, i: int, isDir: bool)
    requires |s.files| > 0
  {
    && Split(s.files, path).Some? && InTable(s.files, i) && !s.files[i].live
    && (forall j | 0 <= j < i :: s.files[j].live)
    && s'.num == s.num + 1 && OthersKept(s.files, s'.files, i, i)
    && var (p, base) := Split(s.files, path).value;
       KeptNode(s'.files[i], Node(base, true, isDir, p, [])) && s'.files[i].children == []
  }

  /** With room in the parent the path leads to the new node. */
  lemma MakeFound(max: nat, s: State, path: string, isDir: bool)
    requires FsOk(max, s) && Plain(path) && Undotted(Components(ParentPath(path)[1..])) && Makes(s, path, isDir)
    requires var (p, base) := Split(s.files, path).value; RoomFor(max, s.files, p, base)
    ensures Resolve(Make(max, s, path, isDir).0.files, path) == FreeSlot(s.files, 0)
  {
    var (p, base) := Split(s.files, path).value;
    var slot := FreeSlot(s.files, 0);
    var front := Components(ParentPath(path)[1..]);
    ResolveLive(s.files, path);
    WalkIsDescend(s.files, ROOT, front);
    MadeIsFound(max, s.files, slot, p, base, isDir, front);
    PlainComponents(path);
    ResolveIsLookup(s.files, path);
    WalkIsDescend(Make(max, s, path, isDir).0.files, ROOT, front + [base]);
  }

  lemma MadeIsFound(max: nat, fs: seq<Node>, slot: int, p: int, base: string, isDir: bool, front: seq<string>)
    requires TreeOk(fs) && InTable(fs, slot) && !fs[slot].live && Live(fs, p) && RoomFor(max, fs, p, base)
    requires Descend(fs, ROOT, front) == p
    ensures Descend(Attached(max, fs, slot, p, base, isDir), ROOT, front + [base]) == slot
  {
    var node := Node(base, true, isDir, p, []);
    NotInLists(fs, p, slot);
    assert NodeOk(fs, p);
    AttachIsPlace(max, fs, slot, p, base, isDir);
    forall n: nat ensures Up(fs, p, n) != slot { UpLive(fs, p, n); }
    NewPathFound(fs, -1, slot, p, node, front);
  }

  // --- Renaming -----------------------------------------------------------------------

  /** A rename to another path succeeds exactly if both paths are absolute, the old one leads to a node other
      than the root, the parent of the new one is a directory that has room or loses a child, and what the new
      one leads to, if anything, is not the root and, for a directory, an empty directory. */
  lemma RenameSucceeds(max: nat, s: State, from: string, to: string)
    requires FsOk(max, s) && from != to
    ensures Rename(max, s, from, to).1 == 0 <==>
            && from != "" && from[0] == '/' && to != "" && to[0] == '/'
            && Resolve(s.files, from) > 0 && Split(s.files, to).Some?
            && var (src, dst, p) := (Resolve(s.files, from), Resolve(s.files, to), Split(s.files, to).value.0);
               && s.files[p].isDir
               && dst != 0
               && (dst > 0 && s.files[src].isDir ==> s.files[dst].isDir && s.files[dst].children == [])
               && (|s.files[p].children| < max || dst == p || dst in s.files[p].children || src in s.files[p].children)
    ensures Rename(max, s, from, to).1 == 0 || Rename(max, s, from, to).1 == -1
  {
    if Moves(s, from, to) {
      ResolvedMove(s, from, to);
      var (p, base) := Split(s.files, to).value;
      MoveFails(max, s.files, Resolve(s.files, from), Resolve(s.files, to), p, base);
      ResolveLive(s.files, to);
    }
  }

  /** Then the node that the new path led to is free and no longer counted, the node moved has the new parent and
      name and is listed there, and all others are as they were. */
  lemma RenameResult(max: nat, s: State, from: string, to: string)
    requires FsOk(max, s) && from != to && Rename(max, s, from, to).1 == 0
    ensures Resolve(s.files, from) >= 0 && Split(s.files, to).Some?
    ensures var s' := Rename(max, s, from, to).0;
            var (src, dst) := (Resolve(s.files, from), Resolve(s.files, to));
            var (p, base) := Split(s.files, to).value;
            && s'.num == s.num - (if dst >= 0 then 1 else 0) && OthersKept(s.files, s'.files, src, dst)
            && (dst >= 0 ==> !s'.files[dst].live)
            && (src != dst ==>
                  && KeptNode(s'.files[src], s.files[src].(name := base, parent := p))
                  && src in s'.files[p].children
                  && forall c | c in s.files[src].children && c != dst && c != src :: c in s'.files[src].children)
  {
    ResolvedMove(s, from, to);
    var (p, base) := Split(s.files, to).value;
    MovedNodes(max, s.files, Resolve(s.files, from), Resolve(s.files, to), p, base);
  }

  lemma MovedNodes(max: nat, fs: seq<Node>, src: int, dst: int, p: int, base: string)
    requires MoveArgs(fs, src, dst, p) && AddChild(max, Lifted(fs, src, dst, p, base), p, src).Some?
    ensures var g := AddChild(max, Lifted(fs, src, dst, p, base), p, src).value;
            && OthersKept(fs, g, src, dst)
            && (dst >= 0 ==> !g[dst].live)
            && (src != dst ==>
                  && KeptNode(g[src], fs[src].(name := base, parent := p)) && src in g[p].children
                  && forall c | c in fs[src].children && c != dst && c != src :: c in g[src].children)
  {
    if src != dst {
      forall i | 0 <= i < |fs| && i != dst
        ensures KeptNode(Lifted(fs, src, dst, p, base)[i], if i == src then MovedNode(fs, src, p, base) else fs[i])
      {
        LiftedNode(fs, src, dst, p, base, i);
      }
      LiftedNode(fs, src, dst, p, base, src);
      if dst >= 0 { LiftedNode(fs, src, dst, p, base, dst); }
    }
  }

  /** The same path twice changes nothing, and what is refused before the move changes nothing. */
  lemma RenameSame(max: nat, s: State, path: string)
    requires |s.files| > 0 && path != "" && path[0] == '/'
    ensures Rename(max, s, path, path) == (s, 0)
  {
  }

  /** /b is a file in the way of /a: it is replaced. */
  lemma ReplaceFile(max: nat, s: State, a: int, b: int)
    requires FsOk(max, s) && a == FindChild(s.files, ROOT, "a") > 0 && b == FindChild(s.files, ROOT, "b") > 0
    requires !s.files[a].isDir && !s.files[b].isDir
    ensures Rename(max, s, "/a", "/b").1 == 0 && Rename(max, s, "/a", "/b").0.num == s.num - 1
    ensures !Rename(max, s, "/a", "/b").0.files[b].live
  {
    SpelledOne(s.files, "a");
    SpelledOne(s.files, "b");
    assert b in s.files[ROOT].children;
    RenameSucceeds(max, s, "/a", "/b");
    RenameResult(max, s, "/a", "/b");
  }

  lemma SpelledOne(fs: seq<Node>, name: string)
    requires Names([name]) && Undotted([name]) && Live(fs, ROOT)
    ensures Resolve(fs, "/" + name) == FindChild(fs, ROOT, name) && Split(fs, "/" + name) == Some((ROOT, name))
  {
    assert Spelled([name]) == "/" + name;
    PathMeans(fs, [name]);
    assert Descend(fs, ROOT, [name]) == FindChild(fs, ROOT, name);
    SplitMeans(fs, "", name);
    assert "" + "/" + name == "/" + name;
  }
}
