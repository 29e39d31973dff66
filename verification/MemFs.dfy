/**
 The memfs operations of kernel/fs/vfs.c on absolute paths without chroot: vfs_open with O_CREAT,
 vfs_mkdir, vfs_unlink, vfs_rmdir and vfs_rename.  Each result keeps the nodes a tree exactly when
 the call meets a condition that can be read off the state before it; the class runs the source's
 loops and is proved to compute these results.
 */
module MemFs {
  import opened Options
  import opened MemTree
  import opened MemPaths

  const MAX_FILES := 64

  datatype State = State(files: seq<Node>, num: int)

  ghost predicate Bounded(max: nat, fs: seq<Node>) {
    forall i | 0 <= i < |fs| && fs[i].live :: |fs[i].children| <= max
  }

  /** The nodes are a tree, fs_num_files counts the live ones, and no child list overflows. */
  ghost predicate FsOk(max: nat, s: State) {
    |s.files| == MAX_FILES && TreeOk(s.files) && s.num == |LiveSet(s.files)| && Bounded(max, s.files)
  }

  // --- Creating ---------------------------------------------------------------------

  /** memfs_alloc_slot: the first free slot from `i` on, or -1. */
  function FreeSlot(fs: seq<Node>, i: nat): (r: int)
    requires i <= |fs|
    ensures r == -1 || (i <= r < |fs| && !fs[r].live && forall j | i <= j < r :: fs[j].live)
    ensures r == -1 ==> forall j | i <= j < |fs| :: fs[j].live
    decreases |fs| - i
  {
    if i == |fs| then -1 else if !fs[i].live then i else FreeSlot(fs, i + 1)
  }

  /** memfs_add_child where the caller ignores a failure. */
  function AddIfRoom(max: nat, fs: seq<Node>, d: int, c: int): (r: seq<Node>)
    ensures |r| == |fs|
  {
    match AddChild(max, fs, d, c) case None => fs case Some(f) => f
  }

  function Attached(max: nat, fs: seq<Node>, slot: int, p: int, name: string, isDir: bool): (r: seq<Node>)
    requires InTable(fs, slot)
    ensures |r| == |fs|
  {
    AddIfRoom(max, fs[slot := Node(name, true, isDir, p, [])], p, slot)
  }

  /** vfs_open with O_CREAT, and vfs_mkdir: the new state and the return value. */
  function Make(max: nat, s: State, path: string, isDir: bool): (r: (State, int))
    requires |s.files| > 0
  {
    var idx := Resolve(s.files, path);
    if idx >= 0 then (s, if isDir then -1 else idx + 3) else
    match Split(s.files, path)
    case None => (s, -1)
    case Some((p, base)) =>
      var slot := FreeSlot(s.files, 0);
      if (isDir && !s.files[p].isDir) || slot < 0 then (s, -1)
      else (State(Attached(max, s.files, slot, p, base, isDir), s.num + 1), if isDir then 0 else slot + 3)
  }

  /** Whether Make adds a node. */
  predicate Makes(s: State, path: string, isDir: bool)
    requires |s.files| > 0
  {
    && Resolve(s.files, path) < 0
    && Split(s.files, path).Some?
    && (isDir ==> s.files[Split(s.files, path).value.0].isDir)
    && FreeSlot(s.files, 0) >= 0
  }

  predicate RoomFor(max: nat, fs: seq<Node>, p: int, name: string)
    requires InTable(fs, p)
  {
    fs[p].isDir && |fs[p].children| < max && FindChild(fs, p, name) == -1
  }

  lemma AttachIsPlace(max: nat, fs: seq<Node>, slot: int, p: int, name: string, isDir: bool)
    requires TreeOk(fs) && InTable(fs, slot) && !fs[slot].live && Live(fs, p) && fs[p].isDir && |fs[p].children| < max
    ensures Attached(max, fs, slot, p, name, isDir) == Placed(fs, -1, slot, p, Node(name, true, isDir, p, []))
  {
    var a := Attached(max, fs, slot, p, name, isDir);
    var b := Placed(fs, -1, slot, p, Node(name, true, isDir, p, []));
    NotInLists(fs, p, slot);
    forall i | 0 <= i < |fs| ensures a[i] == b[i] {
      if fs[i].live {
        NotInLists(fs, i, slot);
        NotInLists(fs, i, -1);
      }
    }
  }

  /** A new node keeps the tree exactly when its parent is a directory with room and without a
      child of that name. */
  lemma AttachIff(max: nat, fs: seq<Node>, slot: int, p: int, name: string, isDir: bool)
    requires TreeOk(fs) && InTable(fs, slot) && !fs[slot].live && Live(fs, p)
    ensures TreeOk(Attached(max, fs, slot, p, name, isDir)) <==> RoomFor(max, fs, p, name)
    ensures LiveSet(Attached(max, fs, slot, p, name, isDir)) == LiveSet(fs) + {slot}
  {
    var f := Attached(max, fs, slot, p, name, isDir);
    NotInLists(fs, p, slot);
    assert NodeOk(fs, p);
    if RoomFor(max, fs, p, name) {
      AttachIsPlace(max, fs, slot, p, name, isDir);
      forall n: nat ensures Up(fs, p, n) != slot { UpLive(fs, p, n); }
      PlaceKeepsTree(fs, -1, slot, p, Node(name, true, isDir, p, []));
    } else if !fs[p].isDir || |fs[p].children| >= max {
      assert f[slot].parent == p && f[p].children == fs[p].children;
      assert !HasParent(f, slot);
      assert !NodeOk(f, slot);
    } else {
      var c := FindChild(fs, p, name);
      assert f[p].children == fs[p].children + [slot];
      assert c in f[p].children && slot in f[p].children && f[c].name == f[slot].name;
      assert !NodeOk(f, p);
    }
  }

  // --- Removing ---------------------------------------------------------------------

  /** vfs_unlink and vfs_rmdir. */
  function Remove(s: State, path: string, rmdir: bool): (r: (State, int))
    requires |s.files| > 0
  {
    var idx := Resolve(s.files, path);
    if idx < 0 || idx == ROOT then (s, -1)
    else if rmdir && !s.files[idx].isDir then (s, -1)
    else if s.files[idx].isDir && |s.files[idx].children| > 0 then (s, -1)
    else (State(Detached(s.files, idx), s.num - 1), 0)
  }

  // --- Renaming ---------------------------------------------------------------------

  /** The re-parenting part of vfs_rename, before the node is added to its new parent. */
  function Lifted(fs: seq<Node>, src: int, dst: int, p: int, base: string): (r: seq<Node>)
    requires InTable(fs, src) && (dst >= 0 ==> InTable(fs, dst))
    ensures |r| == |fs|
  {
    var f1 := if dst >= 0 then Detached(fs, dst) else fs;
    var f2 := RemoveChild(f1, f1[src].parent, src);
    f2[src := f2[src].(name := base, parent := p)]
  }

  /** The rollback when the new parent is full. */
  function Restored(max: nat, f: seq<Node>, fs: seq<Node>, src: int, dst: int): (r: seq<Node>)
    requires |f| == |fs| && InTable(fs, src) && (dst >= 0 ==> InTable(fs, dst))
    ensures |r| == |fs|
  {
    var f1 := f[src := f[src].(name := fs[src].name, parent := fs[src].parent)];
    var f2 := AddIfRoom(max, f1, fs[src].parent, src);
    if dst < 0 then f2 else AddIfRoom(max, f2[dst := fs[dst]], fs[dst].parent, dst)
  }

  function MoveNode(max: nat, s: State, src: int, dst: int, p: int, base: string): (r: (State, int))
    requires InTable(s.files, src) && (dst >= 0 ==> InTable(s.files, dst))
  {
    var f := Lifted(s.files, src, dst, p, base);
    match AddChild(max, f, p, src)
    case Some(g) => (State(g, if dst >= 0 then s.num - 1 else s.num), 0)
    case None => (State(Restored(max, f, s.files, src, dst), s.num), -1)
  }

  /** Whether vfs_rename refuses the replaced node. */
  predicate Refused(fs: seq<Node>, src: int, dst: int)
    requires InTable(fs, src) && (dst >= 0 ==> InTable(fs, dst))
  {
    dst >= 0 && (dst == ROOT || (fs[src].isDir && (!fs[dst].isDir || |fs[dst].children| > 0)))
  }

  /** vfs_rename within memfs. */
  function Rename(max: nat, s: State, from: string, to: string): (r: (State, int))
    requires |s.files| > 0
  {
    if from == "" || to == "" || from[0] != '/' || to[0] != '/' then (s, -1)
    else if from == to then (s, 0)
    else
      var src := Resolve(s.files, from);
      if src < 0 || src == ROOT then (s, -1) else
      match Split(s.files, to)
      case None => (s, -1)
      case Some((p, base)) =>
        if !s.files[p].isDir then (s, -1) else
          var dst := Resolve(s.files, to);
          if Refused(s.files, src, dst) then (s, -1) else MoveNode(max, s, src, dst, p, base)
  }

  /** The resolved arguments of a rename; `dst` is what the new path meant, anywhere in the tree. */
  ghost predicate MoveArgs(fs: seq<Node>, src: int, dst: int, p: int) {
    && TreeOk(fs) && Live(fs, src) && src != ROOT && Live(fs, p) && fs[p].isDir
    && (dst == -1 || (Live(fs, dst) && dst != ROOT))
  }

  function MovedNode(fs: seq<Node>, src: int, p: int, base: string): Node
    requires InTable(fs, src)
  {
    fs[src].(name := base, parent := p)
  }

  /** A node is listed by its parent alone. */
  lemma ListedOnce(fs: seq<Node>, x: int, i: int)
    requires TreeOk(fs) && (x == -1 || (Live(fs, x) && x != ROOT)) && Live(fs, i)
    ensures x in fs[i].children <==> x >= 0 && i == fs[x].parent
    ensures x >= 0 ==> x != fs[x].parent && Live(fs, fs[x].parent) && fs[fs[x].parent].isDir
  {
    assert NodeOk(fs, i);
    if x >= 0 {
      assert NodeOk(fs, x);
      NotOwnParent(fs, x);
    } else {
      NotInLists(fs, i, x);
    }
  }

  lemma LiftedNode(fs: seq<Node>, src: int, dst: int, p: int, base: string, i: int)
    requires MoveArgs(fs, src, dst, p) && dst != src && InTable(fs, i)
    ensures var n := if i == src then MovedNode(fs, src, p, base) else fs[i];
            Lifted(fs, src, dst, p, base)[i] ==
            if i == dst then fs[i].(live := false, children := [])
            else if !fs[i].live then fs[i]
            else n.(children := Without(Without(n.children, dst), src))
  {
    ListedOnce(fs, src, ROOT);
    ListedOnce(fs, dst, ROOT);
    if fs[i].live {
      ListedOnce(fs, src, i);
      ListedOnce(fs, dst, i);
    }
  }

  lemma MoveIsPlace(max: nat, fs: seq<Node>, src: int, dst: int, p: int, base: string)
    requires MoveArgs(fs, src, dst, p) && dst != src && dst != p
    ensures var f := Lifted(fs, src, dst, p, base);
            AddChild(max, f, p, src) ==
            if |f[p].children| >= max then None else Some(Placed(fs, dst, src, p, MovedNode(fs, src, p, base)))
  {
    var f := Lifted(fs, src, dst, p, base);
    var g := Placed(fs, dst, src, p, MovedNode(fs, src, p, base));
    assert NodeOk(fs, p);
    LiftedNode(fs, src, dst, p, base, p);
    WithoutDistinct(fs[p].children, dst);
    WithoutDistinct(Without(fs[p].children, dst), src);
    assert src !in f[p].children && f[p].isDir;
    if |f[p].children| < max {
      forall i | 0 <= i < |fs| ensures f[p := f[p].(children := f[p].children + [src])][i] == g[i] {
        LiftedNode(fs, src, dst, p, base, i);
      }
      assert f[p := f[p].(children := f[p].children + [src])] == g;
    }
  }

  /** What a rename must not do: move a directory under itself, free the new parent or a directory
      with other children, or give two children one name.  A node that is its own replacement must
      be an empty directory that is its own new parent; it is removed. */
  ghost predicate SoundMove(fs: seq<Node>, src: int, dst: int, p: int, base: string)
    requires InTable(fs, src) && InTable(fs, p)
  {
    if src == dst then p == src && fs[src].children == [] else
      && dst != p && !Under(fs, src, p)
      && (InTable(fs, dst) ==> forall c | c in fs[dst].children :: c == src)
      && (forall c | c in fs[p].children && c != src && c != dst && InTable(fs, c) :: fs[c].name != base)
  }

  /** The rename of one node over another, or over none, as a placement. */
  lemma PlaceIff(fs: seq<Node>, src: int, dst: int, p: int, base: string)
    requires MoveArgs(fs, src, dst, p) && dst != src && dst != p
    ensures var g := Placed(fs, dst, src, p, MovedNode(fs, src, p, base));
            && (TreeOk(g) <==> SoundMove(fs, src, dst, p, base))
            && (SoundMove(fs, src, dst, p, base) ==>
                  LiveSet(g) == LiveSet(fs) - {dst} && Placeable(fs, dst, src, p, MovedNode(fs, src, p, base)))
  {
    var node := MovedNode(fs, src, p, base);
    assert NodeOk(fs, p);
    if Under(fs, src, p) {
      CycleBreaks(fs, dst, src, p, node);
    } else if c :| InTable(fs, dst) && c in fs[dst].children && c != src {
      OrphanBreaks(fs, dst, src, p, node, c);
    } else if c :| c in fs[p].children && c != src && c != dst && InTable(fs, c) && fs[c].name == base {
      UnderSelf(fs, p);
      ClashBreaks(fs, dst, src, p, node, c);
    } else {
      PlaceKeepsTree(fs, dst, src, p, node);
    }
  }

  /** A rename that succeeds keeps the tree exactly when it is sound. */
  lemma MoveIff(max: nat, fs: seq<Node>, src: int, dst: int, p: int, base: string)
    requires MoveArgs(fs, src, dst, p)
    requires AddChild(max, Lifted(fs, src, dst, p, base), p, src).Some?
    ensures var g := AddChild(max, Lifted(fs, src, dst, p, base), p, src).value;
            && (TreeOk(g) <==> SoundMove(fs, src, dst, p, base))
            && (SoundMove(fs, src, dst, p, base) ==> LiveSet(g) == LiveSet(fs) - {dst})
            && (src != dst && SoundMove(fs, src, dst, p, base) ==>
                  && g == Placed(fs, dst, src, p, MovedNode(fs, src, p, base))
                  && Placeable(fs, dst, src, p, MovedNode(fs, src, p, base)))
  {
    if src == dst {
      SelfMoveIff(max, fs, src, p, base);
    } else if dst == p {
      FreedParentBreaks(max, fs, src, p, base);
    } else {
      MoveIsPlace(max, fs, src, dst, p, base);
      PlaceIff(fs, src, dst, p, base);
    }
  }

  /** Two names of one node: it is freed, and listed again by its new parent unless that is itself. */
  lemma SelfMoveIff(max: nat, fs: seq<Node>, src: int, p: int, base: string)
    requires MoveArgs(fs, src, src, p)
    requires AddChild(max, Lifted(fs, src, src, p, base), p, src).Some?
    ensures var g := AddChild(max, Lifted(fs, src, src, p, base), p, src).value;
            && (TreeOk(g) <==> p == src && fs[src].children == [])
            && (p == src && fs[src].children == [] ==> LiveSet(g) == LiveSet(fs) - {src})
  {
    var g := AddChild(max, Lifted(fs, src, src, p, base), p, src).value;
    NotOwnParent(fs, src);
    assert NodeOk(fs, src);
    if p != src {
      assert Live(g, p) && src in g[p].children && !g[src].live;
      assert !NodeOk(g, p);
    } else if fs[src].children != [] {
      var c := fs[src].children[0];
      assert c in fs[src].children && c != src;
      assert Live(g, c) && g[c].parent == src && !g[src].live && c != ROOT;
      assert !NodeOk(g, c);
    } else {
      var f := Detached(fs, src);
      DetachKeepsTree(fs, src);
      assert NodeOk(fs, fs[src].parent);
      WithoutDistinct(fs[fs[src].parent].children, src);
      assert g == f[src := g[src]];
      DeadSlot(f, src, g[src]);
    }
  }

  /** The new parent is freed: the moved node hangs under a dead one. */
  lemma FreedParentBreaks(max: nat, fs: seq<Node>, src: int, p: int, base: string)
    requires MoveArgs(fs, src, p, p) && src != p
    requires AddChild(max, Lifted(fs, src, p, p, base), p, src).Some?
    ensures !TreeOk(AddChild(max, Lifted(fs, src, p, p, base), p, src).value)
  {
    var g := AddChild(max, Lifted(fs, src, p, p, base), p, src).value;
    LiftedNode(fs, src, p, p, base, src);
    LiftedNode(fs, src, p, p, base, p);
    assert Live(g, src) && g[src].parent == p && !g[p].live;
    assert !NodeOk(g, src);
  }

  lemma {:induction false} WithoutLength(s: seq<int>, x: int)
    ensures |Without(s, x)| == if x in s then |s| - 1 else |s|
  {
    if s != [] && s[0] != x { WithoutLength(s[1..], x); }
  }

  /** A list that holds the node has room for one. */
  lemma SomeRoom(max: nat, fs: seq<Node>, src: int)
    requires TreeOk(fs) && Live(fs, src) && src != ROOT && Bounded(max, fs)
    ensures max > 0
  {
    assert NodeOk(fs, src);
  }

  /** The new parent is full, is not freed, and loses no child to the rename. */
  predicate NoRoom(max: nat, fs: seq<Node>, src: int, dst: int, p: int)
    requires InTable(fs, p)
  {
    dst != p && |fs[p].children| == max && dst !in fs[p].children && src !in fs[p].children
  }

  /** A rename fails late exactly when there is no room. */
  lemma MoveFails(max: nat, fs: seq<Node>, src: int, dst: int, p: int, base: string)
    requires MoveArgs(fs, src, dst, p) && Bounded(max, fs)
    ensures AddChild(max, Lifted(fs, src, dst, p, base), p, src).None? <==> NoRoom(max, fs, src, dst, p)
  {
    SomeRoom(max, fs, src);
    assert NodeOk(fs, p);
    WithoutLength(fs[p].children, dst);
    WithoutLength(Without(fs[p].children, dst), src);
    if src == dst {
      NotOwnParent(fs, src);
      assert NodeOk(fs, src);
    } else if dst == p {
      LiftedNode(fs, src, p, p, base, p);
    } else {
      MoveIsPlace(max, fs, src, dst, p, base);
      LiftedNode(fs, src, dst, p, base, p);
    }
  }

  // --- The rollback -----------------------------------------------------------------

  /** The child list of node i after the rollback. */
  function RestoredKids(fs: seq<Node>, src: int, dst: int, i: int): seq<int>
    requires InTable(fs, src) && InTable(fs, i) && (dst >= 0 ==> InTable(fs, dst))
  {
    Without(Without(fs[i].children, dst), src) +
    (if i == fs[src].parent then [src] else []) +
    (if dst >= 0 && i == fs[dst].parent then [dst] else [])
  }

  /** Taking a member out of a list and adding it at the end. */
  lemma PutBackOne(ch: seq<int>, x: int)
    ensures multiset(Without(ch, x) + if x in ch then [x] else []) == multiset(ch)
    ensures |Without(ch, x) + if x in ch then [x] else []| == |ch|
  {
    if x in ch { WithoutCount(ch, x); }
    WithoutLength(ch, x);
  }

  lemma AppendSame(s: seq<int>, t: seq<int>, u: seq<int>)
    requires multiset(s) == multiset(t) && |s| == |t|
    ensures multiset(s + u) == multiset(t + u) && |s + u| == |t + u|
  {
  }

  lemma PutBack(ch: seq<int>, a: int, b: int)
    requires a != b
    ensures var r := Without(Without(ch, b), a) + (if a in ch then [a] else []) + (if b in ch then [b] else []);
            multiset(r) == multiset(ch) && |r| == |ch|
  {
    var one := Without(ch, b);
    assert a in one <==> a in ch;
    PutBackOne(one, a);
    AppendSame(Without(one, a) + if a in ch then [a] else [], one, if b in ch then [b] else []);
    PutBackOne(ch, b);
  }

  lemma RestoredSame(fs: seq<Node>, src: int, dst: int, i: int)
    requires TreeOk(fs) && Live(fs, src) && src != ROOT && (dst == -1 || (Live(fs, dst) && dst != ROOT)) && src != dst
    requires Live(fs, i)
    ensures multiset(RestoredKids(fs, src, dst, i)) == multiset(fs[i].children)
    ensures |RestoredKids(fs, src, dst, i)| == |fs[i].children|
  {
    ListedOnce(fs, src, i);
    ListedOnce(fs, dst, i);
    PutBack(fs[i].children, src, dst);
  }

  /** The first half of the rollback: src is back in its parent's list. */
  lemma HalfRestored(max: nat, fs: seq<Node>, src: int, dst: int, p: int, base: string, i: int)
    requires MoveArgs(fs, src, dst, p) && src != dst && Bounded(max, fs) && InTable(fs, i) && i != dst
    ensures var q := fs[src].parent;
            var f := Lifted(fs, src, dst, p, base);
            var f2 := AddIfRoom(max, f[src := f[src].(name := fs[src].name, parent := q)], q, src);
            f2[i] == if !fs[i].live then fs[i] else
              fs[i].(children := Without(Without(fs[i].children, dst), src) + if i == q then [src] else [])
  {
    var q := fs[src].parent;
    ListedOnce(fs, src, ROOT);
    ListedOnce(fs, src, q);
    LiftedNode(fs, src, dst, p, base, i);
    LiftedNode(fs, src, dst, p, base, q);
    Stripped(max, fs, src, dst, q);
  }

  /** The rollback as one step: every list gets its members back at its end. */
  lemma RestoredNode(max: nat, fs: seq<Node>, src: int, dst: int, p: int, base: string, i: int)
    requires MoveArgs(fs, src, dst, p) && src != dst && Bounded(max, fs) && InTable(fs, i)
    ensures var f := Restored(max, Lifted(fs, src, dst, p, base), fs, src, dst);
            f[i] == if i == dst || !fs[i].live then fs[i] else fs[i].(children := RestoredKids(fs, src, dst, i))
  {
    var q := fs[src].parent;
    var f := Lifted(fs, src, dst, p, base);
    var f2 := AddIfRoom(max, f[src := f[src].(name := fs[src].name, parent := q)], q, src);
    if i != dst { HalfRestored(max, fs, src, dst, p, base, i); }
    if dst >= 0 {
      var r := fs[dst].parent;
      ListedOnce(fs, dst, ROOT);
      assert f2[r].isDir && |f2[r].children| < max && dst !in f2[r].children by {
        ListedOnce(fs, dst, r);
        ListedOnce(fs, src, r);
        HalfRestored(max, fs, src, dst, p, base, r);
        Stripped(max, fs, src, dst, r);
      }
      var f3 := f2[dst := fs[dst]];
      assert AddIfRoom(max, f3, r, dst) == f3[r := f3[r].(children := f3[r].children + [dst])];
    }
  }

  /** Room in the list of a node's parent once the node is taken out. */
  lemma Stripped(max: nat, fs: seq<Node>, src: int, dst: int, i: int)
    requires TreeOk(fs) && Bounded(max, fs) && Live(fs, i) && src != dst
    ensures var r := Without(Without(fs[i].children, dst), src);
            && src !in r && dst !in r
            && |r| + (if src in fs[i].children then 1 else 0) + (if dst in fs[i].children then 1 else 0) <= max
  {
    assert NodeOk(fs, i);
    WithoutDistinct(fs[i].children, dst);
    WithoutDistinct(Without(fs[i].children, dst), src);
    WithoutLength(fs[i].children, dst);
    WithoutLength(Without(fs[i].children, dst), src);
  }

  lemma SelfLifted(fs: seq<Node>, src: int, p: int, base: string)
    requires MoveArgs(fs, src, src, p)
    ensures var q := fs[src].parent;
            && InTable(fs, q) && q != src
            && Lifted(fs, src, src, p, base) ==
               fs[q := fs[q].(children := Without(fs[q].children, src))][src := Node(base, false, fs[src].isDir, p, [])]
  {
    var q := fs[src].parent;
    ListedOnce(fs, src, ROOT);
    assert NodeOk(fs, q);
    WithoutDistinct(fs[q].children, src);
  }

  /** A node that is its own replacement is restored too. */
  lemma SelfRestored(max: nat, fs: seq<Node>, src: int, p: int, base: string)
    requires MoveArgs(fs, src, src, p) && Bounded(max, fs)
    ensures var f := Restored(max, Lifted(fs, src, src, p, base), fs, src, src);
            var q := fs[src].parent;
            && Live(fs, q) && src in fs[q].children
            && f == fs[q := fs[q].(children := Without(fs[q].children, src) + [src])]
  {
    var q := fs[src].parent;
    ListedOnce(fs, src, ROOT);
    ListedOnce(fs, src, q);
    assert NodeOk(fs, q);
    SelfLifted(fs, src, p, base);
    var f := Lifted(fs, src, src, p, base);
    var f1 := f[src := f[src].(name := fs[src].name, parent := q)];
    var f2 := AddIfRoom(max, f1, q, src);
    assert f2 == f1[q := f1[q].(children := Without(fs[q].children, src) + [src])] by {
      WithoutLength(fs[q].children, src);
      WithoutDistinct(fs[q].children, src);
    }
    assert f2[src := fs[src]] == fs[q := fs[q].(children := Without(fs[q].children, src) + [src])];
    assert src in (Without(fs[q].children, src) + [src]);
  }

  /** A rename that fails on a full directory restores the tree up to the order of child lists. */
  lemma FailedMoveRestores(max: nat, fs: seq<Node>, src: int, dst: int, p: int, base: string)
    requires MoveArgs(fs, src, dst, p) && Bounded(max, fs)
    ensures var f := Restored(max, Lifted(fs, src, dst, p, base), fs, src, dst);
            SameUpToOrder(fs, f) && TreeOk(f) && LiveSet(f) == LiveSet(fs) && Bounded(max, f)
  {
    var f := Restored(max, Lifted(fs, src, dst, p, base), fs, src, dst);
    forall i | 0 <= i < |fs| ensures SameNode(fs[i], f[i]) && |f[i].children| == |fs[i].children| {
      if src == dst {
        SelfRestored(max, fs, src, p, base);
        WithoutCount(fs[fs[src].parent].children, src);
        WithoutLength(fs[fs[src].parent].children, src);
      } else {
        RestoredNode(max, fs, src, dst, p, base, i);
        if fs[i].live { RestoredSame(fs, src, dst, i); }
      }
    }
    ReorderedTree(fs, f);
  }
}
