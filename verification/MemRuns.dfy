/**
 Runs of memfs operations (kernel/fs/vfs.c): each operation keeps the tree exactly under its
 condition, every run of operations that meet it ends in a tree, and renaming moves what a path
 means without disturbing any other path.
 */
module MemRuns {
  import opened Options
  import opened MemTree
  import opened MemPaths
  import opened MemFs

  datatype Op =
    | Create(path: string) | Mkdir(path: string)
    | Unlink(path: string) | Rmdir(path: string)
    | Move(from: string, to: string)

  function Apply(max: nat, s: State, op: Op): (r: (State, int))
    requires |s.files| > 0
  {
    match op
    case Create(path) => Make(max, s, path, false)
    case Mkdir(path) => Make(max, s, path, true)
    case Unlink(path) => Remove(s, path, false)
    case Rmdir(path) => Remove(s, path, true)
    case Move(from, to) => Rename(max, s, from, to)
  }

  /** Whether vfs_rename gets as far as moving the node. */
  predicate Moves(s: State, from: string, to: string)
    requires |s.files| > 0
  {
    && from != "" && to != "" && from[0] == '/' && to[0] == '/' && from != to
    && Resolve(s.files, from) > ROOT
    && Split(s.files, to).Some? && s.files[Split(s.files, to).value.0].isDir
    && !Refused(s.files, Resolve(s.files, from), Resolve(s.files, to))
  }

  /** What a caller has to check for the operation to keep the tree. */
  ghost predicate Sound(max: nat, s: State, op: Op)
    requires |s.files| > 0
  {
    match op
    case Create(path) => Makes(s, path, false) ==>
        RoomFor(max, s.files, Split(s.files, path).value.0, Split(s.files, path).value.1)
    case Mkdir(path) => Makes(s, path, true) ==>
        RoomFor(max, s.files, Split(s.files, path).value.0, Split(s.files, path).value.1)
    case Unlink(path) => true
    case Rmdir(path) => true
    case Move(from, to) => Moves(s, from, to) ==>
        var (src, dst) := (Resolve(s.files, from), Resolve(s.files, to));
        var (p, base) := Split(s.files, to).value;
        NoRoom(max, s.files, src, dst, p) || SoundMove(s.files, src, dst, p, base)
  }

  lemma {:induction false} WalkLive(fs: seq<Node>, cur: int, comps: seq<string>)
    requires TreeOk(fs) && Live(fs, cur)
    ensures Walk(fs, cur, comps) >= 0 ==> Live(fs, Walk(fs, cur, comps))
    decreases |comps|
  {
    if comps != [] {
      assert NodeOk(fs, cur);
      var next := Step(fs, cur, comps[0]);
      if next >= 0 { WalkLive(fs, next, comps[1..]); }
    }
  }

  lemma ResolveLive(fs: seq<Node>, path: string)
    requires TreeOk(fs)
    ensures Resolve(fs, path) >= 0 ==> Live(fs, Resolve(fs, path))
    ensures Split(fs, path).Some? ==> Live(fs, Split(fs, path).value.0)
  {
    if path != "" && path[0] == '/' {
      WalkLive(fs, ROOT, Components(path[1..]));
      WalkLive(fs, ROOT, Components(ParentPath(path)[1..]));
    }
  }

  // --- Each operation ---------------------------------------------------------------

  lemma MakeIff(max: nat, s: State, path: string, isDir: bool)
    requires FsOk(max, s)
    ensures FsOk(max, Make(max, s, path, isDir).0) <==>
            (Makes(s, path, isDir) ==>
               RoomFor(max, s.files, Split(s.files, path).value.0, Split(s.files, path).value.1))
  {
    ResolveLive(s.files, path);
    if Makes(s, path, isDir) {
      var (p, base) := Split(s.files, path).value;
      var slot := FreeSlot(s.files, 0);
      AttachFsIff(max, s, slot, p, base, isDir);
      assert Make(max, s, path, isDir).0 == State(Attached(max, s.files, slot, p, base, isDir), s.num + 1);
    }
  }

  lemma AttachFsIff(max: nat, s: State, slot: int, p: int, name: string, isDir: bool)
    requires FsOk(max, s) && InTable(s.files, slot) && !s.files[slot].live && Live(s.files, p)
    ensures FsOk(max, State(Attached(max, s.files, slot, p, name, isDir), s.num + 1)) <==>
              RoomFor(max, s.files, p, name)
  {
    var f := Attached(max, s.files, slot, p, name, isDir);
    AttachIff(max, s.files, slot, p, name, isDir);
    assert slot !in LiveSet(s.files);
    assert Bounded(max, f);
  }

  /** For a plain path the name is never taken: a directory with room is all that is needed. */
  lemma PlainMake(max: nat, s: State, path: string, isDir: bool)
    requires |s.files| > 0 && Plain(path) && Makes(s, path, isDir)
    ensures var (p, base) := Split(s.files, path).value;
            RoomFor(max, s.files, p, base) <==> s.files[p].isDir && |s.files[p].children| < max
  {
    ResolveIsLookup(s.files, path);
  }

  lemma RemoveKeeps(max: nat, s: State, path: string, rmdir: bool)
    requires FsOk(max, s)
    ensures FsOk(max, Remove(s, path, rmdir).0)
  {
    ResolveLive(s.files, path);
    var idx := Resolve(s.files, path);
    if Remove(s, path, rmdir).1 == 0 {
      assert NodeOk(s.files, idx);
      DetachKeepsTree(s.files, idx);
      var f := Detached(s.files, idx);
      forall i | 0 <= i < |f| && f[i].live ensures |f[i].children| <= max {
        WithoutLength(s.files[i].children, idx);
      }
    }
  }

  lemma ResolvedMove(s: State, from: string, to: string)
    requires |s.files| > 0 && TreeOk(s.files) && Moves(s, from, to)
    ensures MoveArgs(s.files, Resolve(s.files, from), Resolve(s.files, to), Split(s.files, to).value.0)
  {
    ResolveLive(s.files, from);
    ResolveLive(s.files, to);
  }

  lemma PlacedBounded(max: nat, fs: seq<Node>, gone: int, moved: int, p: int, base: string)
    requires MoveArgs(fs, moved, gone, p) && gone != moved && gone != p && Bounded(max, fs)
    requires |Lifted(fs, moved, gone, p, base)[p].children| < max
    ensures Bounded(max, Placed(fs, gone, moved, p, MovedNode(fs, moved, p, base)))
  {
    var f := Placed(fs, gone, moved, p, MovedNode(fs, moved, p, base));
    LiftedNode(fs, moved, gone, p, base, p);
    forall i | 0 <= i < |f| && f[i].live ensures |f[i].children| <= max {
      WithoutLength(fs[i].children, gone);
      WithoutLength(Without(fs[i].children, gone), moved);
    }
  }

  /** The bounds after a rename that removes its own source. */
  lemma RemovedBounded(max: nat, fs: seq<Node>, src: int, base: string)
    requires MoveArgs(fs, src, src, src) && Bounded(max, fs) && fs[src].children == []
    requires AddChild(max, Lifted(fs, src, src, src, base), src, src).Some?
    ensures Bounded(max, AddChild(max, Lifted(fs, src, src, src, base), src, src).value)
  {
    var g := AddChild(max, Lifted(fs, src, src, src, base), src, src).value;
    assert NodeOk(fs, src);
    NotOwnParent(fs, src);
    var q := fs[src].parent;
    WithoutLength(fs[q].children, src);
    WithoutLength(Without(fs[q].children, src), src);
    assert !g[src].live;
  }

  lemma MovedFsIff(max: nat, s: State, src: int, dst: int, p: int, base: string)
    requires FsOk(max, s) && MoveArgs(s.files, src, dst, p) && !NoRoom(max, s.files, src, dst, p)
    ensures FsOk(max, MoveNode(max, s, src, dst, p, base).0) <==> SoundMove(s.files, src, dst, p, base)
  {
    MoveFails(max, s.files, src, dst, p, base);
    MoveIff(max, s.files, src, dst, p, base);
    if SoundMove(s.files, src, dst, p, base) {
      if src == dst {
        RemovedBounded(max, s.files, src, base);
      } else {
        MoveIsPlace(max, s.files, src, dst, p, base);
        PlacedBounded(max, s.files, dst, src, p, base);
      }
      LiveCount(s.files, dst);
    }
  }

  lemma LiveCount(fs: seq<Node>, x: int)
    requires x == -1 || Live(fs, x)
    ensures |LiveSet(fs) - {x}| == |LiveSet(fs)| - if x == -1 then 0 else 1
  {
    if x == -1 { assert LiveSet(fs) - {x} == LiveSet(fs); }
  }

  lemma RenameIff(max: nat, s: State, from: string, to: string)
    requires FsOk(max, s)
    ensures FsOk(max, Rename(max, s, from, to).0) <==> Sound(max, s, Move(from, to))
  {
    if Moves(s, from, to) {
      ResolvedMove(s, from, to);
      var (p, base) := Split(s.files, to).value;
      var (src, dst) := (Resolve(s.files, from), Resolve(s.files, to));
      if NoRoom(max, s.files, src, dst, p) {
        MoveFails(max, s.files, src, dst, p, base);
        FailedMoveRestores(max, s.files, src, dst, p, base);
      } else {
        MovedFsIff(max, s, src, dst, p, base);
      }
    }
  }

  /** Each operation keeps the file system sound exactly when its condition holds. */
  lemma ApplyIff(max: nat, s: State, op: Op)
    requires FsOk(max, s)
    ensures FsOk(max, Apply(max, s, op).0) <==> Sound(max, s, op)
  {
    match op {
      case Create(path) => MakeIff(max, s, path, false);
      case Mkdir(path) => MakeIff(max, s, path, true);
      case Unlink(path) => RemoveKeeps(max, s, path, false);
      case Rmdir(path) => RemoveKeeps(max, s, path, true);
      case Move(from, to) => RenameIff(max, s, from, to);
    }
  }

  // --- Runs -------------------------------------------------------------------------

  function Initial(): (s: State)
    ensures |s.files| == MAX_FILES
  {
    State([Node("/", true, true, -1, [])] + seq(MAX_FILES - 1, _ => Node("", false, false, 0, [])), 1)
  }

  lemma InitialOk(max: nat)
    ensures FsOk(max, Initial()) && |Initial().files| == 64 && LiveSet(Initial().files) == {ROOT}
  {
    var fs := Initial().files;
    UnderSelf(fs, ROOT);
    assert NodeOk(fs, ROOT);
    assert LiveSet(fs) == {ROOT};
  }

  function Run(max: nat, s: State, ops: seq<Op>): (r: State)
    requires |s.files| > 0
    ensures |r.files| == |s.files|
    decreases |ops|
  {
    if ops == [] then s else Run(max, Apply(max, s, ops[0]).0, ops[1..])
  }

  /** Every operation of the run meets its condition when its turn comes. */
  ghost predicate AllSound(max: nat, s: State, ops: seq<Op>)
    requires |s.files| > 0
    decreases |ops|
  {
    ops != [] ==>
      && Sound(max, s, ops[0])
      && AllSound(max, Apply(max, s, ops[0]).0, ops[1..])
  }

  lemma {:induction false} RunKeepsTree(max: nat, s: State, ops: seq<Op>)
    requires FsOk(max, s) && AllSound(max, s, ops)
    ensures FsOk(max, Run(max, s, ops))
    decreases |ops|
  {
    if ops != [] {
      ApplyIff(max, s, ops[0]);
      RunKeepsTree(max, Apply(max, s, ops[0]).0, ops[1..]);
    }
  }

  // --- Directories of the real size are never full ------------------------------------

  lemma {:induction false} DistinctFits(ch: seq<int>, within: set<int>)
    requires Distinct(ch) && forall c | c in ch :: c in within
    ensures |ch| <= |within|
    decreases |ch|
  {
    if ch != [] {
      assert ch[0] in ch && ch[0] !in ch[1..];
      DistinctFits(ch[1..], within - {ch[0]});
    }
  }

  lemma {:induction false} LiveFits(fs: seq<Node>, n: nat)
    requires n <= |fs|
    ensures |set i | 0 <= i < n && fs[i].live| <= n
    decreases n
  {
    if n > 0 {
      LiveFits(fs, n - 1);
      var a := set i | 0 <= i < n && fs[i].live;
      var b := set i | 0 <= i < n - 1 && fs[i].live;
      if fs[n - 1].live { assert a == b + {n - 1}; } else { assert a == b; }
    }
  }

  /** With MAX_CHILDREN at least MAX_FILES no directory of a tree fills up. */
  lemma NeverFull(max: nat, s: State, d: int)
    requires FsOk(max, s) && Live(s.files, d)
    ensures |s.files[d].children| < MAX_FILES
  {
    assert NodeOk(s.files, d);
    LiveFits(s.files, |s.files|);
    DistinctFits(s.files[d].children, LiveSet(s.files) - {ROOT});
  }

  // --- What paths mean ----------------------------------------------------------------

  /** A node has only one path: its last name and its parent are determined. */
  lemma {:induction false} UniquePath(fs: seq<Node>, a: seq<string>, b: seq<string>)
    requires TreeOk(fs) && Descend(fs, ROOT, a) == Descend(fs, ROOT, b) >= 0
    ensures a == b
    decreases |a|
  {
    if a != [] { LastStep(fs, a); }
    if b != [] { LastStep(fs, b); }
    if a != [] && b != [] {
      UniquePath(fs, a[..|a| - 1], b[..|b| - 1]);
      assert a == a[..|a| - 1] + [a[|a| - 1]] && b == b[..|b| - 1] + [b[|b| - 1]];
    }
  }

  lemma LastStep(fs: seq<Node>, a: seq<string>)
    requires TreeOk(fs) && a != [] && Descend(fs, ROOT, a) >= 0
    ensures var r := Descend(fs, ROOT, a);
            r != ROOT && Live(fs, r) && fs[r].name == a[|a| - 1] && fs[r].parent == Descend(fs, ROOT, a[..|a| - 1]) >= 0
  {
    var front, last := a[..|a| - 1], a[|a| - 1];
    assert a == front + [last];
    DescendSplit(fs, ROOT, front, [last]);
    var q := Descend(fs, ROOT, front);
    UnderSelf(fs, ROOT);
    DescendUnder(fs, ROOT, front, ROOT);
    assert NodeOk(fs, q);
    assert Descend(fs, q, [last]) == FindChild(fs, q, last);
  }

  /** A rename of one node to another place or name. */
  predicate Renamed(max: nat, s: State, from: string, to: string)
    requires |s.files| > 0
  {
    from != to && Resolve(s.files, from) != Resolve(s.files, to) && Rename(max, s, from, to).1 == 0
  }

  /** A successful rename as a placement. */
  lemma RenameIsPlace(max: nat, s: State, from: string, to: string)
    requires FsOk(max, s) && Sound(max, s, Move(from, to)) && Renamed(max, s, from, to)
    ensures Moves(s, from, to)
    ensures var (src, dst) := (Resolve(s.files, from), Resolve(s.files, to));
            var (p, base) := Split(s.files, to).value;
            && MoveArgs(s.files, src, dst, p) && SoundMove(s.files, src, dst, p, base)
            && Placeable(s.files, dst, src, p, MovedNode(s.files, src, p, base))
            && Rename(max, s, from, to).0.files == Placed(s.files, dst, src, p, MovedNode(s.files, src, p, base))
  {
    ResolvedMove(s, from, to);
    var (p, base) := Split(s.files, to).value;
    var (src, dst) := (Resolve(s.files, from), Resolve(s.files, to));
    MoveFails(max, s.files, src, dst, p, base);
    MoveIff(max, s.files, src, dst, p, base);
  }

  /** In the new parent the new name is the moved node. */
  lemma PlacedFound(fs: seq<Node>, gone: int, moved: int, p: int, node: Node)
    requires Placeable(fs, gone, moved, p, node)
    ensures FindChild(Placed(fs, gone, moved, p, node), p, node.name) == moved
  {
    var f := Placed(fs, gone, moved, p, node);
    UnderSelf(fs, p);
    PlacedKids(fs, gone, moved, p, node, p);
    assert f[p].children[|f[p].children| - 1] == moved;
    FoundChild(f, p, node.name, moved);
  }

  /** The way to the new parent does not pass the moved or the replaced node. */
  lemma NewPathFound(fs: seq<Node>, gone: int, moved: int, p: int, node: Node, names: seq<string>)
    requires Placeable(fs, gone, moved, p, node) && Descend(fs, ROOT, names) == p
    ensures Descend(Placed(fs, gone, moved, p, node), ROOT, names + [node.name]) == moved
  {
    var f := Placed(fs, gone, moved, p, node);
    ParentKept(fs, gone, moved, p, node);
    PlaceKeepsPaths(fs, gone, moved, p, node, ROOT, names);
    PlacedFound(fs, gone, moved, p, node);
    DescendSplit(f, ROOT, names, [node.name]);
    assert Descend(f, p, [node.name]) == FindChild(f, p, node.name);
  }

  /** The names under which the moved node is stored: those of the parent path, and the basename cut
      to what fits. */
  function StoredNames(s: State, to: string): seq<string>
    requires |s.files| > 0 && Split(s.files, to).Some?
  {
    Components(ParentPath(to)[1..]) + [Split(s.files, to).value.1]
  }

  /** For a plain path these are its components. */
  lemma PlainStored(s: State, to: string)
    requires |s.files| > 0 && Split(s.files, to).Some? && Plain(to)
    ensures StoredNames(s, to) == Components(to[1..])
  {
    PlainComponents(to);
    ResolveIsLookup(s.files, to);
  }

  /** The moved node is found under its stored names. */
  lemma RenameFound(max: nat, s: State, from: string, to: string)
    requires FsOk(max, s) && Sound(max, s, Move(from, to)) && Renamed(max, s, from, to)
    requires Undotted(Components(ParentPath(to)[1..]))
    ensures Moves(s, from, to)
    ensures Descend(Rename(max, s, from, to).0.files, ROOT, StoredNames(s, to)) == Resolve(s.files, from)
  {
    RenameIsPlace(max, s, from, to);
    var (p, base) := Split(s.files, to).value;
    var src := Resolve(s.files, from);
    var front := Components(ParentPath(to)[1..]);
    WalkIsDescend(s.files, ROOT, front);
    NewPathFound(s.files, Resolve(s.files, to), src, p, MovedNode(s.files, src, p, base), front);
  }

  /** What the old path meant, alone or followed by more names, the stored names mean afterwards, but
      for the node replaced; and the old path no longer leads to the node, unless it is the same. */
  lemma RenameMoves(max: nat, s: State, from: string, to: string, rest: seq<string>)
    requires FsOk(max, s) && Sound(max, s, Move(from, to)) && Renamed(max, s, from, to)
    requires Undotted(Components(from[1..])) && Undotted(Components(ParentPath(to)[1..]))
    ensures Moves(s, from, to)
    ensures var f := Rename(max, s, from, to).0.files;
            var (was, now) := (Components(from[1..]), StoredNames(s, to));
            var r := Descend(s.files, ROOT, was + rest);
            && Descend(f, ROOT, now + rest) == (if r == Resolve(s.files, to) then -1 else r)
            && (was != now ==> Descend(f, ROOT, was) != Resolve(s.files, from))
  {
    RenameIsPlace(max, s, from, to);
    RenameFound(max, s, from, to);
    var f := Rename(max, s, from, to).0.files;
    var (src, dst) := (Resolve(s.files, from), Resolve(s.files, to));
    var (p, base) := Split(s.files, to).value;
    var (was, now) := (Components(from[1..]), StoredNames(s, to));
    var node := MovedNode(s.files, src, p, base);
    WalkIsDescend(s.files, ROOT, was);
    UnderSelf(s.files, src);
    PlaceKeepsSubtree(s.files, dst, src, p, node, src, rest);
    DescendSplit(s.files, ROOT, was, rest);
    DescendSplit(f, ROOT, now, rest);
    PlaceKeepsTree(s.files, dst, src, p, node);
    if Descend(f, ROOT, was) == src { UniquePath(f, was, now); }
  }

  /** Every path to a node outside the part moved or replaced means the same afterwards. */
  lemma RenameKeepsOthers(max: nat, s: State, from: string, to: string, names: seq<string>)
    requires FsOk(max, s) && Sound(max, s, Move(from, to)) && Renamed(max, s, from, to)
    requires var r := Descend(s.files, ROOT, names);
             r >= 0 && !Under(s.files, Resolve(s.files, from), r) && !Under(s.files, Resolve(s.files, to), r)
    ensures Descend(Rename(max, s, from, to).0.files, ROOT, names) == Descend(s.files, ROOT, names)
  {
    RenameIsPlace(max, s, from, to);
    var (p, base) := Split(s.files, to).value;
    var src := Resolve(s.files, from);
    PlaceKeepsPaths(s.files, Resolve(s.files, to), src, p, MovedNode(s.files, src, p, base), ROOT, names);
  }

  /** A path that led nowhere still does, unless it extends the new one. */
  lemma RenameAddsNoPaths(max: nat, s: State, from: string, to: string, names: seq<string>)
    requires FsOk(max, s) && Sound(max, s, Move(from, to)) && Renamed(max, s, from, to)
    requires Undotted(Components(ParentPath(to)[1..])) && Descend(s.files, ROOT, names) == -1
    ensures Moves(s, from, to)
    ensures Descend(Rename(max, s, from, to).0.files, ROOT, names) < 0 || StoredNames(s, to) <= names
  {
    RenameIsPlace(max, s, from, to);
    var (p, base) := Split(s.files, to).value;
    var (src, dst) := (Resolve(s.files, from), Resolve(s.files, to));
    var node := MovedNode(s.files, src, p, base);
    var f := Rename(max, s, from, to).0.files;
    if Descend(f, ROOT, names) >= 0 {
      if forall k | 0 <= k <= |names| :: Descend(f, ROOT, names[..k]) != src {
        PlaceAddsNoPaths(s.files, dst, src, p, node, ROOT, names);
      } else {
        var k :| 0 <= k <= |names| && Descend(f, ROOT, names[..k]) == src;
        PlaceKeepsTree(s.files, dst, src, p, node);
        RenameFound(max, s, from, to);
        UniquePath(f, names[..k], StoredNames(s, to));
      }
    }
  }

  // --- Calls that break the tree ------------------------------------------------------

  /** Creating a name of MAX_NAME_LEN characters twice leaves two siblings of one name: the stored
      name is cut, and the full one is looked up as two components. */
  lemma LongNameTwice(max: nat, s: State)
    requires FsOk(max, s)
    requires FindChild(s.files, ROOT, seq(MAX_NAME_LEN, _ => 'a')[..MAX_NAME_LEN - 1]) == -1
    requires |s.files[ROOT].children| < max && FreeSlot(s.files, 0) >= 0
    ensures var op := Create("/" + seq(MAX_NAME_LEN, _ => 'a'));
            var s1 := Apply(max, s, op).0;
            && FsOk(max, s1)
            && (FreeSlot(s1.files, 0) >= 0 ==> !FsOk(max, Apply(max, s1, op).0))
  {
    var name := seq(MAX_NAME_LEN, _ => 'a');
    var (path, cut) := ("/" + name, name[..MAX_NAME_LEN - 1]);
    LongNameWitness(s.files);
    LongResolve(s.files, cut);
    ApplyIff(max, s, Create(path));
    var s1 := Apply(max, s, Create(path)).0;
    var (slot, f) := (FreeSlot(s.files, 0), s1.files);
    NotInLists(s.files, ROOT, slot);
    assert f == Attached(max, s.files, slot, ROOT, cut, false);
    assert f[ROOT].children == s.files[ROOT].children + [slot];
    assert f[slot].name == cut && f[slot].children == [];
    assert slot in f[ROOT].children;
    assert NodeOk(f, ROOT);
    FoundChild(f, ROOT, cut, slot);
    LongNameWitness(f);
    LongResolve(f, cut);
    ApplyIff(max, s1, Create(path));
  }

  lemma LongResolve(fs: seq<Node>, cut: string)
    requires |fs| > 0 && |cut| > 2
    ensures var c := FindChild(fs, ROOT, cut);
            Walk(fs, ROOT, [cut, "a"]) == if c < 0 then -1 else FindChild(fs, c, "a")
  {
    var c := FindChild(fs, ROOT, cut);
    assert Step(fs, ROOT, cut) == c;
    assert [cut, "a"][1..] == ["a"];
    if c >= 0 {
      assert Walk(fs, c, ["a"]) == Step(fs, c, "a");
    }
  }

  /** A rename to a new path beside a sibling with the name stored for it. */
  lemma ClashingRename(max: nat, s: State, from: string, to: string, src: int, p: int, base: string, c: int)
    requires FsOk(max, s) && Moves(s, from, to) && src == Resolve(s.files, from) && Resolve(s.files, to) == -1
    requires Split(s.files, to) == Some((p, base)) && src in s.files[p].children
    requires c in s.files[p].children && c != src && InTable(s.files, c) && s.files[c].name == base
    ensures !FsOk(max, Apply(max, s, Move(from, to)).0)
  {
    assert !SoundMove(s.files, src, -1, p, base);
    ApplyIff(max, s, Move(from, to));
  }

  /** Renaming /a to a name of MAX_NAME_LEN characters while a sibling has its first 63 leaves two
      siblings of one name. */
  lemma LongRename(max: nat, s: State, a: int, c: int)
    requires FsOk(max, s) && a == FindChild(s.files, ROOT, "a") && a >= 0
    requires c == FindChild(s.files, ROOT, seq(MAX_NAME_LEN, _ => 'a')[..MAX_NAME_LEN - 1]) && c >= 0
    requires FindChild(s.files, c, "a") == -1
    ensures !FsOk(max, Apply(max, s, Move("/a", "/" + seq(MAX_NAME_LEN, _ => 'a'))).0)
  {
    var name := seq(MAX_NAME_LEN, _ => 'a');
    var (path, cut) := ("/" + name, name[..MAX_NAME_LEN - 1]);
    ShortPaths(s.files);
    LongNameWitness(s.files);
    LongResolve(s.files, cut);
    assert NodeOk(s.files, ROOT);
    assert a in s.files[ROOT].children && c in s.files[ROOT].children && a != c;
    assert |path| != |"/a"|;
    ClashingRename(max, s, "/a", path, a, ROOT, cut, c);
  }

  /** The paths /a and /a/b. */
  lemma ShortPaths(fs: seq<Node>)
    requires |fs| > 0
    ensures Plain("/a") && Plain("/a/b")
    ensures Split(fs, "/a") == Some((ROOT, "a")) && Resolve(fs, "/a") == FindChild(fs, ROOT, "a")
    ensures var c := FindChild(fs, ROOT, "a"); c >= 0 ==> Split(fs, "/a/b") == Some((c, "b"))
  {
    assert "/a"[..1] == "/" && LastSlash("/a") == 0;
    assert "/a/b"[..3] == "/a/" && LastSlash("/a/") == 2 && LastSlash("/a/b") == 2;
    assert Basename("/a") == "a" && Basename("/a/b") == "b";
    assert ParentPath("/a") == "/" && ParentPath("/a/b") == "/a";
    assert Components("") == [];
    ResolveIsLookup(fs, "/a");
  }

  /** Renaming a directory /a to /a/b cuts it off from the root. */
  lemma MoveUnderItself(max: nat, s: State, a: int)
    requires FsOk(max, s) && a == FindChild(s.files, ROOT, "a") && a >= 0
    requires s.files[a].isDir && |s.files[a].children| < max && FindChild(s.files, a, "b") == -1
    ensures !FsOk(max, Apply(max, s, Move("/a", "/a/b")).0)
  {
    ShortPaths(s.files);
    assert NodeOk(s.files, ROOT);
    ResolveIsLookup(s.files, "/a/b");
    UnderSelf(s.files, a);
    ApplyIff(max, s, Move("/a", "/a/b"));
  }

  /** Such a directory is one mkdir away. */
  lemma MkdirThenMove(max: nat)
    requires max >= 1
    ensures var s := Apply(max, Initial(), Mkdir("/a")).0;
            FsOk(max, s) && !FsOk(max, Apply(max, s, Move("/a", "/a/b")).0)
  {
    var s := Initial();
    InitialOk(max);
    ShortPaths(s.files);
    assert FreeSlot(s.files, 1) == 1 && FreeSlot(s.files, 0) == 1;
    var s1 := Apply(max, s, Mkdir("/a")).0;
    assert s1.files == Attached(max, s.files, 1, ROOT, "a", true);
    assert s1.files[ROOT].children == [1] && s1.files[1] == Node("a", true, true, ROOT, []);
    ApplyIff(max, s, Mkdir("/a"));
    assert NodeOk(s1.files, ROOT);
    FoundChild(s1.files, ROOT, "a", 1);
    MoveUnderItself(max, s1, 1);
  }
}
