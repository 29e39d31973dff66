/**
 The directory tree that memfs keeps in parallel index arrays (kernel/fs/vfs.c): what makes the
 nodes a tree, and what placing and removing a node does to it.  Creating, making a directory
 and renaming all place one node; each keeps the tree exactly under a condition on the arguments.
 */
module MemTree {
  import opened Options

  const ROOT := 0

  /** struct mem_file without contents, mode and owner; `children` is children[..num_children]. */
  datatype Node = Node(name: string, live: bool, isDir: bool, parent: int, children: seq<int>)

  predicate InTable(fs: seq<Node>, i: int) { 0 <= i < |fs| }

  predicate Live(fs: seq<Node>, i: int) { InTable(fs, i) && fs[i].live }

  // --- Child lists ------------------------------------------------------------------

  predicate Distinct(s: seq<int>) { forall j, k | 0 <= j < k < |s| :: s[j] != s[k] }

  /** The list after the first `x` is shifted out. */
  function Without(s: seq<int>, x: int): (r: seq<int>)
    ensures x !in s ==> r == s
    ensures forall y | y in r :: y in s
    ensures forall y | y in s && y != x :: y in r
  {
    if s == [] then [] else if s[0] == x then s[1..] else [s[0]] + Without(s[1..], x)
  }

  lemma {:induction false} WithoutDistinct(s: seq<int>, x: int)
    requires Distinct(s)
    ensures Distinct(Without(s, x)) && x !in Without(s, x)
  {
    if s != [] && s[0] != x {
      WithoutDistinct(s[1..], x);
      assert s[0] !in s[1..];
      assert s[0] !in Without(s[1..], x);
    }
  }

  lemma {:induction false} WithoutCount(s: seq<int>, x: int)
    requires x in s
    ensures multiset(Without(s, x)) == multiset(s) - multiset{x}
  {
    assert s == [s[0]] + s[1..];
    if s[0] != x { WithoutCount(s[1..], x); }
  }

  lemma {:induction false} WithoutAt(s: seq<int>, i: nat)
    requires i < |s| && s[i] !in s[..i]
    ensures Without(s, s[i]) == s[..i] + s[i + 1..]
    decreases i
  {
    if i > 0 {
      assert s[1..][..i - 1] == s[1..i];
      assert s[0] in s[..i];
      WithoutAt(s[1..], i - 1);
    }
  }

  /** The first live child of that name, or -1. */
  function FindIn(fs: seq<Node>, ch: seq<int>, name: string): (c: int)
    ensures c == -1 || (c in ch && Live(fs, c) && fs[c].name == name)
    ensures c == -1 ==> forall d | d in ch && Live(fs, d) :: fs[d].name != name
  {
    if ch == [] then -1
    else if Live(fs, ch[0]) && fs[ch[0]].name == name then ch[0]
    else FindIn(fs, ch[1..], name)
  }

  function FindChild(fs: seq<Node>, d: int, name: string): (c: int) {
    if Live(fs, d) then FindIn(fs, fs[d].children, name) else -1
  }

  function AddChild(max: nat, fs: seq<Node>, d: int, c: int): (r: Option<seq<Node>>)
    ensures r.Some? ==> |r.value| == |fs|
  {
    if !InTable(fs, d) || !fs[d].isDir || |fs[d].children| >= max then None
    else if c in fs[d].children then Some(fs)
    else Some(fs[d := fs[d].(children := fs[d].children + [c])])
  }

  function RemoveChild(fs: seq<Node>, d: int, c: int): (r: seq<Node>)
    ensures |r| == |fs|
  {
    if !InTable(fs, d) || !fs[d].isDir then fs
    else fs[d := fs[d].(children := Without(fs[d].children, c))]
  }

  // --- The tree ---------------------------------------------------------------------

  /** The n-th ancestor; the root has none. */
  ghost function Up(fs: seq<Node>, i: int, n: nat): int
    decreases n
  {
    if n == 0 || !InTable(fs, i) || i == ROOT then i else Up(fs, fs[i].parent, n - 1)
  }

  /** `x` is `i` or an ancestor of `i`. */
  ghost predicate Under(fs: seq<Node>, x: int, i: int) { exists n: nat :: Up(fs, i, n) == x }

  ghost predicate KidsOk(fs: seq<Node>, i: int)
    requires InTable(fs, i)
  {
    && (forall c | c in fs[i].children :: Live(fs, c) && fs[c].parent == i)
    && Distinct(fs[i].children)
    && (!fs[i].isDir ==> fs[i].children == [])
  }

  ghost predicate NamesUnique(fs: seq<Node>, i: int)
    requires InTable(fs, i)
  {
    forall c, d | c in fs[i].children && d in fs[i].children && c != d && InTable(fs, c) && InTable(fs, d) ::
      fs[c].name != fs[d].name
  }

  ghost predicate HasParent(fs: seq<Node>, i: int)
    requires InTable(fs, i)
  {
    i != ROOT ==> Live(fs, fs[i].parent) && fs[fs[i].parent].isDir && i in fs[fs[i].parent].children
  }

  ghost predicate NodeOk(fs: seq<Node>, i: int)
    requires InTable(fs, i)
  {
    KidsOk(fs, i) && NamesUnique(fs, i) && HasParent(fs, i) && Under(fs, ROOT, i)
  }

  /** The live nodes are a tree: parent and child links agree, sibling names are unique, and every
      node leads up to the root. */
  ghost predicate TreeOk(fs: seq<Node>) {
    && Live(fs, ROOT) && fs[ROOT].isDir && fs[ROOT].parent == -1
    && forall i {:trigger NodeOk(fs, i)} | Live(fs, i) :: NodeOk(fs, i)
  }

  ghost function LiveSet(fs: seq<Node>): set<int> { set i | 0 <= i < |fs| && fs[i].live }

  lemma UnderSelf(fs: seq<Node>, i: int)
    ensures Under(fs, i, i)
  {
    assert Up(fs, i, 0) == i;
  }

  /** Going one step up. */
  lemma UnderParent(fs: seq<Node>, x: int, i: int)
    requires InTable(fs, i) && i != ROOT && i != x
    ensures Under(fs, x, i) <==> Under(fs, x, fs[i].parent)
  {
    if Under(fs, x, i) {
      var n: nat :| Up(fs, i, n) == x;
      assert Up(fs, fs[i].parent, n - 1) == x;
    }
    if Under(fs, x, fs[i].parent) {
      var n: nat :| Up(fs, fs[i].parent, n) == x;
      assert Up(fs, i, n + 1) == x;
    }
  }

  lemma UnderRoot(fs: seq<Node>, x: int)
    ensures Under(fs, x, ROOT) ==> x == ROOT
  {
  }

  /** The ancestors of a live node are live. */
  lemma {:induction false} UpLive(fs: seq<Node>, i: int, n: nat)
    requires TreeOk(fs) && Live(fs, i)
    ensures Live(fs, Up(fs, i, n))
    decreases n
  {
    if n > 0 && i != ROOT {
      assert NodeOk(fs, i);
      UpLive(fs, fs[i].parent, n - 1);
    }
  }

  // --- Removing a leaf --------------------------------------------------------------

  /** What vfs_unlink, vfs_rmdir and the replacing vfs_rename do to a node. */
  function Detached(fs: seq<Node>, i: int): (r: seq<Node>)
    requires InTable(fs, i)
    ensures |r| == |fs|
  {
    var f := RemoveChild(fs, fs[i].parent, i);
    f[i := f[i].(live := false, children := [])]
  }

  lemma {:induction false} DetachUp(fs: seq<Node>, x: int, i: int, n: nat)
    requires InTable(fs, x) && Up(fs, i, n) == ROOT
    ensures Up(Detached(fs, x), i, n) == ROOT
    decreases n
  {
    if n > 0 && InTable(fs, i) && i != ROOT { DetachUp(fs, x, fs[i].parent, n - 1); }
  }

  lemma DetachKeepsTree(fs: seq<Node>, x: int)
    requires TreeOk(fs) && Live(fs, x) && x != ROOT && fs[x].children == []
    ensures TreeOk(Detached(fs, x)) && LiveSet(Detached(fs, x)) == LiveSet(fs) - {x}
  {
    var f := Detached(fs, x);
    assert NodeOk(fs, x);
    forall i | Live(f, i) ensures NodeOk(f, i) {
      assert NodeOk(fs, i);
      assert i != ROOT ==> NodeOk(fs, fs[i].parent);
      WithoutDistinct(fs[i].children, x);
      assert KidsOk(f, i);
      assert HasParent(f, i);
      assert NamesUnique(f, i);
      var n: nat :| Up(fs, i, n) == ROOT;
      DetachUp(fs, x, i, n);
    }
  }

  // --- Placing a node ---------------------------------------------------------------

  /** `moved` (dead, or anywhere in the tree) becomes the last child of `p`, and `gone` (any node, or
      -1) is freed. */
  function Placed(fs: seq<Node>, gone: int, moved: int, p: int, node: Node): (r: seq<Node>)
    ensures |r| == |fs|
  {
    seq(|fs|, i requires 0 <= i < |fs| => PlacedNode(fs, gone, moved, p, node, i))
  }

  function PlacedNode(fs: seq<Node>, gone: int, moved: int, p: int, node: Node, i: int): Node
    requires InTable(fs, i)
  {
    if i == gone then fs[i].(live := false, children := [])
    else if i != moved && !fs[i].live then fs[i]
    else
      var n := if i == moved then node else fs[i];
      n.(children := Without(Without(n.children, gone), moved) + if i == p then [moved] else [])
  }

  /** The arguments of a sound placement. */
  ghost predicate Placeable(fs: seq<Node>, gone: int, moved: int, p: int, node: Node) {
    && TreeOk(fs) && InTable(fs, moved) && moved != ROOT
    && node.live && node.parent == p && node.children == (if fs[moved].live then fs[moved].children else [])
    && (fs[moved].live ==> node.isDir == fs[moved].isDir)
    && Live(fs, p) && fs[p].isDir && !Under(fs, moved, p)
    && gone != moved
    && (gone != -1 ==>
          Live(fs, gone) && gone != ROOT && gone != p && forall c | c in fs[gone].children :: c == moved)
    && (forall c | c in fs[p].children && c != gone && c != moved && InTable(fs, c) :: fs[c].name != node.name)
  }

  /** Away from `moved`, the way up is as before. */
  lemma {:induction false} PlaceUpElsewhere(fs: seq<Node>, gone: int, moved: int, p: int, node: Node, i: int, n: nat)
    requires !Under(fs, moved, i)
    ensures Up(Placed(fs, gone, moved, p, node), i, n) == Up(fs, i, n)
    decreases n
  {
    UnderSelf(fs, i);
    if n > 0 && InTable(fs, i) && i != ROOT {
      UnderParent(fs, moved, i);
      PlaceUpElsewhere(fs, gone, moved, p, node, fs[i].parent, n - 1);
    }
  }

  /** Every node that had a way up to the root still has one, if need be through its new parent. */
  lemma {:induction false} PlaceUp(fs: seq<Node>, gone: int, moved: int, p: int, node: Node, i: int, n: nat)
    requires Placeable(fs, gone, moved, p, node)
    requires i == moved || Up(fs, i, n) == ROOT
    ensures Under(Placed(fs, gone, moved, p, node), ROOT, i)
    decreases n
  {
    var f := Placed(fs, gone, moved, p, node);
    if i == moved {
      assert NodeOk(fs, p);
      var m: nat :| Up(fs, p, m) == ROOT;
      PlaceUpElsewhere(fs, gone, moved, p, node, p, m);
      assert Up(f, moved, m + 1) == ROOT;
    } else if i == ROOT {
      UnderSelf(f, ROOT);
    } else {
      PlaceUp(fs, gone, moved, p, node, fs[i].parent, n - 1);
      UnderParent(f, ROOT, i);
    }
  }

  lemma DroppedTwice(ch: seq<int>, gone: int, moved: int, last: bool)
    requires Distinct(ch)
    ensures var r := Without(Without(ch, gone), moved) + if last then [moved] else [];
            && Distinct(r)
            && forall c | c in r :: if c == moved then last else c in ch && c != gone
  {
    WithoutDistinct(ch, gone);
    WithoutDistinct(Without(ch, gone), moved);
  }

  /** The other live nodes keep their parents and names. */
  lemma PlacedOther(fs: seq<Node>, gone: int, moved: int, p: int, node: Node, c: int)
    requires Live(fs, c) && c != gone && c != moved
    ensures var f := Placed(fs, gone, moved, p, node);
            Live(f, c) && f[c].parent == fs[c].parent && f[c].name == fs[c].name
  {
  }

  lemma PlacedSelf(fs: seq<Node>, gone: int, moved: int, p: int, node: Node)
    requires InTable(fs, moved) && moved != gone && node.live
    ensures var f := Placed(fs, gone, moved, p, node);
            Live(f, moved) && f[moved].parent == node.parent && f[moved].name == node.name
  {
  }

  /** A child after the placement is the node placed, or a child from before. */
  lemma PlacedChild(fs: seq<Node>, gone: int, moved: int, p: int, node: Node, i: int, c: int)
    requires Placeable(fs, gone, moved, p, node) && Live(Placed(fs, gone, moved, p, node), i)
    requires c in Placed(fs, gone, moved, p, node)[i].children
    ensures var f := Placed(fs, gone, moved, p, node);
            && Live(f, c) && f[c].parent == i
            && (if c == moved then i == p && f[c].name == node.name
                else Live(fs, i) && c in fs[i].children && c != gone && Live(fs, c) && f[c].name == fs[c].name)
  {
    if Live(fs, i) { assert NodeOk(fs, i); }
    assert p != moved by { UnderSelf(fs, p); }
    DroppedTwice((if i == moved then node else fs[i]).children, gone, moved, i == p);
    if c == moved {
      PlacedSelf(fs, gone, moved, p, node);
    } else {
      assert Live(fs, i) && c in fs[i].children;
      PlacedOther(fs, gone, moved, p, node, c);
    }
  }

  lemma PlacedKids(fs: seq<Node>, gone: int, moved: int, p: int, node: Node, i: int)
    requires Placeable(fs, gone, moved, p, node) && Live(Placed(fs, gone, moved, p, node), i)
    ensures KidsOk(Placed(fs, gone, moved, p, node), i) && NamesUnique(Placed(fs, gone, moved, p, node), i)
  {
    var f := Placed(fs, gone, moved, p, node);
    if Live(fs, i) { assert NodeOk(fs, i); }
    var was := (if i == moved then node else fs[i]).children;
    DroppedTwice(was, gone, moved, i == p);
    forall c | c in f[i].children ensures Live(f, c) && f[c].parent == i {
      PlacedChild(fs, gone, moved, p, node, i, c);
    }
    forall c, d | c in f[i].children && d in f[i].children && c != d ensures f[c].name != f[d].name {
      PlacedChild(fs, gone, moved, p, node, i, c);
      PlacedChild(fs, gone, moved, p, node, i, d);
    }
  }

  lemma PlacedParent(fs: seq<Node>, gone: int, moved: int, p: int, node: Node, i: int)
    requires Placeable(fs, gone, moved, p, node) && Live(Placed(fs, gone, moved, p, node), i)
    ensures HasParent(Placed(fs, gone, moved, p, node), i)
  {
    var f := Placed(fs, gone, moved, p, node);
    UnderSelf(fs, p);
    assert NodeOk(fs, p);
    if i == moved {
      assert f[p].children[|f[p].children| - 1] == moved;
    } else if i != ROOT {
      assert NodeOk(fs, i);
      var q := fs[i].parent;
      assert q != gone;
      assert NodeOk(fs, q);
      var n := if q == moved then node else fs[q];
      assert i in Without(n.children, gone);
      assert i in Without(Without(n.children, gone), moved);
      assert i in f[q].children;
    }
  }

  lemma NotOwnParent(fs: seq<Node>, i: int)
    requires TreeOk(fs) && Live(fs, i) && i != ROOT
    ensures fs[i].parent != i
  {
    assert NodeOk(fs, i);
    var n: nat :| Up(fs, i, n) == ROOT;
    if fs[i].parent == i { LoopStays(fs, i, n); }
  }

  lemma {:induction false} LoopStays(fs: seq<Node>, i: int, n: nat)
    requires InTable(fs, i) && fs[i].parent == i
    ensures Up(fs, i, n) == i
    decreases n
  {
    if n > 0 && i != ROOT { LoopStays(fs, i, n - 1); }
  }

  lemma PlaceKeepsTree(fs: seq<Node>, gone: int, moved: int, p: int, node: Node)
    requires Placeable(fs, gone, moved, p, node)
    ensures TreeOk(Placed(fs, gone, moved, p, node))
    ensures LiveSet(Placed(fs, gone, moved, p, node)) == LiveSet(fs) - {gone} + {moved}
  {
    var f := Placed(fs, gone, moved, p, node);
    forall i | Live(f, i) ensures NodeOk(f, i) {
      PlacedKids(fs, gone, moved, p, node, i);
      PlacedParent(fs, gone, moved, p, node, i);
      var n: nat := 0;
      if i != moved {
        assert NodeOk(fs, i);
        n :| Up(fs, i, n) == ROOT;
      }
      PlaceUp(fs, gone, moved, p, node, i, n);
    }
  }

  // --- Placements that break the tree -----------------------------------------------

  /** From below `moved`, the way up no longer leaves the nodes below it. */
  lemma {:induction false} CycleStays(fs: seq<Node>, gone: int, moved: int, p: int, node: Node, i: int, n: nat)
    requires InTable(fs, moved) && moved != ROOT && gone != moved && node.parent == p
    requires Under(fs, moved, p) && Under(fs, moved, i)
    ensures Under(fs, moved, Up(Placed(fs, gone, moved, p, node), i, n))
    decreases n
  {
    if n > 0 && InTable(fs, i) && i != ROOT {
      if i == moved {
        CycleStays(fs, gone, moved, p, node, p, n - 1);
      } else {
        UnderParent(fs, moved, i);
        CycleStays(fs, gone, moved, p, node, fs[i].parent, n - 1);
      }
    }
  }

  /** A directory moved below itself is cut off from the root. */
  lemma CycleBreaks(fs: seq<Node>, gone: int, moved: int, p: int, node: Node)
    requires InTable(fs, moved) && moved != ROOT && gone != moved && node.live && node.parent == p
    requires Under(fs, moved, p)
    ensures !TreeOk(Placed(fs, gone, moved, p, node))
  {
    var f := Placed(fs, gone, moved, p, node);
    if TreeOk(f) {
      assert Live(f, moved) && NodeOk(f, moved);
      var n: nat :| Up(f, moved, n) == ROOT;
      UnderSelf(fs, moved);
      CycleStays(fs, gone, moved, p, node, moved, n);
      UnderRoot(fs, moved);
    }
  }

  /** A child of a freed directory that is not the node moved is an orphan. */
  lemma OrphanBreaks(fs: seq<Node>, gone: int, moved: int, p: int, node: Node, c: int)
    requires TreeOk(fs) && Live(fs, gone) && gone != moved && c in fs[gone].children && c != moved && moved != ROOT
    ensures !TreeOk(Placed(fs, gone, moved, p, node))
  {
    var f := Placed(fs, gone, moved, p, node);
    assert NodeOk(fs, gone);
    assert c != ROOT && c != gone by {
      if c == gone { NotOwnParent(fs, gone); }
    }
    assert Live(f, c) && f[c].parent == gone;
    assert !NodeOk(f, c);
  }

  // --- Paths through the tree -------------------------------------------------------

  /** The node that a list of names leads to, or -1. */
  function Descend(fs: seq<Node>, i: int, names: seq<string>): (r: int)
    decreases |names|
  {
    if names == [] then i else
      var c := FindChild(fs, i, names[0]);
      if c < 0 then -1 else Descend(fs, c, names[1..])
  }

  lemma {:induction false} DescendSplit(fs: seq<Node>, i: int, a: seq<string>, b: seq<string>)
    ensures Descend(fs, i, a + b) == if Descend(fs, i, a) < 0 && a != [] then -1 else Descend(fs, Descend(fs, i, a), b)
    decreases |a|
  {
    if a == [] {
      assert a + b == b;
    } else {
      assert (a + b)[0] == a[0] && (a + b)[1..] == a[1..] + b;
      var c := FindChild(fs, i, a[0]);
      if c >= 0 { DescendSplit(fs, c, a[1..], b); }
    }
  }

  /** A node found is below the node started from. */
  lemma {:induction false} DescendUnder(fs: seq<Node>, i: int, names: seq<string>, x: int)
    requires TreeOk(fs) && Live(fs, i) && Descend(fs, i, names) >= 0 && Under(fs, x, i)
    ensures Live(fs, Descend(fs, i, names)) && Under(fs, x, Descend(fs, i, names))
    decreases |names|
  {
    if names != [] {
      var c := FindChild(fs, i, names[0]);
      assert NodeOk(fs, i);
      if c != x && c != ROOT { UnderParent(fs, x, c); } else { UnderSelf(fs, c); }
      assert c != ROOT;
      DescendUnder(fs, c, names[1..], x);
    }
  }

  /** The child found is the only live child of that name. */
  lemma FoundChild(fs: seq<Node>, d: int, name: string, c: int)
    requires Live(fs, d) && KidsOk(fs, d) && NamesUnique(fs, d) && c in fs[d].children && fs[c].name == name
    ensures FindChild(fs, d, name) == c
  {
  }

  /** One step to a child that is neither moved nor freed is as before. */
  lemma PlaceStep(fs: seq<Node>, gone: int, moved: int, p: int, node: Node, i: int, name: string)
    requires Placeable(fs, gone, moved, p, node) && Live(fs, i) && i != gone
    requires var c := FindChild(fs, i, name); c >= 0 && c != gone && c != moved
    ensures FindChild(Placed(fs, gone, moved, p, node), i, name) == FindChild(fs, i, name)
  {
    var f := Placed(fs, gone, moved, p, node);
    var c := FindChild(fs, i, name);
    assert c in Without(fs[i].children, gone);
    assert c in Without(Without(fs[i].children, gone), moved);
    PlacedKids(fs, gone, moved, p, node, i);
    FoundChild(f, i, name, c);
  }

  /** A path that led to a node outside the part moved or freed still does. */
  lemma {:induction false} PlaceKeepsPaths(fs: seq<Node>, gone: int, moved: int, p: int, node: Node, i: int,
                                           names: seq<string>)
    requires Placeable(fs, gone, moved, p, node) && Live(fs, i)
    requires var r := Descend(fs, i, names); r >= 0 && !Under(fs, moved, r) && !Under(fs, gone, r)
    ensures Descend(Placed(fs, gone, moved, p, node), i, names) == Descend(fs, i, names)
    decreases |names|
  {
    if names != [] {
      var c := FindChild(fs, i, names[0]);
      assert NodeOk(fs, i);
      assert c != moved && c != gone && i != gone by {
        UnderSelf(fs, c);
        UnderSelf(fs, i);
        if c == moved { DescendUnder(fs, c, names[1..], moved); }
        if c == gone { DescendUnder(fs, c, names[1..], gone); }
        if i == gone { DescendUnder(fs, i, names, gone); }
      }
      PlaceStep(fs, gone, moved, p, node, i, names[0]);
      PlaceKeepsPaths(fs, gone, moved, p, node, c, names[1..]);
    }
  }

  /** Below the node moved every name means what it meant before, but for the node freed. */
  lemma {:induction false} PlaceKeepsSubtree(fs: seq<Node>, gone: int, moved: int, p: int, node: Node, i: int,
                                             names: seq<string>)
    requires Placeable(fs, gone, moved, p, node) && Live(fs, moved) && Live(fs, i) && Under(fs, moved, i) && i != gone
    ensures Descend(Placed(fs, gone, moved, p, node), i, names) ==
            if Descend(fs, i, names) == gone then -1 else Descend(fs, i, names)
    decreases |names|
  {
    if names != [] {
      var f := Placed(fs, gone, moved, p, node);
      SubtreeApart(fs, gone, moved, p, node, i);
      assert NodeOk(fs, i);
      var c := FindChild(fs, i, names[0]);
      if c >= 0 && c == gone {
        GoneUnnamed(fs, gone, moved, p, node, i, names[0]);
        LeafEnds(fs, gone, names[1..]);
      } else if c >= 0 {
        PlaceStep(fs, gone, moved, p, node, i, names[0]);
        UnderParent(fs, moved, c);
        PlaceKeepsSubtree(fs, gone, moved, p, node, c, names[1..]);
      } else {
        assert forall d | d in f[i].children :: d in fs[i].children && f[d].name == fs[d].name;
      }
    }
  }

  /** The freed node below the moved one has no children, so no path leads on from it. */
  lemma LeafEnds(fs: seq<Node>, i: int, names: seq<string>)
    requires Live(fs, i) && fs[i].children == []
    ensures names != [] ==> Descend(fs, i, names) == -1
  {
  }

  /** After its placement no child of i has the freed node's name. */
  lemma GoneUnnamed(fs: seq<Node>, gone: int, moved: int, p: int, node: Node, i: int, name: string)
    requires Placeable(fs, gone, moved, p, node) && Live(fs, i) && i != gone && i != p && gone >= 0
    requires FindChild(fs, i, name) == gone
    ensures FindChild(Placed(fs, gone, moved, p, node), i, name) == -1
  {
    var f := Placed(fs, gone, moved, p, node);
    assert NodeOk(fs, i);
    forall d | d in f[i].children && Live(f, d) ensures f[d].name != name {
      PlacedChild(fs, gone, moved, p, node, i, d);
    }
  }

  /** Nodes below `moved` get no new child and do not lose `moved`; the freed one among them is a leaf. */
  lemma SubtreeApart(fs: seq<Node>, gone: int, moved: int, p: int, node: Node, i: int)
    requires Placeable(fs, gone, moved, p, node) && Live(fs, moved) && Live(fs, i) && Under(fs, moved, i) && i != gone
    ensures var f := Placed(fs, gone, moved, p, node);
            && i != p && Live(f, i) && moved !in fs[i].children
            && (forall c | c in f[i].children :: c in fs[i].children && Live(fs, c) && f[c].name == fs[c].name)
            && (gone in fs[i].children ==> Live(fs, gone) && fs[gone].children == [])
  {
    assert NodeOk(fs, i) && NodeOk(fs, moved);
    assert i != p;
    assert moved !in fs[i].children by {
      if moved in fs[i].children { ParentNotBelow(fs, moved); }
    }
    if gone in fs[i].children {
      NotInLists(fs, i, -1);
      UnderParent(fs, moved, gone);
      assert NodeOk(fs, gone);
      assert moved !in fs[gone].children by {
        if moved in fs[gone].children { ParentNotBelow(fs, moved); }
      }
      HasMember(fs[gone].children);
    }
    forall c | c in Placed(fs, gone, moved, p, node)[i].children
      ensures c in fs[i].children && Live(fs, c) && Placed(fs, gone, moved, p, node)[c].name == fs[c].name
    {
      PlacedChild(fs, gone, moved, p, node, i, c);
    }
  }

  lemma HasMember(s: seq<int>)
    ensures s != [] ==> exists c :: c in s
  {
    if s != [] {
      var c := s[0];
      assert c in s;
    }
  }

  /** Only live nodes are listed by live nodes. */
  lemma NotInLists(fs: seq<Node>, i: int, x: int)
    requires TreeOk(fs) && Live(fs, i) && !Live(fs, x)
    ensures x !in fs[i].children
  {
    assert NodeOk(fs, i);
  }

  /** Below a node, but not the node itself, is below one of its children. */
  lemma {:induction false} BelowChild(fs: seq<Node>, x: int, i: int, n: nat) returns (c: int)
    requires TreeOk(fs) && Live(fs, i) && i != x && Up(fs, i, n) == x && Live(fs, x)
    ensures c in fs[x].children && Under(fs, c, i)
    decreases n
  {
    assert NodeOk(fs, i);
    if fs[i].parent == x {
      c := i;
      UnderSelf(fs, i);
    } else {
      c := BelowChild(fs, x, fs[i].parent, n - 1);
      if i == c { UnderSelf(fs, i); } else { UnderParent(fs, c, i); }
    }
  }

  /** The new parent is not below the node freed. */
  lemma ParentKept(fs: seq<Node>, gone: int, moved: int, p: int, node: Node)
    requires Placeable(fs, gone, moved, p, node)
    ensures !Under(fs, gone, p)
  {
    if Under(fs, gone, p) {
      var n: nat :| Up(fs, p, n) == gone;
      UpLive(fs, p, n);
      var c := BelowChild(fs, gone, p, n);
    }
  }

  /** A path after the placement that does not pass the node moved led to the same node before. */
  lemma {:induction false} PlaceAddsNoPaths(fs: seq<Node>, gone: int, moved: int, p: int, node: Node, i: int,
                                            names: seq<string>)
    requires Placeable(fs, gone, moved, p, node) && Live(fs, i) && i != gone && i != moved
    requires Descend(Placed(fs, gone, moved, p, node), i, names) >= 0
    requires forall k | 0 <= k <= |names| :: Descend(Placed(fs, gone, moved, p, node), i, names[..k]) != moved
    ensures Descend(fs, i, names) == Descend(Placed(fs, gone, moved, p, node), i, names)
    decreases |names|
  {
    if names != [] {
      var f := Placed(fs, gone, moved, p, node);
      var c := FindChild(f, i, names[0]);
      PlacedChild(fs, gone, moved, p, node, i, c);
      assert Descend(f, i, names[..1]) == c by {
        assert names[..1] == [names[0]];
        assert Descend(f, i, [names[0]]) == Descend(f, c, [names[0]][1..]);
      }
      assert NodeOk(fs, i);
      FoundChild(fs, i, names[0], c);
      forall k | 0 <= k <= |names[1..]| ensures Descend(f, c, names[1..][..k]) != moved {
        assert names[..k + 1][0] == names[0] && names[..k + 1][1..] == names[1..][..k];
      }
      PlaceAddsNoPaths(fs, gone, moved, p, node, c, names[1..]);
    }
  }

  /** No node is below its own child. */
  lemma ParentNotBelow(fs: seq<Node>, i: int)
    requires TreeOk(fs) && Live(fs, i) && i != ROOT
    ensures !Under(fs, i, fs[i].parent)
  {
    assert NodeOk(fs, i);
    if Under(fs, i, fs[i].parent) {
      var n: nat :| Up(fs, i, n) == ROOT;
      BelowStays(fs, i, i, n);
      UnderRoot(fs, i);
    }
  }

  lemma {:induction false} BelowStays(fs: seq<Node>, x: int, i: int, n: nat)
    requires InTable(fs, x) && x != ROOT && Under(fs, x, fs[x].parent) && (Under(fs, x, i) || i == x)
    ensures Under(fs, x, Up(fs, i, n))
    decreases n
  {
    if i == x { UnderSelf(fs, x); }
    if n > 0 && InTable(fs, i) && i != ROOT {
      if i != x { UnderParent(fs, x, i); }
      BelowStays(fs, x, fs[i].parent, n - 1);
    }
  }

  // --- Child order and dead nodes ----------------------------------------------------

  /** The same node but for the order of its children. */
  predicate SameNode(a: Node, b: Node) {
    a.(children := []) == b.(children := []) && multiset(a.children) == multiset(b.children)
  }

  predicate SameUpToOrder(fs: seq<Node>, f: seq<Node>) {
    |f| == |fs| && forall i | 0 <= i < |fs| :: SameNode(fs[i], f[i])
  }

  lemma SameMembers(s: seq<int>, t: seq<int>, c: int)
    requires multiset(s) == multiset(t)
    ensures c in s <==> c in t
  {
    assert c in s <==> c in multiset(s);
    assert c in t <==> c in multiset(t);
  }

  lemma {:induction false} DistinctCount(s: seq<int>)
    ensures Distinct(s) <==> forall c :: multiset(s)[c] <= 1
    decreases |s|
  {
    if s != [] {
      var rest := s[1..];
      assert s == [s[0]] + rest;
      DistinctCount(rest);
      if Distinct(s) {
        assert s[0] !in rest;
        assert Distinct(rest);
      } else if Distinct(rest) {
        var j, k :| 0 <= j < k < |s| && s[j] == s[k];
        assert j == 0 && s[k] in rest;
        assert multiset(s)[s[0]] == 1 + multiset(rest)[s[0]];
      } else {
        var c :| multiset(rest)[c] > 1;
        assert multiset(s)[c] > 1;
      }
    }
  }

  lemma DistinctKept(s: seq<int>, t: seq<int>)
    requires Distinct(s) && multiset(s) == multiset(t)
    ensures Distinct(t)
  {
    DistinctCount(s);
    DistinctCount(t);
  }

  lemma {:induction false} UpSame(fs: seq<Node>, f: seq<Node>, i: int, n: nat)
    requires |f| == |fs| && forall k | 0 <= k < |fs| :: f[k].parent == fs[k].parent
    ensures Up(f, i, n) == Up(fs, i, n)
    decreases n
  {
    if n > 0 && InTable(fs, i) && i != ROOT { UpSame(fs, f, fs[i].parent, n - 1); }
  }

  lemma ReorderedNode(fs: seq<Node>, f: seq<Node>, i: int)
    requires TreeOk(fs) && SameUpToOrder(fs, f) && Live(fs, i)
    ensures NodeOk(f, i)
  {
    assert NodeOk(fs, i) && SameNode(fs[i], f[i]);
    assert forall k | 0 <= k < |fs| :: SameNode(fs[k], f[k]) && f[k].parent == fs[k].parent;
    forall c ensures c in f[i].children <==> c in fs[i].children { SameMembers(fs[i].children, f[i].children, c); }
    DistinctKept(fs[i].children, f[i].children);
    if i != ROOT { SameMembers(fs[fs[i].parent].children, f[fs[i].parent].children, i); }
    var n: nat :| Up(fs, i, n) == ROOT;
    UpSame(fs, f, i, n);
  }

  /** The order of children does not matter. */
  lemma ReorderedTree(fs: seq<Node>, f: seq<Node>)
    requires TreeOk(fs) && SameUpToOrder(fs, f)
    ensures TreeOk(f) && LiveSet(f) == LiveSet(fs)
  {
    assert forall k | 0 <= k < |fs| :: SameNode(fs[k], f[k]) && f[k].live == fs[k].live;
    assert SameNode(fs[ROOT], f[ROOT]);
    forall i | Live(f, i) ensures NodeOk(f, i) {
      ReorderedNode(fs, f, i);
    }
  }

  lemma {:induction false} UpPastDead(fs: seq<Node>, x: int, node: Node, i: int, n: nat)
    requires TreeOk(fs) && InTable(fs, x) && !fs[x].live && Live(fs, i)
    ensures Up(fs[x := node], i, n) == Up(fs, i, n)
    decreases n
  {
    if n > 0 && i != ROOT {
      assert NodeOk(fs, i);
      UpPastDead(fs, x, node, fs[i].parent, n - 1);
    }
  }

  /** What a dead slot holds does not matter either. */
  lemma DeadSlot(fs: seq<Node>, x: int, node: Node)
    requires TreeOk(fs) && InTable(fs, x) && !fs[x].live && !node.live
    ensures TreeOk(fs[x := node]) && LiveSet(fs[x := node]) == LiveSet(fs)
  {
    var f := fs[x := node];
    forall i | Live(f, i) ensures NodeOk(f, i) {
      assert NodeOk(fs, i);
      assert KidsOk(f, i) && HasParent(f, i) && NamesUnique(f, i);
      var n: nat :| Up(fs, i, n) == ROOT;
      UpPastDead(fs, x, node, i, n);
    }
  }

  /** Two children of one name. */
  lemma ClashBreaks(fs: seq<Node>, gone: int, moved: int, p: int, node: Node, c: int)
    requires TreeOk(fs) && Live(fs, p) && p != gone && p != moved && InTable(fs, moved) && moved != gone
    requires c in fs[p].children && c != gone && c != moved && InTable(fs, c) && fs[c].name == node.name
    ensures !TreeOk(Placed(fs, gone, moved, p, node))
  {
    var f := Placed(fs, gone, moved, p, node);
    assert NodeOk(fs, p);
    assert c in Without(fs[p].children, gone);
    assert c in Without(Without(fs[p].children, gone), moved);
    assert c in f[p].children && f[p].children[|f[p].children| - 1] == moved;
    assert f[c].name == f[moved].name;
    assert !NodeOk(f, p);
  }
}
