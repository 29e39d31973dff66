/**
 Path resolution of memfs (kernel/fs/vfs.c): the components a path is cut into, the walk along
 them, and the split into parent directory and basename.  Resolving a path is looking its basename
 up in the parent, except for long or dotted basenames.
 */
module MemPaths {
  import opened Options
  import opened MemTree

  const MAX_NAME_LEN := 64
  const MAX_PATH_LEN := 256

  /** The length of the component at the front: up to a slash, and at most `limit` characters. */
  function Span(s: string, limit: nat): (n: nat)
    ensures n <= |s| && n <= limit
    ensures forall k | 0 <= k < n :: s[k] != '/'
    ensures n < |s| && n < limit ==> s[n] == '/'
    decreases limit
  {
    if s == "" || limit == 0 || s[0] == '/' then 0 else 1 + Span(s[1..], limit - 1)
  }

  /** What follows the component and the slash after it. */
  function Rest(s: string): (r: string)
    ensures s != "" ==> |r| < |s|
  {
    var n := Span(s, MAX_NAME_LEN - 1);
    if n < |s| && s[n] == '/' then s[n + 1..] else s[n..]
  }

  /** The components of a path after its first slash; a long one is cut into several. */
  function Components(s: string): (cs: seq<string>) {
    if s == "" then [] else
      var n := Span(s, MAX_NAME_LEN - 1);
      (if n == 0 then [] else [s[..n]]) + Components(Rest(s))
  }

  function Step(fs: seq<Node>, cur: int, comp: string): (r: int)
    requires InTable(fs, cur)
    ensures r == -1 || InTable(fs, r)
  {
    if comp == "." then cur
    else if comp == ".." then
      if cur != ROOT && Live(fs, fs[cur].parent) then fs[cur].parent else cur
    else FindChild(fs, cur, comp)
  }

  function Walk(fs: seq<Node>, cur: int, comps: seq<string>): (r: int)
    requires InTable(fs, cur)
    ensures r == -1 || InTable(fs, r)
    decreases |comps|
  {
    if comps == [] then cur else
      var next := Step(fs, cur, comps[0]);
      if next < 0 then -1 else Walk(fs, next, comps[1..])
  }

  /** memfs_resolve_path_raw. */
  function Resolve(fs: seq<Node>, path: string): (r: int)
    requires |fs| > 0
    ensures r == -1 || InTable(fs, r)
  {
    if path == "" || path[0] != '/' then -1 else Walk(fs, ROOT, Components(path[1..]))
  }

  function LastSlash(path: string): (k: nat)
    requires path != "" && path[0] == '/'
    ensures k < |path| && path[k] == '/' && forall j | k < j < |path| :: path[j] != '/'
  {
    if path[|path| - 1] == '/' then |path| - 1 else LastSlash(path[..|path| - 1])
  }

  function Cut(s: string, limit: nat): string
    requires limit > 0
  {
    if |s| >= limit then s[..limit - 1] else s
  }

  function ParentPath(path: string): (r: string)
    requires path != "" && path[0] == '/'
    ensures r != "" && r[0] == '/'
  {
    var k := LastSlash(path);
    Cut(path[..if k == 0 then 1 else k], MAX_PATH_LEN)
  }

  function Basename(path: string): string
    requires path != "" && path[0] == '/'
  {
    path[LastSlash(path) + 1..]
  }

  /** memfs_split_path: the parent directory and the basename, cut to what fits. */
  function Split(fs: seq<Node>, path: string): (r: Option<(int, string)>)
    requires |fs| > 0
    ensures r.Some? ==> InTable(fs, r.value.0)
  {
    if path == "" || path[0] != '/' || Basename(path) == "" then None else
      var parent := Resolve(fs, ParentPath(path));
      if parent < 0 then None else Some((parent, Cut(Basename(path), MAX_NAME_LEN)))
  }

  /** A path whose basename fits and is not a dotted name, and whose parent path fits. */
  predicate Plain(path: string) {
    && path != "" && path[0] == '/'
    && LastSlash(path) < MAX_PATH_LEN
    && 0 < |Basename(path)| < MAX_NAME_LEN && Basename(path) != "." && Basename(path) != ".."
  }

  lemma {:induction false} SpanPrefix(a: string, b: string, limit: nat)
    ensures Span(a + "/" + b, limit) == Span(a, limit)
    decreases limit
  {
    if a != "" {
      assert (a + "/" + b)[1..] == a[1..] + "/" + b;
      if limit > 0 { SpanPrefix(a[1..], b, limit - 1); }
    }
  }

  lemma RestJoin(a: string, b: string)
    ensures var n := Span(a, MAX_NAME_LEN - 1);
            && Span(a + "/" + b, MAX_NAME_LEN - 1) == n && (a + "/" + b)[..n] == a[..n]
            && Rest(a + "/" + b) == if n == |a| then b else Rest(a) + "/" + b
  {
    SpanPrefix(a, b, MAX_NAME_LEN - 1);
  }

  /** A slash always ends a component. */
  lemma {:induction false} ComponentsJoin(a: string, b: string)
    ensures Components(a + "/" + b) == Components(a) + Components(b)
    decreases |a|
  {
    var (s, n) := (a + "/" + b, Span(a, MAX_NAME_LEN - 1));
    var head := if n == 0 then [] else [a[..n]];
    RestJoin(a, b);
    assert Components(s) == head + Components(Rest(s));
    if n == |a| {
      WholeComponent(a);
      assert head == Components(a) && Rest(s) == b;
    } else {
      assert Components(a) == head + Components(Rest(a));
      ComponentsJoin(Rest(a), b);
      Append(head, Components(Rest(a)), Components(b));
    }
  }

  lemma Append(a: seq<string>, b: seq<string>, c: seq<string>)
    ensures a + (b + c) == a + b + c
  {
  }

  lemma WholeComponent(a: string)
    requires Span(a, MAX_NAME_LEN - 1) == |a|
    ensures Components(a) == if a == "" then [] else [a]
  {
    assert Rest(a) == "" && a[..|a|] == a;
    assert Components("") == [];
  }

  lemma SpanAll(s: string, limit: nat)
    requires |s| <= limit && forall k | 0 <= k < |s| :: s[k] != '/'
    ensures Span(s, limit) == |s|
  {
  }

  lemma SingleComponent(s: string)
    requires 0 < |s| < MAX_NAME_LEN && forall k | 0 <= k < |s| :: s[k] != '/'
    ensures Components(s) == [s]
  {
    SpanAll(s, MAX_NAME_LEN - 1);
    WholeComponent(s);
  }

  lemma {:induction false} WalkSplit(fs: seq<Node>, cur: int, a: seq<string>, last: string)
    requires InTable(fs, cur)
    ensures var p := Walk(fs, cur, a); Walk(fs, cur, a + [last]) == if p < 0 then -1 else Step(fs, p, last)
    decreases |a|
  {
    if a == [] {
      assert a + [last] == [last];
    } else {
      assert (a + [last])[0] == a[0] && (a + [last])[1..] == a[1..] + [last];
      var next := Step(fs, cur, a[0]);
      if next >= 0 { WalkSplit(fs, next, a[1..], last); }
    }
  }

  /** One round of the resolver's loop. */
  lemma WalkFront(fs: seq<Node>, cur: int, s: string)
    requires InTable(fs, cur) && s != ""
    ensures var n := Span(s, MAX_NAME_LEN - 1);
            Walk(fs, cur, Components(s)) ==
            if n == 0 then Walk(fs, cur, Components(Rest(s))) else
              var next := Step(fs, cur, s[..n]);
              if next < 0 then -1 else Walk(fs, next, Components(Rest(s)))
  {
    var n := Span(s, MAX_NAME_LEN - 1);
    var later := Components(Rest(s));
    if n == 0 {
      assert Components(s) == [] + later == later;
    } else {
      assert Components(s) == [s[..n]] + later;
      assert ([s[..n]] + later)[0] == s[..n] && ([s[..n]] + later)[1..] == later;
    }
  }

  /** The components of a plain path are those of its parent path and the basename. */
  lemma PlainComponents(path: string)
    requires Plain(path)
    ensures Components(path[1..]) == Components(ParentPath(path)[1..]) + [Basename(path)]
  {
    var k := LastSlash(path);
    var base := Basename(path);
    SingleComponent(base);
    if k == 0 {
      assert ParentPath(path)[1..] == "" && path[1..] == base;
      assert Components("") == [];
    } else {
      assert ParentPath(path) == path[..k];
      assert path[..k][1..] == path[1..k];
      assert path[1..] == path[1..k] + "/" + base;
      ComponentsJoin(path[1..k], base);
    }
  }

  /** Resolving a plain path is splitting it and looking the basename up in the parent. */
  lemma ResolveIsLookup(fs: seq<Node>, path: string)
    requires |fs| > 0 && Plain(path)
    ensures match Split(fs, path)
            case None => Resolve(fs, path) == -1
            case Some((parent, base)) => base == Basename(path) && Resolve(fs, path) == FindChild(fs, parent, base)
  {
    PlainComponents(path);
    WalkSplit(fs, ROOT, Components(ParentPath(path)[1..]), Basename(path));
  }

  /** A basename of MAX_NAME_LEN or more characters is stored cut, and never found again under
      the path that created it. */
  lemma LongNameWitness(fs: seq<Node>)
    requires |fs| > 0 && TreeOk(fs)
    ensures var name := seq(MAX_NAME_LEN, _ => 'a'); var path := "/" + name;
            && Split(fs, path) == Some((ROOT, name[..MAX_NAME_LEN - 1]))
            && Components(path[1..]) == [name[..MAX_NAME_LEN - 1], "a"]
  {
    var name := seq(MAX_NAME_LEN, _ => 'a');
    var path := "/" + name;
    assert path[0] == '/' && LastSlash(path) == 0;
    assert Basename(path) == name && path[1..] == name;
    assert ParentPath(path) == "/";
    assert Components("") == [];
    LongSpan(name, MAX_NAME_LEN - 1);
    assert Rest(name) == "a";
    SingleComponent("a");
  }

  lemma LongSpan(s: string, limit: nat)
    requires |s| > limit && forall k | 0 <= k < |s| :: s[k] != '/'
    ensures Span(s, limit) == limit
  {
  }

  /** A path without dotted components. */
  ghost predicate Undotted(comps: seq<string>) { forall k | 0 <= k < |comps| :: comps[k] != "." && comps[k] != ".." }

  lemma {:induction false} WalkIsDescend(fs: seq<Node>, cur: int, comps: seq<string>)
    requires InTable(fs, cur) && Undotted(comps)
    ensures Walk(fs, cur, comps) == Descend(fs, cur, comps)
    decreases |comps|
  {
    if comps != [] {
      var next := Step(fs, cur, comps[0]);
      if next >= 0 { WalkIsDescend(fs, next, comps[1..]); }
    }
  }
}
