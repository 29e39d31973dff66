/**
 The memfs code of kernel/fs/vfs.c as it runs: the file table changed in place, the loops over child
 lists and paths.  Every method is proved to compute the specified result.
 */
module MemDriver {
  import opened Options
  import opened MemTree
  import opened MemPaths
  import opened MemFs

  class FileTable {
    const max: nat
    var files: seq<Node>
    var numFiles: int

    ghost function Now(): State
      reads this
    {
      State(files, numFiles)
    }

    ghost predicate Valid()
      reads this
    {
      |files| == MAX_FILES
    }

    /** vfs_init, for directories of `max` children. */
    constructor (max: nat)
      ensures Valid() && this.max == max
      ensures TreeOk(files) && LiveSet(files) == {ROOT} && numFiles == 1
    {
      this.max := max;
      files := [Node("/", true, true, -1, [])] + seq(MAX_FILES - 1, _ => Node("", false, false, 0, []));
      numFiles := 1;
      new;
      UnderSelf(files, ROOT);
      assert NodeOk(files, ROOT);
    }

    /** memfs_find_child. */
    method LookupChild(d: int, name: string) returns (c: int)
      requires Valid()
      ensures c == FindChild(files, d, name)
    {
      if d < 0 || d >= MAX_FILES || !files[d].live { return -1; }
      var ch := files[d].children;
      var i := 0;
      while i < |ch|
        invariant 0 <= i <= |ch| && FindIn(files, ch, name) == FindIn(files, ch[i..], name)
      {
        var idx := ch[i];
        if 0 <= idx < MAX_FILES && files[idx].live && files[idx].name == name { return idx; }
        assert ch[i..][1..] == ch[i + 1..];
        i := i + 1;
      }
      c := -1;
    }

    /** memfs_add_child. */
    method AppendChild(d: int, c: int) returns (ok: bool)
      requires Valid()
      modifies this`files
      ensures Valid() && ok == AddChild(max, old(files), d, c).Some?
      ensures files == AddIfRoom(max, old(files), d, c)
    {
      if d < 0 || d >= MAX_FILES || !files[d].isDir { return false; }
      var ch := files[d].children;
      if |ch| >= max { return false; }
      var i := 0;
      while i < |ch|
        invariant 0 <= i <= |ch| && c !in ch[..i]
      {
        if ch[i] == c { return true; }
        i := i + 1;
      }
      assert ch[..|ch|] == ch;
      files := files[d := files[d].(children := ch + [c])];
      ok := true;
    }

    /** memfs_remove_child: later children are shifted down. */
    method DropChild(d: int, c: int)
      requires Valid()
      modifies this`files
      ensures Valid() && files == RemoveChild(old(files), d, c)
    {
      if d < 0 || d >= MAX_FILES || !files[d].isDir { return; }
      var ch := files[d].children;
      var i := 0;
      while i < |ch|
        invariant 0 <= i <= |ch| && c !in ch[..i] && files == old(files)
      {
        if ch[i] == c {
          WithoutAt(ch, i);
          var shifted := ShiftDown(ch, i);
          files := files[d := files[d].(children := shifted)];
          return;
        }
        i := i + 1;
      }
      assert ch[..i] == ch;
      assert files[d].(children := ch) == files[d];
    }

    /** The inner loop of memfs_remove_child. */
    method ShiftDown(was: seq<int>, i: nat) returns (ch: seq<int>)
      requires i < |was|
      ensures ch == was[..i] + was[i + 1..]
    {
      ch := was;
      var j := i;
      while j < |ch| - 1
        invariant i <= j <= |ch| - 1 && |ch| == |was|
        invariant forall k | i <= k < j :: ch[k] == was[k + 1]
        invariant forall k | 0 <= k < i :: ch[k] == was[k]
        invariant forall k | j <= k < |ch| :: ch[k] == was[k]
      {
        ch := ch[j := ch[j + 1]];
        j := j + 1;
      }
      ch := ch[..|ch| - 1];
    }

    /** memfs_resolve_path_raw. */
    method ResolvePath(path: string) returns (cur: int)
      requires Valid()
      ensures cur == Resolve(files, path)
    {
      if path == "" || path[0] != '/' { return -1; }
      cur := ROOT;
      var rest := path[1..];
      while rest != ""
        invariant InTable(files, cur)
        invariant Resolve(files, path) == Walk(files, cur, Components(rest))
        decreases |rest|
      {
        var len := ScanComponent(rest);
        var comp := rest[..len];
        WalkFront(files, cur, rest);
        rest := if len < |rest| && rest[len] == '/' then rest[len + 1..] else rest[len..];
        if len != 0 {
          var next := TakeStep(cur, comp);
          if next < 0 { return -1; }
          cur := next;
        }
      }
    }

    /** The inner loop of the resolver: the length of the component at the front. */
    method ScanComponent(s: string) returns (len: nat)
      ensures len == Span(s, MAX_NAME_LEN - 1)
    {
      len := 0;
      assert s[0..] == s;
      while len < |s| && s[len] != '/' && len < MAX_NAME_LEN - 1
        invariant len <= |s| && len <= MAX_NAME_LEN - 1
        invariant Span(s, MAX_NAME_LEN - 1) == len + Span(s[len..], MAX_NAME_LEN - 1 - len)
      {
        assert s[len..][1..] == s[len + 1..];
        len := len + 1;
      }
    }

    method TakeStep(cur: int, comp: string) returns (next: int)
      requires Valid() && InTable(files, cur)
      ensures next == Step(files, cur, comp)
    {
      if comp == "." { return cur; }
      if comp == ".." {
        next := cur;
        if cur != ROOT {
          var par := files[cur].parent;
          if par >= 0 && par < MAX_FILES && files[par].live { next := par; }
        }
        return;
      }
      next := LookupChild(cur, comp);
    }

    /** memfs_split_path. */
    method SplitPath(path: string) returns (r: Option<(int, string)>)
      requires Valid()
      ensures r == Split(files, path)
    {
      if path == "" || path[0] != '/' { return None; }
      var last := 0;
      var end := 1;
      while end < |path|
        invariant 0 <= last < end <= |path| && last == LastSlash(path[..end])
      {
        assert path[..end + 1][..end] == path[..end];
        if path[end] == '/' { last := end; }
        end := end + 1;
      }
      assert path[..end] == path;
      var base := path[last + 1..];
      if |base| == 0 { return None; }
      var parentPath := Cut(path[..if last == 0 then 1 else last], MAX_PATH_LEN);
      var parent := ResolvePath(parentPath);
      if parent < 0 { return None; }
      r := Some((parent, Cut(base, MAX_NAME_LEN)));
    }

    /** memfs_alloc_slot. */
    method AllocSlot() returns (slot: int)
      requires Valid()
      ensures slot == FreeSlot(files, 0)
    {
      slot := 0;
      while slot < MAX_FILES
        invariant 0 <= slot <= MAX_FILES && FreeSlot(files, 0) == FreeSlot(files, slot)
      {
        if !files[slot].live { return; }
        slot := slot + 1;
      }
      slot := -1;
    }

    /** vfs_open with O_CREAT (`isDir` false) and vfs_mkdir. */
    method MakeNode(path: string, isDir: bool) returns (r: int)
      requires Valid()
      modifies this
      ensures Valid() && (Now(), r) == Make(max, old(Now()), path, isDir)
    {
      var idx := ResolvePath(path);
      if idx >= 0 { return if isDir then -1 else idx + 3; }
      var split := SplitPath(path);
      if split.None? { return -1; }
      var (parent, base) := split.value;
      if isDir && !files[parent].isDir { return -1; }
      var slot := AllocSlot();
      if slot < 0 { return -1; }
      Install(slot, parent, base, isDir);
      r := if isDir then 0 else slot + 3;
    }

    /** Fill a free slot and list it in its parent; a failure to list it is ignored. */
    method Install(slot: int, parent: int, base: string, isDir: bool)
      requires Valid() && InTable(files, slot)
      modifies this
      ensures Valid() && files == Attached(max, old(files), slot, parent, base, isDir)
      ensures numFiles == old(numFiles) + 1
    {
      files := files[slot := Node(base, true, isDir, parent, [])];
      var _ := AppendChild(parent, slot);
      numFiles := numFiles + 1;
    }

    /** vfs_unlink (`rmdir` false) and vfs_rmdir. */
    method RemoveNode(path: string, rmdir: bool) returns (r: int)
      requires Valid()
      modifies this
      ensures Valid() && (Now(), r) == Remove(old(Now()), path, rmdir)
    {
      var idx := ResolvePath(path);
      if idx < 0 || idx == ROOT { return -1; }
      if rmdir && !files[idx].isDir { return -1; }
      if files[idx].isDir && |files[idx].children| > 0 { return -1; }
      Free(idx);
      r := 0;
    }

    /** Detach a node from its parent's list and free its slot. */
    method Free(idx: int)
      requires Valid() && InTable(files, idx)
      modifies this
      ensures Valid() && files == Detached(old(files), idx) && numFiles == old(numFiles) - 1
    {
      DropChild(files[idx].parent, idx);
      files := files[idx := files[idx].(live := false, children := [])];
      numFiles := numFiles - 1;
    }

    /** vfs_rename within memfs. */
    method RenameNode(from: string, to: string) returns (r: int)
      requires Valid()
      modifies this
      ensures Valid() && (Now(), r) == Rename(max, old(Now()), from, to)
    {
      if from == "" || to == "" || from[0] != '/' || to[0] != '/' { return -1; }
      if from == to { return 0; }
      var src := ResolvePath(from);
      if src < 0 || src == ROOT { return -1; }
      var split := SplitPath(to);
      if split.None? { return -1; }
      var (parent, base) := split.value;
      if !files[parent].isDir { return -1; }
      var dst := ResolvePath(to);
      if dst >= 0 {
        if dst == ROOT { return -1; }
        if files[src].isDir && !files[dst].isDir { return -1; }
        if files[src].isDir && files[dst].isDir && |files[dst].children| > 0 { return -1; }
      }
      r := Reparent(src, dst, parent, base);
    }

    /** The part of vfs_rename that changes the table, with its rollback. */
    method Reparent(src: int, dst: int, parent: int, base: string) returns (r: int)
      requires Valid() && InTable(files, src) && (dst >= 0 ==> InTable(files, dst))
      modifies this
      ensures Valid() && (Now(), r) == MoveNode(max, old(Now()), src, dst, parent, base)
    {
      var savedDst := if dst >= 0 then files[dst] else files[src];
      var savedName, savedParent := files[src].name, files[src].parent;
      if dst >= 0 { Free(dst); }
      assert files[src].name == savedName && files[src].parent == savedParent;
      DropChild(files[src].parent, src);
      files := files[src := files[src].(name := base, parent := parent)];
      assert files == Lifted(old(files), src, dst, parent, base);
      var ok := AppendChild(parent, src);
      if ok { return 0; }
      files := files[src := files[src].(name := savedName, parent := savedParent)];
      var _ := AppendChild(savedParent, src);
      if dst >= 0 {
        files := files[dst := savedDst];
        var _ := AppendChild(savedDst.parent, dst);
        numFiles := numFiles + 1;
      }
      r := -1;
    }
  }
}
