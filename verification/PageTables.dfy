/**
 Four-level x86-64 page tables, as kernel/exec/elf.c builds and edits them, and the
 hardware walk that gives them meaning (Intel SDM Vol. 3A, section 4.5).

 Physical memory is a map from frame numbers to 512-entry tables.  A 64-bit entry is
 kept decoded: a frame number (bits 51:12) and the set of its flag bits.  `PteBits`
 ties the decoded form to the masks and shifts on 64-bit words.
 */
module PageTables {
  import opened Options

  datatype Flag =
    | Present | Writable | User | WriteThrough | NoCache | Accessed | Dirty
    | Huge | Global | Cow | Spare(bit: nat) | NoExecute

  datatype Entry = Entry(frame: nat, flags: set<Flag>)

  const ABSENT := Entry(0, {})

  type Table = t: seq<Entry> | |t| == 512 witness seq(512, _ => ABSENT)

  const ZERO_TABLE: Table := seq(512, _ => ABSENT)

  type Frames = map<nat, Table>

  /** A virtual page: its PML4, PDPT, PD and PT index. */
  type Page = p: seq<nat> | |p| == 4 && forall k :: 0 <= k < 4 ==> p[k] < 512 witness [0, 0, 0, 0]

  /** What the walk has accumulated from the entries passed so far. */
  datatype Rights = Rights(user: bool, writable: bool, noExecute: bool)

  datatype Translation = Fault | Maps(frame: nat, rights: Rights)

  const ALL_RIGHTS := Rights(true, true, false)

  function Meet(acc: Rights, e: Entry): Rights {
    Rights(acc.user && User in e.flags, acc.writable && Writable in e.flags, acc.noExecute || NoExecute in e.flags)
  }

  /** Does the entry lead to a next-level table?  The PML4 has no huge pages. */
  predicate IsTable(depth: nat, e: Entry) {
    Present in e.flags && (depth == 0 || Huge !in e.flags)
  }

  /** First frame of the 2 MB (depth 2) or 1 GB (depth 1) page that a huge entry maps. */
  function HugeFrame(depth: nat, e: Entry, page: Page): nat {
    if depth == 2 then e.frame - e.frame % 512 + page[3]
    else e.frame - e.frame % 262144 + page[2] * 512 + page[3]
  }

  /** The hardware page walk from table `f` at the given depth (0 is the PML4). */
  function Walk(m: Frames, f: nat, page: Page, depth: nat, acc: Rights): Translation
    requires depth <= 3
    decreases 4 - depth
  {
    if f !in m then Fault else
    var e := m[f][page[depth]];
    if Present !in e.flags then Fault
    else if depth == 3 then Maps(e.frame, Meet(acc, e))
    else if !IsTable(depth, e) then Maps(HugeFrame(depth, e, page), Meet(acc, e))
    else Walk(m, e.frame, page, depth + 1, Meet(acc, e))
  }

  function Translate(m: Frames, root: nat, page: Page): Translation {
    Walk(m, root, page, 0, ALL_RIGHTS)
  }

  /** The two memories give every page of the tree the same translation and rights. */
  ghost predicate SameTranslations(m: Frames, m': Frames, root: nat) {
    forall q: Page :: Translate(m', root, q) == Translate(m, root, q)
  }

  // ----- Ownership: which table frame plays which part in which tree ------------------

  /** Frame with this role is the table reached from `root` along `path`, linked from `parent`. */
  datatype Role = Role(root: nat, path: seq<nat>, parent: nat)

  type Roles = map<nat, Role>

  predicate InTree(roles: Roles, root: nat, f: nat) {
    f in roles && roles[f].root == root
  }

  /** No present entry of the table is marked user. */
  predicate NoUser(t: Table) {
    forall j :: 0 <= j < 512 && Present in t[j].flags ==> User !in t[j].flags
  }

  /** Entry `i` of table `f` links only to a frame whose role says so, hides no user page
      below a supervisor link, and is not itself a user or misaligned 2 MB page. */
  ghost predicate EntryOk(m: Frames, roles: Roles, root: nat, f: nat, i: nat)
    requires InTree(roles, root, f) && f in m && i < 512
  {
    var depth := |roles[f].path|;
    var e := m[f][i];
    && (depth < 3 && IsTable(depth, e) ==>
          && e.frame in m
          && e.frame in roles && roles[e.frame] == Role(root, roles[f].path + [i], f)
          && (User !in e.flags ==> NoUser(m[e.frame])))
    && (depth == 2 && Huge in e.flags ==> User !in e.flags && (Present in e.flags ==> e.frame % 512 == 0))
  }

  /** The tree at `root` shares no table frame, inside itself or with another tree. */
  ghost predicate PrivateTree(m: Frames, roles: Roles, root: nat) {
    && root in roles && roles[root] == Role(root, [], 0)
    && (forall f :: InTree(roles, root, f) ==> f in m && f != 0 && |roles[f].path| <= 3)
    && (forall f {:trigger roles[f].parent} :: InTree(roles, root, f) && roles[f].path != [] ==>
          InTree(roles, root, roles[f].parent) && |roles[roles[f].parent].path| + 1 == |roles[f].path|)
    && (forall f, i | InTree(roles, root, f) && 0 <= i < 512 :: EntryOk(m, roles, root, f, i))
  }

  /** Memory `m'` differs from `m` inside the tree at most in entry `i` of table `f`. */
  ghost predicate OnlyEntry(m: Frames, m': Frames, roles: Roles, root: nat, f: nat, i: nat) {
    forall h :: InTree(roles, root, h) ==>
      && h in m && h in m'
      && forall k :: 0 <= k < 512 && !(h == f && k == i) ==> m'[h][k] == m[h][k]
  }

  /** A page whose walk does not read the changed entry translates as before. */
  lemma {:induction false} WalkElsewhere(m: Frames, m': Frames, roles: Roles, root: nat, f: nat, i: nat,
                      page: Page, g: nat, depth: nat, acc: Rights)
    requires PrivateTree(m, roles, root) && InTree(roles, root, f)
    requires OnlyEntry(m, m', roles, root, f, i)
    requires depth <= 3 && InTree(roles, root, g) && roles[g].path == page[..depth]
    requires page[..|roles[f].path|] == roles[f].path ==> page[|roles[f].path|] != i
    ensures Walk(m', g, page, depth, acc) == Walk(m, g, page, depth, acc)
    decreases 4 - depth
  {
    var e := m[g][page[depth]];
    assert EntryOk(m, roles, root, g, page[depth]);
    assert m'[g][page[depth]] == e;
    if depth < 3 && IsTable(depth, e) {
      assert page[..depth] + [page[depth]] == page[..depth + 1];
      WalkElsewhere(m, m', roles, root, f, i, page, e.frame, depth + 1, Meet(acc, e));
    }
  }

  /** If the changed table gives the page the same meaning, so does every table above it. */
  lemma {:induction false} WalkThrough(m: Frames, m': Frames, roles: Roles, root: nat, f: nat, i: nat,
                    page: Page, g: nat, depth: nat, acc: Rights)
    requires PrivateTree(m, roles, root) && InTree(roles, root, f)
    requires OnlyEntry(m, m', roles, root, f, i)
    requires depth <= |roles[f].path| && InTree(roles, root, g) && roles[g].path == page[..depth]
    requires page[..|roles[f].path|] == roles[f].path
    requires forall a: Rights :: Walk(m', f, page, |roles[f].path|, a) == Walk(m, f, page, |roles[f].path|, a)
    ensures Walk(m', g, page, depth, acc) == Walk(m, g, page, depth, acc)
    decreases 4 - depth
  {
    var e := m[g][page[depth]];
    assert EntryOk(m, roles, root, g, page[depth]);
    if depth == |roles[f].path| {
      if g != f {
        // Same depth, different table: the walk never meets the changed one.
        SiblingUnchanged(m, m', roles, root, f, i, page, g, depth, acc);
      }
    } else if IsTable(depth, e) {
      assert page[..depth] + [page[depth]] == page[..depth + 1];
      assert g != f;
      WalkThrough(m, m', roles, root, f, i, page, e.frame, depth + 1, Meet(acc, e));
    }
  }

  lemma {:induction false} SiblingUnchanged(m: Frames, m': Frames, roles: Roles, root: nat, f: nat, i: nat,
                         page: Page, g: nat, depth: nat, acc: Rights)
    requires PrivateTree(m, roles, root) && InTree(roles, root, f)
    requires OnlyEntry(m, m', roles, root, f, i)
    requires |roles[f].path| <= depth <= 3 && InTree(roles, root, g) && roles[g].path == page[..depth] && g != f
    ensures Walk(m', g, page, depth, acc) == Walk(m, g, page, depth, acc)
    decreases 4 - depth
  {
    var e := m[g][page[depth]];
    assert EntryOk(m, roles, root, g, page[depth]);
    if depth < 3 && IsTable(depth, e) {
      assert page[..depth] + [page[depth]] == page[..depth + 1];
      SiblingUnchanged(m, m', roles, root, f, i, page, e.frame, depth + 1, Meet(acc, e));
    }
  }

  /** An edit of one entry that every walk from its own table tolerates changes no translation. */
  lemma EditKeepsTranslations(m: Frames, m': Frames, roles: Roles, root: nat, f: nat, i: nat)
    requires PrivateTree(m, roles, root) && InTree(roles, root, f)
    requires OnlyEntry(m, m', roles, root, f, i)
    requires forall q: Page, a: Rights | q[..|roles[f].path|] == roles[f].path && q[|roles[f].path|] == i ::
               Walk(m', f, q, |roles[f].path|, a) == Walk(m, f, q, |roles[f].path|, a)
    ensures SameTranslations(m, m', root)
  {
    forall q: Page ensures Translate(m', root, q) == Translate(m, root, q) {
      var d := |roles[f].path|;
      assert q[..0] == [];
      if q[..d] == roles[f].path && q[d] == i {
        WalkThrough(m, m', roles, root, f, i, q, root, 0, ALL_RIGHTS);
      } else {
        WalkElsewhere(m, m', roles, root, f, i, q, root, 0, ALL_RIGHTS);
      }
    }
  }

  // ----- The four elementary edits of user_map_page -----------------------------------

  /** The entry that links table `f` into its tree is user-traversable. */
  ghost predicate LinkIsUser(m: Frames, roles: Roles, f: nat) {
    f in roles && (|roles[f].path| > 0 ==>
      var i := roles[f].path[|roles[f].path| - 1];
      roles[f].parent in m && i < 512 && User in m[roles[f].parent][i].flags)
  }

  function SetEntry(m: Frames, f: nat, i: nat, e: Entry): Frames
    requires f in m && i < 512
  {
    m[f := m[f][i := e]]
  }

  /** A tree that gains the table `g` under an entry that was no link is still a tree, if the new
      entries are in order. */
  lemma TableHung(m: Frames, m': Frames, roles: Roles, roles': Roles, root: nat, f: nat, i: nat, g: nat,
                  t: Table, e: Entry)
    requires PrivateTree(m, roles, root) && InTree(roles, root, f) && |roles[f].path| < 3 && i < 512
    requires g != 0 && g !in roles && m' == SetEntry(m[g := t], f, i, e)
    requires roles' == roles[g := Role(root, roles[f].path + [i], f)]
    requires !IsTable(|roles[f].path|, m[f][i]) && EntryOk(m', roles', root, f, i)
    requires User in e.flags ==> LinkIsUser(m, roles, f)
    requires forall k | 0 <= k < 512 :: EntryOk(m', roles', root, g, k)
    ensures PrivateTree(m', roles', root)
  {
    forall h, k | InTree(roles', root, h) && 0 <= k < 512
      ensures h in m' && EntryOk(m', roles', root, h, k)
    {
      if h != g { assert EntryOk(m, roles, root, h, k); }
    }
  }

  /** Hang a fresh zeroed table under an absent entry. */
  lemma AttachTable(m: Frames, roles: Roles, root: nat, f: nat, i: nat, g: nat, flags: set<Flag>)
    returns (m': Frames, roles': Roles)
    requires PrivateTree(m, roles, root) && InTree(roles, root, f) && |roles[f].path| < 3
    requires i < 512 && Present !in m[f][i].flags
    requires g != 0 && g !in roles && Huge !in flags && (User in flags ==> LinkIsUser(m, roles, f))
    ensures m' == SetEntry(m[g := ZERO_TABLE], f, i, Entry(g, flags + {Present}))
    ensures roles' == roles[g := Role(root, roles[f].path + [i], f)]
    ensures PrivateTree(m', roles', root) && SameTranslations(m, m', root)
  {
    m' := SetEntry(m[g := ZERO_TABLE], f, i, Entry(g, flags + {Present}));
    roles' := roles[g := Role(root, roles[f].path + [i], f)];
    assert EntryOk(m, roles, root, f, i);
    TableHung(m, m', roles, roles', root, f, i, g, ZERO_TABLE, m'[f][i]);
    EditKeepsTranslations(m, m', roles, root, f, i);
  }

  /** Below a supervisor link there is no user entry, so marking the link exposes nothing. */
  lemma MarkedLinkWalk(m: Frames, m': Frames, roles: Roles, root: nat, f: nat, i: nat, q: Page, a: Rights)
    requires PrivateTree(m, roles, root) && InTree(roles, root, f) && |roles[f].path| < 3
    requires i < 512 && IsTable(|roles[f].path|, m[f][i]) && User !in m[f][i].flags
    requires m' == SetEntry(m, f, i, m[f][i].(flags := m[f][i].flags + {User}))
    requires q[..|roles[f].path|] == roles[f].path && q[|roles[f].path|] == i
    ensures Walk(m', f, q, |roles[f].path|, a) == Walk(m, f, q, |roles[f].path|, a)
  {
    var d := |roles[f].path|;
    var c := m[f][i].frame;
    assert EntryOk(m, roles, root, f, i);
    var e := m[c][q[d + 1]];
    if Present in e.flags {
      var r := Meet(Meet(a, m[f][i]), e);
      assert Meet(Meet(a, m'[f][i]), e) == r;
      if d + 1 < 3 && IsTable(d + 1, e) {
        assert EntryOk(m, roles, root, c, q[d + 1]);
        assert roles[f].path + [i] + [q[d + 1]] == q[..d + 2];
        SiblingUnchanged(m, m', roles, root, f, i, q, e.frame, d + 2, r);
      }
    }
  }

  /** Make a link user-traversable (the |= PAGE_USER on intermediate entries). */
  lemma MarkLinkUser(m: Frames, roles: Roles, root: nat, f: nat, i: nat) returns (m': Frames)
    requires PrivateTree(m, roles, root) && InTree(roles, root, f) && |roles[f].path| < 3
    requires i < 512 && IsTable(|roles[f].path|, m[f][i]) && LinkIsUser(m, roles, f)
    ensures m' == SetEntry(m, f, i, m[f][i].(flags := m[f][i].flags + {User}))
    ensures PrivateTree(m', roles, root) && SameTranslations(m, m', root)
  {
    m' := SetEntry(m, f, i, m[f][i].(flags := m[f][i].flags + {User}));
    if User in m[f][i].flags {
      assert m[f][i].flags + {User} == m[f][i].flags;
      assert m[f][i := m[f][i]] == m[f];
      assert m' == m;
    } else {
      forall h, k | InTree(roles, root, h) && 0 <= k < 512
        ensures h in m' && EntryOk(m', roles, root, h, k)
      {
        assert EntryOk(m, roles, root, h, k);
      }
      forall q: Page, a: Rights | q[..|roles[f].path|] == roles[f].path && q[|roles[f].path|] == i
        ensures Walk(m', f, q, |roles[f].path|, a) == Walk(m, f, q, |roles[f].path|, a)
      {
        MarkedLinkWalk(m, m', roles, root, f, i, q, a);
      }
      EditKeepsTranslations(m, m', roles, root, f, i);
    }
  }

  /** The page table that split_2mb_huge_page fills from a 2 MB entry. */
  function SplitTable(e: Entry): Table {
    seq(512, (k: nat) => Entry(e.frame + k, e.flags - {Huge, User}))
  }

  /** Replace a 2 MB page by a table of 512 small pages: no translation changes. */
  lemma SplitHugePage(m: Frames, roles: Roles, root: nat, f: nat, i: nat, g: nat)
    returns (m': Frames, roles': Roles)
    requires PrivateTree(m, roles, root) && InTree(roles, root, f) && |roles[f].path| == 2
    requires i < 512 && Huge in m[f][i].flags
    requires g != 0 && g !in roles
    ensures m' == SetEntry(m[g := SplitTable(m[f][i])], f, i, Entry(g, m[f][i].flags - {Huge} + {Present}))
    ensures roles' == roles[g := Role(root, roles[f].path + [i], f)]
    ensures PrivateTree(m', roles', root) && SameTranslations(m, m', root)
  {
    var before := m[f][i];
    m' := SetEntry(m[g := SplitTable(before)], f, i, Entry(g, before.flags - {Huge} + {Present}));
    roles' := roles[g := Role(root, roles[f].path + [i], f)];
    assert EntryOk(m, roles, root, f, i);
    TableHung(m, m', roles, roles', root, f, i, g, SplitTable(before), m'[f][i]);
    forall q: Page, a: Rights | q[..2] == roles[f].path && q[2] == i
      ensures Walk(m', f, q, 2, a) == Walk(m, f, q, 2, a)
    {
      assert m'[g][q[3]] == Entry(before.frame + q[3], before.flags - {Huge, User});
    }
    EditKeepsTranslations(m, m', roles, root, f, i);
  }

  /** Install a 4 KB page: only the page at that path changes its translation. */
  lemma InstallLeaf(m: Frames, roles: Roles, root: nat, f: nat, i: nat, e: Entry) returns (m': Frames)
    requires PrivateTree(m, roles, root) && InTree(roles, root, f) && |roles[f].path| == 3
    requires i < 512 && (User in e.flags ==> LinkIsUser(m, roles, f))
    ensures m' == SetEntry(m, f, i, e)
    ensures PrivateTree(m', roles, root)
    ensures forall q: Page | q != roles[f].path + [i] :: Translate(m', root, q) == Translate(m, root, q)
  {
    m' := SetEntry(m, f, i, e);
    forall h, k | InTree(roles, root, h) && 0 <= k < 512
      ensures h in m' && EntryOk(m', roles, root, h, k)
    {
      assert EntryOk(m, roles, root, h, k);
    }
    forall q: Page | q != roles[f].path + [i] ensures Translate(m', root, q) == Translate(m, root, q) {
      assert q[..0] == [];
      assert q == q[..3] + [q[3]];
      WalkElsewhere(m, m', roles, root, f, i, q, root, 0, ALL_RIGHTS);
    }
  }

  // ----- user_map_page ------------------------------------------------------------------

  /** Rights that the entries already on the page's path grant, above the leaf level. */
  function TableRights(m: Frames, f: nat, page: Page, depth: nat, acc: Rights): Rights
    requires depth <= 3
    decreases 4 - depth
  {
    if depth == 3 || f !in m then acc else
    var e := m[f][page[depth]];
    if depth == 2 && Huge in e.flags then Meet(acc, e)
    else if !IsTable(depth, e) then acc
    else TableRights(m, e.frame, page, depth + 1, Meet(acc, e))
  }

  /** A 1 GB page covers the address. */
  predicate GigabytePage(m: Frames, root: nat, page: Page) {
    root in m && Present in m[root][page[0]].flags &&
    var pdpt := m[root][page[0]].frame;
    pdpt in m && Present in m[pdpt][page[1]].flags && Huge in m[pdpt][page[1]].flags
  }

  predicate IsGigabyte(e: Entry) { Present in e.flags && Huge in e.flags }

  /** A link written into the PML4, kept or to a zeroed PDPT, makes no 1 GB page and hides none. */
  lemma GigabytesLinked(m: Frames, m': Frames, roles: Roles, root: nat, i: nat)
    requires PrivateTree(m, roles, root) && root in m' && i < 512
    requires forall h | InTree(roles, root, h) && h != root :: h in m' && m'[h] == m[h]
    requires forall k | 0 <= k < 512 && k != i :: m'[root][k] == m[root][k]
    requires Present in m'[root][i].flags &&
             if Present in m[root][i].flags then m'[root][i].frame == m[root][i].frame
             else m'[root][i].frame in m' && m'[m'[root][i].frame] == ZERO_TABLE
    ensures forall q: Page :: GigabytePage(m', root, q) == GigabytePage(m, root, q)
  {
    forall q: Page ensures GigabytePage(m', root, q) == GigabytePage(m, root, q) {
      assert EntryOk(m, roles, root, root, q[0]);
    }
  }

  /** Neither does an edit of one PDPT entry that is and stays a 1 GB page, or is and stays none. */
  lemma GigabytesKept(m: Frames, m': Frames, roles: Roles, root: nat, pdpt: nat, j: nat)
    requires PrivateTree(m, roles, root) && InTree(roles, root, pdpt) && |roles[pdpt].path| == 1 && j < 512
    requires forall h | InTree(roles, root, h) && |roles[h].path| < 2 :: h in m' && (h != pdpt ==> m'[h] == m[h])
    requires forall k | 0 <= k < 512 && k != j :: m'[pdpt][k] == m[pdpt][k]
    requires IsGigabyte(m'[pdpt][j]) == IsGigabyte(m[pdpt][j])
    ensures forall q: Page :: GigabytePage(m', root, q) == GigabytePage(m, root, q)
  {
    forall q: Page ensures GigabytePage(m', root, q) == GigabytePage(m, root, q) {
      assert EntryOk(m, roles, root, root, q[0]);
    }
  }

  /** The mapping that a leaf with these flags yields below tables granting `above`. */
  function LeafTranslation(phys: nat, flags: set<Flag>, above: Rights): Translation {
    Maps(phys, Rights(User in flags, above.writable && Writable in flags, above.noExecute || NoExecute in flags))
  }

  /** How many table frames user_map_page has to allocate for the page. */
  function MissingTables(m: Frames, f: nat, page: Page, depth: nat): nat
    requires depth <= 3
    decreases 4 - depth
  {
    if depth == 3 || f !in m then 0 else
    var e := m[f][page[depth]];
    if !IsTable(depth, e) then 3 - depth else MissingTables(m, e.frame, page, depth + 1)
  }

  lemma {:induction false} MissingBound(m: Frames, f: nat, page: Page, depth: nat)
    requires depth <= 3
    ensures MissingTables(m, f, page, depth) <= 3 - depth
    decreases 4 - depth
  {
    if depth < 3 && f in m && IsTable(depth, m[f][page[depth]]) {
      MissingBound(m, m[f][page[depth]].frame, page, depth + 1);
    }
  }

  lemma {:induction false} SameMissingTables(m: Frames, m1: Frames, f: nat, page: Page, depth: nat)
    requires depth <= 3 && f in m && f in m1 && m1[f] == m[f]
    requires depth < 2 && IsTable(depth, m[f][page[depth]]) ==>
               var g := m[f][page[depth]].frame; g in m && g in m1 && m1[g] == m[g]
    requires depth < 1 && IsTable(depth, m[f][page[depth]]) ==>
               var g := m[f][page[depth]].frame;
               IsTable(depth + 1, m[g][page[depth + 1]]) ==>
                 var h := m[g][page[depth + 1]].frame; h in m && h in m1 && m1[h] == m[h]
    ensures MissingTables(m1, f, page, depth) == MissingTables(m, f, page, depth)
    decreases 4 - depth
  {
    if depth < 2 && IsTable(depth, m[f][page[depth]]) {
      SameMissingTables(m, m1, m[f][page[depth]].frame, page, depth + 1);
    }
  }

  /** A supervisor mapping that user mode can now reach. */
  function Opened(t: Translation): Translation {
    match t
    case Fault => Fault
    case Maps(frame, rights) => Maps(frame, rights.(user := true))
  }

  /** Setting PAGE_USER on a 1 GB leaf opens the whole gigabyte and nothing else. */
  lemma ExposeGigabyte(m: Frames, roles: Roles, root: nat, pdpt: nat, page: Page) returns (m': Frames)
    requires PrivateTree(m, roles, root) && GigabytePage(m, root, page)
    requires pdpt == m[root][page[0]].frame && User in m[root][page[0]].flags
    ensures pdpt in m && m' == SetEntry(m, pdpt, page[1], m[pdpt][page[1]].(flags := m[pdpt][page[1]].flags + {User}))
    ensures PrivateTree(m', roles, root)
    ensures forall q: Page :: Translate(m', root, q) ==
              if q[..2] == page[..2] then Opened(Translate(m, root, q)) else Translate(m, root, q)
  {
    m' := SetEntry(m, pdpt, page[1], m[pdpt][page[1]].(flags := m[pdpt][page[1]].flags + {User}));
    assert EntryOk(m, roles, root, root, page[0]);
    assert LinkIsUser(m, roles, pdpt);
    forall h, k | InTree(roles, root, h) && 0 <= k < 512
      ensures h in m' && EntryOk(m', roles, root, h, k)
    {
      assert EntryOk(m, roles, root, h, k);
    }
    forall q: Page
      ensures Translate(m', root, q) ==
              if q[..2] == page[..2] then Opened(Translate(m, root, q)) else Translate(m, root, q)
    {
      if q[..2] == page[..2] {
        assert q[0] == q[..2][0] == page[0] && q[1] == q[..2][1] == page[1];
      } else {
        assert q[..0] == [];
        assert roles[pdpt].path == [page[0]];
        assert q[..1] == [q[0]] && q[..2] == [q[0], q[1]] && page[..2] == [page[0], page[1]];
        WalkElsewhere(m, m', roles, root, pdpt, page[1], q, root, 0, ALL_RIGHTS);
      }
    }
  }

  lemma Prefixes(page: Page)
    ensures page[..0] == []
    ensures page[..0] + [page[0]] == page[..1] && page[..1] + [page[1]] == page[..2]
    ensures page[..2] + [page[2]] == page[..3] && page[..3] + [page[3]] == page
  {
  }

  /** The entry keeps or gains exactly the write and execute bits `user_map_page` gives a link. */
  predicate LinkBits(depth: nat, was: Entry, now: Entry, flags: set<Flag>) {
    var kept := IsTable(depth, was) || (depth == 2 && Huge in was.flags);
    && IsTable(depth, now)
    && (Writable in now.flags <==> if kept then Writable in was.flags else Writable in flags)
    && (NoExecute in now.flags <==> kept && NoExecute in was.flags)
  }

  /** In `m'` the directory entry links to a table that holds the wanted leaf. */
  predicate LeafInstalled(m: Frames, m': Frames, pd: nat, page: Page, phys: nat, flags: set<Flag>) {
    && pd in m && pd in m' && LinkBits(2, m[pd][page[2]], m'[pd][page[2]], flags)
    && m'[pd][page[2]].frame in m'
    && m'[m'[pd][page[2]].frame][page[3]] == Entry(phys, flags + {Present})
    && (User in flags ==> User in m'[pd][page[2]].flags)
  }

  lemma LeafWalk(m: Frames, m': Frames, pd: nat, page: Page, phys: nat, flags: set<Flag>, acc: Rights)
    requires LeafInstalled(m, m', pd, page, phys, flags) && (User in flags ==> acc.user)
    ensures Walk(m', pd, page, 2, acc) == LeafTranslation(phys, flags, TableRights(m, pd, page, 2, acc))
  {
    var e := m'[pd][page[2]];
    assert Walk(m', pd, page, 2, acc) == Walk(m', e.frame, page, 3, Meet(acc, e));
  }

  /** What the walk from the PDPT finds once the page is installed below it. */
  ghost predicate PathInstalled(m: Frames, m': Frames, pdpt: nat, page: Page, phys: nat, flags: set<Flag>) {
    forall acc: Rights {:trigger Walk(m', pdpt, page, 1, acc)} | User in flags ==> acc.user ::
      Walk(m', pdpt, page, 1, acc) == LeafTranslation(phys, flags, TableRights(m, pdpt, page, 1, acc))
  }

  lemma PathExtended(m: Frames, m1: Frames, m2: Frames, pdpt: nat, pd: nat, page: Page, phys: nat, flags: set<Flag>)
    requires pdpt in m && pdpt in m2 && LinkBits(1, m[pdpt][page[1]], m2[pdpt][page[1]], flags)
    requires m2[pdpt][page[1]].frame == pd && (User in flags ==> User in m2[pdpt][page[1]].flags)
    requires LeafInstalled(m1, m2, pd, page, phys, flags)
    requires if IsTable(1, m[pdpt][page[1]]) then m[pdpt][page[1]].frame == pd && pd in m && m1[pd] == m[pd]
             else m1[pd] == ZERO_TABLE
    ensures PathInstalled(m, m2, pdpt, page, phys, flags)
  {
    forall acc: Rights | User in flags ==> acc.user
      ensures Walk(m2, pdpt, page, 1, acc) == LeafTranslation(phys, flags, TableRights(m, pdpt, page, 1, acc))
    {
      var e := m2[pdpt][page[1]];
      assert Walk(m2, pdpt, page, 1, acc) == Walk(m2, pd, page, 2, Meet(acc, e));
      LeafWalk(m1, m2, pd, page, phys, flags, Meet(acc, e));
    }
  }

  lemma TranslationInstalled(m: Frames, m1: Frames, m2: Frames, root: nat, pdpt: nat, page: Page, phys: nat,
                             flags: set<Flag>)
    requires root in m && root in m2 && LinkBits(0, m[root][page[0]], m2[root][page[0]], flags)
    requires m2[root][page[0]].frame == pdpt && (User in flags ==> User in m2[root][page[0]].flags)
    requires PathInstalled(m1, m2, pdpt, page, phys, flags) && pdpt in m1
    requires if IsTable(0, m[root][page[0]]) then m[root][page[0]].frame == pdpt && pdpt in m && m1[pdpt] == m[pdpt]
             else m1[pdpt] == ZERO_TABLE
    requires IsTable(0, m[root][page[0]]) && IsTable(1, m1[pdpt][page[1]]) ==>
               var pd := m1[pdpt][page[1]].frame; pd in m && pd in m1 && m1[pd] == m[pd]
    ensures Translate(m2, root, page) == LeafTranslation(phys, flags, TableRights(m, root, page, 0, ALL_RIGHTS))
  {
    var e := m2[root][page[0]];
    var r := Meet(ALL_RIGHTS, e);
    assert Walk(m2, root, page, 0, ALL_RIGHTS) == Walk(m2, pdpt, page, 1, r);
    if IsTable(0, m[root][page[0]]) {
      var was := Meet(ALL_RIGHTS, m[root][page[0]]);
      assert TableRights(m, root, page, 0, ALL_RIGHTS) == TableRights(m, pdpt, page, 1, was);
      assert r.writable == was.writable && r.noExecute == was.noExecute;
      SameTableRights(m, m1, pdpt, page, was, r);
    }
  }

  lemma SameTableRights(m: Frames, m1: Frames, pdpt: nat, page: Page, a: Rights, b: Rights)
    requires pdpt in m && pdpt in m1 && m1[pdpt] == m[pdpt]
    requires IsTable(1, m1[pdpt][page[1]]) ==> var pd := m1[pdpt][page[1]].frame; pd in m && pd in m1 && m1[pd] == m[pd]
    requires a.writable == b.writable && a.noExecute == b.noExecute
    ensures TableRights(m, pdpt, page, 1, a).writable == TableRights(m1, pdpt, page, 1, b).writable
    ensures TableRights(m, pdpt, page, 1, a).noExecute == TableRights(m1, pdpt, page, 1, b).noExecute
  {
  }

  /** Pages of one page table meet the same tables. */
  lemma SamePrefix(m: Frames, root: nat, page: Page, other: Page)
    requires page[..3] == other[..3]
    ensures page[0] == other[0] && GigabytePage(m, root, other) == GigabytePage(m, root, page)
    ensures MissingTables(m, root, other, 0) == MissingTables(m, root, page, 0)
  {
    assert forall k | 0 <= k < 3 :: page[k] == page[..3][k] && other[k] == other[..3][k];
    if root in m {
      var pdpt := m[root][page[0]].frame;
      assert MissingTables(m, pdpt, other, 1) == MissingTables(m, pdpt, page, 1) by {
        if pdpt in m {
          var pd := m[pdpt][page[1]].frame;
          assert MissingTables(m, pd, other, 2) == MissingTables(m, pd, page, 2);
        }
      }
    }
  }

  /** Below a read-only link nothing is writable. */
  lemma ReadOnlyStays(m: Frames, f: nat, page: Page, depth: nat, acc: Rights)
    requires depth <= 3 && !acc.writable
    ensures !TableRights(m, f, page, depth, acc).writable
    decreases 4 - depth
  {
    if depth < 3 && f in m && IsTable(depth, m[f][page[depth]]) {
      ReadOnlyStays(m, m[f][page[depth]].frame, page, depth + 1, Meet(acc, m[f][page[depth]]));
    }
  }

  lemma ReadOnlyAbove(m: Frames, root: nat, page: Page)
    requires root in m && IsTable(0, m[root][page[0]]) && Writable !in m[root][page[0]].flags
    ensures !TableRights(m, root, page, 0, ALL_RIGHTS).writable
  {
    var e := m[root][page[0]];
    ReadOnlyStays(m, e.frame, page, 1, Meet(ALL_RIGHTS, e));
    assert TableRights(m, root, page, 0, ALL_RIGHTS) == TableRights(m, e.frame, page, 1, Meet(ALL_RIGHTS, e));
  }

  // ----- The tables a walk can meet -----------------------------------------------------

  /** The table the walk to `page` reads after following `depth` links. */
  function TableOn(m: Frames, root: nat, page: Page, depth: nat): Option<nat>
    requires depth <= 3
  {
    if depth == 0 then Some(root) else
    match TableOn(m, root, page, depth - 1)
    case None => None
    case Some(f) =>
      if f in m && IsTable(depth - 1, m[f][page[depth - 1]]) then Some(m[f][page[depth - 1]].frame) else None
  }

  /** `f` is a table of the tree at `root`. */
  ghost predicate TableOf(m: Frames, root: nat, f: nat) {
    exists page: Page, depth: nat :: depth <= 3 && TableOn(m, root, page, depth) == Some(f)
  }

  /** The frames of the tree at `root` hold the same tables in both memories. */
  ghost predicate TablesKept(m: Frames, m': Frames, root: nat) {
    forall f | TableOf(m, root, f) :: f in m && f in m' && m'[f] == m[f]
  }

  /** A tree whose own tables are untouched keeps every translation. */
  lemma {:induction false} WalkKept(m: Frames, m': Frames, root: nat, f: nat, page: Page, depth: nat, acc: Rights)
    requires TablesKept(m, m', root) && depth <= 3 && TableOn(m, root, page, depth) == Some(f)
    ensures Walk(m', f, page, depth, acc) == Walk(m, f, page, depth, acc)
    decreases 4 - depth
  {
    assert TableOf(m, root, f);
    var e := m[f][page[depth]];
    if depth < 3 && IsTable(depth, e) {
      assert TableOn(m, root, page, depth + 1) == Some(e.frame);
      WalkKept(m, m', root, e.frame, page, depth + 1, Meet(acc, e));
    }
  }

  lemma TreeKept(m: Frames, m': Frames, root: nat)
    requires TablesKept(m, m', root)
    ensures SameTranslations(m, m', root)
  {
    forall q: Page ensures Translate(m', root, q) == Translate(m, root, q) {
      assert TableOn(m, root, q, 0) == Some(root);
      WalkKept(m, m', root, root, q, 0, ALL_RIGHTS);
    }
  }

  /** ... and a tree with the same tables has the same set of tables. */
  lemma {:induction false} TableOnKept(m: Frames, m': Frames, root: nat, page: Page, depth: nat)
    requires TablesKept(m, m', root) && depth <= 3
    ensures TableOn(m', root, page, depth) == TableOn(m, root, page, depth)
  {
    if depth > 0 {
      TableOnKept(m, m', root, page, depth - 1);
      var t := TableOn(m, root, page, depth - 1);
      if t.Some? { assert TableOf(m, root, t.value); }
    }
  }
}
