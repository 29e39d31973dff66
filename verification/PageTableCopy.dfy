/**
 What create_user_address_space leaves behind: a tree that copies the boot tree down to the
 page directories.  The copy agrees with the boot translation, exposes nothing to user mode,
 and is private exactly when the copied directories link to no page table.
 */
module PageTableCopy {
  import opened Options
  import opened PageTables

  function StripUser(e: Entry): Entry { e.(flags := e.flags - {User}) }

  /** No entry of the table carries the user bit. */
  predicate Unmarked(t: Table) {
    forall j :: 0 <= j < 512 ==> User !in t[j].flags
  }

  ghost predicate PdCopied(m: Frames, pd: nat, boot: nat) {
    pd in m && boot in m && forall k :: 0 <= k < 512 ==> m[pd][k] == StripUser(m[boot][k])
  }

  /** Absent entries stay absent, 1 GB pages lose PAGE_USER, a directory is copied or (for want
      of a frame) dropped. */
  ghost predicate PdptEntryCopied(m: Frames, e: Entry, boot: Entry) {
    if Present !in boot.flags then e == ABSENT
    else if Huge in boot.flags then e == StripUser(boot)
    else e == ABSENT || (e.flags == boot.flags - {User} && PdCopied(m, e.frame, boot.frame))
  }

  ghost predicate PdptCopied(m: Frames, pdpt: nat, boot: nat) {
    pdpt in m && boot in m && forall k :: 0 <= k < 512 ==> PdptEntryCopied(m, m[pdpt][k], m[boot][k])
  }

  /** Among the first `n` entries no directory was dropped. */
  ghost predicate PdptComplete(m: Frames, pdpt: nat, boot: nat, n: nat)
    requires n <= 512
  {
    pdpt in m && boot in m && forall k :: 0 <= k < n && IsTable(1, m[boot][k]) ==> IsTable(1, m[pdpt][k])
  }

  /** Among the first `n` entries no PDPT and no directory was dropped. */
  ghost predicate RootComplete(m: Frames, root: nat, boot: nat, n: nat)
    requires n <= 512
  {
    root in m && boot in m && forall k :: 0 <= k < n && Present in m[boot][k].flags ==>
      Present in m[root][k].flags && PdptComplete(m, m[root][k].frame, m[boot][k].frame, 512)
  }

  /** How many of the PDPT entries link to a directory. */
  function Directories(entries: seq<Entry>): nat {
    if entries == [] then 0 else
      Directories(entries[..|entries| - 1]) + if IsTable(1, entries[|entries| - 1]) then 1 else 0
  }

  /** How many PDPTs and directories the PML4 entries lead to. */
  function TablesBelow(m: Frames, entries: seq<Entry>): nat {
    if entries == [] then 0 else TablesBelow(m, entries[..|entries| - 1]) + TablesAt(m, entries[|entries| - 1])
  }

  function TablesAt(m: Frames, e: Entry): nat {
    if Present !in e.flags || e.frame !in m then 0 else 1 + Directories(m[e.frame])
  }

  /** The frames that a copy of the boot tree takes below its PML4. */
  function CopyTables(m: Frames, boot: nat): nat
    requires boot in m
  {
    TablesBelow(m, m[boot][..4])
  }

  /** What is left of n frames when `used` are asked for. */
  function Left(n: nat, used: nat): nat { if n > used then n - used else 0 }

  lemma DirectoriesStep(entries: seq<Entry>, k: nat)
    requires k < |entries|
    ensures Directories(entries[..k + 1]) == Directories(entries[..k]) + if IsTable(1, entries[k]) then 1 else 0
  {
    assert entries[..k + 1][..k] == entries[..k];
  }

  lemma TablesBelowStep(m: Frames, entries: seq<Entry>, k: nat)
    requires k < |entries|
    ensures TablesBelow(m, entries[..k + 1]) == TablesBelow(m, entries[..k]) + TablesAt(m, entries[k])
  {
    assert entries[..k + 1][..k] == entries[..k];
  }

  lemma SameTablesBelow(m: Frames, m': Frames, boot: nat)
    requires boot in m && boot in m' && m'[boot] == m[boot]
    requires forall k | 0 <= k < 4 :: TablesAt(m', m[boot][k]) == TablesAt(m, m[boot][k])
    ensures CopyTables(m', boot) == CopyTables(m, boot)
  {
    var entries := m[boot];
    for k := 0 to 4
      invariant TablesBelow(m', entries[..k]) == TablesBelow(m, entries[..k])
    {
      TablesBelowStep(m, entries, k);
      TablesBelowStep(m', entries, k);
    }
  }

  ghost predicate RootEntryCopied(m: Frames, k: nat, e: Entry, boot: Entry) {
    if k >= 4 || Present !in boot.flags then e == ABSENT
    else e == ABSENT || (e.flags == boot.flags - {User} && PdptCopied(m, e.frame, boot.frame))
  }

  ghost predicate RootCopied(m: Frames, root: nat, boot: nat) {
    root in m && boot in m && forall k :: 0 <= k < 512 ==> RootEntryCopied(m, k, m[root][k], m[boot][k])
  }

  /** The mapping with user access withdrawn. */
  function Closed(t: Translation): Translation {
    match t
    case Fault => Fault
    case Maps(frame, rights) => Maps(frame, rights.(user := false))
  }

  /** The copy translates a page as the boot tree does, without user access, or not at all. */
  lemma CopyAgrees(m: Frames, root: nat, boot: nat, page: Page)
    requires RootCopied(m, root, boot)
    ensures Translate(m, root, page) == Fault || Translate(m, root, page) == Closed(Translate(m, boot, page))
  {
    var e0, b0 := m[root][page[0]], m[boot][page[0]];
    assert RootEntryCopied(m, page[0], e0, b0);
    if Present in e0.flags {
      var e1, b1 := m[e0.frame][page[1]], m[b0.frame][page[1]];
      assert PdptEntryCopied(m, e1, b1);
      var a, b := Meet(ALL_RIGHTS, e0), Meet(ALL_RIGHTS, b0);
      assert Translate(m, root, page) == Walk(m, e0.frame, page, 1, a);
      assert Translate(m, boot, page) == Walk(m, b0.frame, page, 1, b);
      if IsTable(1, e1) {
        PdAgrees(m, e1.frame, b1.frame, page, Meet(a, e1), Meet(b, b1));
      }
    }
  }

  lemma PdAgrees(m: Frames, pd: nat, boot: nat, page: Page, a: Rights, b: Rights)
    requires PdCopied(m, pd, boot) && a == b.(user := false)
    ensures Walk(m, pd, page, 2, a) == Closed(Walk(m, boot, page, 2, b))
  {
    var e, be := m[pd][page[2]], m[boot][page[2]];
    if IsTable(2, e) {
      assert Walk(m, pd, page, 2, a) == Walk(m, e.frame, page, 3, Meet(a, e));
      assert Walk(m, boot, page, 2, b) == Walk(m, be.frame, page, 3, Meet(b, be));
    }
  }

  /** A complete copy maps every page below the first four entries that the boot tree maps, at the
      same frame and with the same rights but for user access, through small and large pages alike. */
  lemma CompleteCopy(m: Frames, root: nat, boot: nat, page: Page)
    requires RootCopied(m, root, boot) && RootComplete(m, root, boot, 4) && page[0] < 4
    ensures Translate(m, root, page) == Closed(Translate(m, boot, page))
  {
    var e0, b0 := m[root][page[0]], m[boot][page[0]];
    assert RootEntryCopied(m, page[0], e0, b0);
    if Present in b0.flags {
      var e1, b1 := m[e0.frame][page[1]], m[b0.frame][page[1]];
      assert PdptEntryCopied(m, e1, b1);
      var a, b := Meet(ALL_RIGHTS, e0), Meet(ALL_RIGHTS, b0);
      assert Translate(m, root, page) == Walk(m, e0.frame, page, 1, a);
      assert Translate(m, boot, page) == Walk(m, b0.frame, page, 1, b);
      if IsTable(1, b1) {
        PdAgrees(m, e1.frame, b1.frame, page, Meet(a, e1), Meet(b, b1));
      }
    }
  }

  /** What a complete copy of the boot tree translates the page to. */
  function CopyOf(m: Frames, boot: nat, page: Page): Translation {
    if page[0] < 4 then Closed(Translate(m, boot, page)) else Fault
  }

  /** The 1 GB pages of the copy are those of the boot tree, all of them if it is complete. */
  lemma CopyGigabytes(m: Frames, root: nat, boot: nat, page: Page)
    requires RootCopied(m, root, boot)
    ensures GigabytePage(m, root, page) ==> page[0] < 4 && GigabytePage(m, boot, page)
    ensures RootComplete(m, root, boot, 4) && page[0] < 4 && GigabytePage(m, boot, page) ==> GigabytePage(m, root, page)
  {
    var e, b := m[root][page[0]], m[boot][page[0]];
    assert RootEntryCopied(m, page[0], e, b);
    if Present in e.flags {
      assert PdptEntryCopied(m, m[e.frame][page[1]], m[b.frame][page[1]]);
    }
  }

  /** Beyond the first four entries the copy maps nothing. */
  lemma CopyElsewhere(m: Frames, root: nat, boot: nat, page: Page)
    requires RootCopied(m, root, boot) && page[0] >= 4
    ensures Translate(m, root, page) == Fault
  {
    assert RootEntryCopied(m, page[0], m[root][page[0]], m[boot][page[0]]);
  }

  lemma CopyTranslates(m: Frames, root: nat, boot: nat)
    requires RootCopied(m, root, boot)
    ensures forall page: Page ::
              Translate(m, root, page) == Fault ||
              (page[0] < 4 && Translate(m, root, page) == Closed(Translate(m, boot, page)))
    ensures forall page: Page | RootComplete(m, root, boot, 4) && page[0] < 4 ::
              Translate(m, root, page) == Closed(Translate(m, boot, page))
  {
    forall page: Page
      ensures Translate(m, root, page) == Fault ||
              (page[0] < 4 && Translate(m, root, page) == Closed(Translate(m, boot, page)))
    {
      if page[0] < 4 { CopyAgrees(m, root, boot, page); } else { CopyElsewhere(m, root, boot, page); }
    }
    forall page: Page | RootComplete(m, root, boot, 4) && page[0] < 4
      ensures Translate(m, root, page) == Closed(Translate(m, boot, page))
    {
      CompleteCopy(m, root, boot, page);
    }
  }

  /** One entry more of a copied PDPT. */
  lemma PdptGrown(m: Frames, pdpt: nat, boot: nat, k: nat, e: Entry)
    requires pdpt in m && boot in m && pdpt != boot && k < 512
    requires forall j | 0 <= j < k :: PdptEntryCopied(m, m[pdpt][j], m[boot][j])
    requires PdptEntryCopied(m, e, m[boot][k])
    requires forall j | 0 <= j <= k && IsTable(1, m[boot][j]) :: m[boot][j].frame != pdpt
    requires forall j | 0 <= j < k && IsTable(1, m[pdpt][j]) :: m[pdpt][j].frame != pdpt
    requires IsTable(1, e) ==> e.frame != pdpt
    ensures var m' := SetEntry(m, pdpt, k, e);
            && (forall j | 0 <= j < k + 1 :: PdptEntryCopied(m', m'[pdpt][j], m'[boot][j]))
            && (PdptComplete(m', pdpt, boot, k + 1) <==>
                PdptComplete(m, pdpt, boot, k) && (IsTable(1, m[boot][k]) ==> IsTable(1, e)))
  {
    var m' := SetEntry(m, pdpt, k, e);
    forall j | 0 <= j < k + 1 ensures PdptEntryCopied(m', m'[pdpt][j], m'[boot][j]) {
      if j < k { assert PdptEntryCopied(m, m[pdpt][j], m[boot][j]); }
    }
  }

  /** The boot PDPT and the directories it links to are in memory and not up for allocation;
      when `large` is set the directories link to no page table. */
  ghost predicate BootPdpt(m: Frames, avail: seq<nat>, pdpt: nat, large: bool) {
    && pdpt in m && pdpt !in avail
    && forall k | 0 <= k < 512 && IsTable(1, m[pdpt][k]) :: m[pdpt][k].frame in m && m[pdpt][k].frame !in avail &&
         (large ==> LargePagesOnly(m[m[pdpt][k].frame]))
  }

  /** The boot PML4 and the tables below its first four entries are in memory and not free. */
  ghost predicate BootTree(m: Frames, avail: seq<nat>, boot: nat, large: bool) {
    boot in m && boot !in avail &&
    forall k | 0 <= k < 4 && Present in m[boot][k].flags :: BootPdpt(m, avail, m[boot][k].frame, large)
  }

  lemma BootGigabytes(m: Frames, m': Frames, avail: seq<nat>, boot: nat, large: bool)
    requires BootTree(m, avail, boot, large)
    requires m'.Keys == m.Keys && (forall h | h in m && h !in avail :: m'[h] == m[h])
    ensures forall q: Page | q[0] < 4 :: GigabytePage(m', boot, q) == GigabytePage(m, boot, q)
  {
    forall q: Page | q[0] < 4 ensures GigabytePage(m', boot, q) == GigabytePage(m, boot, q) {
      if Present in m[boot][q[0]].flags { assert BootPdpt(m, avail, m[boot][q[0]].frame, large); }
    }
  }

  /** Writing to free frames and taking some away leaves the boot tables as they were. */
  lemma BootTreeKept(m: Frames, m': Frames, avail: seq<nat>, avail': seq<nat>, boot: nat, large: bool)
    requires BootTree(m, avail, boot, large)
    requires m'.Keys == m.Keys && (forall h | h in m && h !in avail :: m'[h] == m[h])
    requires forall h | h in avail' :: h in avail
    ensures BootTree(m', avail', boot, large) && m'[boot] == m[boot]
    ensures forall k | 0 <= k < 4 && Present in m[boot][k].flags :: BootKept(m, m', m[boot][k].frame)
    ensures forall k | 0 <= k < 4 :: TablesAt(m', m'[boot][k]) == TablesAt(m, m[boot][k])
  {
    forall k | 0 <= k < 4 && Present in m[boot][k].flags
      ensures BootPdpt(m', avail', m[boot][k].frame, large) && BootKept(m, m', m[boot][k].frame)
      ensures m[boot][k].frame in m' && m'[m[boot][k].frame] == m[m[boot][k].frame]
    {
      assert BootPdpt(m, avail, m[boot][k].frame, large);
    }
  }

  // ----- The copy as a tree of its own --------------------------------------------------

  /** Entry `i` of table `f` of a copy: no user bit, and above the directories every link
      leads to the copy's own next table. */
  ghost predicate CopyEntryOk(m: Frames, roles: Roles, root: nat, f: nat, i: nat)
    requires InTree(roles, root, f) && f in m && i < 512
  {
    var e := m[f][i];
    && User !in e.flags
    && (|roles[f].path| < 2 && IsTable(|roles[f].path|, e) ==>
          e.frame in m && e.frame in roles && roles[e.frame] == Role(root, roles[f].path + [i], f))
  }

  /** PML4, PDPTs and directories that belong to this tree alone; page tables may be shared. */
  ghost predicate CopiedTree(m: Frames, roles: Roles, root: nat) {
    && root in roles && roles[root] == Role(root, [], 0)
    && (forall f :: InTree(roles, root, f) ==> f in m && f != 0 && |roles[f].path| <= 2)
    && (forall f {:trigger roles[f].parent} :: InTree(roles, root, f) && roles[f].path != [] ==>
          InTree(roles, root, roles[f].parent) && |roles[roles[f].parent].path| + 1 == |roles[f].path|)
    && (forall f, i | InTree(roles, root, f) && 0 <= i < 512 :: CopyEntryOk(m, roles, root, f, i))
  }

  /** A directory that links to no page table and whose 2 MB pages are aligned. */
  predicate LargePagesOnly(t: Table) {
    forall k :: 0 <= k < 512 && Present in t[k].flags ==> Huge in t[k].flags && t[k].frame % 512 == 0
  }

  lemma CopyIsPrivate(m: Frames, roles: Roles, root: nat)
    requires CopiedTree(m, roles, root)
    requires forall f | InTree(roles, root, f) && |roles[f].path| == 2 :: LargePagesOnly(m[f])
    ensures PrivateTree(m, roles, root)
  {
    forall f, i | InTree(roles, root, f) && 0 <= i < 512
      ensures f in m && EntryOk(m, roles, root, f, i)
    {
      assert CopyEntryOk(m, roles, root, f, i);
      var e := m[f][i];
      if |roles[f].path| < 2 && IsTable(|roles[f].path|, e) {
        forall j | 0 <= j < 512 ensures User !in m[e.frame][j].flags {
          assert CopyEntryOk(m, roles, root, e.frame, j);
        }
      }
    }
  }

  /** The roles a copied PDPT and its directories take under entry `a` of the PML4. */
  ghost function SubtreeRoles(root: nat, a: nat, pdpt: nat, pds: map<nat, nat>): Roles {
    (map g | g in pds :: Role(root, [a, pds[g]], pdpt)) + map[pdpt := Role(root, [a], root)]
  }

  lemma SubtreeRolesAre(roles: Roles, root: nat, a: nat, pdpt: nat, pds: map<nat, nat>)
    requires pdpt !in roles && forall g | g in pds :: g !in roles
    ensures var roles' := roles + SubtreeRoles(root, a, pdpt, pds);
            && (forall f | f in roles :: f in roles' && roles'[f] == roles[f])
            && (forall f | f in roles' && f !in roles :: (f == pdpt || f in pds) && roles'[f].root == root)
  {
  }

  lemma AttachSubtree(m: Frames, m': Frames, roles: Roles, root: nat, a: nat, e: Entry, pds: map<nat, nat>)
    requires CopiedTree(m, roles, root) && a < 512
    requires Present !in m[root][a].flags && User !in e.flags
    requires e.frame in m && e.frame != 0 && e.frame !in roles && e.frame !in pds
    requires forall g | g in pds :: g in m && g != 0 && g !in roles && Unmarked(m[g])
    requires forall k | 0 <= k < 512 :: User !in m[e.frame][k].flags &&
               (IsTable(1, m[e.frame][k]) ==> m[e.frame][k].frame in pds && pds[m[e.frame][k].frame] == k)
    requires m' == SetEntry(m, root, a, e)
    ensures CopiedTree(m', roles + SubtreeRoles(root, a, e.frame, pds), root)
  {
    var roles' := roles + SubtreeRoles(root, a, e.frame, pds);
    forall f, i | InTree(roles', root, f) && 0 <= i < 512
      ensures f in m' && CopyEntryOk(m', roles', root, f, i)
    {
      if f in roles {
        assert CopyEntryOk(m, roles, root, f, i);
      } else {
        assert m'[f] == m[f];
      }
    }
  }

  lemma SubtreeLarge(m: Frames, m': Frames, roles: Roles, root: nat, a: nat, e: Entry, pds: map<nat, nat>)
    requires root in m && root in roles && roles[root].path == [] && root !in pds && a < 512
    requires forall f | InTree(roles, root, f) && |roles[f].path| == 2 :: f in m && LargePagesOnly(m[f])
    requires forall g | g in pds :: g in m && LargePagesOnly(m[g])
    requires m' == SetEntry(m, root, a, e)
    ensures forall f | InTree(roles + SubtreeRoles(root, a, e.frame, pds), root, f) &&
                       |(roles + SubtreeRoles(root, a, e.frame, pds))[f].path| == 2 ::
              f in m' && LargePagesOnly(m'[f])
  {
  }

  /** Changing frames outside the copy and outside the boot tables keeps what was copied. */
  lemma CopyKept(m: Frames, m': Frames, roles: Roles, root: nat, boot: nat, n: nat)
    requires CopiedTree(m, roles, root) && boot in m && boot in m' && m'[boot] == m[boot] && n <= 4
    requires forall f | InTree(roles, root, f) :: f in m' && m'[f] == m[f]
    requires forall k | 0 <= k < n && Present in m[boot][k].flags :: BootKept(m, m', m[boot][k].frame)
    requires forall k | 0 <= k < n :: RootEntryCopied(m, k, m[root][k], m[boot][k])
    ensures CopiedTree(m', roles, root)
    ensures forall k | 0 <= k < n :: RootEntryCopied(m', k, m'[root][k], m'[boot][k])
    ensures RootComplete(m, root, boot, n) <==> RootComplete(m', root, boot, n)
  {
    forall f, i | InTree(roles, root, f) && 0 <= i < 512
      ensures f in m' && CopyEntryOk(m', roles, root, f, i)
    {
      assert CopyEntryOk(m, roles, root, f, i);
    }
    forall k | 0 <= k < n
      ensures RootEntryCopied(m', k, m'[root][k], m'[boot][k])
      ensures Present in m[root][k].flags ==> m[root][k].frame in m' && m'[m[root][k].frame] == m[m[root][k].frame]
      ensures Present in m[boot][k].flags ==> BootKept(m, m', m[boot][k].frame)
    {
      assert CopyEntryOk(m, roles, root, root, k);
      assert RootEntryCopied(m, k, m[root][k], m[boot][k]);
      if Present in m[root][k].flags {
        PdptKept(m, m', roles, root, m[root][k].frame, m[boot][k].frame);
      }
    }
  }

  lemma PdptKept(m: Frames, m': Frames, roles: Roles, root: nat, pdpt: nat, boot: nat)
    requires CopiedTree(m, roles, root) && InTree(roles, root, pdpt) && |roles[pdpt].path| == 1
    requires forall f | InTree(roles, root, f) && f != root :: f in m' && m'[f] == m[f]
    requires BootKept(m, m', boot)
    requires PdptCopied(m, pdpt, boot)
    ensures PdptCopied(m', pdpt, boot)
  {
    forall j | 0 <= j < 512 ensures PdptEntryCopied(m', m'[pdpt][j], m'[boot][j]) {
      assert CopyEntryOk(m, roles, root, pdpt, j);
      assert PdptEntryCopied(m, m[pdpt][j], m[boot][j]);
    }
  }

  /** The boot frames that entry `k` of the boot PML4 makes reachable, down to directories. */
  ghost predicate BootKept(m: Frames, m': Frames, b: nat) {
    b in m && b in m' && m'[b] == m[b] &&
    forall j | 0 <= j < 512 && IsTable(1, m[b][j]) ::
      m[b][j].frame in m && m[b][j].frame in m' && m'[m[b][j].frame] == m[m[b][j].frame]
  }

  /** Linking the copied PDPT into the new PML4 disturbs neither it nor the earlier copies. */
  lemma LinkKeepsCopies(m: Frames, m': Frames, roles: Roles, root: nat, boot: nat, k: nat, e: Entry)
    requires CopiedTree(m, roles, root) && boot in m && boot != root && k < 4
    requires m' == SetEntry(m, root, k, e)
    requires forall j | 0 <= j <= k && Present in m[boot][j].flags :: BootKept(m, m', m[boot][j].frame)
    requires forall j | 0 <= j < k :: RootEntryCopied(m, j, m[root][j], m[boot][j])
    requires Present in m[boot][k].flags && e.flags == m[boot][k].flags - {User} &&
              PdptCopied(m, e.frame, m[boot][k].frame)
    requires e.frame != root && forall j | 0 <= j < 512 && IsTable(1, m[e.frame][j]) :: m[e.frame][j].frame != root
    ensures forall j | 0 <= j <= k :: RootEntryCopied(m', j, m'[root][j], m'[boot][j])
    ensures RootComplete(m', root, boot, k + 1) <==>
            RootComplete(m, root, boot, k) && PdptComplete(m, e.frame, m[boot][k].frame, 512)
  {
    forall j | 0 <= j <= k
      ensures RootEntryCopied(m', j, m'[root][j], m'[boot][j])
      ensures j < k && Present in m[root][j].flags ==>
                m[root][j].frame in m' && m'[m[root][j].frame] == m[m[root][j].frame]
      ensures Present in m[boot][j].flags ==> BootKept(m, m', m[boot][j].frame)
    {
      if j == k {
        forall i | 0 <= i < 512 ensures PdptEntryCopied(m', m'[e.frame][i], m'[m[boot][k].frame][i]) {
          assert PdptEntryCopied(m, m[e.frame][i], m[m[boot][k].frame][i]);
        }
      } else {
        assert CopyEntryOk(m, roles, root, root, j);
        assert RootEntryCopied(m, j, m[root][j], m[boot][j]);
        if Present in m[root][j].flags {
          assert BootKept(m, m', m[boot][j].frame);
          PdptKept(m, m', roles, root, m[root][j].frame, m[boot][j].frame);
        }
      }
    }
  }

  /** A PML4 that copies the boot one up to entry `n`; `complete` when nothing was dropped. */
  ghost predicate RootSoFar(m: Frames, roles: Roles, root: nat, boot: nat, n: nat, large: bool, complete: bool)
    requires n <= 4
  {
    && root in m && boot in m
    && CopiedTree(m, roles, root)
    && (forall k | 0 <= k < n :: RootEntryCopied(m, k, m[root][k], m[boot][k]))
    && (forall k | n <= k < 512 :: m[root][k] == ABSENT)
    && (complete <==> RootComplete(m, root, boot, n))
    && (large ==> forall f | InTree(roles, root, f) && |roles[f].path| == 2 :: LargePagesOnly(m[f]))
  }

  lemma RootSoFarKept(m: Frames, m': Frames, roles: Roles, root: nat, boot: nat, n: nat, large: bool, complete: bool)
    requires n <= 4 && RootSoFar(m, roles, root, boot, n, large, complete)
    requires boot in m' && m'[boot] == m[boot]
    requires forall f | InTree(roles, root, f) :: f in m' && m'[f] == m[f]
    requires forall k | 0 <= k < n && Present in m[boot][k].flags :: BootKept(m, m', m[boot][k].frame)
    ensures RootSoFar(m', roles, root, boot, n, large, complete)
  {
    CopyKept(m, m', roles, root, boot, n);
  }

  /** A copied PDPT has no user bit. */
  lemma PdptUnmarked(m: Frames, pdpt: nat, boot: nat)
    requires PdptCopied(m, pdpt, boot)
    ensures Unmarked(m[pdpt])
  {
    forall j | 0 <= j < 512 ensures User !in m[pdpt][j].flags {
      assert PdptEntryCopied(m, m[pdpt][j], m[boot][j]);
    }
  }

  /** One PDPT more is linked. */
  lemma LinkRoot(m: Frames, avail: seq<nat>, roles: Roles, root: nat, boot: nat, k: nat, e: Entry, pds: map<nat, nat>,
                 large: bool, complete: bool, whole: bool)
    requires k < 4 && RootSoFar(m, roles, root, boot, k, large, complete) && root !in pds
    requires BootTree(m, avail, boot, large) && root in avail
    requires Present in m[boot][k].flags && e.flags == m[boot][k].flags - {User}
    requires PdptCopied(m, e.frame, m[boot][k].frame)
    requires whole <==> PdptComplete(m, e.frame, m[boot][k].frame, 512)
    requires e.frame != 0 && e.frame !in roles && e.frame !in pds
    requires forall g | g in pds ::
               g in m && g != 0 && g !in roles && Unmarked(m[g]) && (large ==> LargePagesOnly(m[g]))
    requires forall j | 0 <= j < 512 && IsTable(1, m[e.frame][j]) ::
               m[e.frame][j].frame in pds && pds[m[e.frame][j].frame] == j
    ensures RootSoFar(SetEntry(m, root, k, e), roles + SubtreeRoles(root, k, e.frame, pds), root, boot, k + 1, large,
                      complete && whole)
    ensures BootTree(SetEntry(m, root, k, e), avail, boot, large)
  {
    var m' := SetEntry(m, root, k, e);
    BootTreeKept(m, m', avail, avail, boot, large);
    PdptUnmarked(m, e.frame, m[boot][k].frame);
    AttachSubtree(m, m', roles, root, k, e, pds);
    if large { SubtreeLarge(m, m', roles, root, k, e, pds); }
    LinkKeepsCopies(m, m', roles, root, boot, k, e);
  }

  // ----- When is the copy private? ------------------------------------------------------

  /** Walking the copy down to a directory stays in the copy's own tables, beside the boot walk. */
  lemma CopyWalk(m: Frames, roles: Roles, root: nat, boot: nat, page: Page)
    requires CopiedTree(m, roles, root) && RootCopied(m, root, boot)
    ensures TableOn(m, root, page, 0) == Some(root)
    ensures TableOn(m, root, page, 1).Some? ==>
              InTree(roles, root, TableOn(m, root, page, 1).value) && page[0] < 4 && TableOn(m, boot, page, 1).Some?
    ensures TableOn(m, root, page, 2).Some? ==>
              && InTree(roles, root, TableOn(m, root, page, 2).value) && TableOn(m, root, page, 1).Some?
              && TableOn(m, boot, page, 2).Some?
              && PdCopied(m, TableOn(m, root, page, 2).value, TableOn(m, boot, page, 2).value)
    ensures TableOn(m, root, page, 3).Some? ==>
              TableOn(m, root, page, 2).Some? && TableOn(m, root, page, 3) == TableOn(m, boot, page, 3)
  {
    assert TableOn(m, root, page, 0) == Some(root) && TableOn(m, boot, page, 0) == Some(boot);
    assert CopyEntryOk(m, roles, root, root, page[0]);
    assert RootEntryCopied(m, page[0], m[root][page[0]], m[boot][page[0]]);
    if TableOn(m, root, page, 1).Some? {
      var pdpt, b := m[root][page[0]].frame, m[boot][page[0]].frame;
      assert TableOn(m, root, page, 1) == Some(pdpt) && TableOn(m, boot, page, 1) == Some(b);
      assert CopyEntryOk(m, roles, root, pdpt, page[1]);
      assert PdptEntryCopied(m, m[pdpt][page[1]], m[b][page[1]]);
      if TableOn(m, root, page, 2).Some? {
        assert TableOn(m, root, page, 2) == Some(m[pdpt][page[1]].frame);
        assert TableOn(m, boot, page, 2) == Some(m[b][page[1]].frame);
      }
    }
  }

  /** A complete copy follows the boot tree wherever it has tables below its first four entries. */
  lemma CompleteWalk(m: Frames, root: nat, boot: nat, page: Page)
    requires RootCopied(m, root, boot) && RootComplete(m, root, boot, 4) && page[0] < 4
    ensures TableOn(m, boot, page, 3).Some? ==> TableOn(m, root, page, 3) == TableOn(m, boot, page, 3)
  {
    assert TableOn(m, root, page, 0) == Some(root) && TableOn(m, boot, page, 0) == Some(boot);
    assert RootEntryCopied(m, page[0], m[root][page[0]], m[boot][page[0]]);
    if TableOn(m, boot, page, 3).Some? {
      var pdpt, b := m[root][page[0]].frame, m[boot][page[0]].frame;
      assert TableOn(m, boot, page, 2).Some?;
      assert TableOn(m, boot, page, 1) == Some(b);
      assert TableOn(m, root, page, 1) == Some(pdpt);
      assert PdptEntryCopied(m, m[pdpt][page[1]], m[b][page[1]]);
      assert TableOn(m, boot, page, 2) == Some(m[b][page[1]].frame);
      assert TableOn(m, root, page, 2) == Some(m[pdpt][page[1]].frame);
    }
  }

  /** The copy shares a table frame with the boot tree exactly when the boot tree maps some
      page of its first four PML4 entries through a page table. */
  lemma SharingIff(m: Frames, roles: Roles, root: nat, boot: nat)
    requires CopiedTree(m, roles, root) && RootCopied(m, root, boot) && RootComplete(m, root, boot, 4)
    requires forall f | TableOf(m, boot, f) :: !InTree(roles, root, f)
    ensures (exists f: nat :: TableOf(m, root, f) && TableOf(m, boot, f))
            <==> (exists page: Page :: page[0] < 4 && TableOn(m, boot, page, 3).Some?)
  {
    if page: Page :| page[0] < 4 && TableOn(m, boot, page, 3).Some? {
      CompleteWalk(m, root, boot, page);
      var f := TableOn(m, boot, page, 3).value;
      assert TableOf(m, root, f) && TableOf(m, boot, f);
    }
    if f: nat :| TableOf(m, root, f) && TableOf(m, boot, f) {
      var page: Page, depth: nat :| depth <= 3 && TableOn(m, root, page, depth) == Some(f);
      CopyWalk(m, roles, root, boot, page);
      assert depth == 3;
      assert page[0] < 4 && TableOn(m, boot, page, 3).Some?;
    }
  }
}
