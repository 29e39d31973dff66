/**
 The kernel's editing of page tables in place: pmm_alloc_page, split_2mb_huge_page,
 user_map_page, deep_copy_pd, deep_copy_pdpt and create_user_address_space.
 */
module AddressSpace {
  import opened Options
  import opened PageTables
  import opened PageTableCopy

  datatype Outcome = Mapped | OutOfFrames | Blocked

  /** One call of user_map_page. */
  datatype Request = Request(page: Page, phys: nat, flags: set<Flag>)

  /** The last of the requests for the page that went through. */
  function LastMapped(requests: seq<Request>, outcomes: seq<Outcome>, page: Page): Option<Request>
    requires |outcomes| <= |requests|
  {
    if outcomes == [] then None else
    var k := |outcomes| - 1;
    if outcomes[k].Mapped? && requests[k].page == page then Some(requests[k])
    else LastMapped(requests, outcomes[..k], page)
  }

  /** The page maps the frame asked for, and grants no more than asked for. */
  predicate Serves(t: Translation, r: Request) {
    t.Maps? && t.frame == r.phys && (User in r.flags ==> t.rights.user) &&
    (t.rights.writable ==> Writable in r.flags) && (NoExecute in r.flags ==> t.rights.noExecute)
  }

  /** A blocked user request lies in the same gigabyte. */
  predicate OpenedBy(requests: seq<Request>, outcomes: seq<Outcome>, page: Page)
    requires |outcomes| <= |requests|
  {
    exists k :: 0 <= k < |outcomes| && outcomes[k].Blocked? && Opens(requests[k], page)
  }

  predicate Opens(r: Request, page: Page) { User in r.flags && r.page[..2] == page[..2] }

  /** What a run of user_map_page calls makes of a page that translated to `was`. */
  predicate Follows(requests: seq<Request>, outcomes: seq<Outcome>, page: Page, was: Translation, now: Translation)
    requires |outcomes| <= |requests|
  {
    match LastMapped(requests, outcomes, page)
    case Some(r) => Serves(now, r)
    case None => now == if OpenedBy(requests, outcomes, page) then Opened(was) else was
  }

  /** What one call makes of a page. */
  predicate Answers(r: Request, o: Outcome, page: Page, was: Translation, now: Translation) {
    if o.Mapped? && r.page == page then Serves(now, r)
    else now == if o.Blocked? && Opens(r, page) then Opened(was) else was
  }

  /** One call more. */
  lemma FollowsStep(requests: seq<Request>, outcomes: seq<Outcome>, o: Outcome, page: Page,
                    was: Translation, t: Translation, now: Translation)
    requires |outcomes| < |requests| && Follows(requests, outcomes, page, was, t)
    requires Answers(requests[|outcomes|], o, page, t, now)
    ensures Follows(requests, outcomes + [o], page, was, now)
  {
    var longer := outcomes + [o];
    assert longer[..|outcomes|] == outcomes;
    if o.Blocked? && Opens(requests[|outcomes|], page) {
      assert longer[|outcomes|].Blocked?;
    }
    if k :| 0 <= k < |outcomes| && outcomes[k].Blocked? && Opens(requests[k], page) {
      assert longer[k].Blocked?;
    }
  }

  /** What the calls made so far have done to the tree, which began in memory `start` with n free frames;
      `left` frames are free now. */
  ghost predicate SoFar(start: Frames, now: Frames, root: nat, requests: seq<Request>, outcomes: seq<Outcome>,
                        n: nat, left: nat)
  {
    && |outcomes| <= |requests|
    && (forall page: Page ::
          Follows(requests, outcomes, page, Translate(start, root, page), Translate(now, root, page)))
    && (forall q: Page :: GigabytePage(now, root, q) == GigabytePage(start, root, q))
    && (forall j | 0 <= j < |outcomes| :: outcomes[j].Blocked? <==> GigabytePage(start, root, requests[j].page))
    && left + 3 * |outcomes| >= n && (OutOfFrames in outcomes ==> left == 0)
    && (n >= 3 * |requests| ==> OutOfFrames !in outcomes)
  }

  lemma SoFarStep(start: Frames, was: Frames, now: Frames, root: nat, requests: seq<Request>,
                  outcomes: seq<Outcome>, o: Outcome, n: nat, before: nat, left: nat)
    requires SoFar(start, was, root, requests, outcomes, n, before) && |outcomes| < |requests|
    requires forall page: Page ::
               Answers(requests[|outcomes|], o, page, Translate(was, root, page), Translate(now, root, page))
    requires forall q: Page :: GigabytePage(now, root, q) == GigabytePage(was, root, q)
    requires o.Blocked? <==> GigabytePage(was, root, requests[|outcomes|].page)
    requires left <= before <= left + 3 && (o.OutOfFrames? ==> left == 0 && before < 3)
    ensures SoFar(start, now, root, requests, outcomes + [o], n, left)
  {
    forall page: Page
      ensures Follows(requests, outcomes + [o], page, Translate(start, root, page), Translate(now, root, page))
    {
      FollowsStep(requests, outcomes, o, page, Translate(start, root, page), Translate(was, root, page),
                  Translate(now, root, page));
    }
  }

  class AddressSpaces {
    var frames: Frames
    var free: seq<nat>        // the frames pmm_alloc_page may still hand out
    ghost var roles: Roles

    ghost predicate Valid()
      reads this
    {
      && (forall k :: 0 <= k < |free| ==> free[k] in frames && free[k] != 0 && free[k] !in roles)
      && (forall j, k :: 0 <= j < k < |free| ==> free[j] != free[k])
    }

    constructor (frames: Frames, free: seq<nat>, ghost roles: Roles)
      requires forall k :: 0 <= k < |free| ==> free[k] in frames && free[k] != 0 && free[k] !in roles
      requires forall j, k :: 0 <= j < k < |free| ==> free[j] != free[k]
      ensures Valid() && this.frames == frames && this.free == free && this.roles == roles
    {
      this.frames, this.free, this.roles := frames, free, roles;
    }

    /** pmm_alloc_page: a free frame with arbitrary contents, or 0. */
    method AllocPage() returns (f: nat)
      requires Valid()
      modifies this`free
      ensures Valid()
      ensures f == 0 <==> old(free) == []
      ensures f != 0 ==> f == old(free)[0] && free == old(free)[1..] && f in frames && f !in roles && f !in free
      ensures f == 0 ==> free == old(free)
    {
      if free == [] { return 0; }
      f := free[0];
      free := free[1..];
    }

    /** Give the absent entry `i` of table `f` a zeroed table of its own, if a frame is left. */
    method FillEntry(ghost root: nat, f: nat, depth: nat, i: nat, tableFlags: set<Flag>) returns (g: nat)
      requires Valid() && PrivateTree(frames, roles, root) && InTree(roles, root, f) && |roles[f].path| == depth < 3
      requires i < 512 && Huge !in tableFlags && NoExecute !in tableFlags
      requires depth == 2 || (depth == 1 && Present in frames[f][i].flags) ==> Huge !in frames[f][i].flags
      requires User in tableFlags ==> LinkIsUser(frames, roles, f)
      modifies this
      ensures Valid() && Untouched(old(frames), old(roles), old(free), root)
      ensures PrivateTree(frames, roles, root) && SameTranslations(old(frames), frames, root)
      ensures g == 0 <==> old(free) == [] && !IsTable(depth, old(frames)[f][i])
      ensures g == 0 ==> frames == old(frames) && free == []
      ensures g != 0 ==> Linked(old(frames), old(free), depth, f, i, g)
      ensures g != 0 ==> LinkBits(depth, old(frames)[f][i], frames[f][i], tableFlags)
      ensures forall h | InTree(old(roles), root, h) && h != f :: frames[h] == old(frames)[h]
    {
      assert EntryOk(frames, roles, root, f, i);
      if Present in frames[f][i].flags { return frames[f][i].frame; }
      g := AllocPage();
      if g == 0 { return; }
      HangTable(root, f, i, g, tableFlags);
    }

    /** A zeroed frame linked under an absent entry. */
    method HangTable(ghost root: nat, f: nat, i: nat, g: nat, tableFlags: set<Flag>)
      requires Valid() && PrivateTree(frames, roles, root) && InTree(roles, root, f) && |roles[f].path| < 3
      requires i < 512 && Huge !in tableFlags && Present !in frames[f][i].flags
      requires g in frames && g != 0 && g !in roles && g !in free
      requires User in tableFlags ==> LinkIsUser(frames, roles, f)
      modifies this`frames, this`roles
      ensures Valid() && PrivateTree(frames, roles, root) && SameTranslations(old(frames), frames, root)
      ensures frames == SetEntry(old(frames)[g := ZERO_TABLE], f, i, Entry(g, tableFlags + {Present}))
      ensures roles == old(roles)[g := Role(root, old(roles)[f].path + [i], f)]
    {
      ghost var m', roles' := AttachTable(frames, roles, root, f, i, g, tableFlags);
      frames := frames[g := ZERO_TABLE];
      frames := SetEntry(frames, f, i, Entry(g, tableFlags + {Present}));
      roles := roles';
    }

    /** The `|= PAGE_USER` on a link. */
    method MarkUser(ghost root: nat, f: nat, i: nat)
      requires Valid() && PrivateTree(frames, roles, root) && InTree(roles, root, f) && |roles[f].path| < 3
      requires i < 512 && IsTable(|roles[f].path|, frames[f][i]) && LinkIsUser(frames, roles, f)
      modifies this`frames
      ensures Valid() && PrivateTree(frames, roles, root) && SameTranslations(old(frames), frames, root)
      ensures frames == SetEntry(old(frames), f, i, old(frames)[f][i].(flags := old(frames)[f][i].flags + {User}))
      ensures LinkIsUser(frames, roles, frames[f][i].frame)
    {
      assert EntryOk(frames, roles, root, f, i);
      ghost var m' := MarkLinkUser(frames, roles, root, f, i);
      frames := SetEntry(frames, f, i, frames[f][i].(flags := frames[f][i].flags + {User}));
    }

    /** split_2mb_huge_page: the loop fills the new table, then the PD entry is replaced. */
    method SplitHuge(ghost root: nat, pd: nat, i: nat) returns (pt: nat)
      requires Valid() && PrivateTree(frames, roles, root) && InTree(roles, root, pd) && |roles[pd].path| == 2
      requires i < 512 && Huge in frames[pd][i].flags
      modifies this
      ensures Valid() && Untouched(old(frames), old(roles), old(free), root)
      ensures PrivateTree(frames, roles, root) && SameTranslations(old(frames), frames, root)
      ensures pt == 0 <==> old(free) == []
      ensures pt == 0 ==> frames == old(frames) && free == []
      ensures pt != 0 ==> Linked(old(frames), old(free), 2, pd, i, pt)
      ensures pt != 0 ==> LinkBits(2, old(frames)[pd][i], frames[pd][i], {})
      ensures forall h | InTree(old(roles), root, h) && h != pd :: frames[h] == old(frames)[h]
    {
      assert EntryOk(frames, roles, root, pd, i);
      pt := AllocPage();
      if pt == 0 { return; }
      HangSplit(root, pd, i, pt);
    }

    /** A table of small pages linked in place of a 2 MB page. */
    method HangSplit(ghost root: nat, pd: nat, i: nat, pt: nat)
      requires Valid() && PrivateTree(frames, roles, root) && InTree(roles, root, pd) && |roles[pd].path| == 2
      requires i < 512 && Huge in frames[pd][i].flags
      requires pt in frames && pt != 0 && pt !in roles && pt !in free
      modifies this`frames, this`roles
      ensures Valid() && PrivateTree(frames, roles, root) && SameTranslations(old(frames), frames, root)
      ensures frames == SetEntry(old(frames)[pt := SplitTable(old(frames)[pd][i])], pd, i,
                                 Entry(pt, old(frames)[pd][i].flags - {Huge} + {Present}))
      ensures roles == old(roles)[pt := Role(root, old(roles)[pd].path + [i], pd)]
    {
      ghost var m', roles' := SplitHugePage(frames, roles, root, pd, i, pt);
      var entry := frames[pd][i];
      FillSplitTable(pt, entry);
      frames := SetEntry(frames, pd, i, Entry(pt, entry.flags - {Huge} + {Present}));
      roles := roles';
    }

    /** The loop of split_2mb_huge_page. */
    method FillSplitTable(pt: nat, entry: Entry)
      requires pt in frames
      modifies this`frames
      ensures frames == old(frames)[pt := SplitTable(entry)]
    {
      frames := frames[pt := ZERO_TABLE];
      for k := 0 to 512
        invariant pt in frames && frames == old(frames)[pt := frames[pt]]
        invariant forall j :: 0 <= j < k ==> frames[pt][j] == SplitTable(entry)[j]
      {
        frames := SetEntry(frames, pt, k, Entry(entry.frame + k, entry.flags - {Huge} - {User}));
      }
      assert frames[pt] == SplitTable(entry);
    }

    /** Only frames of the tree at `root` and frames that were free may have changed or
        gained a role. */
    ghost predicate Untouched(was: Frames, wasRoles: Roles, wasFree: seq<nat>, root: nat)
      reads this
    {
      && was.Keys <= frames.Keys
      && (forall h | h in was && h !in wasFree && !InTree(wasRoles, root, h) :: frames[h] == was[h])
      && (forall h | h in wasRoles :: h in roles && roles[h] == wasRoles[h])
      && (forall h | h in roles && h !in wasRoles :: h in wasFree && roles[h].root == root)
      && (forall h | h in free :: h in wasFree)
    }

    /** Turn entry `i` into a link: keep it, split its 2 MB page, or hang a fresh table under it. */
    method PrepareEntry(ghost root: nat, f: nat, depth: nat, i: nat, tableFlags: set<Flag>) returns (g: nat)
      requires Valid() && PrivateTree(frames, roles, root) && Huge !in tableFlags
      requires InTree(roles, root, f) && |roles[f].path| == depth < 3 && i < 512
      requires depth == 1 && Present in frames[f][i].flags ==> Huge !in frames[f][i].flags
      requires User in tableFlags ==> LinkIsUser(frames, roles, f)
      requires NoExecute !in tableFlags
      modifies this
      ensures Valid() && Untouched(old(frames), old(roles), old(free), root)
      ensures PrivateTree(frames, roles, root) && SameTranslations(old(frames), frames, root)
      ensures g == 0 <==> old(free) == [] && !IsTable(depth, old(frames)[f][i])
      ensures g == 0 ==> frames == old(frames) && free == []
      ensures g != 0 ==> Linked(old(frames), old(free), depth, f, i, g)
      ensures g != 0 ==> LinkBits(depth, old(frames)[f][i], frames[f][i], tableFlags)
      ensures forall h | InTree(old(roles), root, h) && h != f :: frames[h] == old(frames)[h]
    {
      assert EntryOk(frames, roles, root, f, i);
      if depth == 2 && Huge in frames[f][i].flags {
        g := SplitHuge(root, f, i);
      } else {
        g := FillEntry(root, f, depth, i, tableFlags);
      }
    }

    /** Entry `i` of `f` is now a link to `g`: an old one, or one that took a free frame. */
    ghost predicate Linked(was: Frames, wasFree: seq<nat>, depth: nat, f: nat, i: nat, g: nat)
      requires f in was && i < 512
      reads this
    {
      && f in frames && IsTable(depth, frames[f][i]) && frames[f][i].frame == g && g in frames
      && (forall k | 0 <= k < 512 && k != i :: frames[f][k] == was[f][k])
      && (if IsTable(depth, was[f][i]) then g == was[f][i].frame && free == wasFree
          else wasFree != [] && free == wasFree[1..] && (depth < 2 ==> frames[g] == ZERO_TABLE))
    }

    /** One level of user_map_page: make entry `i` a link, user-traversable for a user page. */
    method EnterTable(ghost root: nat, f: nat, depth: nat, i: nat, flags: set<Flag>) returns (g: nat)
      requires Valid() && PrivateTree(frames, roles, root) && Huge !in flags
      requires InTree(roles, root, f) && |roles[f].path| == depth < 3 && i < 512
      requires depth == 1 && Present in frames[f][i].flags ==> Huge !in frames[f][i].flags
      requires User in flags ==> LinkIsUser(frames, roles, f)
      modifies this
      ensures Valid() && Untouched(old(frames), old(roles), old(free), root)
      ensures PrivateTree(frames, roles, root) && SameTranslations(old(frames), frames, root)
      ensures g == 0 <==> old(free) == [] && !IsTable(depth, old(frames)[f][i])
      ensures g == 0 ==> frames == old(frames) && free == []
      ensures g != 0 ==> Linked(old(frames), old(free), depth, f, i, g)
      ensures g != 0 ==> LinkBits(depth, old(frames)[f][i], frames[f][i], flags)
      ensures g != 0 && User in flags ==> User in frames[f][i].flags
      ensures forall h | InTree(old(roles), root, h) && h != f :: frames[h] == old(frames)[h]
    {
      g := PrepareEntry(root, f, depth, i, flags - {NoExecute});
      if g != 0 && User in flags {
        ghost var e := frames[f][i];
        MarkUser(root, f, i);
        assert frames[f][i] == e.(flags := e.flags + {User});
      }
    }

    /** Write the leaf entry of the page into its page table. */
    method SetLeaf(ghost pml4: nat, pt: nat, page: Page, phys: nat, flags: set<Flag>)
      requires Valid() && PrivateTree(frames, roles, pml4)
      requires InTree(roles, pml4, pt) && roles[pt].path == page[..3]
      requires User in flags ==> LinkIsUser(frames, roles, pt)
      modifies this`frames
      ensures Valid() && Untouched(old(frames), roles, free, pml4) && PrivateTree(frames, roles, pml4)
      ensures frames == SetEntry(old(frames), pt, page[3], Entry(phys, flags + {Present}))
      ensures forall q: Page | q != page :: Translate(frames, pml4, q) == Translate(old(frames), pml4, q)
    {
      Prefixes(page);
      ghost var m' := InstallLeaf(frames, roles, pml4, pt, page[3], Entry(phys, flags + {Present}));
      frames := SetEntry(frames, pt, page[3], Entry(phys, flags + {Present}));
    }

    method SetLinkedLeaf(ghost pml4: nat, pd: nat, pt: nat, page: Page, phys: nat, flags: set<Flag>)
      requires Valid() && PrivateTree(frames, roles, pml4)
      requires InTree(roles, pml4, pd) && roles[pd].path == page[..2]
      requires IsTable(2, frames[pd][page[2]]) && frames[pd][page[2]].frame == pt
      requires User in flags ==> User in frames[pd][page[2]].flags
      modifies this`frames
      ensures Valid() && Untouched(old(frames), roles, free, pml4) && PrivateTree(frames, roles, pml4)
      ensures forall q: Page | q != page :: Translate(frames, pml4, q) == Translate(old(frames), pml4, q)
      ensures forall h | InTree(roles, pml4, h) && |roles[h].path| < 3 :: frames[h] == old(frames)[h]
      ensures pt in frames && frames[pt][page[3]] == Entry(phys, flags + {Present})
    {
      assert EntryOk(frames, roles, pml4, pd, page[2]);
      Prefixes(page);
      SetLeaf(pml4, pt, page, phys, flags);
    }

    /** The page-directory half of user_map_page. */
    method MapInDirectory(ghost pml4: nat, pd: nat, page: Page, phys: nat, flags: set<Flag>) returns (outcome: Outcome)
      requires Valid() && PrivateTree(frames, roles, pml4) && Huge !in flags
      requires InTree(roles, pml4, pd) && roles[pd].path == page[..2]
      requires User in flags ==> LinkIsUser(frames, roles, pd)
      modifies this
      ensures Valid() && Untouched(old(frames), old(roles), old(free), pml4) && PrivateTree(frames, roles, pml4)
      ensures !outcome.Blocked? && |free| == Left(|old(free)|, MissingTables(old(frames), pd, page, 2))
      ensures outcome.OutOfFrames? <==> |old(free)| < MissingTables(old(frames), pd, page, 2)
      ensures forall q: Page | q != page || outcome.OutOfFrames? ::
                Translate(frames, pml4, q) == Translate(old(frames), pml4, q)
      ensures forall h | InTree(old(roles), pml4, h) && |old(roles)[h].path| < 2 :: frames[h] == old(frames)[h]
      ensures outcome.Mapped? ==> LeafInstalled(old(frames), frames, pd, page, phys, flags)
    {
      var pt := EnterTable(pml4, pd, 2, page[2], flags);
      if pt == 0 { return OutOfFrames; }
      SetLinkedLeaf(pml4, pd, pt, page, phys, flags);
      return Mapped;
    }

    /** The page-directory-pointer half of user_map_page, when no 1 GB page is in the way. */
    method MapInPdpt(ghost pml4: nat, pdpt: nat, page: Page, phys: nat, flags: set<Flag>) returns (outcome: Outcome)
      requires Valid() && PrivateTree(frames, roles, pml4) && Huge !in flags
      requires InTree(roles, pml4, pdpt) && roles[pdpt].path == page[..1]
      requires !IsGigabyte(frames[pdpt][page[1]])
      requires User in flags ==> LinkIsUser(frames, roles, pdpt)
      modifies this
      ensures Valid() && Untouched(old(frames), old(roles), old(free), pml4) && PrivateTree(frames, roles, pml4)
      ensures !outcome.Blocked? && |free| == Left(|old(free)|, MissingTables(old(frames), pdpt, page, 1))
      ensures outcome.OutOfFrames? <==> |old(free)| < MissingTables(old(frames), pdpt, page, 1)
      ensures forall q: Page | q != page || outcome.OutOfFrames? ::
                Translate(frames, pml4, q) == Translate(old(frames), pml4, q)
      ensures forall q: Page :: GigabytePage(frames, pml4, q) == GigabytePage(old(frames), pml4, q)
      ensures forall h | InTree(old(roles), pml4, h) && |old(roles)[h].path| < 1 :: frames[h] == old(frames)[h]
      ensures outcome.Mapped? ==> PathInstalled(old(frames), frames, pdpt, page, phys, flags)
      ensures outcome.Mapped? ==> MissingTables(frames, pdpt, page, 1) == 0 && Huge !in frames[pdpt][page[1]].flags
    {
      Prefixes(page);
      var pd := EnterTable(pml4, pdpt, 1, page[1], flags);
      if pd == 0 { return OutOfFrames; }
      assert EntryOk(frames, roles, pml4, pdpt, page[1]);
      ghost var m := frames;
      outcome := MapInDirectory(pml4, pd, page, phys, flags);
      GigabytesKept(old(frames), frames, old(roles), pml4, pdpt, page[1]);
      if outcome.Mapped? {
        assert LinkBits(1, old(frames)[pdpt][page[1]], frames[pdpt][page[1]], flags);
        PathExtended(old(frames), m, frames, pdpt, pd, page, phys, flags);
      }
    }

    /** The `|= PAGE_USER` on a 1 GB page. */
    method OpenGigabyte(ghost pml4: nat, pdpt: nat, page: Page)
      requires Valid() && PrivateTree(frames, roles, pml4) && GigabytePage(frames, pml4, page)
      requires pdpt == frames[pml4][page[0]].frame && User in frames[pml4][page[0]].flags
      modifies this`frames
      ensures Valid() && Untouched(old(frames), roles, free, pml4) && PrivateTree(frames, roles, pml4)
      ensures forall q: Page :: GigabytePage(frames, pml4, q) == GigabytePage(old(frames), pml4, q)
      ensures forall q: Page :: Translate(frames, pml4, q) ==
                if q[..2] == page[..2] then Opened(Translate(old(frames), pml4, q)) else Translate(old(frames), pml4, q)
    {
      assert EntryOk(frames, roles, pml4, pml4, page[0]);
      ghost var m' := ExposeGigabyte(frames, roles, pml4, pdpt, page);
      frames := SetEntry(frames, pdpt, page[1], frames[pdpt][page[1]].(flags := frames[pdpt][page[1]].flags + {User}));
      GigabytesKept(old(frames), frames, roles, pml4, pdpt, page[1]);
    }

    /** The first level of user_map_page. */
    method EnterPdpt(pml4: nat, page: Page, flags: set<Flag>) returns (pdpt: nat)
      requires Valid() && PrivateTree(frames, roles, pml4) && Huge !in flags
      modifies this
      ensures Valid() && Untouched(old(frames), old(roles), old(free), pml4)
      ensures PrivateTree(frames, roles, pml4) && SameTranslations(old(frames), frames, pml4)
      ensures forall q: Page :: GigabytePage(frames, pml4, q) == GigabytePage(old(frames), pml4, q)
      ensures pdpt == 0 <==> old(free) == [] && !IsTable(0, old(frames)[pml4][page[0]])
      ensures pdpt == 0 ==> free == [] && MissingTables(old(frames), pml4, page, 0) == 3
      ensures pdpt != 0 ==>
                |old(free)| - |free| + MissingTables(frames, pdpt, page, 1) == MissingTables(old(frames), pml4, page, 0)
      ensures pdpt != 0 ==>
                && Linked(old(frames), old(free), 0, pml4, page[0], pdpt)
                && LinkBits(0, old(frames)[pml4][page[0]], frames[pml4][page[0]], flags)
                && InTree(roles, pml4, pdpt) && roles[pdpt].path == page[..1]
                && (User in flags ==> User in frames[pml4][page[0]].flags && LinkIsUser(frames, roles, pdpt))
      ensures forall h | InTree(old(roles), pml4, h) && h != pml4 :: frames[h] == old(frames)[h]
    {
      Prefixes(page);
      pdpt := EnterTable(pml4, pml4, 0, page[0], flags);
      if pdpt == 0 { return; }
      assert EntryOk(frames, roles, pml4, pml4, page[0]);
      GigabytesLinked(old(frames), frames, old(roles), pml4, page[0]);
      if IsTable(0, old(frames)[pml4][page[0]]) {
        assert EntryOk(old(frames), old(roles), pml4, pml4, page[0]);
        if IsTable(1, frames[pdpt][page[1]]) { assert EntryOk(old(frames), old(roles), pml4, pdpt, page[1]); }
        SameMissingTables(old(frames), frames, pdpt, page, 1);
      }
    }

    method UserMapPage(pml4: nat, page: Page, phys: nat, flags: set<Flag>) returns (outcome: Outcome)
      requires Valid() && PrivateTree(frames, roles, pml4) && Huge !in flags
      modifies this
      ensures Valid() && Untouched(old(frames), old(roles), old(free), pml4)
      // The 1 GB pages are as before, and a frame is taken for each table that is missing, while there are any.
      ensures forall q: Page :: GigabytePage(frames, pml4, q) == GigabytePage(old(frames), pml4, q)
      ensures |free| == if outcome.Blocked? then |old(free)|
                        else Left(|old(free)|, MissingTables(old(frames), pml4, page, 0))
      ensures outcome.Blocked? <==> GigabytePage(old(frames), pml4, page)
      ensures outcome.OutOfFrames? <==>
                !GigabytePage(old(frames), pml4, page) && |old(free)| < MissingTables(old(frames), pml4, page, 0)
      // Apart from the target page, no page changes its frame or its rights.
      ensures PrivateTree(frames, roles, pml4)
      ensures forall q: Page | !outcome.Blocked? && (q != page || outcome.OutOfFrames?) ::
                Translate(frames, pml4, q) == Translate(old(frames), pml4, q)
      // The target page maps `phys`, with the rights that its path allows.
      ensures outcome.Mapped? ==>
                Translate(frames, pml4, page) ==
                LeafTranslation(phys, flags, TableRights(old(frames), pml4, page, 0, ALL_RIGHTS))
      // Its path is complete, and the first link has the write bit it had, or that of the request.
      ensures outcome.Mapped? ==>
                && pml4 in frames && LinkBits(0, old(frames)[pml4][page[0]], frames[pml4][page[0]], flags)
                && MissingTables(frames, pml4, page, 0) == 0 && !GigabytePage(frames, pml4, page)
      // A 1 GB page in the way is not split; a user request still opens all of it.
      ensures forall q: Page | outcome.Blocked? ::
                Translate(frames, pml4, q) ==
                if User in flags && q[..2] == page[..2] then Opened(Translate(old(frames), pml4, q))
                else Translate(old(frames), pml4, q)
    {
      var pdpt := EnterPdpt(pml4, page, flags);
      if pdpt == 0 { return OutOfFrames; }
      assert EntryOk(frames, roles, pml4, pdpt, page[1]);
      if IsGigabyte(frames[pdpt][page[1]]) {
        // The source marks the entry user before it tests for the huge bit.
        if User in flags { OpenGigabyte(pml4, pdpt, page); }
        return Blocked;
      }
      ghost var m := frames;
      outcome := MapInPdpt(pml4, pdpt, page, phys, flags);
      if outcome.Mapped? {
        if IsTable(0, old(frames)[pml4][page[0]]) && IsTable(1, m[pdpt][page[1]]) {
          assert EntryOk(old(frames), old(roles), pml4, pdpt, page[1]);
        }
        TranslationInstalled(old(frames), m, frames, pml4, pdpt, page, phys, flags);
      }
    }

    /** A read-only page mapped first leaves read-only links, so a page mapped writable beside it
        afterwards cannot be written. */
    method ReadOnlyLinksWin(pml4: nat, first: Page, second: Page, phys: nat, phys2: nat, flags: set<Flag>,
                            flags2: set<Flag>)
      requires Valid() && PrivateTree(frames, roles, pml4) && Huge !in flags && Huge !in flags2
      requires first != second && first[..3] == second[..3] && Present !in frames[pml4][first[0]].flags && |free| >= 3
      requires Writable !in flags
      modifies this
      ensures Valid() && PrivateTree(frames, roles, pml4)
      ensures Translate(frames, pml4, first).Maps? && Translate(frames, pml4, first).frame == phys
      ensures Translate(frames, pml4, second).Maps? && Translate(frames, pml4, second).frame == phys2
      ensures !Translate(frames, pml4, second).rights.writable
    {
      assert first[0] == first[..3][0] && first[0] == second[0];
      var one := UserMapPage(pml4, first, phys, flags);
      assert one.Mapped?;
      SamePrefix(frames, pml4, first, second);
      ReadOnlyAbove(frames, pml4, second);
      var two := UserMapPage(pml4, second, phys2, flags2);
      assert two.Mapped?;
    }

    // ----- create_user_address_space ------------------------------------------------------

    /** Frames that were not free keep their contents, and no frame leaves memory. */
    ghost predicate OnlyFreeChanged(was: Frames, wasFree: seq<nat>)
      reads this
    {
      && frames.Keys == was.Keys
      && (forall h | h in was && h !in wasFree :: frames[h] == was[h])
      && (forall h | h in free :: h in wasFree)
    }

    method DeepCopyPd(bootPd: nat) returns (pd: nat)
      requires Valid() && bootPd in frames && bootPd !in free
      modifies this`frames, this`free
      ensures Valid()
      ensures pd == 0 <==> old(free) == []
      ensures pd == 0 ==> frames == old(frames) && free == old(free)
      ensures pd != 0 ==>
                && pd == old(free)[0] && free == old(free)[1..] && pd !in free && pd in old(frames) && pd !in roles
                && frames.Keys == old(frames).Keys
                && (forall h | h in frames && h != pd :: frames[h] == old(frames)[h])
                && PdCopied(frames, pd, bootPd)
    {
      pd := AllocPage();
      if pd == 0 { return; }
      for k := 0 to 512
        modifies `frames
        invariant frames.Keys == old(frames).Keys
        invariant forall h | h in frames && h != pd :: frames[h] == old(frames)[h]
        invariant forall j :: 0 <= j < k ==> frames[pd][j] == StripUser(frames[bootPd][j])
      {
        frames := SetEntry(frames, pd, k, StripUser(frames[bootPd][k]));
      }
    }

    /** The PDPT at `pdpt`, up to entry `n`, copies the boot one, through directories listed in `pds`. */
    ghost predicate PdptBuilt(pdpt: nat, bootPdpt: nat, n: nat, pds: map<nat, nat>, large: bool, complete: bool)
      requires n <= 512
      reads this
    {
      && pdpt in frames && bootPdpt in frames && pdpt !in free && pdpt !in roles && pdpt !in pds && pdpt != 0
      && (forall k | 0 <= k < n :: PdptEntryCopied(frames, frames[pdpt][k], frames[bootPdpt][k]))
      && (forall k | 0 <= k < n && IsTable(1, frames[pdpt][k]) ::
            frames[pdpt][k].frame in pds && pds[frames[pdpt][k].frame] == k)
      && (forall g | g in pds :: g in frames && g !in free && g !in roles && g != 0 && g != bootPdpt &&
            Unmarked(frames[g]) && (large ==> LargePagesOnly(frames[g])))
      && (complete <==> PdptComplete(frames, pdpt, bootPdpt, n))
    }

    /** What entry `k` of a new PDPT becomes: absent, a 1 GB page, or a link to a copied directory. */
    method CopiedPdptEntry(ghost pdpt: nat, bootPdpt: nat, k: nat, ghost pds: map<nat, nat>, ghost large: bool,
                           ghost complete: bool)
      returns (e: Entry, ghost pds': map<nat, nat>)
      requires Valid() && k < 512 && PdptBuilt(pdpt, bootPdpt, k, pds, large, complete)
      requires BootPdpt(frames, free, bootPdpt, large)
      modifies this`frames, this`free
      ensures Valid() && OnlyFreeChanged(old(frames), old(free))
      ensures PdptBuilt(pdpt, bootPdpt, k, pds', large, complete)
      ensures PdptEntryCopied(frames, e, frames[bootPdpt][k])
      ensures IsTable(1, e) ==> e.frame in pds' && pds'[e.frame] == k
      ensures IsTable(1, frames[bootPdpt][k]) ==> (IsTable(1, e) <==> old(free) != [])
      ensures |free| == Left(|old(free)|, if IsTable(1, frames[bootPdpt][k]) then 1 else 0)
      ensures forall g | g in pds' :: g in pds || g in old(free)
    {
      pds' := pds;
      e := ABSENT;
      var boot := frames[bootPdpt][k];
      if Present in boot.flags {
        if Huge in boot.flags {
          e := StripUser(boot);
        } else {
          var pd := DeepCopyPd(boot.frame);
          if pd != 0 {
            pds' := pds[pd := k];
            e := Entry(pd, boot.flags - {User} + {Present});
            assert e.flags == boot.flags - {User};
            forall j | 0 <= j < k
              ensures PdptEntryCopied(frames, frames[pdpt][j], frames[bootPdpt][j])
            {
              assert PdptEntryCopied(old(frames), old(frames)[pdpt][j], old(frames)[bootPdpt][j]);
            }
          }
        }
      }
    }

    /** One iteration of the loop of deep_copy_pdpt. */
    method CopyPdptEntry(pdpt: nat, bootPdpt: nat, k: nat, ghost pds: map<nat, nat>, ghost large: bool,
                         ghost complete: bool)
      returns (ghost pds': map<nat, nat>)
      requires Valid() && k < 512 && PdptBuilt(pdpt, bootPdpt, k, pds, large, complete)
      requires BootPdpt(frames, [pdpt] + free, bootPdpt, large)
      modifies this`frames, this`free
      ensures Valid()
      ensures bootPdpt in old(frames) && bootPdpt in frames && frames[bootPdpt] == old(frames)[bootPdpt]
      ensures PdptBuilt(pdpt, bootPdpt, k + 1, pds', large,
                        complete && (IsTable(1, old(frames)[bootPdpt][k]) ==> old(free) != []))
      ensures |free| == Left(|old(free)|, if IsTable(1, old(frames)[bootPdpt][k]) then 1 else 0)
      ensures frames.Keys == old(frames).Keys && (forall h | h in free :: h in old(free))
      ensures forall h | h in old(frames) && h !in old(free) && h != pdpt :: frames[h] == old(frames)[h]
      ensures forall g | g in pds' :: g in pds || g in old(free)
    {
      var e;
      e, pds' := CopiedPdptEntry(pdpt, bootPdpt, k, pds, large, complete);
      ghost var m := frames;
      frames := SetEntry(frames, pdpt, k, e);
      PdptGrown(m, pdpt, bootPdpt, k, e);
    }

    /** deep_copy_pdpt takes one frame for the PDPT and one for each directory, as long as there are any. */
    method DeepCopyPdpt(bootPdpt: nat, ghost large: bool) returns (pdpt: nat, ghost pds: map<nat, nat>)
      requires Valid() && BootPdpt(frames, free, bootPdpt, large)
      modifies this`frames, this`free
      ensures Valid() && OnlyFreeChanged(old(frames), old(free))
      ensures pdpt == 0 <==> old(free) == []
      ensures pdpt == 0 ==> frames == old(frames) && free == old(free)
      ensures |free| == Left(|old(free)|, 1 + Directories(old(frames)[bootPdpt]))
      ensures pdpt != 0 ==>
                && PdptBuilt(pdpt, bootPdpt, 512, pds, large, |old(free)| >= 1 + Directories(old(frames)[bootPdpt]))
                && pdpt in old(free)
      ensures pdpt != 0 ==> forall g | g in pds :: g in old(free)
    {
      pds := map[];
      pdpt := AllocPage();
      if pdpt == 0 { return; }
      pds := FillPdpt(pdpt, bootPdpt, large);
    }

    /** The loop of deep_copy_pdpt. */
    method FillPdpt(pdpt: nat, bootPdpt: nat, ghost large: bool) returns (ghost pds: map<nat, nat>)
      requires Valid() && PdptBuilt(pdpt, bootPdpt, 0, map[], large, true)
      requires BootPdpt(frames, [pdpt] + free, bootPdpt, large)
      modifies this`frames, this`free
      ensures Valid() && bootPdpt in old(frames)
      ensures PdptBuilt(pdpt, bootPdpt, 512, pds, large, |old(free)| >= Directories(old(frames)[bootPdpt]))
      ensures |free| == Left(|old(free)|, Directories(old(frames)[bootPdpt]))
      ensures frames.Keys == old(frames).Keys && (forall h | h in free :: h in old(free))
      ensures forall h | h in old(frames) && h !in old(free) && h != pdpt :: frames[h] == old(frames)[h]
      ensures forall g | g in pds :: g in old(free)
    {
      pds := map[];
      ghost var entries, used := frames[bootPdpt], 0;
      for k := 0 to 512
        modifies `frames, `free
        invariant Valid() && used == Directories(entries[..k]) && |free| == Left(|old(free)|, used)
        invariant PdptBuilt(pdpt, bootPdpt, k, pds, large, |old(free)| >= used)
        invariant frames.Keys == old(frames).Keys && (forall h | h in free :: h in old(free))
        invariant forall h | h in old(frames) && h !in old(free) && h != pdpt :: frames[h] == old(frames)[h]
        invariant forall g | g in pds :: g in old(free)
      {
        assert frames[bootPdpt] == entries;
        DirectoriesStep(entries, k);
        pds := CopyPdptEntry(pdpt, bootPdpt, k, pds, large, |old(free)| >= used);
        used := used + if IsTable(1, entries[k]) then 1 else 0;
      }
      assert entries[..512] == entries;
    }

    /** The new PML4, up to entry `n`, copies the boot one. */
    ghost predicate RootBuilt(pml4: nat, boot: nat, n: nat, large: bool, complete: bool)
      requires n <= 4
      reads this
    {
      RootSoFar(frames, roles, pml4, boot, n, large, complete)
    }

    /** Hang a finished PDPT under entry `k` of the new PML4. */
    method LinkPdpt(pml4: nat, boot: nat, k: nat, pdpt: nat, ghost pds: map<nat, nat>, ghost large: bool,
                    ghost complete: bool, ghost whole: bool)
      requires Valid() && k < 4 && RootBuilt(pml4, boot, k, large, complete)
      requires BootTree(frames, [pml4] + free, boot, large)
      requires Present in frames[boot][k].flags && PdptBuilt(pdpt, frames[boot][k].frame, 512, pds, large, whole)
      modifies this`frames, this`roles
      ensures Valid() && RootBuilt(pml4, boot, k + 1, large, complete && whole)
      ensures BootTree(frames, [pml4] + free, boot, large)
      ensures frames.Keys == old(frames).Keys && forall h | h in frames && h != pml4 :: frames[h] == old(frames)[h]
      ensures forall f | f in old(roles) :: f in roles && roles[f] == old(roles)[f]
      ensures forall f | f in roles && f !in old(roles) :: (f == pdpt || f in pds) && roles[f].root == pml4
    {
      var link := Entry(pdpt, frames[boot][k].flags - {User} + {Present});
      assert link.flags == frames[boot][k].flags - {User};
      SubtreeRolesAre(roles, pml4, k, pdpt, pds);
      LinkRoot(frames, [pml4] + free, roles, pml4, boot, k, link, pds, large, complete, whole);
      frames := SetEntry(frames, pml4, k, link);
      roles := roles + SubtreeRoles(pml4, k, pdpt, pds);
    }

    /** Copying a PDPT leaves the copy made so far as it was. */
    method CopyPdptOf(pml4: nat, boot: nat, k: nat, ghost large: bool, ghost complete: bool)
      returns (pdpt: nat, ghost pds: map<nat, nat>)
      requires Valid() && k < 4 && RootBuilt(pml4, boot, k, large, complete)
      requires BootTree(frames, [pml4] + free, boot, large) && Present in frames[boot][k].flags
      modifies this`frames, this`free
      ensures Valid() && OnlyFreeChanged(old(frames), old(free))
      ensures RootBuilt(pml4, boot, k, large, complete) && BootTree(frames, [pml4] + free, boot, large)
      ensures frames[boot] == old(frames)[boot] && (pdpt == 0 <==> old(free) == [])
      ensures |free| == Left(|old(free)|, TablesAt(old(frames), old(frames)[boot][k]))
      ensures pdpt != 0 ==>
                PdptBuilt(pdpt, frames[boot][k].frame, 512, pds, large,
                          |old(free)| >= TablesAt(old(frames), old(frames)[boot][k]))
      ensures pdpt != 0 ==> pdpt in old(free) && forall g | g in pds :: g in old(free)
    {
      var e := frames[boot][k];
      assert BootPdpt(frames, [pml4] + free, e.frame, large);
      pdpt, pds := DeepCopyPdpt(e.frame, large);
      BootTreeKept(old(frames), frames, [pml4] + old(free), [pml4] + free, boot, large);
      RootSoFarKept(old(frames), frames, roles, pml4, boot, k, large, complete);
    }

    /** One iteration of the loop of create_user_address_space. */
    method CopyRootEntry(pml4: nat, boot: nat, k: nat, ghost large: bool, ghost complete: bool)
      requires Valid() && k < 4 && RootBuilt(pml4, boot, k, large, complete)
      requires BootTree(frames, [pml4] + free, boot, large)
      modifies this
      ensures Valid() && BootTree(frames, [pml4] + free, boot, large)
      ensures boot in old(frames)
      ensures RootBuilt(pml4, boot, k + 1, large,
                        complete && |old(free)| >= TablesAt(old(frames), old(frames)[boot][k]))
      ensures |free| == Left(|old(free)|, TablesAt(old(frames), old(frames)[boot][k]))
      ensures frames.Keys == old(frames).Keys && (forall h | h in free :: h in old(free))
      ensures forall h | h in old(frames) && h !in old(free) && h != pml4 :: frames[h] == old(frames)[h]
      ensures forall f | f in old(roles) :: f in roles && roles[f] == old(roles)[f]
      ensures forall f | f in roles && f !in old(roles) :: f in old(free) && roles[f].root == pml4
    {
      if Present !in frames[boot][k].flags { return; }
      var pdpt, pds := CopyPdptOf(pml4, boot, k, large, complete);
      if pdpt == 0 { return; }
      LinkPdpt(pml4, boot, k, pdpt, pds, large, complete,
               |old(free)| >= TablesAt(old(frames), old(frames)[boot][k]));
    }

    /** The zeroed PML4 that create_user_address_space starts from. */
    method NewRoot(ghost boot: nat, ghost large: bool) returns (pml4: nat)
      requires Valid() && BootTree(frames, free, boot, large)
      requires forall f {:trigger roles[f].root} :: f in roles ==> roles[f].root in roles
      modifies this
      ensures Valid() && OnlyFreeChanged(old(frames), old(free))
      ensures pml4 == 0 <==> old(free) == []
      ensures pml4 == 0 ==> roles == old(roles) && free == old(free)
      ensures pml4 != 0 ==> pml4 in old(free) && pml4 !in free && roles == old(roles)[pml4 := Role(pml4, [], 0)]
      ensures pml4 != 0 ==> RootBuilt(pml4, boot, 0, large, true) && BootTree(frames, [pml4] + free, boot, large)
      ensures pml4 != 0 ==> |free| == |old(free)| - 1
    {
      pml4 := AllocPage();
      if pml4 == 0 { return; }
      frames := frames[pml4 := ZERO_TABLE];
      roles := roles[pml4 := Role(pml4, [], 0)];
    }

    /** create_user_address_space takes one frame for each table it copies, as long as there are any, and the
        copy is complete exactly when there were enough. */
    method CreateUserAddressSpace(boot: nat, ghost large: bool) returns (pml4: nat)
      requires Valid() && BootTree(frames, free, boot, large)
      requires forall f {:trigger roles[f].root} :: f in roles ==> roles[f].root in roles
      modifies this
      ensures Valid() && OnlyFreeChanged(old(frames), old(free))
      ensures pml4 == 0 <==> old(free) == []
      ensures |free| == Left(|old(free)|, 1 + CopyTables(old(frames), boot))
      ensures pml4 != 0 ==> pml4 in old(free) && CopiedTree(frames, roles, pml4) && RootCopied(frames, pml4, boot)
      ensures pml4 != 0 ==>
                (RootComplete(frames, pml4, boot, 4) <==> |old(free)| >= 1 + CopyTables(old(frames), boot))
      // The copy translates each page below the first four entries as the boot tree does, without
      // user access; if there were too few frames it may fault instead.
      ensures forall page: Page | pml4 != 0 ::
                Translate(frames, pml4, page) == Fault ||
                (page[0] < 4 && Translate(frames, pml4, page) == Closed(Translate(frames, boot, page)))
      ensures forall page: Page | |old(free)| >= 1 + CopyTables(old(frames), boot) && page[0] < 4 ::
                Translate(frames, pml4, page) == Closed(Translate(frames, boot, page))
      ensures pml4 != 0 && large ==> PrivateTree(frames, roles, pml4)
      ensures forall f | f in old(roles) :: f in roles && roles[f] == old(roles)[f]
      ensures forall f | f in roles && f !in old(roles) :: f in old(free) && roles[f].root == pml4
    {
      pml4 := NewRoot(boot, large);
      if pml4 == 0 { return; }
      ghost var m := frames;
      CopyRootEntries(pml4, boot, large);
      BootTreeKept(old(frames), m, old(free), [pml4] + old(free)[1..], boot, large);
      SameTablesBelow(old(frames), m, boot);
      if large { CopyIsPrivate(frames, roles, pml4); }
      CopyTranslates(frames, pml4, boot);
    }

    /** The loop of create_user_address_space. */
    method CopyRootEntries(pml4: nat, boot: nat, ghost large: bool)
      requires Valid() && RootBuilt(pml4, boot, 0, large, true) && BootTree(frames, [pml4] + free, boot, large)
      requires pml4 !in free
      modifies this
      ensures Valid() && boot in old(frames) && pml4 !in free
      ensures RootBuilt(pml4, boot, 4, large, |old(free)| >= CopyTables(old(frames), boot))
      ensures |free| == Left(|old(free)|, CopyTables(old(frames), boot))
      ensures frames.Keys == old(frames).Keys && (forall h | h in free :: h in old(free))
      ensures forall h | h in old(frames) && h !in old(free) && h != pml4 :: frames[h] == old(frames)[h]
      ensures forall f | f in old(roles) :: f in roles && roles[f] == old(roles)[f]
      ensures forall f | f in roles && f !in old(roles) :: f in old(free) && roles[f].root == pml4
    {
      ghost var entries, n := frames[boot], |free|;
      for k := 0 to 4
        invariant Valid() && pml4 !in free && BootTree(frames, [pml4] + free, boot, large)
        invariant RootBuilt(pml4, boot, k, large, n >= TablesBelow(old(frames), entries[..k]))
        invariant |free| == Left(n, TablesBelow(old(frames), entries[..k]))
        invariant frames.Keys == old(frames).Keys && (forall h | h in free :: h in old(free))
        invariant forall h | h in old(frames) && h !in old(free) && h != pml4 :: frames[h] == old(frames)[h]
        invariant forall f | f in old(roles) :: f in roles && roles[f] == old(roles)[f]
        invariant forall f | f in roles && f !in old(roles) :: f in old(free) && roles[f].root == pml4
      {
        TablesBelowStep(old(frames), entries, k);
        BootTreeKept(old(frames), frames, [pml4] + old(free), [pml4] + free, boot, large);
        CopyRootEntry(pml4, boot, k, large, n >= TablesBelow(old(frames), entries[..k]));
      }
    }

    /** Any run of user_map_page calls on a private tree ends with each page mapped as the last call
        that went through for it asked, and all other pages of the tree as they were, but for 1 GB pages
        opened to user mode; another tree's tables, and so all of its translations, are as they were.
        A call is blocked exactly by a 1 GB page of the tree at the start, and fails otherwise only once
        the frames are used up; three free frames for each call are enough. */
    method MapAll(pml4: nat, requests: seq<Request>, ghost boot: nat) returns (outcomes: seq<Outcome>)
      requires Valid() && PrivateTree(frames, roles, pml4)
      requires forall r | r in requests :: Huge !in r.flags
      requires forall f | TableOf(frames, boot, f) :: f in frames && f !in free && !InTree(roles, pml4, f)
      modifies this
      ensures Valid() && PrivateTree(frames, roles, pml4)
      ensures SameTranslations(old(frames), frames, boot)
      ensures |outcomes| == |requests|
      ensures forall page: Page ::
                Follows(requests, outcomes, page, Translate(old(frames), pml4, page), Translate(frames, pml4, page))
      ensures forall k | 0 <= k < |requests| ::
                outcomes[k].Blocked? <==> GigabytePage(old(frames), pml4, requests[k].page)
      ensures |free| + 3 * |requests| >= |old(free)| && (OutOfFrames in outcomes ==> free == [])
      ensures |old(free)| >= 3 * |requests| ==> OutOfFrames !in outcomes
    {
      outcomes := [];
      for k := 0 to |requests|
        invariant Valid() && PrivateTree(frames, roles, pml4)
        invariant TablesKept(old(frames), frames, boot)
        invariant forall f | TableOf(old(frames), boot, f) :: f !in free && !InTree(roles, pml4, f)
        invariant |outcomes| == k && SoFar(old(frames), frames, pml4, requests, outcomes, |old(free)|, |free|)
      {
        var o := MapNext(pml4, requests, outcomes, old(frames), |old(free)|);
        outcomes := outcomes + [o];
      }
      TreeKept(old(frames), frames, boot);
    }

    /** One call of a run. */
    method MapNext(pml4: nat, requests: seq<Request>, outcomes: seq<Outcome>, ghost start: Frames, ghost n: nat)
      returns (o: Outcome)
      requires Valid() && PrivateTree(frames, roles, pml4)
      requires |outcomes| < |requests| && Huge !in requests[|outcomes|].flags
      requires SoFar(start, frames, pml4, requests, outcomes, n, |free|)
      modifies this
      ensures Valid() && PrivateTree(frames, roles, pml4) && Untouched(old(frames), old(roles), old(free), pml4)
      ensures SoFar(start, frames, pml4, requests, outcomes + [o], n, |free|)
    {
      var r := requests[|outcomes|];
      o := UserMapPage(pml4, r.page, r.phys, r.flags);
      MissingBound(old(frames), pml4, r.page, 0);
      SoFarStep(start, old(frames), frames, pml4, requests, outcomes, o, n, |old(free)|, |free|);
    }

    /** A fresh address space, then any run of mappings in it: no boot translation changes. The pages of
        the new space follow the requests from what the boot tree maps, closed to user mode, or from
        nothing where frames were lacking for the copy. */
    method CreateAndMap(boot: nat, requests: seq<Request>) returns (pml4: nat, outcomes: seq<Outcome>)
      requires Valid() && BootTree(frames, free, boot, true)
      requires forall f {:trigger roles[f].root} :: f in roles ==> roles[f].root in roles
      requires forall f | TableOf(frames, boot, f) :: f in frames && f !in free
      requires forall r | r in requests :: Huge !in r.flags
      modifies this
      ensures Valid() && SameTranslations(old(frames), frames, boot)
      ensures pml4 == 0 <==> old(free) == []
      ensures pml4 != 0 ==> PrivateTree(frames, roles, pml4) && |outcomes| == |requests|
      ensures pml4 != 0 ==> forall page: Page ::
                var was, now := CopyOf(old(frames), boot, page), Translate(frames, pml4, page);
                Follows(requests, outcomes, page, was, now) ||
                (|old(free)| < 1 + CopyTables(old(frames), boot) && Follows(requests, outcomes, page, Fault, now))
      ensures pml4 != 0 ==> forall k | 0 <= k < |requests| ::
                var large := requests[k].page[0] < 4 && GigabytePage(old(frames), boot, requests[k].page);
                if |old(free)| < 1 + CopyTables(old(frames), boot) then outcomes[k].Blocked? ==> large
                else outcomes[k].Blocked? <==> large
      ensures OutOfFrames in outcomes ==> free == []
      ensures |old(free)| >= 1 + CopyTables(old(frames), boot) + 3 * |requests| ==> OutOfFrames !in outcomes
    {
      outcomes := [];
      pml4 := CreateClosed(boot);
      if pml4 == 0 { return; }
      outcomes := MapAll(pml4, requests, boot);
    }

    /** create_user_address_space over large pages, seen from the boot tree before. */
    method CreateClosed(boot: nat) returns (pml4: nat)
      requires Valid() && BootTree(frames, free, boot, true)
      requires forall f {:trigger roles[f].root} :: f in roles ==> roles[f].root in roles
      requires forall f | TableOf(frames, boot, f) :: f in frames && f !in free
      modifies this
      ensures Valid() && SameTranslations(old(frames), frames, boot)
      ensures pml4 == 0 <==> old(free) == []
      ensures |free| == Left(|old(free)|, 1 + CopyTables(old(frames), boot))
      ensures pml4 != 0 ==> PrivateTree(frames, roles, pml4)
      ensures pml4 != 0 ==> forall f | TableOf(frames, boot, f) :: f in frames && f !in free && !InTree(roles, pml4, f)
      ensures pml4 != 0 ==> forall page: Page ::
                Translate(frames, pml4, page) == CopyOf(old(frames), boot, page) ||
                (|free| == 0 && |old(free)| < 1 + CopyTables(old(frames), boot) &&
                 Translate(frames, pml4, page) == Fault)
      ensures pml4 != 0 ==> forall page: Page ::
                var large := page[0] < 4 && GigabytePage(old(frames), boot, page);
                if |old(free)| < 1 + CopyTables(old(frames), boot) then GigabytePage(frames, pml4, page) ==> large
                else GigabytePage(frames, pml4, page) <==> large
    {
      pml4 := CreateUserAddressSpace(boot, true);
      assert TablesKept(old(frames), frames, boot);
      TreeKept(old(frames), frames, boot);
      if pml4 == 0 { return; }
      forall f: nat | TableOf(frames, boot, f)
        ensures f in frames && f !in free && !InTree(roles, pml4, f)
      {
        var page: Page, depth: nat :| depth <= 3 && TableOn(frames, boot, page, depth) == Some(f);
        TableOnKept(old(frames), frames, boot, page, depth);
        assert TableOf(old(frames), boot, f);
      }
      BootGigabytes(old(frames), frames, old(free), boot, true);
      forall page: Page
        ensures GigabytePage(frames, pml4, page) ==> page[0] < 4 && GigabytePage(frames, boot, page)
        ensures RootComplete(frames, pml4, boot, 4) && page[0] < 4 && GigabytePage(frames, boot, page) ==>
                  GigabytePage(frames, pml4, page)
      {
        CopyGigabytes(frames, pml4, boot, page);
      }
    }
  }
}
