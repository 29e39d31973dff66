/**
 Loading shared libraries (kernel/exec/ldso.c): find_loaded_lib, alloc_loaded_lib,
 lib_alloc_pages and the recursive load_library over the global table of loaded libraries.

 The file system is a constant of the linker: for each name, what find_library_path,
 read_whole_file and the ELF parser would find.  A name over 255 characters can be found if it begins
 with / or ./, since it is then taken as a path and cut.
 */
module Linker {
  import opened Options

  const MAX_LOADED_LIBS := 64
  const LIB_VA_START := 0x4000_0000
  const LIB_VA_END := 0x8000_0000
  const NAME_MAX := 255

  /** A file as the loader sees it: whether it is an x86-64 ELF with a PT_LOAD segment, the
      span of its segments, its DT_SONAME ("" if none) and its DT_NEEDED entries in order. */
  datatype Image = Image(loadable: bool, bytes: nat, soname: string, needed: seq<string>)

  datatype Slot = Slot(inUse: bool, name: string, soname: string, start: nat, size: nat,
                       needed: seq<string>, relocated: bool)

  const FREE := Slot(false, "", "", 0, 0, [], false)

  /** strncpy into a char[256] that memset zeroed. */
  function Stored(name: string): (s: string)
    ensures s <= name && |s| == if |name| <= 255 then |name| else 255
  {
    if |name| <= NAME_MAX then name else name[..NAME_MAX]
  }

  /** The smallest number of whole pages that holds so many bytes. */
  function PageRound(bytes: nat): (r: nat)
    ensures bytes <= r < bytes + 0x1000 && r % 0x1000 == 0
  {
    (bytes + 0xFFF) / 0x1000 * 0x1000
  }

  lemma WholePages(bytes: nat)
    ensures PageRound(bytes) / 0x1000 * 0x1000 == PageRound(bytes)
  {
  }

  predicate Matches(s: Slot, name: string) { s.inUse && (s.name == name || s.soname == name) }

  ghost predicate Present(libs: seq<Slot>, name: string) {
    exists i :: 0 <= i < |libs| && Matches(libs[i], name)
  }

  function FreeSlots(libs: seq<Slot>): nat {
    if libs == [] then 0 else FreeSlots(libs[..|libs| - 1]) + if libs[|libs| - 1].inUse then 0 else 1
  }

  lemma {:induction false} FreeSlotsUpdate(libs: seq<Slot>, i: nat, s: Slot)
    requires i < |libs|
    ensures FreeSlots(libs[i := s]) + (if s.inUse then 1 else 0) == FreeSlots(libs) + if libs[i].inUse then 1 else 0
  {
    var n := |libs| - 1;
    if i < n {
      FreeSlotsUpdate(libs[..n], i, s);
      assert libs[i := s][..n] == libs[..n][i := s];
    } else {
      assert libs[i := s][..n] == libs[..n];
    }
  }

  /** The bytes of address range that the slots in use take up. */
  function Used(libs: seq<Slot>): nat {
    if libs == [] then 0 else
      Used(libs[..|libs| - 1]) + if libs[|libs| - 1].inUse then libs[|libs| - 1].size else 0
  }

  lemma {:induction false} UsedUpdate(libs: seq<Slot>, i: nat, s: Slot)
    requires i < |libs|
    ensures Used(libs[i := s]) + (if libs[i].inUse then libs[i].size else 0) ==
            Used(libs) + if s.inUse then s.size else 0
  {
    var n := |libs| - 1;
    if i < n {
      UsedUpdate(libs[..n], i, s);
      assert libs[i := s][..n] == libs[..n][i := s];
    } else {
      assert libs[i := s][..n] == libs[..n];
    }
  }

  lemma {:induction false} NothingUsed(libs: seq<Slot>)
    requires forall i | 0 <= i < |libs| :: !libs[i].inUse
    ensures Used(libs) == 0
  {
    if libs != [] { NothingUsed(libs[..|libs| - 1]); }
  }

  /** Slots in use keep their contents; only free ones were filled. */
  ghost predicate Extends(was: seq<Slot>, now: seq<Slot>) {
    |was| == |now| && forall i :: 0 <= i < |was| && was[i].inUse ==> now[i] == was[i]
  }

  lemma PresentKept(was: seq<Slot>, now: seq<Slot>, name: string)
    requires Extends(was, now) && Present(was, name)
    ensures Present(now, name)
  {
    var i :| 0 <= i < |was| && Matches(was[i], name);
    assert Matches(now[i], name);
  }

  predicate Apart(s: Slot, t: Slot) { s.start + s.size <= t.start || t.start + t.size <= s.start }

  /** The table of loaded libraries: images lie in disjoint address ranges below `vaPtr`. */
  ghost predicate TableOk(libs: seq<Slot>, vaPtr: nat) {
    && |libs| == MAX_LOADED_LIBS
    && LIB_VA_START <= vaPtr <= LIB_VA_END
    && (forall i | 0 <= i < |libs| && libs[i].inUse ::
          |libs[i].name| <= NAME_MAX && |libs[i].soname| <= NAME_MAX &&
          LIB_VA_START <= libs[i].start && libs[i].start + libs[i].size <= vaPtr)
    && (forall i, j | 0 <= i < j < |libs| && libs[i].inUse && libs[j].inUse :: Apart(libs[i], libs[j]))
  }

  /** What is left to load into: free slots, the next address, and physical pages. */
  datatype Room = Room(slots: nat, vaPtr: nat, pages: nat)

  predicate Fits(room: Room, image: Image) {
    && room.slots > 0
    && room.vaPtr + PageRound(image.bytes) <= LIB_VA_END && PageRound(image.bytes) / 0x1000 <= room.pages
  }

  /** What is left after loading the image. */
  function After(room: Room, image: Image): Room
    requires Fits(room, image)
  {
    Room(room.slots - 1, room.vaPtr + PageRound(image.bytes), room.pages - PageRound(image.bytes) / 0x1000)
  }

  predicate NoMore(was: Room, now: Room) {
    now.slots <= was.slots && was.vaPtr <= now.vaPtr && now.pages <= was.pages
  }

  /** The dependency is in the table, or cannot be loaded, or its image does not fit into what is left. */
  ghost predicate Satisfied(libs: seq<Slot>, disk: map<string, Image>, room: Room, name: string) {
    Present(libs, Stored(name)) || !(name in disk && disk[name].loadable && Fits(room, disk[name]))
  }

  /** A library is relocated only once its dependencies are in the table. */
  ghost predicate Closed(libs: seq<Slot>, disk: map<string, Image>, room: Room) {
    forall i, d | 0 <= i < |libs| && libs[i].inUse && libs[i].relocated && d in libs[i].needed ::
      Satisfied(libs, disk, room, d)
  }

  /** The slot holds the loadable file of that name. */
  predicate Holds(s: Slot, disk: map<string, Image>, name: string) {
    && name in disk && disk[name].loadable && s.name == Stored(name)
    && s.soname == Stored(disk[name].soname) && s.needed == disk[name].needed && s.size == PageRound(disk[name].bytes)
  }

  /** Images lie in the library range, and no byte of one is a byte of another. */
  lemma ImagesDisjoint(libs: seq<Slot>, vaPtr: nat, disk: map<string, Image>, i: nat, j: nat, m: string, n: string)
    requires TableOk(libs, vaPtr) && i < |libs| && libs[i].inUse && Holds(libs[i], disk, m)
    requires i != j && j < |libs| && libs[j].inUse && Holds(libs[j], disk, n)
    ensures 0x4000_0000 <= libs[i].start && libs[i].start + disk[m].bytes <= 0x8000_0000
    ensures libs[i].start + disk[m].bytes <= libs[j].start || libs[j].start + disk[n].bytes <= libs[i].start
  {
    assert Apart(libs[if i < j then i else j], libs[if i < j then j else i]);
  }

  /** Some file name over 255 characters is cut to this one. */
  ghost predicate Merged(disk: map<string, Image>, name: string) {
    exists n :: n in disk && |n| > NAME_MAX && Stored(n) == name
  }

  /** Each slot in use holds a file, and a name has one slot unless a longer name is cut to it. */
  ghost predicate Filled(libs: seq<Slot>, disk: map<string, Image>) {
    && (forall i | 0 <= i < |libs| && libs[i].inUse :: exists n :: Holds(libs[i], disk, n))
    && (forall i, j | 0 <= i < j < |libs| && libs[i].inUse && libs[j].inUse && libs[i].name == libs[j].name ::
          Merged(disk, libs[i].name))
  }

  /** Each name of the list can be loaded and needs the next one. */
  predicate IsNeededPath(disk: map<string, Image>, p: seq<string>) {
    |p| > 0 && forall k | 0 <= k < |p| - 1 ::
      p[k] in disk && disk[p[k]].loadable && p[k + 1] in disk[p[k]].needed
  }

  /** `to` is `from` or a dependency of it, direct or not. */
  ghost predicate Needs(disk: map<string, Image>, from: string, to: string) {
    exists p :: IsNeededPath(disk, p) && p[0] == from && p[|p| - 1] == to
  }

  lemma NeedsItself(disk: map<string, Image>, name: string)
    ensures Needs(disk, name, name)
  {
    assert IsNeededPath(disk, [name]);
  }

  lemma NeedsThrough(disk: map<string, Image>, from: string, via: string, to: string)
    requires from in disk && disk[from].loadable && via in disk[from].needed && Needs(disk, via, to)
    ensures Needs(disk, from, to)
  {
    var p :| IsNeededPath(disk, p) && p[0] == via && p[|p| - 1] == to;
    var q := [from] + p;
    assert forall k | 0 < k < |q| :: q[k] == p[k - 1];
    assert IsNeededPath(disk, q);
  }

  /** The slot was filled with the file of one of the names, or of a dependency of one, that was not there. */
  ghost predicate BroughtFor(was: seq<Slot>, s: Slot, disk: map<string, Image>, names: seq<string>) {
    exists name, d :: name in names && Needs(disk, name, d) && Holds(s, disk, d) && !Present(was, d)
  }

  /** The slots that are in use now and were not before hold files asked for, relocated. */
  ghost predicate Brought(was: seq<Slot>, now: seq<Slot>, disk: map<string, Image>, names: seq<string>) {
    |was| == |now| && forall i | 0 <= i < |now| && now[i].inUse && !was[i].inUse ::
      now[i].relocated && BroughtFor(was, now[i], disk, names)
  }

  lemma SlotAdded(libs: seq<Slot>, vaPtr: nat, disk: map<string, Image>, i: nat, s: Slot, vaPtr': nat, name: string)
    requires TableOk(libs, vaPtr) && Filled(libs, disk) && i < |libs| && !libs[i].inUse && s.inUse
    requires s.start == vaPtr && vaPtr + s.size == vaPtr' <= LIB_VA_END
    requires Holds(s, disk, name) && !Present(libs, name)
    ensures var now := libs[i := s];
            && TableOk(now, vaPtr') && Filled(now, disk) && Extends(libs, now)
            && FreeSlots(now) == FreeSlots(libs) - 1 && Used(now) == Used(libs) + s.size
  {
    FreeSlotsUpdate(libs, i, s);
    UsedUpdate(libs, i, s);
    FileAdded(libs, disk, i, s, name);
  }

  lemma FileAdded(libs: seq<Slot>, disk: map<string, Image>, i: nat, s: Slot, name: string)
    requires Filled(libs, disk) && i < |libs| && !libs[i].inUse && Holds(s, disk, name) && !Present(libs, name)
    ensures Filled(libs[i := s], disk)
  {
    NameIsNew(libs, name);
    var now := libs[i := s];
    forall j, k | 0 <= j < k < |now| && now[j].inUse && now[k].inUse && now[j].name == now[k].name
      ensures Merged(disk, now[j].name)
    {
      if j == i || k == i { assert |name| > NAME_MAX; }
    }
  }

  lemma SlotGivenBack(libs: seq<Slot>, vaPtr: nat, disk: map<string, Image>, i: nat, s: Slot)
    requires TableOk(libs, vaPtr) && Filled(libs, disk) && i < |libs| && !libs[i].inUse && !s.inUse
    ensures var now := libs[i := s];
            && TableOk(now, vaPtr) && Filled(now, disk) && Extends(libs, now)
            && FreeSlots(now) == FreeSlots(libs) && Used(now) == Used(libs)
  {
    FreeSlotsUpdate(libs, i, s);
    UsedUpdate(libs, i, s);
  }

  lemma NameIsNew(libs: seq<Slot>, name: string)
    requires !Present(libs, name)
    ensures forall j | 0 <= j < |libs| && libs[j].inUse :: libs[j].name != name
  {
    assert forall j | 0 <= j < |libs| && libs[j].inUse :: !Matches(libs[j], name);
  }

  lemma SatisfiedKept(was: seq<Slot>, now: seq<Slot>, disk: map<string, Image>, room: Room, room': Room, d: string)
    requires Extends(was, now) && Satisfied(was, disk, room, d) && NoMore(room, room')
    ensures Satisfied(now, disk, room', d)
  {
    if Present(was, Stored(d)) { PresentKept(was, now, Stored(d)); }
  }

  ghost predicate AllSatisfied(libs: seq<Slot>, disk: map<string, Image>, room: Room, names: seq<string>) {
    forall d | d in names :: Satisfied(libs, disk, room, d)
  }

  lemma OneMoreSatisfied(was: seq<Slot>, now: seq<Slot>, disk: map<string, Image>, room: Room, room': Room,
                         names: seq<string>, k: nat)
    requires k < |names| && AllSatisfied(was, disk, room, names[..k]) && Satisfied(now, disk, room', names[k])
    requires Extends(was, now) && NoMore(room, room')
    ensures AllSatisfied(now, disk, room', names[..k + 1])
  {
    forall d | d in names[..k + 1] ensures Satisfied(now, disk, room', d) {
      assert names[..k + 1] == names[..k] + [names[k]];
      if d in names[..k] { SatisfiedKept(was, now, disk, room, room', d); }
    }
  }

  lemma ExtendsFurther(was: seq<Slot>, mid: seq<Slot>, now: seq<Slot>)
    requires Extends(was, mid) && Extends(mid, now)
    ensures Extends(was, now)
  {
  }

  lemma ClosedKept(was: seq<Slot>, now: seq<Slot>, disk: map<string, Image>, room: Room, room': Room)
    requires Extends(was, now) && Closed(was, disk, room) && NoMore(room, room')
    requires forall i | 0 <= i < |now| && now[i].inUse && now[i].relocated :: was[i].inUse && was[i].relocated
    ensures Closed(now, disk, room')
  {
    forall i, d | 0 <= i < |now| && now[i].inUse && now[i].relocated && d in now[i].needed
      ensures Satisfied(now, disk, room', d)
    {
      assert now[i] == was[i];
      SatisfiedKept(was, now, disk, room, room', d);
    }
  }

  /** Marking a slot relocated leaves its file and its names as they are. */
  lemma RelocatedFiles(libs: seq<Slot>, disk: map<string, Image>, i: nat)
    requires Filled(libs, disk) && i < |libs| && libs[i].inUse
    ensures var now := libs[i := libs[i].(relocated := true)];
            Filled(now, disk) && forall d | Present(libs, d) :: Present(now, d)
  {
    var now := libs[i := libs[i].(relocated := true)];
    forall j | 0 <= j < |now| && now[j].inUse ensures exists n :: Holds(now[j], disk, n) {
      var n :| Holds(libs[j], disk, n);
      assert Holds(now[j], disk, n);
    }
    forall d | Present(libs, d) ensures Present(now, d) {
      var j :| 0 <= j < |libs| && Matches(libs[j], d);
      assert Matches(now[j], d);
    }
  }

  lemma RelocatedTable(libs: seq<Slot>, vaPtr: nat, i: nat)
    requires TableOk(libs, vaPtr) && i < |libs| && libs[i].inUse
    ensures TableOk(libs[i := libs[i].(relocated := true)], vaPtr)
  {
  }

  lemma RelocateSlot(libs: seq<Slot>, vaPtr: nat, disk: map<string, Image>, room: Room, i: nat)
    requires TableOk(libs, vaPtr) && Closed(libs, disk, room) && Filled(libs, disk) && i < |libs| && libs[i].inUse
    requires AllSatisfied(libs, disk, room, libs[i].needed)
    ensures var now := libs[i := libs[i].(relocated := true)];
            && TableOk(now, vaPtr) && Closed(now, disk, room) && Filled(now, disk)
            && FreeSlots(now) == FreeSlots(libs) && Used(now) == Used(libs)
    ensures forall d | Present(libs, d) :: Present(libs[i := libs[i].(relocated := true)], d)
  {
    var now := libs[i := libs[i].(relocated := true)];
    FreeSlotsUpdate(libs, i, now[i]);
    UsedUpdate(libs, i, now[i]);
    RelocatedTable(libs, vaPtr, i);
    RelocatedFiles(libs, disk, i);
    forall j, d | 0 <= j < |now| && now[j].inUse && now[j].relocated && d in now[j].needed
      ensures Satisfied(now, disk, room, d)
    {
      assert now[j].needed == libs[j].needed;
      assert Satisfied(libs, disk, room, d);
    }
  }

  lemma {:induction false} NoneUsed(libs: seq<Slot>)
    requires forall i | 0 <= i < |libs| :: !libs[i].inUse
    ensures FreeSlots(libs) == |libs|
  {
    if libs != [] { NoneUsed(libs[..|libs| - 1]); }
  }

  lemma {:induction false} NoneFree(libs: seq<Slot>)
    ensures FreeSlots(libs) == 0 <==> forall i | 0 <= i < |libs| :: libs[i].inUse
  {
    if libs != [] { NoneFree(libs[..|libs| - 1]); }
  }

  lemma BroughtMore(was: seq<Slot>, before: seq<Slot>, now: seq<Slot>, disk: map<string, Image>, names: seq<string>,
                    k: nat)
    requires Extends(was, before) && Extends(before, now) && Brought(was, before, disk, names) && k < |names|
    requires Brought(before, now, disk, [names[k]])
    ensures Brought(was, now, disk, names)
  {
    forall j | 0 <= j < |now| && now[j].inUse && !was[j].inUse
      ensures now[j].relocated && BroughtFor(was, now[j], disk, names)
    {
      if !before[j].inUse {
        var name, d :| name in [names[k]] && Needs(disk, name, d) && Holds(now[j], disk, d) && !Present(before, d);
        if Present(was, d) { PresentKept(was, before, d); }
        assert name in names;
      }
    }
  }

  /** A name that is found was not cut. */
  lemma ShortNameStored(libs: seq<Slot>, vaPtr: nat, name: string)
    requires TableOk(libs, vaPtr) && Present(libs, name)
    ensures Stored(name) == name
  {
    if |name| > NAME_MAX { LongNameNeverPresent(libs, vaPtr, name); }
  }

  /** One library more, then its dependencies: all of it was asked for. */
  lemma BroughtByLoad(was: seq<Slot>, mapped: seq<Slot>, now: seq<Slot>, disk: map<string, Image>, name: string, i: nat)
    requires name in disk && i < |was| == |mapped|
    requires Brought(mapped, now, disk, disk[name].needed) && Extends(was, mapped) && Extends(mapped, now)
    requires !Present(was, name)
    requires mapped[i].inUse && Holds(mapped[i], disk, name)
    requires forall j | 0 <= j < |mapped| && j != i && mapped[j].inUse :: was[j].inUse
    ensures Brought(was, now[i := now[i].(relocated := true)], disk, [name])
  {
    var after := now[i := now[i].(relocated := true)];
    forall j | 0 <= j < |after| && after[j].inUse && !was[j].inUse ensures BroughtFor(was, after[j], disk, [name]) {
      if j == i {
        NeedsItself(disk, name);
        assert name in [name] && Holds(after[i], disk, name);
      } else {
        var via, d :|
          via in disk[name].needed && Needs(disk, via, d) && Holds(now[j], disk, d) && !Present(mapped, d);
        if Present(was, d) { PresentKept(was, mapped, d); }
        NeedsThrough(disk, name, via, d);
        assert name in [name] && Holds(after[j], disk, d);
      }
    }
  }

  /** No slot can answer to a name over 255 characters, so asking again loads the file again. */
  lemma LongNameNeverPresent(libs: seq<Slot>, vaPtr: nat, name: string)
    requires TableOk(libs, vaPtr) && |name| > NAME_MAX
    ensures !Present(libs, name)
  {
  }

  // ----- Room enough for everything asked for ------------------------------------------

  /** The loadable files that loading `name` asks for and that are not there yet. */
  ghost function Wanted(libs: seq<Slot>, disk: map<string, Image>, name: string): set<string> {
    set d | d in disk && disk[d].loadable && Needs(disk, name, d) && !Present(libs, d)
  }

  /** The address range that files with these names take up. */
  ghost function TotalSize(disk: map<string, Image>, names: set<string>): nat
    requires names <= disk.Keys
  {
    if names == {} then 0 else
      var d :| d in names;
      PageRound(disk[d].bytes) + TotalSize(disk, names - {d})
  }

  lemma {:induction false} TotalWithout(disk: map<string, Image>, names: set<string>, d: string)
    requires names <= disk.Keys && d in names
    ensures TotalSize(disk, names) == PageRound(disk[d].bytes) + TotalSize(disk, names - {d})
    decreases |names|
  {
    var e :| e in names && TotalSize(disk, names) == PageRound(disk[e].bytes) + TotalSize(disk, names - {e});
    if e != d {
      TotalWithout(disk, names - {e}, d);
      TotalWithout(disk, names - {d}, e);
      assert names - {e} - {d} == names - {d} - {e};
    }
  }

  lemma {:induction false} TotalSubset(disk: map<string, Image>, some: set<string>, all: set<string>)
    requires some <= all <= disk.Keys
    ensures TotalSize(disk, some) <= TotalSize(disk, all) && |some| <= |all|
    decreases |all|
  {
    if d :| d in all && d !in some {
      TotalWithout(disk, all, d);
      TotalSubset(disk, some, all - {d});
    } else {
      assert some == all;
    }
  }

  /** Slots, addresses and pages suffice for all of them. */
  ghost predicate Enough(libs: seq<Slot>, disk: map<string, Image>, room: Room, name: string) {
    var wanted := Wanted(libs, disk, name);
    && |wanted| <= room.slots
    && room.vaPtr + TotalSize(disk, wanted) <= LIB_VA_END && TotalSize(disk, wanted) <= room.pages * 0x1000
  }

  /** No two of them share a name once cut. */
  ghost predicate NamesStay(libs: seq<Slot>, disk: map<string, Image>, name: string) {
    forall d | d in Wanted(libs, disk, name) :: |d| <= NAME_MAX && !Merged(disk, d)
  }

  /** A file that answers to another file's name, as its soname or cut, needs the same libraries. */
  ghost predicate AliasesAgree(disk: map<string, Image>) {
    forall m, n | m in disk && n in disk && disk[m].loadable && disk[n].loadable &&
                  (Stored(m) == n || Stored(disk[m].soname) == n) :: disk[m].needed == disk[n].needed
  }

  /** No file answers to another file's name. */
  ghost predicate NoAliases(disk: map<string, Image>) {
    forall m, n | m in disk && n in disk && (Stored(m) == n || Stored(disk[m].soname) == n) :: m == n
  }

  /** The names of the slots that were filled, among the first `k`. */
  function NewNames(was: seq<Slot>, now: seq<Slot>, k: nat): set<string>
    requires k <= |was| == |now|
  {
    set i | 0 <= i < k && now[i].inUse && !was[i].inUse :: now[i].name
  }

  /** Each slot that was filled holds the file of its name, and no other slot has that name. */
  ghost predicate FilledOnce(was: seq<Slot>, now: seq<Slot>, disk: map<string, Image>) {
    |was| == |now| && forall i | 0 <= i < |now| && now[i].inUse && !was[i].inUse ::
      && now[i].name in disk && now[i].size == PageRound(disk[now[i].name].bytes)
      && forall j | 0 <= j < |now| && j != i && now[j].inUse :: now[j].name != now[i].name
  }

  lemma PrefixStep(libs: seq<Slot>, k: nat)
    requires k < |libs|
    ensures FreeSlots(libs[..k + 1]) == FreeSlots(libs[..k]) + if libs[k].inUse then 0 else 1
    ensures Used(libs[..k + 1]) == Used(libs[..k]) + if libs[k].inUse then libs[k].size else 0
  {
    assert libs[..k + 1][..k] == libs[..k];
  }

  lemma NewNamesStep(was: seq<Slot>, now: seq<Slot>, disk: map<string, Image>, k: nat)
    requires FilledOnce(was, now, disk) && k < |was|
    ensures var before, after := NewNames(was, now, k), NewNames(was, now, k + 1);
            if now[k].inUse && !was[k].inUse
            then now[k].name in disk && after == before + {now[k].name} && before == after - {now[k].name}
            else after == before
  {
  }

  /** What was used up is what the new files take. */
  lemma {:induction false} RoomTaken(was: seq<Slot>, now: seq<Slot>, disk: map<string, Image>, k: nat)
    requires FilledOnce(was, now, disk) && Extends(was, now) && k <= |was|
    ensures NewNames(was, now, k) <= disk.Keys
    ensures FreeSlots(was[..k]) == FreeSlots(now[..k]) + |NewNames(was, now, k)|
    ensures Used(now[..k]) == Used(was[..k]) + TotalSize(disk, NewNames(was, now, k))
  {
    if k == 0 {
      assert NewNames(was, now, 0) == {};
    } else {
      RoomTaken(was, now, disk, k - 1);
      PrefixStep(was, k - 1);
      PrefixStep(now, k - 1);
      NewNamesStep(was, now, disk, k - 1);
      if now[k - 1].inUse && !was[k - 1].inUse {
        TotalWithout(disk, NewNames(was, now, k), now[k - 1].name);
      }
    }
  }

  /** A load of `name` that took the table from `was` to `now`, and the room from `room` to `left`. */
  ghost predicate Load(was: seq<Slot>, now: seq<Slot>, disk: map<string, Image>, room: Room, left: Room, name: string) {
    && Brought(was, now, disk, [name]) && Extends(was, now) && Filled(now, disk)
    && room.slots == FreeSlots(was) && left.slots == FreeSlots(now)
    && left.vaPtr - room.vaPtr == Used(now) - Used(was) == room.pages * 0x1000 - left.pages * 0x1000
  }

  lemma NewFilesWanted(was: seq<Slot>, now: seq<Slot>, disk: map<string, Image>, name: string)
    requires Brought(was, now, disk, [name]) && Filled(now, disk) && NamesStay(was, disk, name)
    ensures FilledOnce(was, now, disk) && NewNames(was, now, |now|) <= Wanted(was, disk, name)
  {
    forall i | 0 <= i < |now| && now[i].inUse && !was[i].inUse
      ensures now[i].name in Wanted(was, disk, name) && Holds(now[i], disk, now[i].name)
    {
      var n, d :| n in [name] && Needs(disk, n, d) && Holds(now[i], disk, d) && !Present(was, d);
      assert d in Wanted(was, disk, name);
    }
  }

  /** The new files take exactly the room that is gone. */
  lemma LoadTakes(was: seq<Slot>, now: seq<Slot>, disk: map<string, Image>, room: Room, left: Room, name: string)
    requires Load(was, now, disk, room, left, name) && NamesStay(was, disk, name)
    ensures var added := NewNames(was, now, |now|);
            && added <= Wanted(was, disk, name)
            && room.slots == left.slots + |added|
            && left.vaPtr == room.vaPtr + TotalSize(disk, added)
            && room.pages * 0x1000 == left.pages * 0x1000 + TotalSize(disk, added)
  {
    NewFilesWanted(was, now, disk, name);
    RoomTaken(was, now, disk, |was|);
    assert was[..|was|] == was && now[..|now|] == now;
  }

  /** With room enough at the start, a file that was asked for and is still missing fits. */
  lemma StillFits(was: seq<Slot>, now: seq<Slot>, disk: map<string, Image>, room: Room, left: Room, name: string,
                  d: string)
    requires Load(was, now, disk, room, left, name) && NamesStay(was, disk, name) && Enough(was, disk, room, name)
    requires d in Wanted(was, disk, name) && !Present(now, d)
    ensures Fits(left, disk[d])
  {
    LoadTakes(was, now, disk, room, left, name);
    var added, wanted := NewNames(was, now, |now|), Wanted(was, disk, name);
    NameIsNew(now, d);
    TotalSubset(disk, added, wanted - {d});
    TotalWithout(disk, wanted, d);
    WholePages(disk[d].bytes);
  }

  /** So it is not missing, if the table is closed under DT_NEEDED but for what does not fit. */
  lemma NotMissing(was: seq<Slot>, now: seq<Slot>, disk: map<string, Image>, room: Room, left: Room, name: string,
                   d: string)
    requires Load(was, now, disk, room, left, name) && NamesStay(was, disk, name) && Enough(was, disk, room, name)
    requires d in disk && disk[d].loadable && Needs(disk, name, d) && Satisfied(now, disk, left, d)
    ensures Present(now, d)
  {
    if Present(was, d) {
      PresentKept(was, now, d);
    } else {
      assert d in Wanted(was, disk, name);
      if !Present(now, d) { StillFits(was, now, disk, room, left, name, d); }
    }
  }

  /** What a file in the table needs is satisfied, by whatever name it goes. */
  lemma NextSatisfied(now: seq<Slot>, disk: map<string, Image>, left: Room, v: string, d: string)
    requires Filled(now, disk) && Closed(now, disk, left) && AliasesAgree(disk)
    requires forall i | 0 <= i < |now| && now[i].inUse :: now[i].relocated
    requires Present(now, v) && v in disk && disk[v].loadable && d in disk[v].needed
    ensures Satisfied(now, disk, left, d)
  {
    var i :| 0 <= i < |now| && Matches(now[i], v);
    var m :| Holds(now[i], disk, m);
    assert d in now[i].needed;
  }

  /** A table that has each file whose dependants it has holds whatever the path leads to. */
  lemma {:induction false} PathPresent(now: seq<Slot>, disk: map<string, Image>, left: Room, name: string,
                                       p: seq<string>)
    requires IsNeededPath(disk, p) && p[0] == name && p[|p| - 1] in disk && disk[p[|p| - 1]].loadable
    requires Satisfied(now, disk, left, name)
    requires forall d | d in disk && disk[d].loadable && Needs(disk, name, d) && Satisfied(now, disk, left, d) ::
               Present(now, d)
    requires forall v, d | Present(now, v) && v in disk && disk[v].loadable && d in disk[v].needed ::
               Satisfied(now, disk, left, d)
    ensures Present(now, p[|p| - 1])
    decreases |p|
  {
    var n := |p| - 1;
    if n > 0 {
      PathPresent(now, disk, left, name, p[..n]);
      assert Satisfied(now, disk, left, p[n]);
    }
    assert Needs(disk, name, p[n]);
  }

  /** Every loadable file that loading `name` asks for is in the table. */
  ghost predicate Complete(libs: seq<Slot>, disk: map<string, Image>, name: string) {
    forall d | d in disk && disk[d].loadable && Needs(disk, name, d) :: Present(libs, d)
  }

  lemma RoomSuffices(was: seq<Slot>, now: seq<Slot>, disk: map<string, Image>, room: Room, left: Room, name: string)
    requires Load(was, now, disk, room, left, name) && NamesStay(was, disk, name) && Enough(was, disk, room, name)
    requires Satisfied(now, disk, left, name) && Closed(now, disk, left) && AliasesAgree(disk)
    requires forall i | 0 <= i < |now| && now[i].inUse :: now[i].relocated
    ensures Complete(now, disk, name)
  {
    forall d | d in disk && disk[d].loadable && Needs(disk, name, d) && Satisfied(now, disk, left, d)
      ensures Present(now, d)
    {
      NotMissing(was, now, disk, room, left, name, d);
    }
    forall v, d | Present(now, v) && v in disk && disk[v].loadable && d in disk[v].needed
      ensures Satisfied(now, disk, left, d)
    {
      NextSatisfied(now, disk, left, v, d);
    }
    forall d | d in disk && disk[d].loadable && Needs(disk, name, d) ensures Present(now, d) {
      var p :| IsNeededPath(disk, p) && p[0] == name && p[|p| - 1] == d;
      PathPresent(now, disk, left, name, p);
    }
  }

  /** All of them are there only if there was room for them. */
  lemma RoomNeeded(was: seq<Slot>, now: seq<Slot>, disk: map<string, Image>, room: Room, left: Room, name: string)
    requires Load(was, now, disk, room, left, name) && NamesStay(was, disk, name) && NoAliases(disk)
    requires left.vaPtr <= LIB_VA_END && Complete(now, disk, name)
    ensures Enough(was, disk, room, name)
  {
    LoadTakes(was, now, disk, room, left, name);
    forall d | d in Wanted(was, disk, name) ensures d in NewNames(was, now, |now|) {
      var i :| 0 <= i < |now| && Matches(now[i], d);
      assert !Matches(was[i], d);
      var m :| Holds(now[i], disk, m);
    }
    assert NewNames(was, now, |now|) == Wanted(was, disk, name);
  }

  class DynamicLinker {
    const disk: map<string, Image>
    var libs: seq<Slot>
    var vaPtr: nat
    var pages: nat            // physical pages that pmm_alloc_page can still deliver
    ghost const budget: nat   // the bytes of physical memory at the start

    ghost predicate Valid()
      reads this
    {
      TableOk(libs, vaPtr) && Closed(libs, disk, RoomLeft()) && Filled(libs, disk) && Accounted()
    }

    /** Addresses and pages are taken by the libraries in the table and by nothing else. */
    ghost predicate Accounted()
      reads this
    {
      vaPtr == LIB_VA_START + Used(libs) && pages * 0x1000 + Used(libs) == budget
    }

    ghost function RoomLeft(): Room
      reads this
    {
      Room(FreeSlots(libs), vaPtr, pages)
    }

    constructor (disk: map<string, Image>, pages: nat)
      ensures Valid() && this.disk == disk && this.pages == pages
      ensures forall i | 0 <= i < |libs| :: !libs[i].inUse
      ensures RoomLeft() == Room(64, 0x4000_0000, pages)
    {
      this.disk, this.pages := disk, pages;
      libs := seq(MAX_LOADED_LIBS, _ => FREE);
      vaPtr := LIB_VA_START;
      budget := pages * 0x1000;
      new;
      NothingUsed(libs);
      NoneUsed(libs);
    }

    method FindLoadedLib(name: string) returns (r: Option<nat>)
      ensures r.None? <==> !Present(libs, name)
      ensures r.None? <==> forall i | 0 <= i < |libs| && libs[i].inUse :: libs[i].name != name && libs[i].soname != name
      ensures r.Some? ==> r.value < |libs| && Matches(libs[r.value], name) &&
                          forall i | 0 <= i < r.value :: !Matches(libs[i], name)
    {
      for i := 0 to |libs|
        invariant forall k | 0 <= k < i :: !Matches(libs[k], name)
      {
        if libs[i].inUse && (libs[i].name == name || libs[i].soname == name) { return Some(i); }
      }
      return None;
    }

    method AllocLoadedLib() returns (r: Option<nat>)
      requires Valid()
      modifies this`libs
      ensures r.None? ==> libs == old(libs) && forall i | 0 <= i < |libs| :: libs[i].inUse
      ensures r.Some? ==> r.value < |old(libs)| && !old(libs)[r.value].inUse &&
                          libs == old(libs)[r.value := FREE.(inUse := true)]
    {
      for i := 0 to |libs|
        invariant libs == old(libs)
        invariant forall k | 0 <= k < i :: libs[k].inUse
      {
        if !libs[i].inUse {
          libs := libs[i := FREE.(inUse := true)];
          return Some(i);
        }
      }
      return None;
    }

    /** lib_alloc_pages: bump the address pointer, or fail and give the pages back. */
    method LibAllocPages(bytes: nat) returns (start: nat)
      requires LIB_VA_START <= vaPtr <= LIB_VA_END
      modifies this`vaPtr, this`pages
      ensures start == 0 ==> vaPtr == old(vaPtr) && pages == old(pages)
      ensures start == 0 <==> old(vaPtr) + PageRound(bytes) > 0x8000_0000 || PageRound(bytes) / 0x1000 > old(pages)
      ensures start != 0 ==> start == old(vaPtr) && vaPtr == old(vaPtr) + PageRound(bytes) <= LIB_VA_END
      ensures start != 0 ==> pages == old(pages) - PageRound(bytes) / 0x1000
    {
      var size := PageRound(bytes);
      if vaPtr + size > LIB_VA_END { return 0; }
      if size / 0x1000 > pages { return 0; }
      pages := pages - size / 0x1000;
      start := vaPtr;
      vaPtr := vaPtr + size;
    }

    /** Map the image into the slot just taken, or give the slot back. */
    method MapImage(i: nat, name: string, image: Image) returns (ok: bool)
      requires i < |libs| == MAX_LOADED_LIBS && libs[i] == FREE.(inUse := true)
      requires LIB_VA_START <= vaPtr <= LIB_VA_END
      modifies this`libs, this`vaPtr, this`pages
      ensures |libs| == |old(libs)| && libs == old(libs)[i := libs[i]]
      ensures ok <==>
              && image.loadable && old(vaPtr) + PageRound(image.bytes) <= LIB_VA_END
              && PageRound(image.bytes) / 0x1000 <= old(pages)
      ensures !ok ==> !libs[i].inUse && vaPtr == old(vaPtr) && pages == old(pages)
      ensures ok ==>
                libs[i] == Slot(true, Stored(name), Stored(image.soname), old(vaPtr), PageRound(image.bytes),
                                image.needed, false)
      ensures ok ==> vaPtr == old(vaPtr) + PageRound(image.bytes)
      ensures ok ==> pages == old(pages) - PageRound(image.bytes) / 0x1000
    {
      libs := libs[i := libs[i].(name := Stored(name))];
      var start := 0;
      if image.loadable { start := LibAllocPages(image.bytes); }
      ok := start != 0;
      if ok {
        libs := libs[i := libs[i].(start := start, size := PageRound(image.bytes),
                                   soname := Stored(image.soname), needed := image.needed)];
      } else {
        libs := libs[i := libs[i].(inUse := false)];
      }
    }

    /** Take a slot for `name`, map the image and read its dynamic section: fails exactly when the image
        is not loadable or does not fit. */
    method MapLibrary(name: string, image: Image) returns (r: Option<nat>)
      requires Valid() && !Present(libs, name) && name in disk && disk[name] == image
      modifies this`libs, this`vaPtr, this`pages
      ensures Valid() && Extends(old(libs), libs) && NoMore(old(RoomLeft()), RoomLeft())
      ensures r.Some? <==> image.loadable && Fits(old(RoomLeft()), image)
      ensures forall j | 0 <= j < |libs| && libs[j].inUse && r != Some(j) ::
                libs[j] == old(libs)[j] && old(libs)[j].inUse
      ensures r.None? ==> RoomLeft() == old(RoomLeft())
      ensures r.Some? ==>
                && r.value < |libs| && !old(libs)[r.value].inUse
                && libs[r.value].inUse && !libs[r.value].relocated && Holds(libs[r.value], disk, name)
                && image.bytes <= libs[r.value].size < image.bytes + 0x1000
                && RoomLeft() == After(old(RoomLeft()), image)
    {
      NoneFree(libs);
      r := AllocLoadedLib();
      if r.None? { return; }
      var i := r.value;
      var ok := MapImage(i, name, image);
      assert libs == old(libs)[i := libs[i]];
      if ok {
        WholePages(image.bytes);
        SlotAdded(old(libs), old(vaPtr), disk, i, libs[i], vaPtr, name);
      } else {
        SlotGivenBack(old(libs), vaPtr, disk, i, libs[i]);
        r := None;
      }
      ClosedKept(old(libs), libs, disk, old(RoomLeft()), RoomLeft());
    }

    method LoadLibrary(name: string) returns (r: Option<nat>)
      requires Valid()
      modifies this`libs, this`vaPtr, this`pages
      ensures Valid() && Extends(old(libs), libs) && NoMore(old(RoomLeft()), RoomLeft())
      // It fails exactly when the library is not there yet and cannot be loaded or does not fit.
      ensures r.None? <==>
              !Present(old(libs), name) && !(name in disk && disk[name].loadable && Fits(old(RoomLeft()), disk[name]))
      ensures r.None? ==>
                RoomLeft() == old(RoomLeft()) && forall i | 0 <= i < |libs| && libs[i].inUse :: old(libs)[i].inUse
      // A library already there is returned, with nothing loaded; else a free slot is filled from the file.
      ensures Present(old(libs), name) ==>
                libs == old(libs) && RoomLeft() == old(RoomLeft()) && r.value < |libs| && Matches(libs[r.value], name)
      ensures !Present(old(libs), name) && r.Some? ==>
                && r.value < |libs| && libs[r.value].inUse && !old(libs)[r.value].inUse
                && libs[r.value].relocated && Holds(libs[r.value], disk, name)
                && disk[name].bytes <= libs[r.value].size < disk[name].bytes + 0x1000
                && (disk[name].needed == [] ==> RoomLeft() == After(old(RoomLeft()), disk[name]))
      // Whatever this call brought in was asked for, and is relocated when it returns.
      ensures Brought(old(libs), libs, disk, [name])
      ensures Satisfied(libs, disk, RoomLeft(), name)
      decreases FreeSlots(libs), 1
    {
      r := FindLoadedLib(name);
      if r.Some? {
        ShortNameStored(libs, vaPtr, name);
        return;
      }
      if name !in disk { return None; }
      r := LoadFile(name);
      if r.Some? { assert Matches(libs[r.value], Stored(name)); }
    }

    /** load_library once the file is found: map it, load what it needs, relocate it. */
    method LoadFile(name: string) returns (r: Option<nat>)
      requires Valid() && !Present(libs, name) && name in disk
      modifies this`libs, this`vaPtr, this`pages
      ensures Valid() && Extends(old(libs), libs) && NoMore(old(RoomLeft()), RoomLeft())
      ensures r.Some? <==> disk[name].loadable && Fits(old(RoomLeft()), disk[name])
      ensures r.None? ==>
                RoomLeft() == old(RoomLeft()) && forall i | 0 <= i < |libs| && libs[i].inUse :: old(libs)[i].inUse
      ensures r.Some? ==>
                && r.value < |libs| && libs[r.value].inUse && !old(libs)[r.value].inUse
                && libs[r.value].relocated && Holds(libs[r.value], disk, name)
                && (disk[name].needed == [] ==> RoomLeft() == After(old(RoomLeft()), disk[name]))
      ensures Brought(old(libs), libs, disk, [name])
      decreases FreeSlots(libs), 0
    {
      r := MapLibrary(name, disk[name]);
      if r.None? { return; }
      var i := r.value;
      ghost var mapped := libs;
      LoadNeeded(libs[i].needed);
      BroughtByLoad(old(libs), mapped, libs, disk, name, i);
      Relocate(i);
    }

    /** apply_relocations of a library whose dependencies have been dealt with. */
    method Relocate(i: nat)
      requires Valid() && i < |libs| && libs[i].inUse && AllSatisfied(libs, disk, RoomLeft(), libs[i].needed)
      modifies this`libs
      ensures Valid() && RoomLeft() == old(RoomLeft())
      ensures libs == old(libs)[i := old(libs)[i].(relocated := true)]
    {
      RelocateSlot(libs, vaPtr, disk, RoomLeft(), i);
      libs := libs[i := libs[i].(relocated := true)];
    }

    /** The DT_NEEDED loop of load_library: a dependency that fails is skipped. */
    method LoadNeeded(needed: seq<string>)
      requires Valid()
      modifies this`libs, this`vaPtr, this`pages
      ensures Valid() && Extends(old(libs), libs) && NoMore(old(RoomLeft()), RoomLeft())
      ensures Brought(old(libs), libs, disk, needed)
      ensures AllSatisfied(libs, disk, RoomLeft(), needed)
      ensures needed == [] ==> libs == old(libs) && RoomLeft() == old(RoomLeft())
      decreases FreeSlots(libs), 2
    {
      for k := 0 to |needed|
        invariant Valid() && Extends(old(libs), libs) && NoMore(old(RoomLeft()), RoomLeft())
        invariant Brought(old(libs), libs, disk, needed)
        invariant AllSatisfied(libs, disk, RoomLeft(), needed[..k])
        invariant k == 0 ==> libs == old(libs) && RoomLeft() == old(RoomLeft())
      {
        ghost var before, room := libs, RoomLeft();
        var _ := LoadLibrary(needed[k]);
        ExtendsFurther(old(libs), before, libs);
        BroughtMore(old(libs), before, libs, disk, needed, k);
        OneMoreSatisfied(before, libs, disk, room, RoomLeft(), needed, k);
      }
      assert needed[..|needed|] == needed;
    }

    /** A call with no load in progress leaves a table that is closed under DT_NEEDED: what is missing is
        not loadable, or does not fit into what is left. */
    method LoadTopLevel(name: string) returns (r: Option<nat>)
      requires Valid() && forall i | 0 <= i < |libs| && libs[i].inUse :: libs[i].relocated
      modifies this`libs, this`vaPtr, this`pages
      ensures Valid() && Extends(old(libs), libs) && Brought(old(libs), libs, disk, [name])
      ensures r.None? <==>
              !Present(old(libs), name) && !(name in disk && disk[name].loadable && Fits(old(RoomLeft()), disk[name]))
      ensures forall i | 0 <= i < |libs| && libs[i].inUse :: libs[i].relocated
      ensures forall i, d | 0 <= i < |libs| && libs[i].inUse && d in libs[i].needed ::
                Satisfied(libs, disk, RoomLeft(), d)
      // With room for all the files asked for, every one of them is there.
      ensures NamesStay(old(libs), disk, name) && AliasesAgree(disk) ==>
                (Enough(old(libs), disk, old(RoomLeft()), name) ==> Complete(libs, disk, name))
      // Without it some are missing, unless a file answers to the name of another.
      ensures NamesStay(old(libs), disk, name) && NoAliases(disk) ==>
                (Enough(old(libs), disk, old(RoomLeft()), name) <==> Complete(libs, disk, name))
    {
      r := LoadLibrary(name);
      ghost var was, room := old(libs), old(RoomLeft());
      if NamesStay(was, disk, name) {
        if AliasesAgree(disk) && Enough(was, disk, room, name) {
          RoomSuffices(was, libs, disk, room, RoomLeft(), name);
        }
        if NoAliases(disk) && Complete(libs, disk, name) { RoomNeeded(was, libs, disk, room, RoomLeft(), name); }
      }
    }

    /** Two loads of a name over 255 characters fill two slots with it; without dependencies both
        succeed exactly when the image fits twice. */
    method LoadTwice(name: string) returns (first: Option<nat>, second: Option<nat>)
      requires Valid() && |name| > NAME_MAX
      modifies this`libs, this`vaPtr, this`pages
      ensures Valid()
      ensures first.Some? <==> name in disk && disk[name].loadable && Fits(old(RoomLeft()), disk[name])
      ensures first.Some? && disk[name].needed == [] ==>
                (second.Some? <==> Fits(After(old(RoomLeft()), disk[name]), disk[name]))
      ensures first.Some? && second.Some? ==>
                && first.value < |libs| && second.value < |libs| && first != second
                && libs[first.value].inUse && libs[second.value].inUse
                && libs[first.value].name == libs[second.value].name == Stored(name)
    {
      LongNameNeverPresent(libs, vaPtr, name);
      first := LoadLibrary(name);
      LongNameNeverPresent(libs, vaPtr, name);
      second := LoadLibrary(name);
    }
  }

  /** A path of 256 characters to a library of one page: it is loaded into two slots. */
  method LongPathTwice() returns (first: Option<nat>, second: Option<nat>, same: bool)
    ensures first.Some? && second.Some? && first != second && same
  {
    var path := "/" + seq(NAME_MAX, _ => 'a');
    var linker := new DynamicLinker(map[path := Image(true, 1, "", [])], 2);
    first, second := linker.LoadTwice(path);
    same := linker.libs[first.value].name == linker.libs[second.value].name;
  }
}
