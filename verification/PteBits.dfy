/**
 The 64-bit form of a page-table entry: the masks of mm.h cut a word into an address field and flags,
 which decode to the frame and the flags of `PageTables`.  Each word that elf.c stores decodes to the
 entry which the model stores.
 */
module PteBits {
  import opened PageTables

  const PRESENT: bv64 := 0x1
  const USER: bv64 := 0x4
  const HUGE: bv64 := 0x80
  const PHYS_MASK: bv64 := 0x000F_FFFF_FFFF_F000
  const OFFSET_2MB: bv64 := 0x1F_F000
  /** The flag bits that elf.c copies and never tests. */
  const OTHERS: bv64 := 0xFFF0_0000_0000_0F7A

  // --- Decoding -----------------------------------------------------------------------

  /** A word cut up: its address field, the three flags that elf.c changes, and the other flag bits. */
  datatype Fields = Fields(base: bv64, present: bool, user: bool, huge: bool, others: bv64)

  function Split(e: bv64): Fields {
    Fields(e & PHYS_MASK, e & PRESENT != 0, e & USER != 0, e & HUGE != 0, e & OTHERS)
  }

  /** An address cut up: the 2 MB it lies in, and the page among the 512 there. */
  datatype Address = Address(large: bv64, small: bv64)

  function Cut(address: bv64): Address { Address(address >> 21, (address >> 12) & 0x1FF) }

  function PagesBelow(a: Address): nat { 512 * (a.large as nat) + a.small as nat }

  /** The number of whole pages below an address. */
  function PageNumber(address: bv64): nat { PagesBelow(Cut(address)) }

  /** The bit of each other flag; bits 10, 11 and 52 to 62 have no name in mm.h. */
  function OtherBits(): map<Flag, bv64> {
    map[Writable := 0x2, WriteThrough := 0x8, NoCache := 0x10, Accessed := 0x20, Dirty := 0x40, Global := 0x100,
        Cow := 0x200, Spare(10) := 0x400, Spare(11) := 0x800, Spare(52) := 0x0010_0000_0000_0000,
        Spare(53) := 0x0020_0000_0000_0000, Spare(54) := 0x0040_0000_0000_0000, Spare(55) := 0x0080_0000_0000_0000,
        Spare(56) := 0x0100_0000_0000_0000, Spare(57) := 0x0200_0000_0000_0000, Spare(58) := 0x0400_0000_0000_0000,
        Spare(59) := 0x0800_0000_0000_0000, Spare(60) := 0x1000_0000_0000_0000, Spare(61) := 0x2000_0000_0000_0000,
        Spare(62) := 0x4000_0000_0000_0000, NoExecute := 0x8000_0000_0000_0000]
  }

  function OtherFlags(bits: bv64): set<Flag> { set f | f in OtherBits() && bits & OtherBits()[f] != 0 }

  function FlagsOf(w: Fields): set<Flag> {
    OtherFlags(w.others) - {Present, User, Huge} + (if w.present then {Present} else {}) +
    (if w.user then {User} else {}) + (if w.huge then {Huge} else {})
  }

  function EntryOf(w: Fields): Entry { Entry(PageNumber(w.base), FlagsOf(w)) }

  /** The entry that a word stands for. */
  function Decode(e: bv64): Entry { EntryOf(Split(e)) }

  /** The word of a present, writable, user, no-execute 4 KB page at 0x12_3000, and that of a 2 MB page. */
  lemma DecodeVectors()
    ensures Decode(0x8000_0000_0012_3007) == Entry(0x123, {Present, Writable, User, NoExecute})
    ensures Decode(0x20_0183) == Entry(0x200, {Present, Writable, Huge, Global})
    ensures Decode(0x000F_FFFF_FFFF_F800) == Entry(0xFF_FFFF_FFFF, {Spare(11)})
  {
    OneWord();
    OtherWord();
    TopWord();
  }

  lemma TopWord()
    ensures Decode(0x000F_FFFF_FFFF_F800) == Entry(0xFF_FFFF_FFFF, {Spare(11)})
  {
    var e: bv64 := 0x000F_FFFF_FFFF_F800;
    assert Split(e) == Fields(0x000F_FFFF_FFFF_F000, false, false, false, 0x800);
    assert Cut(0x000F_FFFF_FFFF_F000) == Address(0x7FFF_FFFF, 0x1FF);
    assert OtherFlags(0x800) == {Spare(11)};
  }

  lemma OneWord()
    ensures Decode(0x8000_0000_0012_3007) == Entry(0x123, {Present, Writable, User, NoExecute})
  {
    var e: bv64 := 0x8000_0000_0012_3007;
    assert Split(e) == Fields(0x12_3000, true, true, false, 0x8000_0000_0000_0002);
    assert Cut(0x12_3000) == Address(0, 0x123);
    assert OtherFlags(0x8000_0000_0000_0002) == {Writable, NoExecute};
  }

  lemma OtherWord()
    ensures Decode(0x20_0183) == Entry(0x200, {Present, Writable, Huge, Global})
  {
    var e: bv64 := 0x20_0183;
    assert Split(e) == Fields(0x20_0000, true, false, true, 0x102);
    assert Cut(0x20_0000) == Address(1, 0);
    assert OtherFlags(0x102) == {Writable, Global};
  }

  // --- Changing one field -------------------------------------------------------------

  lemma PresentSet(w: Fields, base: bv64)
    ensures EntryOf(w.(base := base, present := true)) == Entry(PageNumber(base), FlagsOf(w) + {Present})
  {
  }

  lemma UserChanged(w: Fields)
    ensures FlagsOf(w.(user := true)) == FlagsOf(w) + {User} && FlagsOf(w.(user := false)) == FlagsOf(w) - {User}
  {
  }

  lemma HugeCleared(w: Fields)
    ensures FlagsOf(w.(huge := false)) == FlagsOf(w) - {Huge}
  {
  }

  // --- The words that elf.c stores ----------------------------------------------------

  predicate PageAligned(phys: bv64) { phys & !PHYS_MASK == 0 }

  predicate FlagsOnly(flags: bv64) { flags & PHYS_MASK == 0 }

  lemma StoredFields(phys: bv64, flags: bv64)
    requires PageAligned(phys) && FlagsOnly(flags)
    ensures Split(phys | flags | PRESENT) == Split(flags).(base := phys, present := true)
  {
  }

  /** `phys | flags | PAGE_PRESENT`, for a table link as for a leaf. */
  lemma StoredEntry(phys: bv64, flags: bv64)
    requires PageAligned(phys) && FlagsOnly(flags)
    ensures Decode(phys | flags | PRESENT) == Entry(PageNumber(phys), Decode(flags).flags + {Present})
  {
    StoredFields(phys, flags);
    PresentSet(Split(flags), phys);
  }

  lemma UserSetFields(e: bv64)
    ensures Split(e | USER) == Split(e).(user := true)
  {
  }

  lemma UserClearedFields(e: bv64)
    ensures Split(e & !USER) == Split(e).(user := false)
  {
  }

  /** `e |= PAGE_USER` and `e & ~PAGE_USER` change that flag alone. */
  lemma UserBit(e: bv64)
    ensures Decode(e | USER) == Decode(e).(flags := Decode(e).flags + {User})
    ensures Decode(e & !USER) == Decode(e).(flags := Decode(e).flags - {User})
  {
    UserSetFields(e);
    UserClearedFields(e);
    UserChanged(Split(e));
  }

  lemma CopiedFields(table: bv64, e: bv64)
    requires PageAligned(table)
    ensures Split(table | (e & !USER & !PHYS_MASK) | PRESENT) ==
            Split(e).(user := false).(base := table, present := true)
  {
  }

  /** A copied link: the new table under the old entry's flags, without PAGE_USER. */
  lemma CopiedLink(table: bv64, e: bv64)
    requires PageAligned(table)
    ensures Decode(table | (e & !USER & !PHYS_MASK) | PRESENT) ==
            Entry(PageNumber(table), Decode(e).flags - {User} + {Present})
  {
    CopiedFields(table, e);
    UserChanged(Split(e));
    PresentSet(Split(e).(user := false), table);
  }

  lemma SplitLinkFields(table: bv64, e: bv64)
    requires PageAligned(table)
    ensures Split(table | (e & !HUGE & !PHYS_MASK) | PRESENT) ==
            Split(e).(huge := false).(base := table, present := true)
  {
  }

  /** The directory entry that replaces the huge page. */
  lemma SplitLink(table: bv64, e: bv64)
    requires PageAligned(table)
    ensures Decode(table | (e & !HUGE & !PHYS_MASK) | PRESENT) ==
            Entry(PageNumber(table), Decode(e).flags - {Huge} + {Present})
  {
    SplitLinkFields(table, e);
    HugeCleared(Split(e));
    PresentSet(Split(e).(huge := false), table);
  }

  /** The i-th word of a split 2 MB page, at the offset of i pages, decodes to the i-th entry of the
      model's split table: the addition carries neither into the flags nor out of the offset bits. */
  lemma SplitEntry(e: bv64, offset: bv64, i: nat)
    requires e & OFFSET_2MB == 0 && offset & !OFFSET_2MB == 0 && i == PageNumber(offset) < 512
    ensures Decode(((e & PHYS_MASK) + offset) | (e & !PHYS_MASK & !HUGE & !USER)) == SplitTable(Decode(e))[i]
  {
    SplitFields(e, offset);
    SplitNumber(e, offset);
    SplitWord(((e & PHYS_MASK) + offset) | (e & !PHYS_MASK & !HUGE & !USER), e, (e & PHYS_MASK) + offset, i);
  }

  lemma SplitNumber(e: bv64, offset: bv64)
    requires e & OFFSET_2MB == 0 && offset & !OFFSET_2MB == 0
    ensures PageNumber((e & PHYS_MASK) + offset) == PageNumber(e & PHYS_MASK) + PageNumber(offset)
  {
    CutSum(e & PHYS_MASK, offset);
    PagesJoin(Cut(e & PHYS_MASK), Cut(offset));
  }

  /** Adding an offset within 2 MB carries nowhere. */
  lemma CutSum(base: bv64, offset: bv64)
    requires base & OFFSET_2MB == 0 && offset & !OFFSET_2MB == 0
    ensures Cut(base + offset) == Address(Cut(base).large, Cut(offset).small)
    ensures Cut(base).small == 0 && Cut(offset).large == 0
  {
  }

  lemma PagesJoin(a: Address, b: Address)
    requires a.small == 0 && b.large == 0
    ensures PagesBelow(Address(a.large, b.small)) == PagesBelow(a) + PagesBelow(b)
  {
  }

  lemma SplitWord(word: bv64, e: bv64, base: bv64, i: nat)
    requires i < 512 && PageNumber(base) == PageNumber(Split(e).base) + i
    requires Split(word) == Split(e).(huge := false).(user := false).(base := base)
    ensures Decode(word) == SplitTable(Decode(e))[i]
  {
    SplitEntryOf(Split(e), base, i);
  }

  lemma SplitEntryOf(w: Fields, base: bv64, i: nat)
    requires i < 512 && PageNumber(base) == PageNumber(w.base) + i
    ensures EntryOf(w.(huge := false).(user := false).(base := base)) == SplitTable(EntryOf(w))[i]
  {
    HugeCleared(w);
    UserChanged(w.(huge := false));
    assert FlagsOf(w.(huge := false).(user := false)) == FlagsOf(w) - {Huge, User};
  }

  lemma SplitFields(e: bv64, offset: bv64)
    requires e & OFFSET_2MB == 0 && offset & !OFFSET_2MB == 0
    ensures Split(((e & PHYS_MASK) + offset) | (e & !PHYS_MASK & !HUGE & !USER)) ==
            Split(e).(huge := false).(user := false).(base := (e & PHYS_MASK) + offset)
  {
  }
}
