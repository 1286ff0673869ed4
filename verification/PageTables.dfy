// Four-level page tables (Intel SDM Volume 3A, section 4.5) as a flat map from
// tree positions to table frames, and what a tree means: a leaf entry for every
// virtual page.
module PageTables {
  import opened Words
  import opened PhysicalMemory

  const ENTRIES: int := 512
  const VIRTUAL_PAGES: int := 0x10_0000_0000
  const PHYSICAL_LIMIT: int := 0x10_0000_0000_0000

  // PRESENT, READ_WRITE, USER_SUPERVISOR, PWT and ACCESSED: the l_pdFlags that
  // vmm_map puts in every entry that names a table.
  const UPPER_FLAGS: int := 47

  // A position in the tree: the table of the given level (1 is a page table, 4
  // the PML4) for the virtual pages whose number starts with prefix.
  datatype Slot = Slot(level: int, prefix: int)

  type Tables = map<Slot, int>

  const NO_SLOT := Slot(0, 0)
  const ROOT := Slot(4, 0)

  // Virtual pages below one table of a level.
  function Size(level: int): int {
    if level == 0 then 1
    else if level == 1 then 512
    else if level == 2 then 0x4_0000
    else if level == 3 then 0x800_0000
    else 0x10_0000_0000
  }

  // The first virtual page below a slot.
  function Lo(s: Slot): int {
    if s.level == 0 then s.prefix
    else if s.level == 1 then s.prefix * 512
    else if s.level == 2 then s.prefix * 0x4_0000
    else if s.level == 3 then s.prefix * 0x800_0000
    else s.prefix * 0x10_0000_0000
  }

  function Hi(s: Slot): int {
    Lo(s) + Size(s.level)
  }

  predicate Covering(s: Slot, v: int) {
    Lo(s) <= v < Hi(s)
  }

  predicate Under(s: Slot, n: Slot) {
    s.level <= n.level && Lo(n) <= Lo(s) && Hi(s) <= Hi(n)
  }

  // The walked path of a range of pages.
  predicate OnPath(s: Slot, lo: int, hi: int) {
    lo < hi && Lo(s) < hi && lo < Hi(s)
  }

  function Child(n: Slot, i: int): Slot {
    Slot(n.level - 1, n.prefix * 512 + i)
  }

  function Parent(s: Slot): Slot {
    Slot(s.level + 1, s.prefix / 512)
  }

  function LeafSlot(v: int): Slot {
    Slot(1, v / 512)
  }

  // ---------------------------------------------------------------- the entries

  predicate Present(e: Word) {
    e % 2 == 1
  }

  // e & 0x000ffffffffff000
  function FrameOf(e: Word): int {
    e / PAGE_SIZE % 0x100_0000_0000 * PAGE_SIZE
  }

  // e & PS, bit 7
  predicate LargePage(e: Word) {
    e / 128 % 2 == 1
  }

  // The entries vmm_map writes are address | flags; the address has no bit below
  // the twelfth, so the bitwise or is an addition.
  lemma OrIsAdd(address: nat, flags: nat)
    requires address % PAGE_SIZE == 0 && flags < PAGE_SIZE
    ensures Or(address, flags) == address + flags
  {
    PowersOf16();
    OrAdds(address, flags, 12);
  }

  lemma FrameOfEntry(frame: int, flags: int)
    requires 0 <= frame < PHYSICAL_LIMIT && frame % PAGE_SIZE == 0 && 0 <= flags < PAGE_SIZE
    ensures FrameOf(frame + flags) == frame
    ensures Present(frame + flags) <==> flags % 2 == 1
    ensures LargePage(frame + flags) <==> flags / 128 % 2 == 1
  {
    assert (frame + flags) / PAGE_SIZE == frame / PAGE_SIZE;
    assert frame % 128 == 0 && frame % 256 == 0;
  }

  // A leaf entry: an address below 2^52 and flags below bit 8.
  predicate LeafEntry(e: Word) {
    e < PHYSICAL_LIMIT && e % PAGE_SIZE < 256 && Present(e)
  }

  // s_vmm_maskPAT and s_vmm_maskNonPAT.
  function CacheMask(pat: bool, i: int): (m: int)
    requires 0 <= i < 8
  {
    if pat then [0, 8, 16, 24, 128, 144, 136, 152][i] else [0, 8, 16, 24, 0, 8, 16, 24][i]
  }

  // l_ptFlags: PRESENT and ACCESSED, the cache bits, READ_WRITE when asked for,
  // USER_SUPERVISOR in the lower half.
  function LeafFlags(pat: bool, flags: int, lowerHalf: bool): int {
    1 + 32 + CacheMask(pat, flags / 8 % 8)
    + (if flags / 2 % 2 == 1 then 2 else 0)
    + (if lowerHalf then 4 else 0)
  }

  // The flags stay below the address bits and keep PRESENT; bit 7 is the PAT
  // bit, so only leaves of a PAT context can carry it.
  lemma LeafFlagsFit(pat: bool, flags: int, lowerHalf: bool)
    ensures 0 <= LeafFlags(pat, flags, lowerHalf) < 256 && LeafFlags(pat, flags, lowerHalf) % 2 == 1
    ensures LeafFlags(pat, flags, lowerHalf) / 128 % 2 == 1 <==> pat && flags / 32 % 2 == 1
  {
    var i := flags / 8 % 8;
    assert flags / 32 % 2 == i / 4;
    assert i == 0 || i == 1 || i == 2 || i == 3 || i == 4 || i == 5 || i == 6 || i == 7;
  }

  // ------------------------------------------------------------ what bits mean

  // The bit of the given weight.
  predicate Bit(e: int, weight: int)
    requires weight > 0
  {
    e / weight % 2 == 1
  }

  // The entry of a page that is mapped with the given flags: PRESENT (1) and
  // ACCESSED (32); READ_WRITE (2) as asked for; USER_SUPERVISOR (4) in the lower
  // half; PWT (8), PCD (16) and PAT (128) by the cache type in bits 3 to 5; no
  // other bit below the address.
  predicate LeafBits(e: Word, pat: bool, flags: int, lowerHalf: bool) {
    var cache := flags / 8 % 8;
    && Bit(e, 1) && Bit(e, 32) && !Bit(e, 64) && e % PAGE_SIZE < 256
    && (Bit(e, 2) <==> Bit(flags, 2))
    && (Bit(e, 4) <==> lowerHalf)
    && (Bit(e, 8) <==> cache == 1 || cache == 3 || cache == 7 || cache == if pat then 6 else 5)
    && (Bit(e, 16) <==> cache == 2 || cache == 3 || cache == 7 || cache == if pat then 5 else 6)
    && (Bit(e, 128) <==> pat && cache >= 4)
  }

  lemma LeafFlagsAreBits(frame: int, pat: bool, flags: int, lowerHalf: bool)
    requires 0 <= frame < PHYSICAL_LIMIT && frame % PAGE_SIZE == 0
    ensures LeafBits(frame + LeafFlags(pat, flags, lowerHalf), pat, flags, lowerHalf)
    ensures FrameOf(frame + LeafFlags(pat, flags, lowerHalf)) == frame
  {
    hide Bit, LeafFlags;
    var f := LeafFlags(pat, flags, lowerHalf);
    LeafFlagsFit(pat, flags, lowerHalf);
    FrameOfEntry(frame, f);
    LowBits(frame, f);
    FlagsAloneAreBits(pat, flags, lowerHalf);
  }

  lemma FlagsAloneAreBits(pat: bool, flags: int, lowerHalf: bool)
    ensures 0 <= LeafFlags(pat, flags, lowerHalf) < 256
    ensures LeafBits(LeafFlags(pat, flags, lowerHalf), pat, flags, lowerHalf)
  {
    LeafFlagsFit(pat, flags, lowerHalf);
    var i, write := flags / 8 % 8, flags / 2 % 2;
    assert i == 0 || i == 1 || i == 2 || i == 3 || i == 4 || i == 5 || i == 6 || i == 7;
    assert write == 0 || write == 1;
  }

  // A number without bits up to the given one does not change it.
  lemma SameBit(a: int, f: int, weight: int)
    requires weight > 0 && a % (2 * weight) == 0
    ensures Bit(a + f, weight) == Bit(f, weight)
  {
    var k := a / (2 * weight);
    assert a == weight * (2 * k);
    assert f == weight * (f / weight) + f % weight;
    assert a + f == weight * (2 * k + f / weight) + f % weight;
    Quotient(a + f, weight, 2 * k + f / weight, f % weight);
  }

  // An aligned address has no low bits of its own.
  lemma LowBits(frame: nat, f: nat)
    requires frame % PAGE_SIZE == 0 && f < PAGE_SIZE
    ensures (frame + f) % PAGE_SIZE == f
    ensures Bit(frame + f, 1) == Bit(f, 1) && Bit(frame + f, 2) == Bit(f, 2) && Bit(frame + f, 4) == Bit(f, 4)
    ensures Bit(frame + f, 8) == Bit(f, 8) && Bit(frame + f, 16) == Bit(f, 16) && Bit(frame + f, 32) == Bit(f, 32)
    ensures Bit(frame + f, 64) == Bit(f, 64) && Bit(frame + f, 128) == Bit(f, 128)
  {
    hide Bit;
    Divisible(frame, 2, 2048);
    Divisible(frame, 4, 1024);
    Divisible(frame, 8, 512);
    Divisible(frame, 16, 256);
    Divisible(frame, 32, 128);
    Divisible(frame, 64, 64);
    Divisible(frame, 128, 32);
    Divisible(frame, 256, 16);
    SameBit(frame, f, 1);
    SameBit(frame, f, 2);
    SameBit(frame, f, 4);
    SameBit(frame, f, 8);
    SameBit(frame, f, 16);
    SameBit(frame, f, 32);
    SameBit(frame, f, 64);
    SameBit(frame, f, 128);
  }

  lemma Divisible(frame: nat, weight: nat, times: nat)
    requires frame % PAGE_SIZE == 0 && weight > 0 && weight * times == PAGE_SIZE
    ensures frame % weight == 0
  {
    var q := frame / PAGE_SIZE;
    assert frame == weight * (times * q);
    MultipleOf(weight, times * q);
  }

  // The IA32_PAT value that vmm_initPAT sets: entry i in byte i, chosen by the PAT,
  // PCD and PWT bits (Intel SDM Volume 3A, section 4.9.2). Memory types: 0
  // uncacheable, 1 write-combining, 4 write-through, 5 write-protected, 6
  // write-back, 7 uncached.
  const PAT_VALUE: int := 0x0000_0105_0007_0406

  function PatEntry(i: int): int
    requires 0 <= i < 8
  {
    PAT_VALUE / [1, 0x100, 0x1_0000, 0x100_0000, 0x1_0000_0000, 0x100_0000_0000, 0x1_0000_0000_0000,
                 0x100_0000_0000_0000][i] % 0x100
  }

  // The memory type of a page, by the PAT, PCD and PWT bits of its entry.
  function MemoryType(e: Word): int {
    PatEntry((if Bit(e, 128) then 4 else 0) + (if Bit(e, 16) then 2 else 0) + (if Bit(e, 8) then 1 else 0))
  }

  // C_VMM_CACHE_WRITEBACK, WRITETHROUGH, UNCACHED_MTRR, UNCACHED, WRITEPROTECT and
  // WRITECOMBINING, by the names of their memory types.
  function CacheType(cache: int): int
    requires 0 <= cache <= 5
  {
    if cache == 0 then 6 else if cache == 1 then 4 else if cache == 2 then 7
    else if cache == 3 then 0 else if cache == 4 then 5 else 1
  }

  // In a PAT context a page has the cache type that vmm_map was asked for, except
  // that a write-combining one becomes uncacheable: the mask takes PCD for PWT.
  lemma CacheTypeIsHonoured(e: Word, flags: int, lowerHalf: bool)
    requires LeafBits(e, true, flags, lowerHalf) && flags / 8 % 8 <= 5
    ensures MemoryType(e) == CacheType(flags / 8 % 8) <==> flags / 8 % 8 != 5
    ensures flags / 8 % 8 == 5 ==> MemoryType(e) == 0
  {
    hide Bit, PatEntry;
    PatEntries();
    var i := flags / 8 % 8;
    assert i == 0 || i == 1 || i == 2 || i == 3 || i == 4 || i == 5;
  }

  lemma PatEntries()
    ensures PatEntry(0) == 6 && PatEntry(1) == 4 && PatEntry(2) == 7 && PatEntry(3) == 0
    ensures PatEntry(4) == 5 && PatEntry(5) == 1 && PatEntry(6) == 0 && PatEntry(7) == 0
  {
  }

  // An entry that names a table lets everything through that the entries below it
  // allow: PRESENT, READ_WRITE and USER_SUPERVISOR, with PWT and ACCESSED, and no
  // other bit below the address.
  predicate TableBits(e: Word) {
    && Bit(e, 1) && Bit(e, 2) && Bit(e, 4) && Bit(e, 8) && !Bit(e, 16) && Bit(e, 32) && !Bit(e, 64)
    && !Bit(e, 128) && e % PAGE_SIZE < 128
  }

  // --------------------------------------------------------------------- trees

  // A tree, the free page frames beside it, and the frames of tables that were
  // dropped without being given back.
  datatype View = View(pages: Pages, tab: Tables, free: set<int>, lost: set<int>)

  ghost predicate SlotOk(w: View, s: Slot) {
    && s in w.tab && 1 <= s.level <= 4 && 0 <= s.prefix < Size(4 - s.level)
    && w.tab[s] in w.pages && |w.pages[w.tab[s]]| == ENTRIES
    && 0 <= w.tab[s] < MEMORY_LIMIT && w.tab[s] % PAGE_SIZE == 0
    && w.tab[s] !in w.free && w.tab[s] !in w.lost
    && (s.level < 4 ==> Parent(s) in w.tab)
  }

  // An entry of an upper table names its child table or is 0; the entry of the
  // dangling child, whose frame has just been freed, may still be there.
  ghost predicate EntryOk(w: View, s: Slot, i: int, dangling: Slot)
    requires s in w.tab && w.tab[s] in w.pages && 0 <= i < |w.pages[w.tab[s]]|
  {
    var c := Child(s, i);
    if c in w.tab then w.pages[w.tab[s]][i] == w.tab[c] + UPPER_FLAGS
    else c != dangling ==> w.pages[w.tab[s]][i] == 0
  }

  ghost predicate LeafOk(w: View, s: Slot, i: int)
    requires s in w.tab && w.tab[s] in w.pages && 0 <= i < |w.pages[w.tab[s]]|
  {
    w.pages[w.tab[s]][i] == 0 || LeafEntry(w.pages[w.tab[s]][i])
  }

  // Every table sits at one place in the tree and is named by exactly one entry;
  // no table is free.
  ghost predicate TreeOk(w: View, dangling: Slot) {
    && w.free !! w.lost
    && (forall s :: s in w.tab ==> SlotOk(w, s))
    && (forall s, t :: s in w.tab && t in w.tab && w.tab[s] == w.tab[t] ==> s == t)
    && (forall s, i :: s in w.tab && s.level >= 2 && 0 <= i < ENTRIES ==> EntryOk(w, s, i, dangling))
    && (forall s, i :: s in w.tab && s.level == 1 && 0 <= i < ENTRIES ==> LeafOk(w, s, i))
  }

  // The leaf entry the tree holds for virtual page v; 0 when there is none.
  ghost function Leaf(w: View, v: int): Word {
    var s := LeafSlot(v);
    if s in w.tab && w.tab[s] in w.pages && v % 512 < |w.pages[w.tab[s]]| then w.pages[w.tab[s]][v % 512] else 0
  }

  // All page frames the allocator and the tree account for.
  ghost function Frames(w: View): set<int> {
    w.free + w.tab.Values + w.lost
  }

  // Page frames are neither made nor forgotten, and no other page is written to.
  ghost predicate Evolves(w: View, x: View) {
    && Frames(x) == Frames(w)
    && x.pages.Keys == w.pages.Keys
    && (forall p :: p in w.pages && p !in Frames(w) ==> x.pages[p] == w.pages[p])
  }

  // x has the tables of w, and others only on the path of the pages from lo to hi.
  ghost predicate Extends(w: View, x: View, lo: int, hi: int) {
    && (forall s :: s in w.tab ==> s in x.tab && x.tab[s] == w.tab[s])
    && (forall s :: s in x.tab && s !in w.tab ==> OnPath(s, lo, hi))
    && Evolves(w, x)
  }

  lemma ExtendsFurther(w: View, x: View, y: View, lo: int, hi: int, lo': int, hi': int)
    requires Extends(w, x, lo, hi) && Extends(x, y, lo', hi') && lo <= lo' && hi' <= hi
    ensures Extends(w, y, lo, hi)
  {
  }

  lemma ExtendsItself(w: View, lo: int, hi: int)
    ensures Extends(w, w, lo, hi)
  {
  }

  ghost predicate SameLeaves(w: View, x: View) {
    forall v :: Leaf(x, v) == Leaf(w, v)
  }

  lemma LeavesSame(w: View)
    ensures SameLeaves(w, w)
  {
  }

  // What a tree says about one of its upper tables.
  lemma UpperEntry(w: View, s: Slot, i: int, dangling: Slot)
    requires TreeOk(w, dangling) && s in w.tab && s.level >= 2 && 0 <= i < ENTRIES
    ensures w.tab[s] in w.pages && |w.pages[w.tab[s]]| == ENTRIES && EntryOk(w, s, i, dangling)
    ensures Child(s, i) in w.tab ==> 0 <= w.tab[Child(s, i)] < MEMORY_LIMIT && w.tab[Child(s, i)] % PAGE_SIZE == 0
  {
    assert SlotOk(w, s) && EntryOk(w, s, i, dangling);
    if Child(s, i) in w.tab {
      assert SlotOk(w, Child(s, i));
    }
  }

  // An absent entry has no table.
  lemma NotPresent(w: View, s: Slot, i: int)
    requires TreeOk(w, NO_SLOT) && s in w.tab && s.level >= 2 && 0 <= i < ENTRIES
    requires w.tab[s] in w.pages && |w.pages[w.tab[s]]| == ENTRIES && !Present(w.pages[w.tab[s]][i])
    ensures Child(s, i) !in w.tab
  {
    UpperEntry(w, s, i, NO_SLOT);
    assert EntryOk(w, s, i, NO_SLOT);
    if Child(s, i) in w.tab {
      FrameOfEntry(w.tab[Child(s, i)], UPPER_FLAGS);
    }
  }

  // ------------------------------------------------------------------- walking

  // vmm_getPhysicalAddress2: the frame it finds for page v from a table of the
  // given level, 0 when it meets an absent entry. In an entry of level 3 or 2 it
  // would take bit 7 for a large page.
  function Translate(pages: Pages, table: int, level: int, v: int): int
    requires 1 <= level <= 4 && Walkable(pages, table, level, v)
    decreases level
  {
    var e := pages[table][v / Size(level - 1) % 512];
    if !Present(e) then 0
    else if level == 1 then FrameOf(e)
    else if level < 4 && LargePage(e) then FrameOf(e) / (Size(level - 1) * PAGE_SIZE) * (Size(level - 1) * PAGE_SIZE)
    else Translate(pages, FrameOf(e), level - 1, v)
  }

  // The tables that the walk reads exist.
  predicate Walkable(pages: Pages, table: int, level: int, v: int)
    requires 1 <= level <= 4
    decreases level
  {
    && table in pages && |pages[table]| == ENTRIES
    && var e := pages[table][v / Size(level - 1) % 512];
       level > 1 && Present(e) && !(level < 4 && LargePage(e)) ==> Walkable(pages, FrameOf(e), level - 1, v)
  }

  lemma ChildIndex(v: int, level: int)
    requires 2 <= level <= 4 && 0 <= v
    ensures Child(Slot(level, v / Size(level)), v / Size(level - 1) % 512) == Slot(level - 1, v / Size(level - 1))
    ensures Parent(Slot(level - 1, v / Size(level - 1))) == Slot(level, v / Size(level))
  {
    if level == 2 {
      assert v / 0x4_0000 == v / 512 / 512;
    } else if level == 3 {
      assert v / 0x800_0000 == v / 0x4_0000 / 512;
    } else {
      assert v / 0x10_0000_0000 == v / 0x800_0000 / 512;
    }
  }

  // Walking the tables in memory gives the tree's meaning and never takes the
  // large-page branch: the position of a table in the tree is the one its walk
  // reaches it by.
  lemma {:induction false} TranslateFindsLeaf(w: View, level: nat, v: int)
    requires TreeOk(w, NO_SLOT) && 1 <= level <= 4 && 0 <= v
    requires Slot(level, v / Size(level)) in w.tab
    ensures Walkable(w.pages, w.tab[Slot(level, v / Size(level))], level, v)
    ensures Translate(w.pages, w.tab[Slot(level, v / Size(level))], level, v) ==
            if Leaf(w, v) == 0 then 0 else FrameOf(Leaf(w, v))
    decreases level
  {
    var s := Slot(level, v / Size(level));
    var i := v / Size(level - 1) % 512;
    assert SlotOk(w, s);
    if level > 1 {
      ChildIndex(v, level);
      assert EntryOk(w, s, i, NO_SLOT);
      var c := Child(s, i);
      if c in w.tab {
        assert SlotOk(w, c);
        FrameOfEntry(w.tab[c], UPPER_FLAGS);
        TranslateFindsLeaf(w, level - 1, v);
      } else {
        LeafBelow(w, v, level - 1, NO_SLOT);
      }
    } else {
      assert LeafOk(w, s, i);
    }
  }

  // Every entry of the walk to page v, down to the one that maps it, has the bit:
  // a right is granted only then (Intel SDM Volume 3A, section 4.6).
  predicate WalkHas(pages: Pages, table: int, level: int, v: int, weight: int)
    requires 1 <= level <= 4 && Walkable(pages, table, level, v) && weight > 0
    decreases level
  {
    var e := pages[table][v / Size(level - 1) % 512];
    && Present(e) && Bit(e, weight)
    && (level == 1 || (level < 4 && LargePage(e)) || WalkHas(pages, FrameOf(e), level - 1, v, weight))
  }

  // The bits that the entries of the upper tables have.
  predicate IsPassed(weight: int) {
    weight == 1 || weight == 2 || weight == 4
  }

  // Presence and the rights to write and to access from user mode are those that
  // the page's own leaf gives: the tables above take nothing away.
  lemma {:induction false} RightsAreTheLeafs(w: View, level: nat, v: int, weight: int)
    requires TreeOk(w, NO_SLOT) && 1 <= level <= 4 && 0 <= v && IsPassed(weight)
    requires Slot(level, v / Size(level)) in w.tab
    ensures Walkable(w.pages, w.tab[Slot(level, v / Size(level))], level, v)
    ensures WalkHas(w.pages, w.tab[Slot(level, v / Size(level))], level, v, weight) <==>
            Leaf(w, v) != 0 && Bit(Leaf(w, v), weight)
    decreases level
  {
    var s := Slot(level, v / Size(level));
    var i := v / Size(level - 1) % 512;
    TranslateFindsLeaf(w, level, v);
    assert SlotOk(w, s);
    if level > 1 {
      ChildIndex(v, level);
      assert EntryOk(w, s, i, NO_SLOT);
      var c := Child(s, i);
      if c in w.tab {
        EntryNamesTable(w, s, i);
        RightsAreTheLeafs(w, level - 1, v, weight);
      } else {
        LeafBelow(w, v, level - 1, NO_SLOT);
      }
    } else {
      assert LeafOk(w, s, i);
    }
  }

  // The entry of a table that names another.
  ghost predicate NamesTable(w: View, s: Slot, i: int) {
    && s in w.tab && w.tab[s] in w.pages && 0 <= i < |w.pages[w.tab[s]]| && Child(s, i) in w.tab
    && TableBits(w.pages[w.tab[s]][i]) && FrameOf(w.pages[w.tab[s]][i]) == w.tab[Child(s, i)]
  }

  lemma EntryNamesTable(w: View, s: Slot, i: int)
    requires TreeOk(w, NO_SLOT) && s in w.tab && s.level >= 2 && 0 <= i < ENTRIES && Child(s, i) in w.tab
    ensures NamesTable(w, s, i) && !LargePage(w.pages[w.tab[s]][i])
  {
    UpperEntry(w, s, i, NO_SLOT);
    FrameOfEntry(w.tab[Child(s, i)], UPPER_FLAGS);
    LowBits(w.tab[Child(s, i)], UPPER_FLAGS);
  }

  // A page with a leaf has its whole path of tables.
  lemma {:induction false} LeafBelow(w: View, v: int, level: nat, dangling: Slot)
    requires TreeOk(w, dangling) && 1 <= level <= 4 && 0 <= v
    ensures LeafSlot(v) in w.tab ==> Slot(level, v / Size(level)) in w.tab
    decreases level
  {
    if level > 1 && LeafSlot(v) in w.tab {
      LeafBelow(w, v, level - 1, dangling);
      ChildIndex(v, level);
      assert SlotOk(w, Slot(level - 1, v / Size(level - 1)));
    }
  }

  // ------------------------------------------------------- frames outside a tree

  // Only free pages and the given ones are written.
  ghost predicate OnlyFreeWritten(w: View, x: View, also: set<int>) {
    && x.pages.Keys == w.pages.Keys
    && forall p :: p in w.pages && p !in w.free && p !in also ==> x.pages[p] == w.pages[p]
  }

  // Frames that move between the free list and clients change no tree.
  lemma FramesMove(w: View, x: View, also: set<int>)
    requires TreeOk(w, NO_SLOT) && x == w.(pages := x.pages, free := x.free) && x.free !! x.lost
    requires OnlyFreeWritten(w, x, also) && (forall s :: s in w.tab ==> w.tab[s] !in x.free && w.tab[s] !in also)
    ensures TreeOk(x, NO_SLOT)
  {
    TablesExist(w, NO_SLOT);
    forall s | s in x.tab ensures SlotOk(x, s) {
      assert SlotOk(w, s);
    }
    forall s, j | s in x.tab && s.level >= 2 && 0 <= j < ENTRIES ensures EntryOk(x, s, j, NO_SLOT) {
      assert EntryOk(w, s, j, NO_SLOT);
    }
    forall s, j | s in x.tab && s.level == 1 && 0 <= j < ENTRIES ensures LeafOk(x, s, j) {
      assert LeafOk(w, s, j);
    }
  }

  // ----------------------------------------------------------- what a map does

  // w and x differ in table n only, and perhaps in pages that are no tables.
  ghost predicate OthersSame(w: View, x: View, n: Slot) {
    forall s :: s in w.tab && s != n ==>
      w.tab[s] in w.pages && w.tab[s] in x.pages && x.pages[w.tab[s]] == w.pages[w.tab[s]]
  }

  // vmm_map hangs a zeroed frame into an empty entry.
  ghost predicate TableAdded(w: View, x: View, n: Slot, i: int, frame: int) {
    && n in w.tab && n.level >= 2 && 0 <= i < ENTRIES && Child(n, i) !in w.tab
    && 0 <= frame < MEMORY_LIMIT && frame % PAGE_SIZE == 0 && frame in w.free
    && x.tab == w.tab[Child(n, i) := frame] && x.free == w.free - {frame} && x.lost == w.lost
    && frame in x.pages && x.pages[frame] == ZeroPage()
    && w.tab[n] in w.pages && w.tab[n] in x.pages && |w.pages[w.tab[n]]| == ENTRIES
    && x.pages[w.tab[n]] == w.pages[w.tab[n]][i := frame + UPPER_FLAGS]
    && OthersSame(w, x, n)
  }

  lemma AddTable(w: View, x: View, n: Slot, i: int, frame: int)
    requires TreeOk(w, NO_SLOT) && TableAdded(w, x, n, i, frame)
    ensures TreeOk(x, NO_SLOT)
    ensures forall v :: Leaf(x, v) == Leaf(w, v)
  {
    AddTableSlots(w, x, n, i, frame);
    AddTableEntries(w, x, n, i, frame);
    AddTableLeaves(w, x, n, i, frame);
  }

  lemma AddTableLeaves(w: View, x: View, n: Slot, i: int, frame: int)
    requires TreeOk(w, NO_SLOT) && TableAdded(w, x, n, i, frame)
    requires forall s :: s in x.tab ==> SlotOk(x, s)
    ensures forall s, j :: s in x.tab && s.level == 1 && 0 <= j < ENTRIES ==> LeafOk(x, s, j)
    ensures forall v :: Leaf(x, v) == Leaf(w, v)
  {
    forall s, j | s in x.tab && s.level == 1 && 0 <= j < ENTRIES ensures LeafOk(x, s, j) {
      if s != Child(n, i) {
        assert LeafOk(w, s, j) && SlotOk(w, s);
      }
    }
    forall v ensures Leaf(x, v) == Leaf(w, v) {
      if LeafSlot(v) in w.tab {
        assert SlotOk(w, LeafSlot(v));
      }
    }
  }

  lemma AddTableSlots(w: View, x: View, n: Slot, i: int, frame: int)
    requires TreeOk(w, NO_SLOT) && TableAdded(w, x, n, i, frame)
    ensures forall s :: s in x.tab ==> SlotOk(x, s)
    ensures forall s, t :: s in x.tab && t in x.tab && x.tab[s] == x.tab[t] ==> s == t
  {
    var c := Child(n, i);
    assert SlotOk(w, n);
    assert Parent(c) == n;
    forall s | s in x.tab ensures SlotOk(x, s) {
      if s != c {
        assert SlotOk(w, s);
      }
    }
    forall s, t | s in x.tab && t in x.tab && x.tab[s] == x.tab[t] ensures s == t {
      assert s != c ==> SlotOk(w, s);
      assert t != c ==> SlotOk(w, t);
    }
  }

  // A table that is not in the tree has no children there.
  lemma NoOrphans(w: View, c: Slot, j: int, dangling: Slot)
    requires TreeOk(w, dangling) && c.level < 4 && 0 <= j < ENTRIES
    ensures Child(c, j) in w.tab ==> c in w.tab
  {
    assert Parent(Child(c, j)) == c;
    if Child(c, j) in w.tab {
      assert SlotOk(w, Child(c, j));
    }
  }

  lemma AddTableEntries(w: View, x: View, n: Slot, i: int, frame: int)
    requires TreeOk(w, NO_SLOT) && TableAdded(w, x, n, i, frame)
    requires forall s :: s in x.tab ==> SlotOk(x, s)
    ensures forall s, j :: s in x.tab && s.level >= 2 && 0 <= j < ENTRIES ==> EntryOk(x, s, j, NO_SLOT)
  {
    var c := Child(n, i);
    forall s, j | s in x.tab && s.level >= 2 && 0 <= j < ENTRIES ensures EntryOk(x, s, j, NO_SLOT) {
      if s == c {
        NoOrphans(w, c, j, NO_SLOT);
      } else {
        assert EntryOk(w, s, j, NO_SLOT) && SlotOk(w, s);
        assert Child(s, j) == c ==> s == n && j == i;
      }
    }
  }

  // vmm_map and vmm_unmapRecursive rewrite one leaf entry.
  ghost predicate LeafRewritten(w: View, x: View, s: Slot, i: int, e: Word) {
    && s in w.tab && s.level == 1 && 0 <= i < ENTRIES
    && (e == 0 || LeafEntry(e))
    && x.tab == w.tab && x.free == w.free && x.lost == w.lost
    && w.tab[s] in w.pages && w.tab[s] in x.pages && |w.pages[w.tab[s]]| == ENTRIES
    && x.pages[w.tab[s]] == w.pages[w.tab[s]][i := e]
    && OthersSame(w, x, s)
  }

  lemma SetLeaf(w: View, x: View, s: Slot, i: int, e: Word)
    requires TreeOk(w, NO_SLOT) && LeafRewritten(w, x, s, i, e)
    ensures TreeOk(x, NO_SLOT)
    ensures forall v :: Leaf(x, v) == if v == s.prefix * 512 + i then e else Leaf(w, v)
  {
    SameShape(w, x);
    forall t, j | t in x.tab && t.level >= 2 && 0 <= j < ENTRIES ensures EntryOk(x, t, j, NO_SLOT) {
      assert EntryOk(w, t, j, NO_SLOT);
    }
    forall t, j | t in x.tab && t.level == 1 && 0 <= j < ENTRIES ensures LeafOk(x, t, j) {
      assert LeafOk(w, t, j);
    }
    forall v ensures Leaf(x, v) == if v == s.prefix * 512 + i then e else Leaf(w, v) {
      LeafAfterSet(w, x, s, i, e, v);
    }
  }

  lemma LeafAfterSet(w: View, x: View, s: Slot, i: int, e: Word, v: int)
    requires LeafRewritten(w, x, s, i, e) && forall t :: t in w.tab ==> SlotOk(w, t)
    ensures Leaf(x, v) == if v == s.prefix * 512 + i then e else Leaf(w, v)
  {
    var t := LeafSlot(v);
    if t in w.tab {
      assert SlotOk(w, t);
      assert v == s.prefix * 512 + i <==> t == s && v % 512 == i;
    } else {
      assert v == s.prefix * 512 + i ==> t == s;
    }
  }

  lemma SameShape(w: View, x: View)
    requires forall s :: s in w.tab ==> SlotOk(w, s)
    requires x.tab == w.tab && x.free == w.free && x.lost == w.lost
    requires forall s :: s in w.tab ==> w.tab[s] in x.pages && |x.pages[w.tab[s]]| == ENTRIES
    ensures forall s :: s in x.tab ==> SlotOk(x, s)
  {
    forall s | s in x.tab ensures SlotOk(x, s) {
      assert SlotOk(w, s);
    }
  }

  // Nothing happens to a tree while frames that are no tables change hands.
  lemma TablesKept(w: View, x: View, dangling: Slot)
    requires TreeOk(w, dangling) && x.tab == w.tab && OthersSame(w, x, NO_SLOT)
    requires x.free !! x.lost && x.free + x.lost == w.free + w.lost
    ensures TreeOk(x, dangling)
    ensures forall v :: Leaf(x, v) == Leaf(w, v)
  {
    forall s | s in x.tab ensures SlotOk(x, s) {
      assert SlotOk(w, s);
    }
    forall s, j | s in x.tab && s.level >= 2 && 0 <= j < ENTRIES ensures EntryOk(x, s, j, dangling) {
      assert EntryOk(w, s, j, dangling) && SlotOk(w, s);
    }
    forall s, j | s in x.tab && s.level == 1 && 0 <= j < ENTRIES ensures LeafOk(x, s, j) {
      assert LeafOk(w, s, j) && SlotOk(w, s);
    }
    forall v ensures Leaf(x, v) == Leaf(w, v) {
      if LeafSlot(v) in w.tab {
        assert SlotOk(w, LeafSlot(v));
      }
    }
  }

  lemma TablesExist(w: View, dangling: Slot)
    requires TreeOk(w, dangling)
    ensures w.free !! w.lost
    ensures forall s, t :: s in w.tab && t in w.tab && w.tab[s] == w.tab[t] ==> s == t
    ensures forall s :: s in w.tab ==>
              && w.tab[s] in w.pages && |w.pages[w.tab[s]]| == ENTRIES
              && w.tab[s] !in w.free && w.tab[s] !in w.lost && w.tab[s] % PAGE_SIZE == 0 && 0 <= w.tab[s] < MEMORY_LIMIT
  {
    forall s | s in w.tab ensures w.tab[s] in w.pages {
      assert SlotOk(w, s);
    }
  }

  lemma AddedFrames(w: View, x: View, n: Slot, i: int, frame: int)
    requires TableAdded(w, x, n, i, frame)
    ensures Frames(x) == Frames(w)
  {
    var c := Child(n, i);
    forall p | p in w.tab.Values ensures p in x.tab.Values {
      var s :| s in w.tab && w.tab[s] == p;
      assert s in x.tab && x.tab[s] == p;
    }
    assert x.tab[c] == frame;
    forall p | p in x.tab.Values ensures p in w.tab.Values || p == frame {
      var s :| s in x.tab && x.tab[s] == p;
      assert s != c ==> s in w.tab && w.tab[s] == p;
    }
  }

  // A frame that left the free list for nothing changes no tree.
  lemma FrameLost(w: View, x: View, lo: int, hi: int)
    requires TreeOk(w, NO_SLOT) && x.tab == w.tab && x.pages.Keys == w.pages.Keys
    requires x.free <= w.free && x.lost == w.lost + (w.free - x.free)
    requires forall p :: p in w.pages && p !in w.free ==> x.pages[p] == w.pages[p]
    ensures TreeOk(x, NO_SLOT) && SameLeaves(w, x) && Extends(w, x, lo, hi)
  {
    TablesExist(w, NO_SLOT);
    TablesKept(w, x, NO_SLOT);
  }
}
