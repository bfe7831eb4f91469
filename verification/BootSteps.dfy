/**
  Page ranges, level-4 slots and what mapping one more page does to a table. Virtual addresses of the
  boot layout are 48-bit numbers; pages are numbered from 0.
*/
module BootSteps {
  import opened Descriptors
  import opened FrameAllocator
  import opened Handoff
  import opened MemoryMap
  import opened Nukleus
  import opened Paging
  import E = Entries

  const SLOT_PAGES: int := 0x800_0000
  const STACK_SIZE: nat := 81920
  const INFO_ALIGN: nat := 8

  /** The flags the boot sequence maps pages with: PRESENT, with and without WRITABLE. */
  const READ_WRITE: Flags := Flags(true, true, false, false)
  const READ_ONLY: Flags := Flags(true, false, false, false)

  /** The level-4 slot of a page, and the 2 MiB page around it. */
  function SlotOf(page: int): int { page / 0x800_0000 }

  function HugeOf(page: int): int { page / 512 }

  predicate InRange(base: int, count: nat, p: int) { base <= p < base + count }

  ghost function Pages(base: int, count: nat): set<int> {
    set p | base <= p < base + count && InRange(base, count, p)
  }

  /** Pages base, base + 1, .. mapped to consecutive frames. */
  ghost function Straight(base: int, count: nat, frame: nat, flags: Flags): map<int, Entry> {
    map p | base <= p < base + count && InRange(base, count, p) :: Entry(frame + (p - base), flags)
  }

  /** At most n frames have been handed out between the two. */
  ghost predicate Took(before: seq<nat>, given: seq<nat>, n: int) {
    before <= given && |given| <= |before| + n
  }

  /** The pages are mapped to pairwise different frames, all handed out since `before`. */
  ghost predicate FreshFrames(k: map<int, Entry>, pages: set<int>, before: seq<nat>, given: seq<nat>) {
    && (forall p :: p in pages ==> p in k && k[p].frame in given && k[p].frame !in before)
    && (forall p, q :: p in pages && q in pages && p != q ==> k[p].frame != k[q].frame)
  }

  lemma FreshNone(k: map<int, Entry>, base: int, before: seq<nat>)
    ensures FreshFrames(k, Pages(base, 0), before, before)
  {
  }

  lemma FreshStep(k: map<int, Entry>, base: int, i: nat, before: seq<nat>, given: seq<nat>, x: Entry,
                  later: seq<nat>)
    requires FreshFrames(k, Pages(base, i), before, given) && before <= given <= later
    requires x.frame in later && x.frame !in given
    ensures FreshFrames(k[base + i := x], Pages(base, i + 1), before, later)
  {
    assert forall g :: g in given ==> g in later;
    assert forall g :: g in before ==> g in given;
    assert forall p :: p in Pages(base, i + 1) <==> p in Pages(base, i) || p == base + i;
  }

  /** Frames handed out in two stretches of a run. */
  lemma FreshJoin(k: map<int, Entry>, a: set<int>, b: set<int>, before: seq<nat>, given: seq<nat>, later: seq<nat>)
    requires before <= given <= later
    requires FreshFrames(k, a, before, given) && FreshFrames(k, b, given, later)
    ensures FreshFrames(k, a + b, before, later)
  {
    assert forall g :: g in given ==> g in later;
    assert forall g :: g in before ==> g in given;
  }

  lemma FreshKept(k0: map<int, Entry>, k: map<int, Entry>, pages: set<int>, before: seq<nat>, given: seq<nat>,
                  later: seq<nat>)
    requires FreshFrames(k0, pages, before, given) && Keeps(k0, k) && given <= later
    ensures FreshFrames(k, pages, before, later)
  {
    assert forall g :: g in given ==> g in later;
  }

  lemma FreshMore(k: map<int, Entry>, pages: set<int>, before: seq<nat>, given: seq<nat>, later: seq<nat>)
    requires FreshFrames(k, pages, before, given) && given <= later
    ensures FreshFrames(k, pages, before, later)
  {
    FreshKept(k, k, pages, before, given, later);
  }

  lemma FreshOne(k: map<int, Entry>, page: int, before: seq<nat>, given: seq<nat>)
    requires page in k && k[page].frame in given && k[page].frame !in before
    ensures FreshFrames(k, {page}, before, given)
  {
  }

  /** A frame just handed out was never handed out before. */
  lemma NewFrameIsFresh(allocator: LegacyFrameAllocator, before: seq<nat>)
    requires allocator.Valid() && |before| < |allocator.given| && before <= allocator.given
    ensures forall i :: |before| <= i < |allocator.given| ==> allocator.given[i] !in before
  {
    var list := FrameList(allocator.original, allocator.first);
    FrameListIncreasing(allocator.original, allocator.first);
    assert forall i :: 0 <= i < |allocator.given| ==> allocator.given[i] == list[i];
  }

  /** `k` is `k0` with the pages base, .., base + count - 1 added. */
  ghost predicate Grown(k0: map<int, Entry>, k: map<int, Entry>, base: int, count: nat) {
    && k.Keys == k0.Keys + Pages(base, count)
    && k0.Keys !! Pages(base, count)
    && forall p :: p in k0 ==> k[p] == k0[p]
  }

  lemma GrownNone(k: map<int, Entry>, base: int)
    ensures Grown(k, k, base, 0)
  {
    assert Pages(base, 0) == {};
  }

  lemma GrownKey(k0: map<int, Entry>, k: map<int, Entry>, base: int, i: nat)
    requires Grown(k0, k, base, i)
    ensures base + i in k <==> base + i in k0
  {
    assert !InRange(base, i, base + i);
  }

  lemma GrownStep(k0: map<int, Entry>, k: map<int, Entry>, base: int, i: nat, x: Entry)
    requires Grown(k0, k, base, i) && base + i !in k
    ensures Grown(k0, k[base + i := x], base, i + 1)
  {
    assert InRange(base, i + 1, base + i);
    assert forall p :: InRange(base, i + 1, p) <==> InRange(base, i, p) || p == base + i;
    assert Pages(base, i + 1) == Pages(base, i) + {base + i};
  }

  lemma StraightNone(k: map<int, Entry>, base: int, frame: nat, flags: Flags)
    ensures k + Straight(base, 0, frame, flags) == k
  {
  }

  lemma StraightGrown(k0: map<int, Entry>, base: int, count: nat, frame: nat, flags: Flags)
    requires forall p :: InRange(base, count, p) ==> p !in k0
    ensures Grown(k0, k0 + Straight(base, count, frame, flags), base, count)
  {
    assert forall p :: p in Straight(base, count, frame, flags) <==> p in Pages(base, count);
  }

  /** The pages base, .., base + count - 1 are mapped to the same frames in both tables. */
  ghost predicate Shared(k: map<int, Entry>, b: map<int, Entry>, base: int, count: nat) {
    forall p :: InRange(base, count, p) ==> p in k && p in b && k[p] == b[p]
  }

  lemma NothingShared(k: map<int, Entry>, b: map<int, Entry>, base: int)
    ensures Shared(k, b, base, 0)
  {
  }

  lemma SharedStep(k: map<int, Entry>, b: map<int, Entry>, base: int, i: nat, x: Entry)
    requires Shared(k, b, base, i)
    ensures Shared(k[base + i := x], b[base + i := x], base, i + 1)
  {
    assert forall p :: InRange(base, i + 1, p) <==> InRange(base, i, p) || p == base + i;
  }

  lemma MapMemory(allocator: LegacyFrameAllocator, ks: nat, len: nat)
    requires allocator.Valid() && allocator.first == 1 && BootAssumptions(allocator.original, ks, len)
    ensures var out := MapOf(allocator.original, allocator.nextFrame * 4096, ks, ks + len);
            && out.Some? && |out.value| < |allocator.original| + 4
            && MapsMemory(allocator, ks, len, out.value)
  {
    var list := FrameList(allocator.original, 1);
    assert list[..|allocator.given|] == allocator.given;
    MapFits(allocator.original, allocator.nextFrame * 4096, ks, len);
  }

  /** Frames the boot sequence takes for the kernel are never handed out again by the kernel's own allocator. */
  lemma BootFramesSafe(allocator: LegacyFrameAllocator, k: map<int, Entry>, pages: set<int>, before: seq<nat>,
                       ks: nat, len: nat, regions: seq<Region>)
    requires BootAssumptions(allocator.original, ks, len) && MapsMemory(allocator, ks, len, regions)
    requires FreshFrames(k, pages, before, allocator.given)
    ensures forall r :: r in regions ==> r.start <= r.end
    ensures forall p :: p in pages ==> k[p].frame !in UsableFrames(regions)
  {
    hide BootAssumptions, MapOf, FrameList, UsableFrames;
    var descs, n := allocator.original, |allocator.given|;
    MapFits(descs, NextFree(descs, n), ks, len);
    forall p | p in pages
      ensures k[p].frame !in UsableFrames(regions)
    {
      GivenNotKernels(descs, n, ks, len, k[p].frame);
    }
  }

  lemma StraightStep(k: map<int, Entry>, base: int, i: nat, frame: nat, flags: Flags)
    ensures k + Straight(base, i + 1, frame, flags)
         == (k + Straight(base, i, frame, flags))[base + i := Entry(frame + i, flags)]
    ensures base + i in k + Straight(base, i, frame, flags) <==> base + i in k
  {
    assert InRange(base, i + 1, base + i) && !InRange(base, i, base + i);
    assert forall p :: InRange(base, i + 1, p) <==> InRange(base, i, p) || p == base + i;
  }

  /** New pages of `k` lie in slots that were free in `s`. */
  ghost predicate NewSlots(k0: map<int, Entry>, k: map<int, Entry>, s: seq<bool>)
    requires |s| == E.SLOTS
  {
    forall p :: p in k && p !in k0 ==> 1 <= SlotOf(p) < E.SLOTS && !s[SlotOf(p)]
  }

  ghost predicate NewHugeSlots(h0: map<int, Entry>, h: map<int, Entry>, s: seq<bool>)
    requires |s| == E.SLOTS
  {
    forall p :: HugeOf(p) in h && HugeOf(p) !in h0 ==> 1 <= SlotOf(p) < E.SLOTS && !s[SlotOf(p)]
  }

  ghost predicate KeepsUsed(s: seq<bool>, t: seq<bool>) {
    |s| == |t| && forall i :: 0 <= i < |s| && s[i] ==> t[i]
  }

  lemma GrownOnly(k0: map<int, Entry>, k: map<int, Entry>, base: int, count: nat)
    requires Grown(k0, k, base, count)
    ensures forall p :: p in k <==> p in k0 || InRange(base, count, p)
  {
    forall p
      ensures p in k <==> p in k0 || InRange(base, count, p)
    {
      assert p in k <==> p in k.Keys;
      assert p in Pages(base, count) <==> InRange(base, count, p);
    }
  }

  lemma GrownIsNew(k0: map<int, Entry>, k: map<int, Entry>, base: int, count: nat, s: seq<bool>)
    requires Grown(k0, k, base, count) && |s| == E.SLOTS
    requires forall p :: InRange(base, count, p) ==> 1 <= SlotOf(p) < E.SLOTS && !s[SlotOf(p)]
    ensures NewSlots(k0, k, s)
  {
    GrownOnly(k0, k, base, count);
  }

  lemma StraightIsNew(k0: map<int, Entry>, base: int, count: nat, frame: nat, flags: Flags, s: seq<bool>)
    requires |s| == E.SLOTS
    requires forall p :: InRange(base, count, p) ==> 1 <= SlotOf(p) < E.SLOTS && !s[SlotOf(p)]
    ensures NewSlots(k0, k0 + Straight(base, count, frame, flags), s)
  {
  }

  lemma PowersOfTwo()
    ensures E.IsPowerOfTwo(4096) && E.IsPowerOfTwo(0x20_0000) && E.IsPowerOfTwo(INFO_ALIGN)
  {
    assert E.IsPowerOfTwo(8);
    assert E.IsPowerOfTwo(64);
    assert E.IsPowerOfTwo(512);
    assert E.IsPowerOfTwo(4096);
    assert E.IsPowerOfTwo(0x8000);
    assert E.IsPowerOfTwo(0x4_0000);
    assert E.IsPowerOfTwo(0x20_0000);
  }

  /** A slot boundary meets every alignment the boot sequence asks for. */
  lemma PageAligned(page: int)
    ensures page % SLOT_PAGES == 0 ==>
              page * 4096 % 4096 == 0 && page * 4096 % 0x20_0000 == 0 && page * 4096 % INFO_ALIGN == 0
  {
  }

  lemma GivenListed(allocator: LegacyFrameAllocator, f: nat)
    requires allocator.Valid() && allocator.given != [] && allocator.given[|allocator.given| - 1] == f
    ensures f in FrameList(allocator.original, allocator.first)
  {
    assert (allocator.given + allocator.Remaining())[|allocator.given| - 1] == f;
  }

  /** The number of frames that hold [addr, addr + len). */
  function FrameCount(addr: nat, len: nat): nat
    requires 0 < len
  {
    (addr + len - 1) / 4096 - addr / 4096 + 1
  }

  lemma FrameCountFits(addr: nat, len: nat)
    requires 0 < len && addr % 4096 + len <= E.SlotsFor(len) * E.SLOT_SIZE
    ensures FrameCount(addr, len) <= E.SlotsFor(len) * SLOT_PAGES
  {
  }

  /** The number of pages that `len` bytes take from a page boundary on. */
  function PagesFor(len: nat): nat
    requires 0 < len
  {
    (len - 1) / 4096 + 1
  }

  lemma PagesForFit(len: nat)
    requires 0 < len
    ensures PagesFor(len) <= E.SlotsFor(len) * SLOT_PAGES
  {
    SlotsCover(len);
  }

  lemma SlotsCover(size: nat)
    ensures size <= E.SlotsFor(size) * E.SLOT_SIZE
  {
  }

  /** The end of the highest descriptor. */
  ghost predicate EndOfMemory(descs: seq<Descriptor>, end: nat) {
    (forall d :: d in descs ==> d.End() <= end) && exists d :: d in descs && d.End() == end
  }

  /** The same as a function; 0 for an empty map. */
  function MemoryEnd(descs: seq<Descriptor>): nat {
    if descs == [] then 0
    else if descs[0].End() < MemoryEnd(descs[1..]) then MemoryEnd(descs[1..]) else descs[0].End()
  }

  lemma {:induction false} MemoryEndIs(descs: seq<Descriptor>)
    ensures descs != [] ==> EndOfMemory(descs, MemoryEnd(descs))
  {
    if |descs| > 1 {
      MemoryEndIs(descs[1..]);
      forall d | d in descs
        ensures d.End() <= MemoryEnd(descs)
      {
        assert d == descs[0] || d in descs[1..];
      }
      var e :| e in descs[1..] && e.End() == MemoryEnd(descs[1..]);
      assert e in descs && descs[0] in descs;
    } else if descs != [] {
      assert descs[0] in descs;
    }
  }

  lemma OneEnd(descs: seq<Descriptor>, end: nat)
    requires EndOfMemory(descs, end)
    ensures end == MemoryEnd(descs)
  {
    MemoryEndIs(descs);
  }

  /** 2 MiB frames up to the one that holds the last byte. */
  function HugeCount(maxPhys: nat): nat
    requires 0 < maxPhys
  {
    (maxPhys - 1) / 0x20_0000 + 1
  }

  lemma HugeStart(page: int)
    requires page % SLOT_PAGES == 0
    ensures HugeOf(page) * 512 == page
  {
    var q := page / SLOT_PAGES;
    assert page == (q * 0x4_0000) * 512;
  }

  lemma HugeInWindow(offsetPage: int, maxPhys: nat)
    requires 0 < maxPhys && offsetPage % SLOT_PAGES == 0
    ensures HugeOf(offsetPage) * 512 == offsetPage
    ensures HugeCount(maxPhys) * 512 <= E.SlotsFor(maxPhys) * SLOT_PAGES
  {
    hide HugeOf, HugeCount, E.SlotsFor;
    SlotsCover(maxPhys);
    HugeCovered(maxPhys, E.SlotsFor(maxPhys));
    HugeStart(offsetPage);
  }

  lemma HugeCovered(size: nat, slots: nat)
    requires 0 < size <= slots * 0x80_0000_0000
    ensures HugeCount(size) <= slots * 0x4_0000
  {
  }

  lemma InRangeAt(base: int, count: nat, i: nat)
    requires i < count
    ensures InRange(base, count, base + i)
  {
  }

  /** The 4 KiB pages of a 2 MiB page in the window. */
  lemma HugePagesFree(offsetPage: int, n: nat, count: nat, hp: int)
    requires HugeOf(offsetPage) * 512 == offsetPage && count * 512 <= n
    requires InRange(HugeOf(offsetPage), count, hp)
    ensures forall p :: HugeOf(p) == hp ==> InRange(offsetPage, n, p)
    ensures HugeOf(hp * 512) == hp
  {
  }

  lemma StraightHugeNew(h0: map<int, Entry>, offsetPage: int, n: nat, count: nat, flags: Flags, s: seq<bool>)
    requires HugeOf(offsetPage) * 512 == offsetPage && count * 512 <= n && |s| == E.SLOTS
    requires forall p :: InRange(offsetPage, n, p) ==> 1 <= SlotOf(p) < E.SLOTS && !s[SlotOf(p)]
    ensures NewHugeSlots(h0, h0 + Straight(HugeOf(offsetPage), count, 0, flags), s)
  {
    forall p | HugeOf(p) in h0 + Straight(HugeOf(offsetPage), count, 0, flags) && HugeOf(p) !in h0
      ensures 1 <= SlotOf(p) < E.SLOTS && !s[SlotOf(p)]
    {
      HugePagesFree(offsetPage, n, count, HugeOf(p));
    }
  }

  /** The pages of `num` slots from address `addr` on lie in exactly those slots. */
  lemma WindowSlots(addr: int, num: nat)
    requires 0 <= addr && addr % E.SLOT_SIZE == 0
    ensures var idx, page := addr / E.SLOT_SIZE, addr / 4096;
            && page % SLOT_PAGES == 0 && page * 4096 == addr
            && forall p :: InRange(page, num * SLOT_PAGES, p) ==> idx <= SlotOf(p) < idx + num
  {
  }

  // ---- several regions side by side ----

  /** The mapped pages are the disjoint union of the listed regions. */
  ghost predicate Partition(k: map<int, Entry>, regions: seq<set<int>>) {
    && (forall p :: p in k <==> exists i :: 0 <= i < |regions| && p in regions[i])
    && (forall i, j :: 0 <= i < j < |regions| ==> regions[i] !! regions[j])
  }

  ghost predicate Keeps(k0: map<int, Entry>, k: map<int, Entry>) {
    forall p :: p in k0 ==> p in k && k[p] == k0[p]
  }

  /** Page base + i is mapped to frame + i, with the given flags. */
  ghost predicate Backs(k: map<int, Entry>, base: int, count: nat, frame: nat, flags: Flags) {
    forall p :: InRange(base, count, p) ==> p in k && k[p] == Entry(frame + (p - base), flags)
  }

  ghost predicate Flagged(k: map<int, Entry>, pages: set<int>, flags: Flags) {
    forall p :: p in pages ==> p in k && k[p].flags == flags
  }

  lemma FlaggedKept(k0: map<int, Entry>, k: map<int, Entry>, pages: set<int>, flags: Flags)
    requires Flagged(k0, pages, flags) && Keeps(k0, k)
    ensures Flagged(k, pages, flags)
  {
  }

  lemma FlaggedStep(k: map<int, Entry>, base: int, i: nat, x: Entry)
    requires Flagged(k, Pages(base, i), x.flags)
    ensures Flagged(k[base + i := x], Pages(base, i + 1), x.flags)
  {
    assert forall p :: p in Pages(base, i + 1) <==> p in Pages(base, i) || p == base + i;
  }

  lemma FlaggedNone(k: map<int, Entry>, base: int, flags: Flags)
    ensures Flagged(k, Pages(base, 0), flags)
  {
  }

  lemma PartitionOne(k: map<int, Entry>)
    ensures Partition(k, [k.Keys]) && Keeps(k, k)
  {
    assert [k.Keys][0] == k.Keys;
  }

  lemma PartitionAdd(k0: map<int, Entry>, k: map<int, Entry>, regions: seq<set<int>>, added: set<int>)
    requires Partition(k0, regions) && k.Keys == k0.Keys + added && k0.Keys !! added
    ensures Partition(k, regions + [added])
  {
    var all := regions + [added];
    forall p
      ensures p in k <==> exists i :: 0 <= i < |all| && p in all[i]
    {
      if i :| 0 <= i < |regions| && p in regions[i] {
        assert p in all[i];
      }
      if p in added {
        assert p in all[|regions|];
      }
    }
    forall i, j | 0 <= i < j < |all|
      ensures all[i] !! all[j]
    {
      if j == |regions| {
        assert forall p :: p in regions[i] ==> p in k0.Keys;
      }
    }
  }

  lemma PartitionGrown(k0: map<int, Entry>, k: map<int, Entry>, regions: seq<set<int>>, base: int, count: nat)
    requires Partition(k0, regions) && Grown(k0, k, base, count)
    ensures Partition(k, regions + [Pages(base, count)]) && Keeps(k0, k)
  {
    PartitionAdd(k0, k, regions, Pages(base, count));
  }

  lemma GrownKeeps(k0: map<int, Entry>, k: map<int, Entry>, base: int, count: nat)
    requires Grown(k0, k, base, count)
    ensures Keeps(k0, k)
  {
  }

  lemma PartitionSkip(k: map<int, Entry>, regions: seq<set<int>>)
    requires Partition(k, regions)
    ensures Partition(k, regions + [{}]) && Keeps(k, k)
  {
    PartitionAdd(k, k, regions, {});
  }

  lemma KeepsTrans(a: map<int, Entry>, b: map<int, Entry>, c: map<int, Entry>)
    requires Keeps(a, b) && Keeps(b, c)
    ensures Keeps(a, c)
  {
  }

  lemma StraightBacks(k0: map<int, Entry>, base: int, count: nat, frame: nat, flags: Flags)
    ensures Backs(k0 + Straight(base, count, frame, flags), base, count, frame, flags)
  {
  }

  /** A page in a used slot stays unmapped while only free slots are handed out. */
  lemma StaysUnmapped(k0: map<int, Entry>, k: map<int, Entry>, s: seq<bool>, page: int)
    requires |s| == E.SLOTS && NewSlots(k0, k, s) && page !in k0
    requires 0 <= SlotOf(page) < E.SLOTS && s[SlotOf(page)]
    ensures page !in k
  {
  }

  lemma StaysUncovered(h0: map<int, Entry>, h: map<int, Entry>, s: seq<bool>, page: int)
    requires |s| == E.SLOTS && NewHugeSlots(h0, h, s) && HugeOf(page) !in h0
    requires 0 <= SlotOf(page) < E.SLOTS && s[SlotOf(page)]
    ensures HugeOf(page) !in h
  {
  }

  /** The physical-memory window translates offset + q to q for every byte q below the end of memory. */
  lemma PhysicalTranslates(h: map<int, Entry>, offsetPage: int, maxPhys: nat, q: nat)
    requires q < maxPhys && offsetPage % SLOT_PAGES == 0
    requires Backs(h, HugeOf(offsetPage), HugeCount(maxPhys), 0, READ_WRITE)
    ensures var a := offsetPage * 4096 + q;
            && HugeOf(a / 4096) == a / 0x20_0000
            && a / 0x20_0000 in h
            && h[a / 0x20_0000].frame * 0x20_0000 + a % 0x20_0000 == q
            && h[a / 0x20_0000].flags == READ_WRITE
  {
    HugeStart(offsetPage);
    var a, base := offsetPage * 4096 + q, HugeOf(offsetPage);
    assert a == 0x20_0000 * base + q;
    assert a / 0x20_0000 == base + q / 0x20_0000 && a % 0x20_0000 == q % 0x20_0000;
    assert InRange(base, HugeCount(maxPhys), base + q / 0x20_0000);
  }

  // ---- byte by byte ----

  /** With page `start` showing the frame of address `addr`, byte q of memory shows at its place, writable. */
  ghost predicate ShowsByte(k: map<int, Entry>, start: int, addr: nat, q: nat) {
    var p := start + (q / 4096 - addr / 4096);
    p in k && k[p] == Entry(q / 4096, Flags(true, true, false, false))
  }

  /** The frames of a range are those of its bytes: all of them, and no frame behind the last byte. */
  lemma RangeShown(k: map<int, Entry>, start: int, addr: nat, len: nat)
    requires 0 < len && Backs(k, start, FrameCount(addr, len), addr / 4096, READ_WRITE)
    ensures forall q: nat :: addr <= q < addr + len ==> ShowsByte(k, start, addr, q)
    ensures FrameCount(addr, len) == (addr + len - 1) / 4096 - addr / 4096 + 1
  {
    forall q: nat | addr <= q < addr + len
      ensures ShowsByte(k, start, addr, q)
    {
      assert addr / 4096 <= q / 4096 <= (addr + len - 1) / 4096;
      assert InRange(start, FrameCount(addr, len), start + (q / 4096 - addr / 4096));
    }
  }

  /** The same for as many pages as a length takes from the page of its address on. */
  lemma PagesShown(k: map<int, Entry>, start: int, addr: nat, len: nat)
    requires 0 < len && Backs(k, start, PagesFor(len), addr / 4096, READ_WRITE)
    ensures forall q: nat :: addr / 4096 * 4096 <= q < addr / 4096 * 4096 + len ==> ShowsByte(k, start, addr, q)
  {
    forall q: nat | addr / 4096 * 4096 <= q < addr / 4096 * 4096 + len
      ensures ShowsByte(k, start, addr, q)
    {
      assert q / 4096 - addr / 4096 <= (len - 1) / 4096;
      assert InRange(start, PagesFor(len), start + (q / 4096 - addr / 4096));
    }
  }

  /** Every byte of a length lies on one of its pages, and every one of its pages holds one. */
  lemma PagesForIs(len: nat)
    requires 0 < len
    ensures forall q: nat :: q < len ==> q / 4096 < PagesFor(len)
    ensures (PagesFor(len) - 1) * 4096 < len
  {
  }

  /** The last page of a window of 2 MiB pages holds the last byte of memory. */
  lemma HugeCountIs(maxPhys: nat)
    requires 0 < maxPhys
    ensures (HugeCount(maxPhys) - 1) * 0x20_0000 < maxPhys <= HugeCount(maxPhys) * 0x20_0000
  {
  }

  /** Byte q of memory shows behind the window's start, through a writable 2 MiB page. */
  ghost predicate ShowsHuge(h: map<int, Entry>, start: int, q: nat) {
    var a := start + q;
    && a / 0x20_0000 in h && h[a / 0x20_0000].frame * 0x20_0000 + a % 0x20_0000 == q
    && h[a / 0x20_0000].flags == Flags(true, true, false, false)
  }

  lemma MemoryShown(h: map<int, Entry>, offsetPage: int, maxPhys: nat)
    requires 0 < maxPhys && offsetPage % SLOT_PAGES == 0
    requires Backs(h, HugeOf(offsetPage), HugeCount(maxPhys), 0, READ_WRITE)
    ensures forall q: nat :: q < maxPhys ==> ShowsHuge(h, offsetPage * 4096, q)
  {
    forall q: nat | q < maxPhys
      ensures ShowsHuge(h, offsetPage * 4096, q)
    {
      PhysicalTranslates(h, offsetPage, maxPhys, q);
    }
  }
}
