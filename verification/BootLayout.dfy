/**
  The boot sequence after the kernel has been loaded: every region gets free level-4 slots of its own
  and is mapped page by page. Virtual addresses are 48-bit numbers here; pages are numbered from 0.
*/
module BootLayout {
  import opened Common
  import opened Descriptors
  import opened FrameAllocator
  import opened MemoryMap
  import opened Paging
  import opened Handoff
  import opened BootSteps
  import E = Entries

  /** MapFailed is the "failed to map page" panic, NotAligned the alignment panic, NoSlots that of the slot search. */
  datatype Outcome = Ok | MapFailed | NotAligned | NoSlots | EmptyMap | Exhausted

  /** Where everything went; regions are given by their first page. */
  datatype Layout = Layout(guard: int, stackTop: int, gdtFrame: nat, framebuffer: Option<int>, ramdisk: Option<int>,
                           offsetPage: int, maxPhys: nat)

  function NoLayout(): Layout { Layout(0, 0, 0, None, None, 0, 0) }

  /** A range of physical memory that is to be mapped. */
  datatype PhysRange = PhysRange(addr: nat, len: nat)

  ghost function FramebufferPages(start: Option<int>, fb: Option<PhysRange>): set<int> {
    if start.Some? && fb.Some? && 0 < fb.value.len
    then Pages(start.value, FrameCount(fb.value.addr, fb.value.len)) else {}
  }

  ghost function RamdiskPages(start: Option<int>, rd: Option<PhysRange>): set<int> {
    if start.Some? && rd.Some? && 0 < rd.value.len then Pages(start.value, PagesFor(rd.value.len)) else {}
  }

  /** The pages of the context switch code and of the GDT. */
  ghost function IdentityPages(contextFrame: nat, gdtFrame: nat): set<int> {
    {contextFrame as int, contextFrame + 1, gdtFrame}
  }

  /** The regions of the kernel's address space, in the order they are mapped. */
  ghost function Regions(l: Layout, image: map<int, Entry>, contextFrame: nat, fb: Option<PhysRange>,
                         rd: Option<PhysRange>): seq<set<int>> {
    [image.Keys, Pages(l.guard + 1, STACK_SIZE / 4096), IdentityPages(contextFrame, l.gdtFrame),
     FramebufferPages(l.framebuffer, fb), RamdiskPages(l.ramdisk, rd)]
  }

  ghost predicate FramebufferBacked(start: Option<int>, k: map<int, Entry>, fb: Option<PhysRange>) {
    && (start.Some? <==> fb.Some?)
    && (fb.Some? ==> 0 < fb.value.len)
    && (fb.Some? ==>
          Backs(k, start.value, FrameCount(fb.value.addr, fb.value.len), fb.value.addr / 4096, READ_WRITE))
  }

  ghost predicate RamdiskBacked(start: Option<int>, k: map<int, Entry>, rd: Option<PhysRange>) {
    && (start.Some? <==> rd.Some?)
    && (rd.Some? ==> 0 < rd.value.len)
    && (rd.Some? ==> Backs(k, start.value, PagesFor(rd.value.len), rd.value.addr / 4096, READ_WRITE))
  }

  /** The context switch code and the GDT lie at their own physical addresses. */
  ghost predicate IdentityMapped(k: map<int, Entry>, contextFrame: nat, gdtFrame: nat) {
    forall f: nat :: f in {contextFrame, contextFrame + 1, gdtFrame} ==>
      f in k && k[f] == Entry(f, Flags(true, false, false, false))
  }

  /** The twenty pages between the guard page and the stack's top are mapped, writable. */
  ghost predicate StackMapped(l: Layout, k: map<int, Entry>) {
    && l.stackTop == (l.guard + 21) * 4096
    && forall p :: l.guard + 1 <= p <= l.guard + 20 ==> p in k && k[p].flags == Flags(true, true, false, false)
  }

  lemma StackIsMapped(l: Layout, k: map<int, Entry>)
    requires l.stackTop == (l.guard + 1) * 4096 + STACK_SIZE
    requires Flagged(k, Pages(l.guard + 1, STACK_SIZE / 4096), READ_WRITE)
    ensures StackMapped(l, k)
  {
    forall p | l.guard + 1 <= p <= l.guard + 20
      ensures p in k && k[p].flags == Flags(true, true, false, false)
    {
      assert InRange(l.guard + 1, STACK_SIZE / 4096, p);
      assert p in Pages(l.guard + 1, STACK_SIZE / 4096);
    }
  }

  lemma StackKept(l: Layout, k0: map<int, Entry>, k: map<int, Entry>)
    requires StackMapped(l, k0) && Keeps(k0, k)
    ensures StackMapped(l, k)
  {
  }

  // ---- what is asked of the slots and of the allocator ----

  function StackRequest(): seq<E.Op> { [E.Alloc(E.SlotsFor(4096 + STACK_SIZE))] }

  function RangeRequest(r: Option<PhysRange>): seq<E.Op> {
    if r.Some? then [E.Alloc(E.SlotsFor(r.value.len))] else []
  }

  /** The slots asked for, in order, where memory ends at `end` and the boot info takes `infoSize` bytes. */
  function Requests(fb: Option<PhysRange>, rd: Option<PhysRange>, end: nat): seq<E.Op> {
    TableRequests(fb, rd) + [E.Alloc(E.SlotsFor(end))]
  }

  function TableRequests(fb: Option<PhysRange>, rd: Option<PhysRange>): seq<E.Op> {
    StackRequest() + (RangeRequest(fb) + RangeRequest(rd))
  }

  function AllRequests(fb: Option<PhysRange>, rd: Option<PhysRange>, end: nat, infoSize: nat): seq<E.Op> {
    Requests(fb, rd, end) + [E.Alloc(E.SlotsFor(infoSize))]
  }

  /** The slot a region starts at, if it starts at one, and the slots of the regions of a layout, in order. */
  function SlotAnswer(page: int): Option<int> { if page % SLOT_PAGES == 0 then Some(page / SLOT_PAGES) else None }

  function RangeAnswer(start: Option<int>): seq<Option<int>> { if start.Some? then [SlotAnswer(start.value)] else [] }

  function TableAnswers(l: Layout): seq<Option<int>> {
    [SlotAnswer(l.guard)] + (RangeAnswer(l.framebuffer) + RangeAnswer(l.ramdisk))
  }

  function FramebufferCount(fb: Option<PhysRange>): nat {
    if fb.Some? && 0 < fb.value.len then FrameCount(fb.value.addr, fb.value.len) else 0
  }

  function RamdiskCount(rd: Option<PhysRange>): nat {
    if rd.Some? && 0 < rd.value.len then PagesFor(rd.value.len) else 0
  }

  function WindowCount(end: nat): nat { if 0 < end then HugeCount(end) else 0 }

  function InfoCount(infoSize: nat): nat { if 0 < infoSize then PagesFor(infoSize) else 0 }

  const FIXED_FRAMES: nat := 90

  /** A bound on the frames the sequence takes: four a stack page, three a mapped page, seven a boot info page. */
  function FramesBound(fb: Option<PhysRange>, rd: Option<PhysRange>, end: nat): nat {
    TableFramesBound(fb, rd) + 3 * WindowCount(end)
  }

  function TableFramesBound(fb: Option<PhysRange>, rd: Option<PhysRange>): nat {
    FIXED_FRAMES + 3 * (FramebufferCount(fb) + RamdiskCount(rd))
  }

  function AllFramesBound(fb: Option<PhysRange>, rd: Option<PhysRange>, end: nat, infoSize: nat): nat {
    FramesBound(fb, rd, end) + 7 * InfoCount(infoSize)
  }

  /** The pages that get frames of their own: the stack, and the GDT. */
  ghost function OwnPages(guard: int, gdtFrame: nat): set<int> {
    Pages(guard + 1, STACK_SIZE / 4096) + {gdtFrame as int}
  }

  lemma OwnFrames(k1: map<int, Entry>, k: map<int, Entry>, guard: int, gdtFrame: nat,
                  before: seq<nat>, mid: seq<nat>, given: seq<nat>)
    requires FreshFrames(k1, Pages(guard + 1, STACK_SIZE / 4096), before, mid) && Keeps(k1, k)
    requires FreshFrames(k, {gdtFrame as int}, mid, given) && before <= mid <= given
    ensures FreshFrames(k, OwnPages(guard, gdtFrame), before, given)
  {
    FreshKept(k1, k, Pages(guard + 1, STACK_SIZE / 4096), before, mid, mid);
    FreshJoin(k, Pages(guard + 1, STACK_SIZE / 4096), {gdtFrame as int}, before, mid, given);
  }

  /** All that holds once stack and identity pages have been added to the image. */
  lemma FixedDone(k0: map<int, Entry>, k1: map<int, Entry>, k: map<int, Entry>, guard: int, contextFrame: nat,
                  gdtFrame: nat, before: seq<nat>, mid: seq<nat>, given: seq<nat>)
    requires Grown(k0, k1, guard + 1, STACK_SIZE / 4096) && k == WithIdentity(k1, contextFrame, gdtFrame)
    requires k1.Keys !! IdentityPages(contextFrame, gdtFrame) && before <= mid <= given
    requires FreshFrames(k1, Pages(guard + 1, STACK_SIZE / 4096), before, mid)
    requires FreshFrames(k, {gdtFrame as int}, mid, given)
    requires Flagged(k1, Pages(guard + 1, STACK_SIZE / 4096), READ_WRITE)
    ensures Partition(k, [k0.Keys, Pages(guard + 1, STACK_SIZE / 4096), IdentityPages(contextFrame, gdtFrame)])
    ensures Keeps(k0, k) && Keeps(k1, k) && IdentityMapped(k, contextFrame, gdtFrame)
    ensures FreshFrames(k, OwnPages(guard, gdtFrame), before, given)
    ensures Flagged(k, Pages(guard + 1, STACK_SIZE / 4096), READ_WRITE)
  {
    hide Grown, Partition, Keeps, Pages, IdentityPages, FreshFrames, Flagged, OwnPages, IdentityMapped, WithIdentity;
    IdentityAdded(k1, k, contextFrame, gdtFrame);
    OwnFrames(k1, k, guard, gdtFrame, before, mid, given);
    FlaggedKept(k1, k, Pages(guard + 1, STACK_SIZE / 4096), READ_WRITE);
    FixedRegions(k0, k1, k, guard, contextFrame, gdtFrame);
  }

  /** Image, stack and identity pages side by side. */
  lemma FixedRegions(k0: map<int, Entry>, k1: map<int, Entry>, k: map<int, Entry>, guard: int, contextFrame: nat,
                     gdtFrame: nat)
    requires Grown(k0, k1, guard + 1, STACK_SIZE / 4096)
    requires k.Keys == k1.Keys + IdentityPages(contextFrame, gdtFrame)
    requires k1.Keys !! IdentityPages(contextFrame, gdtFrame) && Keeps(k1, k)
    ensures Partition(k, [k0.Keys, Pages(guard + 1, STACK_SIZE / 4096),
                          IdentityPages(contextFrame, gdtFrame)])
    ensures Keeps(k0, k)
  {
    hide Grown, Partition, Keeps, Pages, IdentityPages;
    PartitionOne(k0);
    PartitionGrown(k0, k1, [k0.Keys], guard + 1, STACK_SIZE / 4096);
    PartitionAdd(k1, k, [k0.Keys] + [Pages(guard + 1, STACK_SIZE / 4096)],
                 IdentityPages(contextFrame, gdtFrame));
    assert [k0.Keys] + [Pages(guard + 1, STACK_SIZE / 4096)] + [IdentityPages(contextFrame, gdtFrame)]
        == [k0.Keys, Pages(guard + 1, STACK_SIZE / 4096), IdentityPages(contextFrame, gdtFrame)];
    KeepsTrans(k0, k1, k);
  }

  lemma FixedKept(k1: map<int, Entry>, k: map<int, Entry>, contextFrame: nat, guard: int, gdtFrame: nat,
                  before: seq<nat>, mid: seq<nat>, given: seq<nat>)
    requires Keeps(k1, k) && mid <= given
    requires IdentityMapped(k1, contextFrame, gdtFrame) && FreshFrames(k1, OwnPages(guard, gdtFrame), before, mid)
    ensures IdentityMapped(k, contextFrame, gdtFrame) && FreshFrames(k, OwnPages(guard, gdtFrame), before, given)
  {
    FreshKept(k1, k, OwnPages(guard, gdtFrame), before, mid, given);
  }

  /** The kernel's tables after set_up_mappings. */
  ghost predicate SetUp(l: Layout, image: map<int, Entry>, k: map<int, Entry>, h: map<int, Entry>, contextFrame: nat,
                        fb: Option<PhysRange>, rd: Option<PhysRange>) {
    && Partition(k, Regions(l, image, contextFrame, fb, rd))
    && Keeps(image, k) && IdentityMapped(k, contextFrame, l.gdtFrame) && StackMapped(l, k)
    && l.guard !in k && HugeOf(l.guard) !in h
    && FramebufferBacked(l.framebuffer, k, fb) && RamdiskBacked(l.ramdisk, k, rd)
    && l.offsetPage % SLOT_PAGES == 0 && 0 < l.maxPhys
    && Backs(h, HugeOf(l.offsetPage), HugeCount(l.maxPhys), 0, READ_WRITE)
  }

  lemma DevicesKept(l: Layout, k0: map<int, Entry>, k: map<int, Entry>, fb: Option<PhysRange>, rd: Option<PhysRange>)
    requires Keeps(k0, k) && FramebufferBacked(l.framebuffer, k0, fb) && RamdiskBacked(l.ramdisk, k0, rd)
    ensures FramebufferBacked(l.framebuffer, k, fb) && RamdiskBacked(l.ramdisk, k, rd)
  {
  }

  lemma FramebufferKept(start: Option<int>, k0: map<int, Entry>, k: map<int, Entry>, fb: Option<PhysRange>)
    requires Keeps(k0, k) && FramebufferBacked(start, k0, fb)
    ensures FramebufferBacked(start, k, fb)
  {
  }

  /** One of the pages to be identity mapped is in the image, or the GDT's frame is one of the context switch code's. */
  ghost predicate IdentityClash(k: map<int, Entry>, contextFrame: nat, frames: seq<nat>) {
    || contextFrame in k || contextFrame + 1 in k
    || exists f :: f in frames && (f in k || f == contextFrame || f == contextFrame + 1)
  }

  /** Pages mapped outside slot 0 clash with none of them. */
  lemma ClashInImage(k0: map<int, Entry>, k1: map<int, Entry>, s: seq<bool>, contextFrame: nat, frames: seq<nat>)
    requires |s| == E.SLOTS && NewSlots(k0, k1, s) && IdentityClash(k1, contextFrame, frames)
    requires SlotOf(contextFrame) == 0 && SlotOf(contextFrame + 1) == 0 && forall f :: f in frames ==> SlotOf(f) == 0
    ensures IdentityClash(k0, contextFrame, frames)
  {
    hide SlotOf;
  }

  ghost function WithIdentity(k: map<int, Entry>, contextFrame: nat, gdtFrame: nat): map<int, Entry> {
    k[contextFrame := Entry(contextFrame, READ_ONLY)]
     [contextFrame + 1 := Entry(contextFrame + 1, READ_ONLY)]
     [gdtFrame := Entry(gdtFrame, READ_ONLY)]
  }

  /** A page outside slot 0 is no identity page. */
  lemma GuardStays(k1: map<int, Entry>, k: map<int, Entry>, page: int, contextFrame: nat, gdtFrame: nat)
    requires k == WithIdentity(k1, contextFrame, gdtFrame) && page !in k1 && SlotOf(page) != 0
    requires SlotOf(contextFrame) == 0 && SlotOf(contextFrame + 1) == 0 && SlotOf(gdtFrame) == 0
    ensures page !in k
  {
    hide SlotOf;
  }

  lemma IdentityAdded(k1: map<int, Entry>, k: map<int, Entry>, contextFrame: nat, gdtFrame: nat)
    requires k == WithIdentity(k1, contextFrame, gdtFrame)
    requires k1.Keys !! IdentityPages(contextFrame, gdtFrame)
    ensures k.Keys == k1.Keys + IdentityPages(contextFrame, gdtFrame) && Keeps(k1, k)
    ensures IdentityMapped(k, contextFrame, gdtFrame)
  {
  }

  /** The twenty pages above the guard page have been added, writable, and no others. */
  ghost predicate StackShown(k0: map<int, Entry>, k: map<int, Entry>, guard: int) {
    && (forall p :: guard + 1 <= p <= guard + 20 ==> p in k && k[p].flags == Flags(true, true, false, false))
    && (forall p :: p in k && p !in k0 ==> guard + 1 <= p <= guard + 20)
  }

  /** The page is mapped to the same frame in both tables, writable. */
  ghost predicate ShowsInBoth(k: map<int, Entry>, b: map<int, Entry>, page: int) {
    page in k && page in b && k[page] == b[page] && k[page].flags == Flags(true, true, false, false)
  }

  lemma InfoShown(k0: map<int, Entry>, k: map<int, Entry>, b: map<int, Entry>, startPage: int, infoSize: nat)
    requires 0 < infoSize && Grown(k0, k, startPage, PagesFor(infoSize)) && Shared(k, b, startPage, PagesFor(infoSize))
    requires Flagged(k, Pages(startPage, PagesFor(infoSize)), READ_WRITE)
    ensures forall q: nat :: q < infoSize ==> ShowsInBoth(k, b, startPage + q / 4096)
    ensures forall p :: p in k && p !in k0 ==> startPage <= p <= startPage + (infoSize - 1) / 4096
  {
    GrownOnly(k0, k, startPage, PagesFor(infoSize));
    PagesForIs(infoSize);
    forall q: nat | q < infoSize
      ensures ShowsInBoth(k, b, startPage + q / 4096)
    {
      assert InRange(startPage, PagesFor(infoSize), startPage + q / 4096);
      assert startPage + q / 4096 in Pages(startPage, PagesFor(infoSize));
    }
  }

  class BootMapper {
    const entries: E.Entries
    const allocator: LegacyFrameAllocator
    /** 4 KiB pages of the kernel's table, its 2 MiB pages, and 4 KiB pages of the bootloader's own table. */
    var kernel: map<int, Entry>
    var huge: map<int, Entry>
    var bootloader: map<int, Entry>

    /** Mapped pages lie in used slots, and no 4 KiB page inside a 2 MiB page. */
    ghost predicate Valid()
      reads this, entries, entries.entryState, allocator
    {
      && entries.Valid() && allocator.Valid()
      && entries.State()[0]
      && (forall p :: p in kernel ==> 0 <= SlotOf(p) < E.SLOTS && entries.State()[SlotOf(p)])
      && (forall p :: HugeOf(p) in huge ==> 0 <= SlotOf(p) < E.SLOTS && entries.State()[SlotOf(p)])
      && (forall p :: p in kernel ==> HugeOf(p) !in huge)
    }

    /** The allocator has no frame left. */
    ghost predicate Dry()
      reads this, allocator
      requires allocator.Consistent()
    {
      allocator.Remaining() == []
    }

    /** Pages in used slots that nothing is mapped at, in either table. */
    ghost predicate Window(base: int, count: nat)
      reads this, entries, entries.entryState
      requires entries.Valid()
    {
      forall p :: InRange(base, count, p) ==>
        && 1 <= SlotOf(p) < E.SLOTS && entries.State()[SlotOf(p)]
        && p !in kernel && HugeOf(p) !in huge
    }

    /** None of these slots was in use in state `s`. */
    static ghost predicate WasFree(s: seq<bool>, base: int, count: nat)
      requires |s| == E.SLOTS
    {
      forall p :: InRange(base, count, p) ==> 1 <= SlotOf(p) < E.SLOTS && !s[SlotOf(p)]
    }

    /** After the load: `image` is the kernel's page table, `own` the bootloader's. */
    constructor (entries: E.Entries, allocator: LegacyFrameAllocator, image: map<int, Entry>, own: map<int, Entry>)
      requires entries.Valid() && allocator.Valid() && entries.State()[0]
      requires forall p :: p in image ==> 0 <= SlotOf(p) < E.SLOTS && entries.State()[SlotOf(p)]
      ensures Valid() && kernel == image && huge == map[] && bootloader == own
      ensures this.entries == entries && this.allocator == allocator
    {
      this.entries, this.allocator := entries, allocator;
      kernel, huge, bootloader := image, map[], own;
    }

    /** Asks for slots: the start page of a fresh window. */
    method MappingAddr(size: nat, alignment: nat) returns (o: Outcome, page: int)
      requires Valid() && E.IsPowerOfTwo(alignment)
      modifies entries, entries.entryState
      ensures Valid()
      ensures o.Ok? || o.NotAligned? ==>
                E.Granted(old(entries.history), entries.history, [E.Alloc(E.SlotsFor(size))])
      ensures o.NoSlots? ==> E.Refused(old(entries.history), entries.history, [E.Alloc(E.SlotsFor(size))])
      ensures o.Ok? ==> entries.history.answers == old(entries.history).answers + [Some(page / SLOT_PAGES)]
      ensures o.Ok? || o.NotAligned? || o.NoSlots?
      ensures o.NotAligned? ==> page * 4096 % alignment != 0
      ensures o.Ok? || o.NotAligned? ==> page % SLOT_PAGES == 0 && 0 < size
      ensures o.Ok? ==>
                && Window(page, E.SlotsFor(size) * SLOT_PAGES)
                && WasFree(old(entries.State()), page, E.SlotsFor(size) * SLOT_PAGES)
      ensures forall i :: 0 <= i < E.SLOTS && old(entries.State())[i] ==> entries.State()[i]
    {
      ghost var h0 := entries.history;
      var addr := entries.GetFreeAddress(size, alignment);
      E.OneRequest(h0, entries.history, E.SlotsFor(size));
      if addr.None? {
        return NoSlots, 0;
      }
      ghost var idx, num := addr.value / E.SLOT_SIZE, E.SlotsFor(size);
      page := addr.value / 4096;
      WindowSlots(addr.value, num);
      if addr.value % alignment != 0 {
        return NotAligned, page;
      }
      return Ok, page;
    }

    /** The mapper uses up at most three frames for page-table pages. */
    method UseTableFrames() returns (o: Outcome)
      requires Valid()
      modifies allocator
      ensures Valid() && (o.Ok? || o.Exhausted?)
      ensures o.Exhausted? ==> Dry()
      ensures Took(old(allocator.given), allocator.given, 3)
    {
      var tables: nat :| tables <= 3;
      for i := 0 to tables
        invariant Valid() && Took(old(allocator.given), allocator.given, i)
      {
        var f := allocator.AllocateFrame();
        if f.None? {
          return Exhausted;
        }
      }
      return Ok;
    }

    /** Maps one 4 KiB page in the kernel's table. */
    method MapPage(page: int, frame: nat, flags: Flags) returns (o: Outcome)
      requires Valid() && 0 <= SlotOf(page) < E.SLOTS && entries.State()[SlotOf(page)]
      modifies this`kernel, allocator
      ensures Valid()
      ensures o.Exhausted? ==> Dry()
      ensures o.Ok? || o.MapFailed? || o.Exhausted?
      ensures o.MapFailed? <==> page in old(kernel) || HugeOf(page) in huge
      ensures o.Ok? ==> kernel == old(kernel)[page := Entry(frame, flags)]
      ensures Took(old(allocator.given), allocator.given, 3)
    {
      if page in kernel || HugeOf(page) in huge {
        return MapFailed;
      }
      o := UseTableFrames();
      if o.Ok? {
        kernel := kernel[page := Entry(frame, flags)];
      }
    }

    /** Maps consecutive pages to consecutive frames, as for the framebuffer and the ramdisk. */
    method MapStraight(base: int, count: nat, frame: nat) returns (o: Outcome)
      requires Valid() && Window(base, count)
      modifies this`kernel, allocator
      ensures Valid()
      ensures o.Exhausted? ==> Dry()
      ensures o.Ok? || o.Exhausted?
      ensures o.Ok? ==> kernel == old(kernel) + Straight(base, count, frame, READ_WRITE)
      ensures o.Ok? ==> Grown(old(kernel), kernel, base, count)
      ensures Took(old(allocator.given), allocator.given, 3 * count)
    {
      hide SlotOf, HugeOf, Straight, Grown, LegacyFrameAllocator.Valid, LegacyFrameAllocator.Consistent;
      ghost var k0 := kernel;
      StraightNone(k0, base, frame, READ_WRITE);
      StraightGrown(k0, base, count, frame, READ_WRITE);
      for i := 0 to count
        invariant Valid()
        invariant kernel == k0 + Straight(base, i, frame, READ_WRITE)
        invariant Took(old(allocator.given), allocator.given, 3 * i)
      {
        assert InRange(base, count, base + i);
        StraightStep(k0, base, i, frame, READ_WRITE);
        o := MapPage(base + i, frame + i, READ_WRITE);
        if !o.Ok? {
          return;
        }
      }
      return Ok;
    }

    /** Maps consecutive pages to frames of the allocator, as for the stack. */
    method MapFresh(base: int, count: nat) returns (o: Outcome)
      requires Valid() && Window(base, count)
      modifies this`kernel, allocator
      ensures Valid()
      ensures o.Exhausted? ==> Dry()
      ensures o.Ok? || o.Exhausted?
      ensures o.Ok? ==> Grown(old(kernel), kernel, base, count)
      ensures o.Ok? ==> Flagged(kernel, Pages(base, count), READ_WRITE)
      ensures o.Ok? ==> FreshFrames(kernel, Pages(base, count), old(allocator.given), allocator.given)
      ensures Took(old(allocator.given), allocator.given, 4 * count)
    {
      hide SlotOf, HugeOf, Grown, LegacyFrameAllocator.Valid, LegacyFrameAllocator.Consistent, FreshFrames, Pages,
        Flagged;
      ghost var k0 := kernel;
      GrownNone(k0, base);
      FreshNone(k0, base, allocator.given);
      FlaggedNone(k0, base, READ_WRITE);
      for i := 0 to count
        invariant Valid()
        invariant Grown(k0, kernel, base, i)
        invariant Took(old(allocator.given), allocator.given, 4 * i)
        invariant Flagged(kernel, Pages(base, i), READ_WRITE)
        invariant FreshFrames(kernel, Pages(base, i), old(allocator.given), allocator.given)
      {
        assert InRange(base, count, base + i);
        GrownKey(k0, kernel, base, i);
        ghost var k, given := kernel, allocator.given;
        o := MapFreshPage(base + i);
        if !o.Ok? {
          return;
        }
        GrownStep(k0, k, base, i, kernel[base + i]);
        FlaggedStep(k, base, i, kernel[base + i]);
        FreshStep(k, base, i, old(allocator.given), given, kernel[base + i], allocator.given);
      }
      return Ok;
    }

    method MapFreshPage(page: int) returns (o: Outcome)
      requires Valid() && 0 <= SlotOf(page) < E.SLOTS && entries.State()[SlotOf(page)]
      modifies this`kernel, allocator
      ensures Valid()
      ensures o.Exhausted? ==> Dry()
      ensures o.Ok? || o.MapFailed? || o.Exhausted?
      ensures o.MapFailed? ==> page in old(kernel) || HugeOf(page) in huge
      ensures o.Ok? ==>
                page in kernel && kernel == old(kernel)[page := kernel[page]] && kernel[page].flags == READ_WRITE
      ensures o.Ok? ==> kernel[page].frame in allocator.given && kernel[page].frame !in old(allocator.given)
      ensures Took(old(allocator.given), allocator.given, 4)
    {
      hide SlotOf, HugeOf;
      var f := allocator.AllocateFrame();
      if f.None? {
        return Exhausted;
      }
      ghost var given := allocator.given;
      NewFrameIsFresh(allocator, old(allocator.given));
      assert f.value in given by { assert given[|given| - 1] == f.value; }
      o := MapPage(page, f.value, READ_WRITE);
      assert given <= allocator.given;
    }

    // ---- the regions, in the order of the boot sequence ----

    /** The guard page and the 80 KiB stack above it. */
    method MapStack() returns (o: Outcome, guard: int)
      requires Valid()
      modifies this`kernel, allocator, entries, entries.entryState
      ensures Valid()
      ensures o.Exhausted? ==> Dry()
      ensures o.Ok? ==> entries.history.answers == old(entries.history).answers + [SlotAnswer(guard)]
      ensures o.Ok? ==> E.Granted(old(entries.history), entries.history, StackRequest())
      ensures o.NoSlots? ==> E.Refused(old(entries.history), entries.history, StackRequest())
      ensures o.Ok? || o.NoSlots? || o.Exhausted?
      ensures o.Ok? ==> Grown(old(kernel), kernel, guard + 1, STACK_SIZE / 4096)
      ensures o.Ok? ==> Flagged(kernel, Pages(guard + 1, STACK_SIZE / 4096), READ_WRITE)
      ensures o.Ok? ==> FreshFrames(kernel, Pages(guard + 1, STACK_SIZE / 4096), old(allocator.given), allocator.given)
      ensures o.Ok? ==> StackShown(old(kernel), kernel, guard)
      ensures o.Ok? ==> guard !in kernel && HugeOf(guard) !in huge
      ensures o.Ok? ==> 1 <= SlotOf(guard) < E.SLOTS && entries.State()[SlotOf(guard)]
      ensures o.Ok? ==> NewSlots(old(kernel), kernel, old(entries.State()))
      ensures KeepsUsed(old(entries.State()), entries.State())
      ensures Took(old(allocator.given), allocator.given, 4 * (STACK_SIZE / 4096))
    {
      hide SlotOf, HugeOf, LegacyFrameAllocator.Valid, LegacyFrameAllocator.Consistent, E.Granted,
        E.Refused, E.Run;
      PowersOfTwo();
      o, guard := MappingAddr(4096 + STACK_SIZE, 4096);
      if !o.Ok? {
        PageAligned(guard);
        return;
      }
      ghost var k0, n := kernel, E.SlotsFor(4096 + STACK_SIZE) * SLOT_PAGES;
      assert InRange(guard, n, guard);
      assert forall p :: InRange(guard + 1, STACK_SIZE / 4096, p) ==> InRange(guard, n, p);
      o := MapFresh(guard + 1, STACK_SIZE / 4096);
      if o.Ok? {
        GrownOnly(k0, kernel, guard + 1, STACK_SIZE / 4096);
        GrownIsNew(k0, kernel, guard + 1, STACK_SIZE / 4096, old(entries.State()));
      }
    }

    /** The identity pages lie in slot 0. */
    ghost predicate BelowSlotOne(contextFrame: nat)
      reads allocator
      requires allocator.Consistent()
    {
      && SlotOf(contextFrame) == 0 && SlotOf(contextFrame + 1) == 0
      && forall f :: f in FrameList(allocator.original, allocator.first) ==> SlotOf(f) == 0
    }

    /** Identity maps the two frames of the context switch code and a fresh frame for the GDT. */
    method MapIdentity(contextFrame: nat) returns (o: Outcome, gdtFrame: nat)
      requires Valid() && huge == map[] && BelowSlotOne(contextFrame)
      modifies this`kernel, allocator
      ensures Valid()
      ensures o.Exhausted? ==> Dry()
      ensures o.Ok? || o.MapFailed? || o.Exhausted?
      ensures o.MapFailed? ==>
                IdentityClash(old(kernel), contextFrame, FrameList(allocator.original, allocator.first))
      ensures o.Ok? ==>
                && kernel == WithIdentity(old(kernel), contextFrame, gdtFrame)
                && old(kernel).Keys !! IdentityPages(contextFrame, gdtFrame)
                && gdtFrame != contextFrame && gdtFrame != contextFrame + 1
                && gdtFrame in FrameList(allocator.original, allocator.first)
                && FreshFrames(kernel, {gdtFrame as int}, old(allocator.given), allocator.given)
      ensures Took(old(allocator.given), allocator.given, 10)
    {
      hide SlotOf, HugeOf, FrameList, LegacyFrameAllocator.Valid, LegacyFrameAllocator.Consistent, FreshFrames;
      gdtFrame := 0;
      o := MapPage(contextFrame, contextFrame, READ_ONLY);
      if !o.Ok? { return; }
      o := MapPage(contextFrame + 1, contextFrame + 1, READ_ONLY);
      if !o.Ok? { return; }
      var f := allocator.AllocateFrame();
      if f.None? { return Exhausted, 0; }
      gdtFrame := f.value;
      GivenListed(allocator, gdtFrame);
      NewFrameIsFresh(allocator, old(allocator.given));
      ghost var given := allocator.given;
      assert given[|given| - 1] == gdtFrame;
      o := MapPage(gdtFrame, gdtFrame, READ_ONLY);
      if o.Ok? {
        assert forall g :: g in given ==> g in allocator.given;
        FreshOne(kernel, gdtFrame, old(allocator.given), allocator.given);
      }
    }

    /** Maps the frames that hold [addr, addr + len). */
    method MapFramebuffer(addr: nat, len: nat) returns (o: Outcome, startPage: int)
      requires Valid() && addr % 4096 + len <= E.SlotsFor(len) * E.SLOT_SIZE
      modifies this`kernel, allocator, entries, entries.entryState
      ensures Valid()
      ensures o.Exhausted? ==> Dry()
      ensures o.Ok? ==> entries.history.answers == old(entries.history).answers + [SlotAnswer(startPage)]
      ensures o.Ok? ==> E.Granted(old(entries.history), entries.history, [E.Alloc(E.SlotsFor(len))])
      ensures o.NoSlots? ==> E.Refused(old(entries.history), entries.history, [E.Alloc(E.SlotsFor(len))])
      ensures o.Ok? || o.NoSlots? || o.Exhausted?
      ensures o.Ok? ==> 0 < len && startPage % SLOT_PAGES == 0
      ensures o.Ok? ==> kernel == old(kernel) + Straight(startPage, FrameCount(addr, len), addr / 4096, READ_WRITE)
      ensures o.Ok? ==> forall q: nat :: addr <= q < addr + len ==> ShowsByte(kernel, startPage, addr, q)
      ensures o.Ok? ==> forall p :: p in kernel && p !in old(kernel) ==>
                startPage <= p <= startPage + ((addr + len - 1) / 4096 - addr / 4096)
      ensures o.Ok? ==> Grown(old(kernel), kernel, startPage, FrameCount(addr, len))
      ensures o.Ok? ==> NewSlots(old(kernel), kernel, old(entries.State()))
      ensures KeepsUsed(old(entries.State()), entries.State())
      ensures Took(old(allocator.given), allocator.given, if 0 < len then 3 * FrameCount(addr, len) else 0)
    {
      hide SlotOf, HugeOf, LegacyFrameAllocator.Valid, LegacyFrameAllocator.Consistent, E.SlotsFor,
        PagesFor, Grown, Straight, E.Granted, E.Refused, E.Run;
      PowersOfTwo();
      o, startPage := MappingAddr(len, 4096);
      if !o.Ok? {
        PageAligned(startPage);
        return;
      }
      ghost var k0, n := kernel, E.SlotsFor(len) * SLOT_PAGES;
      FrameCountFits(addr, len);
      assert forall p :: InRange(startPage, FrameCount(addr, len), p) ==> InRange(startPage, n, p);
      o := MapStraight(startPage, FrameCount(addr, len), addr / 4096);
      if o.Ok? {
        StraightBacks(k0, startPage, FrameCount(addr, len), addr / 4096, READ_WRITE);
        RangeShown(kernel, startPage, addr, len);
        GrownOnly(k0, kernel, startPage, FrameCount(addr, len));
        StraightIsNew(k0, startPage, FrameCount(addr, len), addr / 4096, READ_WRITE, old(entries.State()));
      }
    }

    /** The ramdisk: as many frames as its length takes, from the frame of its address on. */
    method MapRamdisk(addr: nat, len: nat) returns (o: Outcome, startPage: int)
      requires Valid()
      modifies this`kernel, allocator, entries, entries.entryState
      ensures Valid()
      ensures o.Exhausted? ==> Dry()
      ensures o.Ok? ==> entries.history.answers == old(entries.history).answers + [SlotAnswer(startPage)]
      ensures o.Ok? ==> E.Granted(old(entries.history), entries.history, [E.Alloc(E.SlotsFor(len))])
      ensures o.NoSlots? ==> E.Refused(old(entries.history), entries.history, [E.Alloc(E.SlotsFor(len))])
      ensures o.Ok? || o.NoSlots? || o.Exhausted?
      ensures o.Ok? ==> 0 < len && startPage % SLOT_PAGES == 0
      ensures o.Ok? ==> kernel == old(kernel) + Straight(startPage, PagesFor(len), addr / 4096, READ_WRITE)
      ensures o.Ok? ==> forall q: nat :: addr / 4096 * 4096 <= q < addr / 4096 * 4096 + len ==>
                ShowsByte(kernel, startPage, addr, q)
      ensures o.Ok? ==> forall p :: p in kernel && p !in old(kernel) ==> startPage <= p <= startPage + (len - 1) / 4096
      ensures o.Ok? ==> Grown(old(kernel), kernel, startPage, PagesFor(len))
      ensures o.Ok? ==> NewSlots(old(kernel), kernel, old(entries.State()))
      ensures KeepsUsed(old(entries.State()), entries.State())
      ensures Took(old(allocator.given), allocator.given, if 0 < len then 3 * PagesFor(len) else 0)
    {
      hide SlotOf, HugeOf, LegacyFrameAllocator.Valid, LegacyFrameAllocator.Consistent, E.SlotsFor,
        PagesFor, Grown, Straight, E.Granted, E.Refused, E.Run;
      PowersOfTwo();
      o, startPage := MappingAddr(len, 4096);
      if !o.Ok? {
        PageAligned(startPage);
        return;
      }
      ghost var k0, n := kernel, E.SlotsFor(len) * SLOT_PAGES;
      var count := PagesFor(len);
      PagesForFit(len);
      assert forall p :: InRange(startPage, count, p) ==> InRange(startPage, n, p);
      o := MapStraight(startPage, count, addr / 4096);
      if o.Ok? {
        StraightBacks(k0, startPage, count, addr / 4096, READ_WRITE);
        PagesShown(kernel, startPage, addr, len);
        PagesForIs(len);
        GrownOnly(k0, kernel, startPage, count);
        StraightIsNew(k0, startPage, count, addr / 4096, READ_WRITE, old(entries.State()));
      }
    }

    ghost predicate InUsedSlots(hp: int)
      reads entries, entries.entryState
      requires entries.Valid()
    {
      forall p :: HugeOf(p) == hp ==> 0 <= SlotOf(p) < E.SLOTS && entries.State()[SlotOf(p)]
    }

    /** A 4 KiB page is mapped inside the 2 MiB page. */
    predicate Occupied(hp: int)
      reads this`kernel
    {
      exists p :: p in kernel && HugeOf(p) == hp
    }

    /** Maps one 2 MiB page; refused where any page is mapped inside it. */
    method MapHuge(page: int, frame: nat) returns (o: Outcome)
      requires Valid() && InUsedSlots(page)
      modifies this`huge, allocator
      ensures Valid()
      ensures o.Exhausted? ==> Dry()
      ensures o.Ok? || o.MapFailed? || o.Exhausted?
      ensures o.MapFailed? <==> page in old(huge) || Occupied(page)
      ensures o.Ok? ==> huge == old(huge)[page := Entry(frame, READ_WRITE)]
      ensures Took(old(allocator.given), allocator.given, 3)
    {
      if page in huge || Occupied(page) {
        return MapFailed;
      }
      o := UseTableFrames();
      if o.Ok? {
        huge := huge[page := Entry(frame, READ_WRITE)];
      }
    }

    /** 2 MiB pages in used slots that nothing is mapped in. */
    ghost predicate HugeWindow(base: int, count: nat)
      reads this, entries, entries.entryState
      requires entries.Valid()
    {
      forall hp :: InRange(base, count, hp) ==> hp !in huge && InUsedSlots(hp) && !Occupied(hp)
    }

    lemma WindowIsHuge(offsetPage: int, n: nat, count: nat)
      requires Valid() && Window(offsetPage, n) && HugeOf(offsetPage) * 512 == offsetPage && count * 512 <= n
      ensures HugeWindow(HugeOf(offsetPage), count)
    {
      hide SlotOf, HugeOf, InRange;
      forall hp | InRange(HugeOf(offsetPage), count, hp)
        ensures hp !in huge && InUsedSlots(hp) && !Occupied(hp)
      {
        HugePagesFree(offsetPage, n, count, hp);
      }
    }

    method MapHugeRange(base: int, count: nat) returns (o: Outcome)
      requires Valid() && HugeWindow(base, count)
      modifies this`huge, allocator
      ensures Valid()
      ensures o.Exhausted? ==> Dry()
      ensures o.Ok? || o.Exhausted?
      ensures o.Ok? ==> huge == old(huge) + Straight(base, count, 0, READ_WRITE)
      ensures Took(old(allocator.given), allocator.given, 3 * count)
    {
      hide SlotOf, HugeOf, LegacyFrameAllocator.Valid, LegacyFrameAllocator.Consistent, Straight, InRange,
        InUsedSlots, Occupied;
      ghost var h0 := huge;
      StraightNone(h0, base, 0, READ_WRITE);
      for i := 0 to count
        invariant Valid()
        invariant huge == h0 + Straight(base, i, 0, READ_WRITE)
        invariant Took(old(allocator.given), allocator.given, 3 * i)
      {
        InRangeAt(base, count, i);
        StraightStep(h0, base, i, 0, READ_WRITE);
        o := MapHuge(base + i, i);
        if !o.Ok? {
          return;
        }
      }
      return Ok;
    }

    /** The window onto all physical memory, in 2 MiB pages; None of max() is a panic. */
    method MapPhysical() returns (o: Outcome, offsetPage: int, maxPhys: nat)
      requires Valid()
      modifies this`huge, allocator, entries, entries.entryState
      ensures Valid()
      ensures o.Exhausted? ==> Dry()
      ensures o.Ok? ==> entries.history.answers == old(entries.history).answers + [SlotAnswer(offsetPage)]
      ensures o.Ok? ==> E.Granted(old(entries.history), entries.history, [E.Alloc(E.SlotsFor(maxPhys))])
      ensures o.NoSlots? ==> E.Refused(old(entries.history), entries.history, [E.Alloc(E.SlotsFor(maxPhys))])
      ensures o.Ok? || o.NoSlots? ==> EndOfMemory(allocator.original, maxPhys)
      ensures o.Ok? || o.NoSlots? || o.Exhausted? || (o.EmptyMap? && allocator.original == [])
      ensures o.Ok? ==> offsetPage % SLOT_PAGES == 0 && 0 < maxPhys
      ensures o.Ok? ==> huge == old(huge) + Straight(HugeOf(offsetPage), HugeCount(maxPhys), 0, READ_WRITE)
      ensures o.Ok? ==> forall q: nat :: q < maxPhys ==> ShowsHuge(huge, offsetPage * 4096, q)
      ensures o.Ok? ==> NewHugeSlots(old(huge), huge, old(entries.State()))
      ensures KeepsUsed(old(entries.State()), entries.State())
      ensures Took(old(allocator.given), allocator.given, 3 * WindowCount(MemoryEnd(allocator.original)))
    {
      hide SlotOf, HugeOf, LegacyFrameAllocator.Valid, LegacyFrameAllocator.Consistent, Straight, E.SlotsFor, HugeCount,
        NewHugeSlots, E.Granted, E.Refused, E.Run, MemoryEnd;
      offsetPage, maxPhys := 0, 0;
      var max := allocator.MaxPhysicalAddress();
      if max.None? {
        return EmptyMap, 0, 0;
      }
      maxPhys := max.value;
      OneEnd(allocator.original, maxPhys);
      PowersOfTwo();
      o, offsetPage := MappingAddr(maxPhys, 0x20_0000);
      if !o.Ok? {
        PageAligned(offsetPage);
        return;
      }
      ghost var h0, n := huge, E.SlotsFor(maxPhys) * SLOT_PAGES;
      HugeInWindow(offsetPage, maxPhys);
      WindowIsHuge(offsetPage, n, HugeCount(maxPhys));
      o := MapHugeRange(HugeOf(offsetPage), HugeCount(maxPhys));
      if o.Ok? {
        StraightBacks(h0, HugeOf(offsetPage), HugeCount(maxPhys), 0, READ_WRITE);
        MemoryShown(huge, offsetPage, maxPhys);
        StraightHugeNew(h0, offsetPage, n, HugeCount(maxPhys), READ_WRITE, old(entries.State()));
      }
    }

    /** Maps one page in the bootloader's own table. */
    method MapOwnPage(page: int, entry: Entry) returns (o: Outcome)
      requires Valid()
      modifies this`bootloader, allocator
      ensures Valid()
      ensures o.Exhausted? ==> Dry()
      ensures o.Ok? || o.MapFailed? || o.Exhausted?
      ensures o.MapFailed? <==> page in old(bootloader)
      ensures o.Ok? ==> bootloader == old(bootloader)[page := entry]
      ensures Took(old(allocator.given), allocator.given, 3)
    {
      if page in bootloader {
        return MapFailed;
      }
      o := UseTableFrames();
      if o.Ok? {
        bootloader := bootloader[page := entry];
      }
    }

    /** Maps the boot info pages to the same fresh frames in both tables. */
    method MapInfoPages(base: int, count: nat) returns (o: Outcome)
      requires Valid() && Window(base, count)
      requires forall p :: p in bootloader ==> SlotOf(p) == 0
      modifies this`kernel, this`bootloader, allocator
      ensures Valid()
      ensures o.Exhausted? ==> Dry()
      ensures o.Ok? || o.Exhausted?
      ensures o.Ok? ==> Grown(old(kernel), kernel, base, count) && Grown(old(bootloader), bootloader, base, count)
      ensures o.Ok? ==> Shared(kernel, bootloader, base, count)
      ensures o.Ok? ==> Flagged(kernel, Pages(base, count), READ_WRITE)
      ensures o.Ok? ==> FreshFrames(kernel, Pages(base, count), old(allocator.given), allocator.given)
      ensures Took(old(allocator.given), allocator.given, 7 * count)
    {
      hide SlotOf, HugeOf, Grown, LegacyFrameAllocator.Valid, LegacyFrameAllocator.Consistent, InRange, Shared,
        FreshFrames, Pages, Flagged;
      ghost var k0, b0 := kernel, bootloader;
      FreshNone(k0, base, allocator.given);
      FlaggedNone(k0, base, READ_WRITE);
      GrownNone(k0, base);
      GrownNone(b0, base);
      NothingShared(k0, b0, base);
      for i := 0 to count
        invariant Valid()
        invariant Grown(k0, kernel, base, i) && Grown(b0, bootloader, base, i)
        invariant Shared(kernel, bootloader, base, i)
        invariant Flagged(kernel, Pages(base, i), READ_WRITE)
        invariant FreshFrames(kernel, Pages(base, i), old(allocator.given), allocator.given)
        invariant Took(old(allocator.given), allocator.given, 7 * i)
      {
        InRangeAt(base, count, i);
        ghost var k, b, given := kernel, bootloader, allocator.given;
        GrownKey(k0, k, base, i);
        GrownKey(b0, b, base, i);
        o := MapFreshPage(base + i);
        if !o.Ok? {
          return;
        }
        o := MapOwnPage(base + i, kernel[base + i]);
        if !o.Ok? {
          return;
        }
        GrownStep(k0, k, base, i, kernel[base + i]);
        GrownStep(b0, b, base, i, kernel[base + i]);
        SharedStep(k, b, base, i, kernel[base + i]);
        FlaggedStep(k, base, i, kernel[base + i]);
        FreshStep(k, base, i, old(allocator.given), given, kernel[base + i], allocator.given);
      }
      return Ok;
    }

    /** The boot info: its pages in both tables, then the memory map for the kernel. */
    method CreateBootInfo(infoSize: nat, ks: nat, len: nat) returns (o: Outcome, startPage: int, regions: seq<Region>)
      requires Valid() && allocator.first == 1 && BootAssumptions(allocator.original, ks, len)
      requires forall p :: p in bootloader ==> SlotOf(p) == 0
      modifies this`kernel, this`bootloader, allocator, entries, entries.entryState
      ensures Valid()
      ensures o.Exhausted? ==> Dry()
      ensures o.Ok? ==> entries.history.answers == old(entries.history).answers + [SlotAnswer(startPage)]
      ensures o.Ok? ==> E.Granted(old(entries.history), entries.history, [E.Alloc(E.SlotsFor(infoSize))])
      ensures o.NoSlots? ==> E.Refused(old(entries.history), entries.history, [E.Alloc(E.SlotsFor(infoSize))])
      ensures o.Ok? || o.NoSlots? || o.Exhausted?
      ensures o.Ok? ==> 0 < infoSize && Shared(kernel, bootloader, startPage, PagesFor(infoSize))
      ensures o.Ok? ==> Grown(old(kernel), kernel, startPage, PagesFor(infoSize))
      ensures o.Ok? ==> Grown(old(bootloader), bootloader, startPage, PagesFor(infoSize))
      ensures o.Ok? ==> Flagged(kernel, Pages(startPage, PagesFor(infoSize)), READ_WRITE)
      ensures o.Ok? ==> FreshFrames(kernel, Pages(startPage, PagesFor(infoSize)), old(allocator.given), allocator.given)
      ensures o.Ok? ==> NewSlots(old(kernel), kernel, old(entries.State()))
      ensures o.Ok? ==> forall q: nat :: q < infoSize ==>
                ShowsInBoth(kernel, bootloader, startPage + q / 4096)
      ensures o.Ok? ==> forall p :: p in kernel && p !in old(kernel) ==>
                startPage <= p <= startPage + (infoSize - 1) / 4096
      ensures o.Ok? ==> MapsMemory(allocator, ks, len, regions)
      ensures KeepsUsed(old(entries.State()), entries.State())
      ensures Took(old(allocator.given), allocator.given, 7 * InfoCount(infoSize))
    {
      hide SlotOf, HugeOf, LegacyFrameAllocator.Valid, LegacyFrameAllocator.Consistent, E.SlotsFor, Grown, Shared,
        BootAssumptions, PagesFor, MapsMemory, MapOf, FrameList, FreshFrames, Pages, Flagged,
        E.Granted, E.Refused, E.Run;
      regions := [];
      PowersOfTwo();
      o, startPage := MappingAddr(infoSize, INFO_ALIGN);
      if !o.Ok? {
        PageAligned(startPage);
        return;
      }
      ghost var k0, n := kernel, E.SlotsFor(infoSize) * SLOT_PAGES;
      PagesForFit(infoSize);
      assert forall p :: InRange(startPage, PagesFor(infoSize), p) ==> InRange(startPage, n, p);
      o := MapInfoPages(startPage, PagesFor(infoSize));
      if !o.Ok? {
        return;
      }
      GrownIsNew(k0, kernel, startPage, PagesFor(infoSize), old(entries.State()));
      InfoShown(k0, kernel, bootloader, startPage, infoSize);
      regions := WriteMemoryMap(ks, len);
    }

    /** construct_memory_map on a buffer of n + 4 regions never panics. */
    method WriteMemoryMap(ks: nat, len: nat) returns (regions: seq<Region>)
      requires allocator.Valid() && allocator.first == 1 && BootAssumptions(allocator.original, ks, len)
      ensures MapsMemory(allocator, ks, len, regions)
    {
      hide LegacyFrameAllocator.Consistent, BootAssumptions, MapsMemory, MapOf, FrameList;
      var buffer := new Region[allocator.Len() + 4](_ => Region(0, 0, Bootloader));
      MapMemory(allocator, ks, len);
      ghost var out := MapOf(allocator.original, allocator.nextFrame * 4096, ks, ks + len).value;
      var written := allocator.ConstructMemoryMap(buffer, ks, len);
      regions := buffer[..written.value];
      assert regions == out;
    }

    /** What set_up_mappings relies on. */
    ghost predicate Ready(contextFrame: nat, fb: Option<PhysRange>)
      reads this, entries, entries.entryState, allocator
    {
      && Valid() && huge == map[] && BelowSlotOne(contextFrame)
      && (fb.Some? ==> fb.value.addr % 4096 + fb.value.len <= E.SlotsFor(fb.value.len) * E.SLOT_SIZE)
    }

    /** Stack and identity pages. */
    method SetUpFixed(contextFrame: nat, ghost fb: Option<PhysRange>) returns (o: Outcome, guard: int, gdtFrame: nat)
      requires Ready(contextFrame, fb)
      modifies this`kernel, allocator, entries, entries.entryState
      ensures Valid()
      ensures o.Exhausted? ==> Dry()
      ensures o.Ok? ==> entries.history.answers == old(entries.history).answers + [SlotAnswer(guard)]
      ensures o.Ok? ==> E.Granted(old(entries.history), entries.history, StackRequest())
      ensures o.NoSlots? ==> E.Refused(old(entries.history), entries.history, StackRequest())
      ensures o.Ok? || o.NoSlots? || o.Exhausted? || o.MapFailed?
      ensures o.MapFailed? ==>
                IdentityClash(old(kernel), contextFrame, FrameList(allocator.original, allocator.first))
      ensures o.Ok? ==> Partition(kernel, [old(kernel).Keys, Pages(guard + 1, STACK_SIZE / 4096),
                                           IdentityPages(contextFrame, gdtFrame)])
      ensures o.Ok? ==> Keeps(old(kernel), kernel) && IdentityMapped(kernel, contextFrame, gdtFrame)
      ensures o.Ok? ==> FreshFrames(kernel, OwnPages(guard, gdtFrame), old(allocator.given), allocator.given)
      ensures o.Ok? ==> Flagged(kernel, Pages(guard + 1, STACK_SIZE / 4096), READ_WRITE)
      ensures o.Ok? ==> guard !in kernel && HugeOf(guard) !in huge
      ensures o.Ok? ==> 1 <= SlotOf(guard) < E.SLOTS && entries.State()[SlotOf(guard)]
      ensures Took(old(allocator.given), allocator.given, FIXED_FRAMES)
    {
      ghost var frames := FrameList(allocator.original, allocator.first);
      hide SlotOf, HugeOf, LegacyFrameAllocator.Valid, LegacyFrameAllocator.Consistent, Grown, Partition, Keeps,
        FrameList, FreshFrames, IdentityMapped, OwnPages, Pages, NewSlots, IdentityClash,
        Flagged, StackShown, WithIdentity, IdentityPages, StackRequest, E.Granted, E.Refused, E.Run;
      gdtFrame := 0;
      ghost var k0 := kernel;
      o, guard := MapStack();
      if !o.Ok? { return; }
      ghost var k1, mid := kernel, allocator.given;
      o, gdtFrame := MapIdentity(contextFrame);
      if o.MapFailed? {
        ClashInImage(k0, k1, old(entries.State()), contextFrame, frames);
      }
      if !o.Ok? { return; }
      FixedDone(k0, k1, kernel, guard, contextFrame, gdtFrame, old(allocator.given), mid, allocator.given);
      GuardStays(k1, kernel, guard, contextFrame, gdtFrame);
    }

    /** The framebuffer, where there is one; `page` stays unmapped. */
    method SetUpFramebuffer(fb: Option<PhysRange>, ghost regions: seq<set<int>>, ghost page: int)
        returns (o: Outcome, start: Option<int>)
      requires Valid() && Partition(kernel, regions)
      requires fb.Some? ==> fb.value.addr % 4096 + fb.value.len <= E.SlotsFor(fb.value.len) * E.SLOT_SIZE
      requires page !in kernel && 0 <= SlotOf(page) < E.SLOTS && entries.State()[SlotOf(page)]
      modifies this`kernel, allocator, entries, entries.entryState
      ensures Valid()
      ensures o.Exhausted? ==> Dry()
      ensures o.Ok? ==> entries.history.answers == old(entries.history).answers + RangeAnswer(start)
      ensures o.Ok? ==> E.Granted(old(entries.history), entries.history, RangeRequest(fb))
      ensures o.NoSlots? ==> E.Refused(old(entries.history), entries.history, RangeRequest(fb))
      ensures o.Ok? || o.NoSlots? || o.Exhausted?
      ensures o.Ok? ==> Partition(kernel, regions + [FramebufferPages(start, fb)])
      ensures o.Ok? ==> Keeps(old(kernel), kernel) && page !in kernel && FramebufferBacked(start, kernel, fb)
      ensures KeepsUsed(old(entries.State()), entries.State())
      ensures Took(old(allocator.given), allocator.given, 3 * FramebufferCount(fb))
    {
      hide SlotOf, HugeOf, LegacyFrameAllocator.Valid, LegacyFrameAllocator.Consistent, Grown, Partition, Keeps, Backs,
        NewSlots, FrameCount, E.SlotsFor, Straight, E.Granted, E.Refused;
      start := None;
      ghost var k0, s0 := kernel, entries.State();
      if fb.None? {
        PartitionSkip(k0, regions);
        E.GrantedNothing(entries.history);
        return Ok, None;
      }
      var startPage;
      o, startPage := MapFramebuffer(fb.value.addr, fb.value.len);
      if !o.Ok? { return; }
      start := Some(startPage);
      ghost var count := FrameCount(fb.value.addr, fb.value.len);
      PartitionGrown(k0, kernel, regions, startPage, count);
      StraightBacks(k0, startPage, count, fb.value.addr / 4096, READ_WRITE);
      StaysUnmapped(k0, kernel, s0, page);
    }

    /** The ramdisk, where there is one; `page` stays unmapped. */
    method SetUpRamdisk(rd: Option<PhysRange>, ghost regions: seq<set<int>>, ghost page: int)
        returns (o: Outcome, start: Option<int>)
      requires Valid() && Partition(kernel, regions)
      requires page !in kernel && 0 <= SlotOf(page) < E.SLOTS && entries.State()[SlotOf(page)]
      modifies this`kernel, allocator, entries, entries.entryState
      ensures Valid()
      ensures o.Exhausted? ==> Dry()
      ensures o.Ok? ==> entries.history.answers == old(entries.history).answers + RangeAnswer(start)
      ensures o.Ok? ==> E.Granted(old(entries.history), entries.history, RangeRequest(rd))
      ensures o.NoSlots? ==> E.Refused(old(entries.history), entries.history, RangeRequest(rd))
      ensures o.Ok? || o.NoSlots? || o.Exhausted?
      ensures o.Ok? ==> Partition(kernel, regions + [RamdiskPages(start, rd)])
      ensures o.Ok? ==> Keeps(old(kernel), kernel) && page !in kernel && RamdiskBacked(start, kernel, rd)
      ensures KeepsUsed(old(entries.State()), entries.State())
      ensures Took(old(allocator.given), allocator.given, 3 * RamdiskCount(rd))
    {
      hide SlotOf, HugeOf, LegacyFrameAllocator.Valid, LegacyFrameAllocator.Consistent, Grown, Partition, Keeps, Backs,
        NewSlots, PagesFor, E.SlotsFor, Straight, E.Granted, E.Refused;
      start := None;
      ghost var k0, s0 := kernel, entries.State();
      if rd.None? {
        PartitionSkip(k0, regions);
        E.GrantedNothing(entries.history);
        return Ok, None;
      }
      var startPage;
      o, startPage := MapRamdisk(rd.value.addr, rd.value.len);
      if !o.Ok? { return; }
      start := Some(startPage);
      ghost var count := PagesFor(rd.value.len);
      PartitionGrown(k0, kernel, regions, startPage, count);
      StraightBacks(k0, startPage, count, rd.value.addr / 4096, READ_WRITE);
      StaysUnmapped(k0, kernel, s0, page);
    }

    /** Both; `page` stays unmapped. */
    method SetUpDevices(fb: Option<PhysRange>, rd: Option<PhysRange>, ghost regions: seq<set<int>>, ghost page: int)
        returns (o: Outcome, framebuffer: Option<int>, ramdisk: Option<int>)
      requires Valid() && Partition(kernel, regions)
      requires fb.Some? ==> fb.value.addr % 4096 + fb.value.len <= E.SlotsFor(fb.value.len) * E.SLOT_SIZE
      requires page !in kernel && 0 <= SlotOf(page) < E.SLOTS && entries.State()[SlotOf(page)]
      modifies this`kernel, allocator, entries, entries.entryState
      ensures Valid()
      ensures o.Exhausted? ==> Dry()
      ensures o.Ok? ==>
                entries.history.answers == old(entries.history).answers
                  + RangeAnswer(framebuffer) + RangeAnswer(ramdisk)
      ensures o.Ok? ==> E.Granted(old(entries.history), entries.history, RangeRequest(fb) + RangeRequest(rd))
      ensures o.NoSlots? ==> E.Refused(old(entries.history), entries.history, RangeRequest(fb) + RangeRequest(rd))
      ensures o.Ok? || o.NoSlots? || o.Exhausted?
      ensures o.Ok? ==> Partition(kernel, regions + [FramebufferPages(framebuffer, fb), RamdiskPages(ramdisk, rd)])
      ensures o.Ok? ==> Keeps(old(kernel), kernel) && page !in kernel
      ensures o.Ok? ==> FramebufferBacked(framebuffer, kernel, fb) && RamdiskBacked(ramdisk, kernel, rd)
      ensures KeepsUsed(old(entries.State()), entries.State())
      ensures Took(old(allocator.given), allocator.given, 3 * (FramebufferCount(fb) + RamdiskCount(rd)))
    {
      hide SlotOf, HugeOf, LegacyFrameAllocator.Valid, LegacyFrameAllocator.Consistent, Partition, Keeps,
        FramebufferBacked, RamdiskBacked, FramebufferPages, RamdiskPages, FramebufferCount, RamdiskCount, RangeRequest,
        E.Granted, E.Refused, E.SlotsFor;
      ramdisk := None;
      ghost var k0, h0 := kernel, entries.history;
      o, framebuffer := SetUpFramebuffer(fb, regions, page);
      if o.NoSlots? {
        E.RefusedMore(h0, entries.history, RangeRequest(fb), RangeRequest(rd));
      }
      if !o.Ok? { return; }
      ghost var k1, h1 := kernel, entries.history;
      o, ramdisk := SetUpRamdisk(rd, regions + [FramebufferPages(framebuffer, fb)], page);
      E.GrantedThen(h0, h1, entries.history, RangeRequest(fb), RangeRequest(rd));
      if !o.Ok? { return; }
      FramebufferKept(framebuffer, k1, kernel, fb);
      KeepsTrans(k0, k1, kernel);
      assert regions + [FramebufferPages(framebuffer, fb)] + [RamdiskPages(ramdisk, rd)]
          == regions + [FramebufferPages(framebuffer, fb), RamdiskPages(ramdisk, rd)];
    }

    /** Everything that is mapped in 4 KiB pages. */
    method SetUpTable(contextFrame: nat, fb: Option<PhysRange>, rd: Option<PhysRange>)
        returns (o: Outcome, guard: int, gdtFrame: nat, framebuffer: Option<int>, ramdisk: Option<int>)
      requires Ready(contextFrame, fb)
      modifies this`kernel, allocator, entries, entries.entryState
      ensures Valid()
      ensures o.Exhausted? ==> Dry()
      ensures o.Ok? ==>
                entries.history.answers == old(entries.history).answers
                  + [SlotAnswer(guard)] + (RangeAnswer(framebuffer) + RangeAnswer(ramdisk))
      ensures o.Ok? ==> E.Granted(old(entries.history), entries.history, TableRequests(fb, rd))
      ensures o.NoSlots? ==> E.Refused(old(entries.history), entries.history, TableRequests(fb, rd))
      ensures o.Ok? || o.NoSlots? || o.Exhausted? || o.MapFailed?
      ensures o.MapFailed? ==>
                IdentityClash(old(kernel), contextFrame, FrameList(allocator.original, allocator.first))
      ensures o.Ok? ==> Partition(kernel, [old(kernel).Keys, Pages(guard + 1, STACK_SIZE / 4096),
                                           IdentityPages(contextFrame, gdtFrame),
                                           FramebufferPages(framebuffer, fb), RamdiskPages(ramdisk, rd)])
      ensures o.Ok? ==> Keeps(old(kernel), kernel) && IdentityMapped(kernel, contextFrame, gdtFrame)
      ensures o.Ok? ==> Flagged(kernel, Pages(guard + 1, STACK_SIZE / 4096), READ_WRITE)
      ensures o.Ok? ==> FreshFrames(kernel, OwnPages(guard, gdtFrame), old(allocator.given), allocator.given)
      ensures o.Ok? ==> FramebufferBacked(framebuffer, kernel, fb) && RamdiskBacked(ramdisk, kernel, rd)
      ensures o.Ok? ==> guard !in kernel && HugeOf(guard) !in huge
      ensures o.Ok? ==> 1 <= SlotOf(guard) < E.SLOTS && entries.State()[SlotOf(guard)]
      ensures Took(old(allocator.given), allocator.given, TableFramesBound(fb, rd))
    {
      hide SlotOf, HugeOf, LegacyFrameAllocator.Valid, LegacyFrameAllocator.Consistent, Partition, Keeps, FrameList,
        FramebufferBacked, RamdiskBacked, FramebufferPages, RamdiskPages, FreshFrames, OwnPages, IdentityMapped,
        Flagged, StackRequest, RangeRequest, FramebufferCount, RamdiskCount, E.Granted, E.Refused, E.SlotsFor,
        IdentityClash, Pages;
      framebuffer, ramdisk := None, None;
      ghost var k0, h0, devices := kernel, entries.history, RangeRequest(fb) + RangeRequest(rd);
      o, guard, gdtFrame := SetUpFixed(contextFrame, fb);
      if o.NoSlots? {
        E.RefusedMore(h0, entries.history, StackRequest(), devices);
      }
      if !o.Ok? { return; }
      ghost var k1, mid, h1 := kernel, allocator.given, entries.history;
      ghost var fixed := [k0.Keys, Pages(guard + 1, STACK_SIZE / 4096),
                          IdentityPages(contextFrame, gdtFrame)];
      o, framebuffer, ramdisk := SetUpDevices(fb, rd, fixed, guard);
      E.GrantedThen(h0, h1, entries.history, StackRequest(), devices);
      if !o.Ok? { return; }
      KeepsTrans(k0, k1, kernel);
      FixedKept(k1, kernel, contextFrame, guard, gdtFrame, old(allocator.given), mid, allocator.given);
      FlaggedKept(k1, kernel, Pages(guard + 1, STACK_SIZE / 4096), READ_WRITE);
      assert fixed + [FramebufferPages(framebuffer, fb), RamdiskPages(ramdisk, rd)]
          == [k0.Keys, Pages(guard + 1, STACK_SIZE / 4096), IdentityPages(contextFrame, gdtFrame),
              FramebufferPages(framebuffer, fb), RamdiskPages(ramdisk, rd)];
    }

    /**
      set_up_mappings after the load. No alignment check fails and no page is mapped twice, unless an
      identity mapping meets the image: it succeeds unless slots or frames run out, and then every region
      has pages of its own.
    */
    method SetUpMappings(contextFrame: nat, fb: Option<PhysRange>, rd: Option<PhysRange>)
        returns (o: Outcome, l: Layout)
      requires Ready(contextFrame, fb)
      modifies this`kernel, this`huge, allocator, entries, entries.entryState
      ensures Valid()
      ensures o.Exhausted? ==> Dry()
      ensures o.Ok? ==>
                entries.history.answers == old(entries.history).answers
                  + TableAnswers(l) + [SlotAnswer(l.offsetPage)]
      ensures o.Ok? ==> E.Granted(old(entries.history), entries.history, Requests(fb, rd, l.maxPhys))
      ensures o.NoSlots? ==>
                E.Refused(old(entries.history), entries.history, Requests(fb, rd, MemoryEnd(allocator.original)))
      ensures o.Ok? || o.NoSlots? || o.Exhausted? || o.MapFailed? || (o.EmptyMap? && allocator.original == [])
      ensures o.MapFailed? ==>
                IdentityClash(old(kernel), contextFrame, FrameList(allocator.original, allocator.first))
      ensures o.Ok? ==> SetUp(l, old(kernel), kernel, huge, contextFrame, fb, rd)
      ensures o.Ok? ==> FreshFrames(kernel, OwnPages(l.guard, l.gdtFrame), old(allocator.given), allocator.given)
      ensures o.Ok? ==> 1 <= SlotOf(l.guard) < E.SLOTS && entries.State()[SlotOf(l.guard)]
      ensures o.Ok? ==> EndOfMemory(allocator.original, l.maxPhys)
      ensures Took(old(allocator.given), allocator.given, FramesBound(fb, rd, MemoryEnd(allocator.original)))
    {
      hide SlotOf, HugeOf, LegacyFrameAllocator.Valid, LegacyFrameAllocator.Consistent, Partition, Keeps, Backs,
        NewHugeSlots, HugeCount, Straight, FrameList, FramebufferBacked, RamdiskBacked, FramebufferPages, RamdiskPages,
        FreshFrames, OwnPages, IdentityMapped, Flagged, TableRequests, TableFramesBound, E.Granted, E.Refused,
        E.SlotsFor, IdentityClash, EndOfMemory, WindowCount, Pages;
      l := NoLayout();
      ghost var k0, h0, end := kernel, entries.history, MemoryEnd(allocator.original);
      var guard, gdtFrame, framebuffer, ramdisk;
      o, guard, gdtFrame, framebuffer, ramdisk := SetUpTable(contextFrame, fb, rd);
      if o.NoSlots? {
        E.RefusedMore(h0, entries.history, TableRequests(fb, rd), [E.Alloc(E.SlotsFor(end))]);
      }
      if !o.Ok? { return; }
      ghost var huge0, s0, mid, h1 := huge, entries.State(), allocator.given, entries.history;
      var offsetPage, maxPhys;
      o, offsetPage, maxPhys := MapPhysical();
      if o.Ok? || o.NoSlots? {
        OneEnd(allocator.original, maxPhys);
      }
      E.GrantedThen(h0, h1, entries.history, TableRequests(fb, rd), [E.Alloc(E.SlotsFor(end))]);
      if !o.Ok? { return; }
      l := Layout(guard, (guard + 1) * 4096 + STACK_SIZE, gdtFrame, framebuffer, ramdisk, offsetPage, maxPhys);
      StackIsMapped(l, kernel);
      StaysUncovered(huge0, huge, s0, guard);
      FreshMore(kernel, OwnPages(guard, gdtFrame), old(allocator.given), mid, allocator.given);
      StraightBacks(huge0, HugeOf(offsetPage), HugeCount(maxPhys), 0, READ_WRITE);
    }

    /** The whole sequence: the mappings, then the boot info on pages of its own and the kernel's memory map. */
    method Boot(contextFrame: nat, fb: Option<PhysRange>, rd: Option<PhysRange>, infoSize: nat, ks: nat, len: nat)
        returns (o: Outcome, l: Layout, infoPage: int, regions: seq<Region>)
      requires Ready(contextFrame, fb) && allocator.first == 1 && BootAssumptions(allocator.original, ks, len)
      requires forall p :: p in bootloader ==> SlotOf(p) == 0
      modifies this`kernel, this`huge, this`bootloader, allocator, entries, entries.entryState
      ensures Valid()
      ensures o.Exhausted? ==> Dry()
      ensures o.Ok? ==>
                entries.history.answers == old(entries.history).answers
                  + TableAnswers(l) + [SlotAnswer(l.offsetPage)] + [SlotAnswer(infoPage)]
      ensures o.Ok? ==> E.Granted(old(entries.history), entries.history, AllRequests(fb, rd, l.maxPhys, infoSize))
      ensures o.NoSlots? ==>
                E.Refused(old(entries.history), entries.history,
                          AllRequests(fb, rd, MemoryEnd(allocator.original), infoSize))
      ensures o.Ok? || o.NoSlots? || o.Exhausted? || o.MapFailed? || (o.EmptyMap? && allocator.original == [])
      ensures o.MapFailed? ==>
                IdentityClash(old(kernel), contextFrame, FrameList(allocator.original, allocator.first))
      ensures o.Ok? ==> 0 < infoSize && Partition(kernel, Regions(l, old(kernel), contextFrame, fb, rd)
                                                            + [Pages(infoPage, PagesFor(infoSize))])
      ensures o.Ok? ==> Shared(kernel, bootloader, infoPage, PagesFor(infoSize)) && Keeps(old(bootloader), bootloader)
      ensures o.Ok? ==> Keeps(old(kernel), kernel) && l.guard !in kernel && HugeOf(l.guard) !in huge
      ensures o.Ok? ==> FramebufferBacked(l.framebuffer, kernel, fb) && RamdiskBacked(l.ramdisk, kernel, rd)
      ensures o.Ok? ==> IdentityMapped(kernel, contextFrame, l.gdtFrame) && StackMapped(l, kernel)
      ensures o.Ok? ==> Flagged(kernel, Pages(infoPage, PagesFor(infoSize)), READ_WRITE)
      ensures o.Ok? ==> FreshFrames(kernel, OwnPages(l.guard, l.gdtFrame) + Pages(infoPage, PagesFor(infoSize)),
                                    old(allocator.given), allocator.given)
      ensures o.Ok? ==> l.offsetPage % SLOT_PAGES == 0 && 0 < l.maxPhys
                        && Backs(huge, HugeOf(l.offsetPage), HugeCount(l.maxPhys), 0, READ_WRITE)
      ensures o.Ok? ==> EndOfMemory(allocator.original, l.maxPhys)
      ensures o.Ok? ==> MapsMemory(allocator, ks, len, regions)
      ensures Took(old(allocator.given), allocator.given,
                   AllFramesBound(fb, rd, MemoryEnd(allocator.original), infoSize))
    {
      hide SlotOf, HugeOf, LegacyFrameAllocator.Valid, LegacyFrameAllocator.Consistent, Partition, Keeps, Backs, Grown,
        NewSlots, PagesFor, HugeCount, FrameList, FramebufferBacked, RamdiskBacked, Shared, MapsMemory, BootAssumptions,
        Regions, FreshFrames, OwnPages, IdentityMapped, Pages, Requests, FramesBound, InfoCount, StackMapped, Flagged,
        E.Granted, E.Refused, E.SlotsFor, IdentityClash, EndOfMemory;
      infoPage, regions := 0, [];
      ghost var k0, b0, h0, end := kernel, bootloader, entries.history, MemoryEnd(allocator.original);
      o, l := SetUpMappings(contextFrame, fb, rd);
      if o.NoSlots? {
        E.RefusedMore(h0, entries.history, Requests(fb, rd, end), [E.Alloc(E.SlotsFor(infoSize))]);
      }
      if !o.Ok? { return; }
      OneEnd(allocator.original, l.maxPhys);
      ghost var k1, s1, mid, h1 := kernel, entries.State(), allocator.given, entries.history;
      o, infoPage, regions := CreateBootInfo(infoSize, ks, len);
      E.GrantedThen(h0, h1, entries.history, Requests(fb, rd, end), [E.Alloc(E.SlotsFor(infoSize))]);
      if !o.Ok? { return; }
      PartitionGrown(k1, kernel, Regions(l, k0, contextFrame, fb, rd), infoPage, PagesFor(infoSize));
      GrownKeeps(b0, bootloader, infoPage, PagesFor(infoSize));
      FixedKept(k1, kernel, contextFrame, l.guard, l.gdtFrame, old(allocator.given), mid, mid);
      FreshJoin(kernel, OwnPages(l.guard, l.gdtFrame), Pages(infoPage, PagesFor(infoSize)),
                old(allocator.given), mid, allocator.given);
      StackKept(l, k1, kernel);
      KeepsTrans(k0, k1, kernel);
      DevicesKept(l, k1, kernel, fb, rd);
      StaysUnmapped(k1, kernel, s1, l.guard);
    }
  }
}
