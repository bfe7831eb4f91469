/**
  From the kernel file to the running kernel: placing, loading, mapping and the boot info in one run, and
  what the kernel finds when its own frame allocator takes over.
*/
module Startup {
  import opened Common
  import opened Descriptors
  import opened FrameAllocator
  import opened Nukleus
  import opened Handoff
  import opened Paging
  import opened VirtualAddress
  import opened Elf
  import opened LoaderSteps
  import opened LoaderTheorems
  import opened LoadedImage
  import opened KernelLoader
  import opened ImageSafety
  import opened Placement
  import opened BootSteps
  import opened BootLayout
  import E = Entries

  /** What the bootloader is started with. */
  datatype Setup = Setup(headers: seq<Header>, sharedObject: bool, start: nat, len: nat, base: Memory,
                         entry: nat, contextFrame: nat, framebuffer: Option<PhysRange>,
                         ramdisk: Option<PhysRange>, rsdp: Option<nat>, infoSize: nat)

  /** What the kernel is told. */
  datatype BootInfo = BootInfo(regions: seq<Region>, framebuffer: Option<int>, physicalMemoryOffset: int,
                               rsdp: Option<nat>, tls: Option<TlsTemplate>, ramdisk: Option<int>, ramdiskLen: nat)

  datatype Result =
    | Booted(info: BootInfo, entryPoint: int)
    | NotPlaced
    | NotLoaded
    | NoEntry
    | OutOfFrames
    | NotMapped(o: BootLayout.Outcome)

  /** The address a page starts at. */
  function PageAddress(page: int): int { SignExtend(page * 4096) }

  function InfoOf(u: Setup, l: Layout, tls: Option<TlsTemplate>, regions: seq<Region>): BootInfo {
    BootInfo(
      regions,
      if l.framebuffer.Some? then Some(PageAddress(l.framebuffer.value)) else None,
      PageAddress(l.offsetPage),
      u.rsdp,
      tls,
      if l.ramdisk.Some? then Some(PageAddress(l.ramdisk.value)) else None,
      if u.ramdisk.Some? then u.ramdisk.value.len else 0)
  }

  /** The file's headers are those of an ELF file, and a shared object's lowest address is page aligned. */
  ghost predicate GoodFile(u: Setup) {
    && 0 < u.start && OffsetsAgree(u.headers)
    && (forall h :: h in u.headers && h.kind == Load ==>
          h.offset + h.filesz < u.len && h.filesz <= h.memsz && 0 < h.memsz)
    && (u.sharedObject ==> OrElse(MinAddr(u.headers), 0) % 4096 == 0)
  }

  /** Memory behind the file and behind every frame still to be handed out. */
  ghost predicate GoodMemory(u: Setup, supply: seq<nat>) {
    Frames(u.base) && (forall f :: f in supply ==> f in u.base)
    && forall f: nat :: u.start / 4096 <= f < (u.start + u.len + 4095) / 4096 ==> f in u.base
  }

  /** Reading through table `k` shows the image. */
  ghost predicate Shows(k: map<int, Entry>, mem: Memory, view: View) {
    forall a :: a in view ==>
      && PageOf(a) in k && k[PageOf(a)].frame in mem && |mem[k[PageOf(a)].frame]| == 4096
      && mem[k[PageOf(a)].frame][OffsetOf(a)] == view[a]
  }

  lemma ShowsRead(s: Space, k: map<int, Entry>)
    requires Inv(s) && Keeps(s.table, k)
    ensures Shows(k, s.mem, Read(s))
  {
  }

  /** The pages that get frames of their own after the load. */
  ghost function AllOwnPages(l: Layout, infoPage: int, infoSize: nat): set<int>
    requires 0 < infoSize
  {
    OwnPages(l.guard, l.gdtFrame) + Pages(infoPage, PagesFor(infoSize))
  }

  // ---- the frames behind the image ----

  lemma ImageFrameApart(s: Space, descs: seq<Descriptor>, k: nat, ks: nat, len: nat, page: int, f: nat)
    requires BootAssumptions(descs, ks, len) && k <= |FrameList(descs, 1)|
    requires LoadedDuring(s, descs, k, ks, len) && page in s.table
    requires f in FrameList(descs, 1) && f !in Given(descs, k)
    ensures s.table[page].frame != f
  {
    hide BootAssumptions, Inv, FrameList;
    PoolOrFile(s, page);
    if s.table[page].frame in s.pool {
      PoolFrameGiven(s, descs, k, ks, len, page, k);
    } else {
      SupplyAvoidsFile(descs, ks, len, f);
    }
  }

  /** No page with a frame of its own shares that frame with the image. */
  lemma OwnApartFromImage(s: Space, allocator: LegacyFrameAllocator, before: seq<nat>, k: map<int, Entry>,
                          pages: set<int>, ks: nat, len: nat)
    requires allocator.Valid() && allocator.first == 1 && BootAssumptions(allocator.original, ks, len)
    requires before <= allocator.given && |before| <= |FrameList(allocator.original, 1)|
    requires LoadedDuring(s, allocator.original, |before|, ks, len)
    requires FreshFrames(k, pages, before, allocator.given) && Keeps(s.table, k)
    ensures forall p, q :: p in s.table && q in pages ==> k[p].frame != k[q].frame
  {
    hide BootAssumptions, LoadedDuring;
    var list := FrameList(allocator.original, 1);
    assert list[..|before|] == before;
    forall p, q | p in s.table && q in pages
      ensures k[p].frame != k[q].frame
    {
      assert forall f :: f in allocator.given ==> f in list;
      ImageFrameApart(s, allocator.original, |before|, ks, len, p, k[q].frame);
    }
  }

  /** Which frames behind the image the kernel's allocator can hand out. */
  lemma ImageReuse(s: Space, allocator: LegacyFrameAllocator, before: seq<nat>, ks: nat, len: nat, regions: seq<Region>)
    requires BootAssumptions(allocator.original, ks, len) && MapsMemory(allocator, ks, len, regions)
    requires |before| <= |allocator.given| && LoadedDuring(s, allocator.original, |before|, ks, len)
    ensures forall r :: r in regions ==> r.start <= r.end
    ensures forall p :: p in s.table ==>
              (s.table[p].frame in UsableFrames(regions) <==>
                 len % 4096 != 0 && s.table[p].frame == (ks + len) / 4096)
  {
    hide BootAssumptions, LoadedDuring, FrameList, UsableFrames;
    var n := |allocator.given|;
    MapFits(allocator.original, NextFree(allocator.original, n), ks, len);
    forall p | p in s.table
      ensures s.table[p].frame in UsableFrames(regions) <==>
                len % 4096 != 0 && s.table[p].frame == (ks + len) / 4096
    {
      ImageFrameReusedIff(s, allocator.original, |before|, ks, len, p, n);
      assert KernelGets(allocator.original, n, ks, len) == UsableFrames(regions);
    }
  }

  // ---- loading ----

  datatype LoadResult =
    | Loaded(tls: Option<TlsTemplate>, entryPoint: int)
    | Unplaceable
    | Unloadable
    | BadEntry
    | NoFrames

  /** A kernel in memory: where it was put, the memory and page table that hold it. */
  datatype InMemory = InMemory(e: Kernel, placed: Placed, mem: Memory, table: map<int, Entry>)

  /** The kernel to be loaded, put where placing it in slots `s` puts it. */
  ghost predicate PlacedIn(u: Setup, m: InMemory, s: seq<bool>) {
    && m.e == Kernel(u.headers, u.start, u.len, m.placed.vao, u.base)
    && if u.sharedObject then m.placed.base.Some? && InFreeSlots(u.headers, s, m.placed)
       else m.placed == Placed(0, None)
  }

  /** The image is there, page by page, and only the kernel's own permissions are left. */
  ghost predicate HoldsImage(m: InMemory) {
    && AllRegular(m.e) && LoadAll(m.e).Some? && LoadAll(m.e).value.perms == Perms(m.table)
    && forall p :: p in m.table ==> !m.table[p].flags.copied
  }

  lemma HeadersPlaced(u: Setup, m: InMemory, s: seq<bool>)
    requires PlacedIn(u, m, s)
    ensures m.e.headers == u.headers
  {
  }

  lemma StaysRegular(u: Setup, m: InMemory, s: seq<bool>)
    requires GoodFile(u) && u.start % 4096 == 0 && PlacedIn(u, m, s)
    requires !Unmarkable(u.headers, m.placed.vao) && |s| == E.SLOTS
    ensures AllRegular(m.e)
  {
    hide InFreeSlots, OffsetsAgree, AllRegular, Unmarkable;
    AllRegularIff(m.e, s, m.placed);
  }

  lemma FileInPlace(u: Setup, e: Kernel, allocator: LegacyFrameAllocator)
    requires allocator.Valid() && allocator.first == 1 && BootAssumptions(allocator.original, u.start, u.len)
    requires GoodFile(u) && GoodMemory(u, allocator.Remaining())
    requires e.headers == u.headers && e.start == u.start && e.len == u.len && e.base == u.base
    ensures e.WellFormed(set f | f in allocator.Remaining())
    ensures forall f :: f in allocator.Remaining() ==> f in FrameList(allocator.original, 1)
  {
    FileOutsidePool(e, allocator.original);
    assert FrameList(allocator.original, 1) == allocator.given + allocator.Remaining();
  }

  /** A bound on the frames a load takes: eight for every page of the image. */
  function LoadFrames(e: Kernel): nat { 8 * PageCount(e, |e.headers|) + 8 }

  /** load_kernel: Loader::new, then load_segments and the entry point. */
  method LoadKernel(u: Setup, entries: E.Entries, allocator: LegacyFrameAllocator)
      returns (r: LoadResult, m: InMemory, ghost s: Space)
    requires allocator.Valid() && allocator.first == 1 && BootAssumptions(allocator.original, u.start, u.len)
    requires GoodFile(u) && GoodMemory(u, allocator.Remaining())
    requires entries.Valid() && entries.State()[0]
    modifies allocator, entries, entries.entryState
    ensures allocator.Valid() && entries.Valid() && entries.State()[0]
    ensures !r.Unplaceable? ==> PlacedIn(u, m, old(entries.State()))
    ensures !r.Unplaceable? ==>
              E.Granted(old(entries.history), entries.history, PlacingOps(u.headers, u.sharedObject, m.placed.vao))
    ensures r.Unplaceable? ==> allocator.given == old(allocator.given)
    ensures !r.Unplaceable? ==> |allocator.given| <= |old(allocator.given)| + LoadFrames(m.e)
    ensures r.Loaded? || r.BadEntry? ==> HoldsImage(m)
    ensures r.Loaded? ==>
              && r.tls == TlsOf(m.e, |m.e.headers|) && r.entryPoint == Linear(m.e.vao + u.entry)
              && s.mem == m.mem && s.table == m.table && |allocator.given| <= |FrameList(allocator.original, 1)|
              && LoadedDuring(s, allocator.original, |allocator.given|, u.start, u.len)
              && Read(s) == LoadAll(m.e).value.view
    ensures r.Loaded? ==> forall p :: p in m.table ==> 0 <= SlotOf(p) < E.SLOTS && entries.State()[SlotOf(p)]
    ensures r.Loaded? && u.sharedObject ==> forall p :: p in m.table ==> SlotOf(p) != 0
    ensures r.Unplaceable? ==> CannotPlace(u.headers, u.sharedObject, old(entries.State()))
    ensures r.Unloadable? ==> LoadAll(m.e).None?
    ensures r.Loaded? || r.BadEntry? ==> (r.BadEntry? <==> !Accepted(m.e.vao + u.entry))
    ensures r.NoFrames? ==> allocator.Remaining() == []
  {
    hide LoadAll, AllRegular, FrameList, LegacyFrameAllocator.Consistent, Kernel.WellFormed, LoadedDuring, Inv, Read,
      Perms, TlsOf, GoodFile, GoodMemory, BootAssumptions, InFreeSlots, E.Touched, SlotOf, Unmarkable,
      Kernel.FileFrames, CannotPlace, E.Granted, E.Run, PlacingOps;
    ghost var s0 := entries.State();
    AlignedStart(allocator.original, u.start, u.len);
    var nowhere := Kernel(u.headers, u.start, u.len, 0, u.base);
    m := InMemory(nowhere, Placed(0, None), u.base, map[]);
    s := Space(u.base, map[], [], u.base, {}, {});
    var placing := PlaceKernel(u.start, u.headers, u.sharedObject, entries);
    if !placing.Ok? {
      return Unplaceable, m, s;
    }
    var placed := placing.placed;
    var e := Kernel(u.headers, u.start, u.len, placed.vao, u.base);
    m := InMemory(e, placed, u.base, map[]);
    StaysRegular(u, m, s0);
    FileInPlace(u, e, allocator);
    FramesThere(u, allocator.Remaining());
    var loader := new Loader(e, allocator);
    var o, tls := loader.LoadSegments();
    s := loader.State();
    m := InMemory(e, placed, loader.mem, loader.table);
    if o.Exhausted? {
      return NoFrames, m, s;
    } else if !o.Done? {
      return Unloadable, m, s;
    }
    NoPageCopied(e, loader.table);
    LoaderStates(loader);
    NonEmptySegments(u);
    ImageReady(e, loader.table, s0, entries.State(), placed);
    var entryPoint := e.vao + u.entry;
    if !Accepted(entryPoint) {
      return BadEntry, m, s;
    }
    r := Loaded(tls, Linear(entryPoint));
  }

  lemma FramesThere(u: Setup, supply: seq<nat>)
    requires GoodMemory(u, supply)
    ensures Frames(u.base) && forall f :: f in supply ==> f in u.base
  {
  }

  lemma NonEmptySegments(u: Setup)
    requires GoodFile(u)
    ensures forall h :: h in u.headers && h.kind == Load ==> 0 < h.memsz
  {
  }

  // ---- whether there are slots ----

  /** Everything that is asked of the slots, for a machine whose memory ends at `end`. */
  function SlotOps(u: Setup, vao: int, end: nat): seq<E.Op> {
    PlacingOps(u.headers, u.sharedObject, vao) + AllRequests(u.framebuffer, u.ramdisk, end, u.infoSize)
  }

  function RangeSlots(r: Option<PhysRange>): nat { if r.Some? then E.SlotsFor(r.value.len) else 0 }

  /** Shared object, stack, devices, memory window and boot info ask for something, and for at most 511 slots in all. */
  ghost predicate SlotsSuffice(u: Setup, end: nat) {
    && 0 < ImageSize(u.headers) && 0 < end && 0 < u.infoSize
    && (u.framebuffer.Some? ==> 0 < u.framebuffer.value.len) && (u.ramdisk.Some? ==> 0 < u.ramdisk.value.len)
    && 1 + E.SlotsFor(ImageSize(u.headers)) + E.SlotsFor(4096 + STACK_SIZE) + RangeSlots(u.framebuffer)
         + RangeSlots(u.ramdisk) + E.SlotsFor(end) + E.SlotsFor(u.infoSize) <= E.SLOTS
  }

  lemma OneTotal(num: nat)
    ensures E.Total([E.Alloc(num)]) == num
  {
    assert [E.Alloc(num)][..0] == [];
  }

  lemma RangeTotal(r: Option<PhysRange>)
    ensures E.Total(RangeRequest(r)) == RangeSlots(r)
  {
    if r.Some? {
      OneTotal(E.SlotsFor(r.value.len));
    }
  }

  lemma RequestsTotal(u: Setup, end: nat)
    ensures E.Total(AllRequests(u.framebuffer, u.ramdisk, end, u.infoSize)) ==
              E.SlotsFor(4096 + STACK_SIZE) + RangeSlots(u.framebuffer) + RangeSlots(u.ramdisk) + E.SlotsFor(end)
              + E.SlotsFor(u.infoSize)
  {
    hide E.SlotsFor, E.Total, RangeRequest, RangeSlots;
    var fb, rd := RangeRequest(u.framebuffer), RangeRequest(u.ramdisk);
    RangeTotal(u.framebuffer);
    RangeTotal(u.ramdisk);
    OneTotal(E.SlotsFor(4096 + STACK_SIZE));
    OneTotal(E.SlotsFor(end));
    OneTotal(E.SlotsFor(u.infoSize));
    E.TotalConcat(fb, rd);
    E.TotalConcat(StackRequest(), fb + rd);
    E.TotalConcat(TableRequests(u.framebuffer, u.ramdisk), [E.Alloc(E.SlotsFor(end))]);
    E.TotalConcat(Requests(u.framebuffer, u.ramdisk, end), [E.Alloc(E.SlotsFor(u.infoSize))]);
  }

  ghost predicate AskForSome(ops: seq<E.Op>) {
    forall k :: 0 <= k < |ops| && ops[k].Alloc? ==> 0 < ops[k].num
  }

  lemma AskConcat(a: seq<E.Op>, b: seq<E.Op>)
    ensures AskForSome(a + b) <==> AskForSome(a) && AskForSome(b)
  {
    if AskForSome(a + b) {
      assert forall k :: 0 <= k < |a| ==> a[k] == (a + b)[k];
      assert forall k :: 0 <= k < |b| ==> b[k] == (a + b)[|a| + k];
    }
  }

  lemma AskOne(size: nat)
    ensures AskForSome([E.Alloc(E.SlotsFor(size))]) <==> 0 < size
  {
    assert [E.Alloc(E.SlotsFor(size))][0].num == E.SlotsFor(size);
  }

  lemma AskRange(r: Option<PhysRange>)
    ensures AskForSome(RangeRequest(r)) <==> (r.Some? ==> 0 < r.value.len)
  {
    if r.Some? {
      AskOne(r.value.len);
    }
  }

  lemma AskAll(u: Setup, end: nat)
    ensures AskForSome(AllRequests(u.framebuffer, u.ramdisk, end, u.infoSize)) <==>
              && 0 < end && 0 < u.infoSize
              && (u.framebuffer.Some? ==> 0 < u.framebuffer.value.len) && (u.ramdisk.Some? ==> 0 < u.ramdisk.value.len)
  {
    hide E.SlotsFor, AskForSome, RangeRequest;
    var fb, rd := RangeRequest(u.framebuffer), RangeRequest(u.ramdisk);
    AskRange(u.framebuffer);
    AskRange(u.ramdisk);
    AskOne(4096 + STACK_SIZE);
    AskOne(end);
    AskOne(u.infoSize);
    AskConcat(fb, rd);
    AskConcat(StackRequest(), fb + rd);
    AskConcat(TableRequests(u.framebuffer, u.ramdisk), [E.Alloc(E.SlotsFor(end))]);
    AskConcat(Requests(u.framebuffer, u.ramdisk, end), [E.Alloc(E.SlotsFor(u.infoSize))]);
  }

  lemma FitsIff(u: Setup, vao: int, end: nat)
    requires u.sharedObject
    ensures E.Fits(SlotOps(u, vao, end)) <==> SlotsSuffice(u, end)
  {
    hide E.SlotsFor, E.Total, AllRequests, RangeSlots, ImageSize, E.MarkOps;
    var placing, requests := PlacingOps(u.headers, true, vao), AllRequests(u.framebuffer, u.ramdisk, end, u.infoSize);
    E.TotalConcat(placing, requests);
    PlacingTotal(u.headers, vao);
    RequestsTotal(u, end);
    AskConcat(placing, requests);
    AskConcat([E.Alloc(E.SlotsFor(ImageSize(u.headers)))], E.MarkOps(u.headers, vao));
    AskOne(ImageSize(u.headers));
    E.MarkOpsAreMarks(u.headers, vao);
    AskAll(u, end);
  }

  lemma RequestsAsk(u: Setup, end: nat)
    ensures forall k :: 0 <= k < |AllRequests(u.framebuffer, u.ramdisk, end, u.infoSize)| ==>
              AllRequests(u.framebuffer, u.ramdisk, end, u.infoSize)[k].Alloc?
  {
  }

  /** For a shared object whose headers stay in its span, the slots are enough exactly if the sum says so. */
  lemma SlotsIff(u: Setup, m: InMemory, h: E.History, end: nat)
    requires u.sharedObject && InSpan(u.headers) && PlacedIn(u, m, E.OnlySlotZero())
    ensures E.Granted(E.Start(), h, SlotOps(u, m.placed.vao, end)) ==> SlotsSuffice(u, end)
    ensures E.Refused(E.Start(), h, SlotOps(u, m.placed.vao, end)) ==> !SlotsSuffice(u, end)
  {
    hide E.Granted, E.Refused, E.Fits, SlotsSuffice, E.Contained, InFreeSlots, InSpan, PlacingOps, AllRequests;
    RequestsAsk(u, end);
    PlacingContained(u.headers, m.placed, AllRequests(u.framebuffer, u.ramdisk, end, u.infoSize));
    E.GrantedIffFits(h, SlotOps(u, m.placed.vao, end));
    FitsIff(u, m.placed.vao, end);
  }

  /** What the regions of a layout were answered. */
  function LayoutAnswers(l: Layout, infoPage: int): seq<Option<int>> {
    TableAnswers(l) + [SlotAnswer(l.offsetPage)] + [SlotAnswer(infoPage)]
  }

  /**
    The order of a shared object's address space, in slots of 2^27 pages: slot 0, the image, stack,
    framebuffer, ramdisk, memory window, boot info.
  */
  ghost predicate InOrder(u: Setup, l: Layout, infoPage: int, end: nat) {
    var stack := 1 + E.SlotsFor(ImageSize(u.headers));
    var framebuffer := stack + 1;
    var ramdisk := framebuffer + RangeSlots(u.framebuffer);
    var window := ramdisk + RangeSlots(u.ramdisk);
    var info := window + E.SlotsFor(end);
    && l.guard == stack * 0x800_0000
    && (u.framebuffer.Some? ==> l.framebuffer == Some(framebuffer * 0x800_0000))
    && (u.ramdisk.Some? ==> l.ramdisk == Some(ramdisk * 0x800_0000))
    && l.offsetPage == window * 0x800_0000
    && infoPage == info * 0x800_0000
  }

  /** Request j is answered with the slot behind everything asked for before. */
  lemma RequestAt(h: E.History, placing: seq<E.Op>, requests: seq<E.Op>, j: nat)
    requires E.Granted(E.Start(), h, placing + requests) && E.Contained(placing + requests)
    requires j < |requests| && requests[j].Alloc?
    ensures |h.answers| == |placing| + |requests|
    ensures h.answers[|placing| + j] == Some(1 + E.Total(placing) + E.Total(requests[..j]))
  {
    hide E.Granted, E.Contained, E.Total;
    var ops := placing + requests;
    assert ops[..|placing| + j] == placing + requests[..j];
    E.GrantedAt(h, ops, |placing| + j);
    E.TotalConcat(placing, requests[..j]);
  }

  lemma SlotPage(page: int, slot: int)
    requires SlotAnswer(page) == Some(slot)
    ensures page == slot * 0x800_0000
  {
  }

  lemma StackSlots()
    ensures E.SlotsFor(4096 + STACK_SIZE) == 1
  {
  }

  /** What has been asked for before each of the requests. */
  lemma PrefixTotals(u: Setup, end: nat)
    ensures var requests := AllRequests(u.framebuffer, u.ramdisk, end, u.infoSize);
            var fb, rd := |RangeRequest(u.framebuffer)|, |RangeRequest(u.ramdisk)|;
            && |requests| == fb + rd + 3
            && E.Total(requests[..0]) == 0 && E.Total(requests[..1]) == 1
            && E.Total(requests[..1 + fb]) == 1 + RangeSlots(u.framebuffer)
            && E.Total(requests[..1 + fb + rd]) == 1 + RangeSlots(u.framebuffer) + RangeSlots(u.ramdisk)
            && E.Total(requests[..2 + fb + rd]) ==
                 1 + RangeSlots(u.framebuffer) + RangeSlots(u.ramdisk) + E.SlotsFor(end)
  {
    hide E.Total, E.SlotsFor, RangeRequest, RangeSlots;
    var requests := AllRequests(u.framebuffer, u.ramdisk, end, u.infoSize);
    var fb, rd := RangeRequest(u.framebuffer), RangeRequest(u.ramdisk);
    StackSlots();
    OneTotal(E.SlotsFor(4096 + STACK_SIZE));
    OneTotal(E.SlotsFor(end));
    RangeTotal(u.framebuffer);
    RangeTotal(u.ramdisk);
    NoneTotal();
    E.TotalConcat(StackRequest(), fb);
    E.TotalConcat(fb, rd);
    E.TotalConcat(StackRequest(), fb + rd);
    E.TotalConcat(StackRequest() + (fb + rd), [E.Alloc(E.SlotsFor(end))]);
    assert requests == StackRequest() + (fb + rd) + [E.Alloc(E.SlotsFor(end))] + [E.Alloc(E.SlotsFor(u.infoSize))];
    assert requests[..0] == [] && requests[..1] == StackRequest();
    assert requests[..1 + |fb|] == StackRequest() + fb;
    assert requests[..1 + |fb| + |rd|] == StackRequest() + (fb + rd);
    assert requests[..2 + |fb| + |rd|] == StackRequest() + (fb + rd) + [E.Alloc(E.SlotsFor(end))];
  }

  /** The regions are answered in the order of the requests. */
  lemma AnswersAre(l: Layout, infoPage: int, fb: Option<PhysRange>, rd: Option<PhysRange>)
    requires (l.framebuffer.Some? <==> fb.Some?) && (l.ramdisk.Some? <==> rd.Some?)
    ensures var answers, f, r := LayoutAnswers(l, infoPage), |RangeRequest(fb)|, |RangeRequest(rd)|;
            && |answers| == f + r + 3
            && answers[0] == SlotAnswer(l.guard)
            && (fb.Some? ==> f == 1 && answers[1] == SlotAnswer(l.framebuffer.value))
            && (rd.Some? ==> r == 1 && answers[1 + f] == SlotAnswer(l.ramdisk.value))
            && answers[1 + f + r] == SlotAnswer(l.offsetPage) && answers[2 + f + r] == SlotAnswer(infoPage)
  {
  }

  /** A region starts right behind everything asked for before it. */
  lemma RegionAt(h: E.History, placing: seq<E.Op>, requests: seq<E.Op>, placed: seq<Option<int>>,
                 answers: seq<Option<int>>, j: nat, page: int)
    requires E.Granted(E.Start(), h, placing + requests) && E.Contained(placing + requests)
    requires h.answers == placed + answers && |placed| == |placing| && j < |requests| && j < |answers|
    requires requests[j].Alloc? && answers[j] == SlotAnswer(page)
    ensures page == (1 + E.Total(placing) + E.Total(requests[..j])) * 0x800_0000
  {
    hide E.Granted, E.Contained, E.Total, SlotAnswer;
    RequestAt(h, placing, requests, j);
    assert h.answers[|placing| + j] == answers[j];
    SlotPage(page, 1 + E.Total(placing) + E.Total(requests[..j]));
  }

  /** With the slots granted in order, the layout is in order. */
  lemma LaidInOrder(u: Setup, m: InMemory, h: E.History, placed: seq<Option<int>>, l: Layout, infoPage: int, end: nat)
    requires u.sharedObject && InSpan(u.headers) && PlacedIn(u, m, E.OnlySlotZero())
    requires E.Granted(E.Start(), h, SlotOps(u, m.placed.vao, end))
    requires |placed| == |PlacingOps(u.headers, true, m.placed.vao)|
    requires h.answers == placed + LayoutAnswers(l, infoPage)
    requires (l.framebuffer.Some? <==> u.framebuffer.Some?) && (l.ramdisk.Some? <==> u.ramdisk.Some?)
    ensures InOrder(u, l, infoPage, end)
  {
    hide E.Granted, E.Contained, E.Total, E.SlotsFor, InFreeSlots, InSpan, PlacingOps, SlotAnswer, ImageSize,
      AllRequests, LayoutAnswers, RangeRequest, RangeSlots;
    var placing := PlacingOps(u.headers, true, m.placed.vao);
    var requests := AllRequests(u.framebuffer, u.ramdisk, end, u.infoSize);
    var f, r := |RangeRequest(u.framebuffer)|, |RangeRequest(u.ramdisk)|;
    var answers := LayoutAnswers(l, infoPage);
    RequestsAsk(u, end);
    PlacingContained(u.headers, m.placed, requests);
    PlacingTotal(u.headers, m.placed.vao);
    PrefixTotals(u, end);
    AnswersAre(l, infoPage, u.framebuffer, u.ramdisk);
    RegionAt(h, placing, requests, placed, answers, 0, l.guard);
    if u.framebuffer.Some? {
      RegionAt(h, placing, requests, placed, answers, 1, l.framebuffer.value);
    }
    if u.ramdisk.Some? {
      RegionAt(h, placing, requests, placed, answers, 1 + f, l.ramdisk.value);
    }
    RegionAt(h, placing, requests, placed, answers, 1 + f + r, l.offsetPage);
    RegionAt(h, placing, requests, placed, answers, 2 + f + r, infoPage);
  }

  lemma NoneTotal()
    ensures E.Total([]) == 0
  {
  }

  // ---- the whole run ----

  /** The machine as the kernel finds it. */
  datatype Machine = Machine(image: InMemory, kernel: map<int, Entry>, huge: map<int, Entry>,
                             bootloader: map<int, Entry>, layout: Layout, infoPage: int)

  /** The address space: the image as specified, every region on pages of its own, memory visible at its offset. */
  ghost predicate Laid(u: Setup, x: Machine, descs: seq<Descriptor>) {
    var l := x.layout;
    && HoldsImage(x.image) && Keeps(x.image.table, x.kernel)
    && Shows(x.kernel, x.image.mem, LoadAll(x.image.e).value.view)
    && 0 < u.infoSize
    && Partition(x.kernel, Regions(l, x.image.table, u.contextFrame, u.framebuffer, u.ramdisk)
                             + [Pages(x.infoPage, PagesFor(u.infoSize))])
    && l.guard !in x.kernel && HugeOf(l.guard) !in x.huge
    && IdentityMapped(x.kernel, u.contextFrame, l.gdtFrame) && StackMapped(l, x.kernel)
    && FramebufferBacked(l.framebuffer, x.kernel, u.framebuffer) && RamdiskBacked(l.ramdisk, x.kernel, u.ramdisk)
    && Shared(x.kernel, x.bootloader, x.infoPage, PagesFor(u.infoSize))
    && Flagged(x.kernel, Pages(x.infoPage, PagesFor(u.infoSize)), READ_WRITE)
    && EndOfMemory(descs, l.maxPhys) && 0 < l.maxPhys
    && l.offsetPage % SLOT_PAGES == 0 && Backs(x.huge, HugeOf(l.offsetPage), HugeCount(l.maxPhys), 0, READ_WRITE)
  }

  /** Every mapped page lies in the 48-bit address space. */
  ghost predicate InSpace(x: Machine) {
    && (forall p :: p in x.kernel ==> 0 <= p < 0x10_0000_0000)
    && (forall p :: HugeOf(p) in x.huge ==> 0 <= p < 0x10_0000_0000)
  }

  // ---- what the boot info says ----

  /** A 64-bit address whose bits 47 to 63 agree. */
  predicate Extended(address: int) {
    0 <= address < 0x1_0000_0000_0000_0000
    && (address / 0x8000_0000_0000 == 0 || address / 0x8000_0000_0000 == 0x1_ffff)
  }

  /** Byte q behind the address lies in the q-th byte from the start of the frame on, and can be written. */
  ghost predicate Behind(k: map<int, Entry>, address: int, q: nat, frame: nat) {
    var page := (address % 0x1_0000_0000_0000 + q) / 4096;
    page in k && k[page] == Entry(frame + q / 4096, Flags(true, true, false, false))
  }

  /** The address is that of the range, up to the end of its last page. */
  ghost predicate PointsAt(k: map<int, Entry>, address: Option<int>, range: Option<PhysRange>) {
    && (address.Some? <==> range.Some?)
    && (range.Some? ==>
          && Extended(address.value)
          && forall q: nat :: q / 4096 < (range.value.len + 4095) / 4096 ==>
               Behind(k, address.value, q, range.value.addr / 4096))
  }

  /** Every byte of memory, up to the end of the highest descriptor, shows at its distance from the address. */
  ghost predicate MemoryVisible(h: map<int, Entry>, address: int, descs: seq<Descriptor>) {
    && Extended(address)
    && forall q: nat :: (exists d :: d in descs && q < d.physStart + d.pageCount * 4096) ==>
         ShowsHuge(h, address % 0x1_0000_0000_0000, q)
  }

  ghost predicate FirstTls(hs: seq<Header>, i: int) {
    0 <= i < |hs| && hs[i].kind == Tls && forall j :: 0 <= j < i ==> hs[j].kind != Tls
  }

  /** The boot info tells the truth about the machine. */
  ghost predicate Told(u: Setup, x: Machine, info: BootInfo, descs: seq<Descriptor>) {
    && PointsAt(x.kernel, info.framebuffer, u.framebuffer)
    && PointsAt(x.kernel, info.ramdisk, u.ramdisk)
    && info.ramdiskLen == (if u.ramdisk.Some? then u.ramdisk.value.len else 0)
    && MemoryVisible(x.huge, info.physicalMemoryOffset, descs)
    && info.rsdp == u.rsdp
    && TlsIsFirst(u.headers, x.image.e.vao, info.tls)
  }

  /** The thread-local storage template is that of the first Tls header. */
  ghost predicate TlsIsFirst(hs: seq<Header>, vao: int, tls: Option<TlsTemplate>) {
    && ((forall h :: h in hs ==> h.kind != Tls) ==> tls == None)
    && (forall i :: FirstTls(hs, i) ==> tls == Some(TlsTemplate(vao + hs[i].vaddr, hs[i].memsz, hs[i].filesz)))
  }

  lemma AddressOfPage(page: int)
    requires 0 <= page < 0x10_0000_0000
    ensures Extended(PageAddress(page)) && PageAddress(page) % 0x1_0000_0000_0000 == page * 4096
  {
    SignExtendIs(page * 4096);
  }

  lemma FramebufferPointed(k: map<int, Entry>, start: Option<int>, fb: Option<PhysRange>)
    requires FramebufferBacked(start, k, fb) && forall p :: p in k ==> 0 <= p < 0x10_0000_0000
    ensures PointsAt(k, if start.Some? then Some(PageAddress(start.value)) else None, fb)
  {
    if fb.Some? {
      var count := FrameCount(fb.value.addr, fb.value.len);
      assert InRange(start.value, count, start.value);
      AddressOfPage(start.value);
      forall q: nat | q / 4096 < (fb.value.len + 4095) / 4096
        ensures Behind(k, PageAddress(start.value), q, fb.value.addr / 4096)
      {
        assert q / 4096 < count;
        assert InRange(start.value, count, start.value + q / 4096);
        assert (start.value * 4096 + q) / 4096 == start.value + q / 4096;
      }
    }
  }

  lemma RamdiskPointed(k: map<int, Entry>, start: Option<int>, rd: Option<PhysRange>)
    requires RamdiskBacked(start, k, rd) && forall p :: p in k ==> 0 <= p < 0x10_0000_0000
    ensures PointsAt(k, if start.Some? then Some(PageAddress(start.value)) else None, rd)
  {
    if rd.Some? {
      var count := PagesFor(rd.value.len);
      assert InRange(start.value, count, start.value);
      AddressOfPage(start.value);
      forall q: nat | q / 4096 < (rd.value.len + 4095) / 4096
        ensures Behind(k, PageAddress(start.value), q, rd.value.addr / 4096)
      {
        assert q / 4096 < count;
        assert InRange(start.value, count, start.value + q / 4096);
        assert (start.value * 4096 + q) / 4096 == start.value + q / 4096;
      }
    }
  }

  lemma WindowTold(x: Machine, descs: seq<Descriptor>)
    requires InSpace(x) && EndOfMemory(descs, x.layout.maxPhys) && 0 < x.layout.maxPhys
    requires x.layout.offsetPage % SLOT_PAGES == 0
    requires Backs(x.huge, HugeOf(x.layout.offsetPage), HugeCount(x.layout.maxPhys), 0, READ_WRITE)
    ensures MemoryVisible(x.huge, PageAddress(x.layout.offsetPage), descs)
  {
    assert InRange(HugeOf(x.layout.offsetPage), HugeCount(x.layout.maxPhys), HugeOf(x.layout.offsetPage));
    AddressOfPage(x.layout.offsetPage);
    MemoryShown(x.huge, x.layout.offsetPage, x.layout.maxPhys);
  }

  lemma KernelInSpace(x: Machine)
    requires InSpace(x)
    ensures forall p :: p in x.kernel ==> 0 <= p < 0x10_0000_0000
  {
  }

  lemma TlsTold(e: Kernel)
    ensures TlsIsFirst(e.headers, e.vao, TlsOf(e, |e.headers|))
  {
    if forall h :: h in e.headers ==> h.kind != Tls {
      NoTls(e, |e.headers|);
    }
    forall i | FirstTls(e.headers, i)
      ensures TlsOf(e, |e.headers|) ==
                Some(TlsTemplate(e.vao + e.headers[i].vaddr, e.headers[i].memsz, e.headers[i].filesz))
    {
      TlsIs(e, |e.headers|, i);
    }
  }

  lemma LaidStarts(u: Setup, x: Machine, descs: seq<Descriptor>)
    requires Laid(u, x, descs)
    ensures x.layout.framebuffer.Some? <==> u.framebuffer.Some?
    ensures x.layout.ramdisk.Some? <==> u.ramdisk.Some?
  {
  }

  lemma LaidDevices(u: Setup, x: Machine, descs: seq<Descriptor>)
    requires Laid(u, x, descs)
    ensures FramebufferBacked(x.layout.framebuffer, x.kernel, u.framebuffer)
    ensures RamdiskBacked(x.layout.ramdisk, x.kernel, u.ramdisk)
    ensures EndOfMemory(descs, x.layout.maxPhys) && 0 < x.layout.maxPhys && x.layout.offsetPage % SLOT_PAGES == 0
    ensures Backs(x.huge, HugeOf(x.layout.offsetPage), HugeCount(x.layout.maxPhys), 0, READ_WRITE)
  {
  }

  lemma InfoTold(u: Setup, x: Machine, descs: seq<Descriptor>, regions: seq<Region>)
    requires Laid(u, x, descs) && InSpace(x) && x.image.e.headers == u.headers
    ensures Told(u, x, InfoOf(u, x.layout, TlsOf(x.image.e, |x.image.e.headers|), regions), descs)
  {
    hide Laid, TlsOf, FramebufferBacked, RamdiskBacked, PointsAt, Backs, LoadAll, PageAddress, MemoryVisible,
      EndOfMemory, InSpace, TlsIsFirst;
    LaidDevices(u, x, descs);
    KernelInSpace(x);
    FramebufferPointed(x.kernel, x.layout.framebuffer, u.framebuffer);
    RamdiskPointed(x.kernel, x.layout.ramdisk, u.ramdisk);
    WindowTold(x, descs);
    TlsTold(x.image.e);
  }

  /**
    What becomes of the frames: those of stack, GDT and boot info belong to one page each and are never
    handed out by the kernel's allocator; of the image's frames only the last, partly filled one of the file is.
  */
  ghost predicate FramesKept(u: Setup, x: Machine, regions: seq<Region>) {
    && 0 < u.infoSize && (forall r :: r in regions ==> r.start <= r.end)
    && (forall p :: p in AllOwnPages(x.layout, x.infoPage, u.infoSize) ==>
          p in x.kernel && x.kernel[p].frame !in UsableFrames(regions))
    && (forall p, q :: p in AllOwnPages(x.layout, x.infoPage, u.infoSize) && q in x.kernel && q != p
                       && (q in x.image.table || q in AllOwnPages(x.layout, x.infoPage, u.infoSize)) ==>
          x.kernel[p].frame != x.kernel[q].frame)
    && (forall p :: p in x.image.table ==>
          (x.image.table[p].frame in UsableFrames(regions) <==>
             u.len % 4096 != 0 && x.image.table[p].frame == (u.start + u.len) / 4096))
  }

  lemma KeptTogether(u: Setup, x: Machine, regions: seq<Region>, s: Space, allocator: LegacyFrameAllocator,
                     before: seq<nat>)
    requires allocator.Valid() && allocator.first == 1 && BootAssumptions(allocator.original, u.start, u.len)
    requires before <= allocator.given && |before| <= |FrameList(allocator.original, 1)| && 0 < u.infoSize
    requires LoadedDuring(s, allocator.original, |before|, u.start, u.len) && s.table == x.image.table
    requires MapsMemory(allocator, u.start, u.len, regions) && Keeps(s.table, x.kernel)
    requires FreshFrames(x.kernel, AllOwnPages(x.layout, x.infoPage, u.infoSize), before, allocator.given)
    ensures FramesKept(u, x, regions)
  {
    hide BootAssumptions, LoadedDuring, FrameList, MapsMemory, UsableFrames, AllOwnPages,
      LegacyFrameAllocator.Consistent;
    var pages := AllOwnPages(x.layout, x.infoPage, u.infoSize);
    BootFramesSafe(allocator, x.kernel, pages, before, u.start, u.len, regions);
    ImageReuse(s, allocator, before, u.start, u.len, regions);
    OwnApartFromImage(s, allocator, before, x.kernel, pages, u.start, u.len);
  }

  /** A bound on the frames the whole run takes. */
  function FramesNeeded(u: Setup, e: Kernel, end: nat): nat {
    LoadFrames(e) + AllFramesBound(u.framebuffer, u.ramdisk, end, u.infoSize)
  }

  /** The demands on the hardware: what is identity mapped lies in slot 0, and the framebuffer inside its slots. */
  ghost predicate GoodMachine(u: Setup, frames: seq<nat>, own: map<int, Entry>) {
    && SlotOf(u.contextFrame) == 0 && SlotOf(u.contextFrame + 1) == 0
    && (forall f :: f in frames ==> SlotOf(f) == 0)
    && (u.framebuffer.Some? ==>
          var fb := u.framebuffer.value;
          fb.addr % 4096 + fb.len <= E.SlotsFor(fb.len) * E.SLOT_SIZE)
    && forall p :: p in own ==> SlotOf(p) == 0
  }

  /** The boot sequence behind a loaded image. */
  method BootImage(u: Setup, entries: E.Entries, allocator: LegacyFrameAllocator, own: map<int, Entry>, image: InMemory,
                   ghost s: Space)
      returns (o: BootLayout.Outcome, x: Machine, regions: seq<Region>)
    requires allocator.Valid() && allocator.first == 1 && BootAssumptions(allocator.original, u.start, u.len)
    requires GoodMachine(u, FrameList(allocator.original, 1), own)
    requires entries.Valid() && entries.State()[0]
    requires forall p :: p in image.table ==> 0 <= SlotOf(p) < E.SLOTS && entries.State()[SlotOf(p)]
    requires HoldsImage(image) && s.mem == image.mem && s.table == image.table
    requires |allocator.given| <= |FrameList(allocator.original, 1)|
    requires LoadedDuring(s, allocator.original, |allocator.given|, u.start, u.len)
    requires Read(s) == LoadAll(image.e).value.view
    modifies allocator, entries, entries.entryState
    ensures allocator.Valid() && x.image == image
    ensures o.Ok? || o.NoSlots? || o.Exhausted? || o.MapFailed?
    ensures o.Ok? ==> Laid(u, x, allocator.original) && FramesKept(u, x, regions) && Keeps(own, x.bootloader)
    ensures o.Ok? ==> InSpace(x)
    ensures o.Ok? ==> entries.history.answers == old(entries.history).answers + LayoutAnswers(x.layout, x.infoPage)
    ensures o.Ok? ==> MapsMemory(allocator, u.start, u.len, regions)
    ensures o.Ok? ==> E.Granted(old(entries.history), entries.history,
                                AllRequests(u.framebuffer, u.ramdisk, MemoryEnd(allocator.original), u.infoSize))
    ensures o.NoSlots? ==> E.Refused(old(entries.history), entries.history,
                                     AllRequests(u.framebuffer, u.ramdisk, MemoryEnd(allocator.original), u.infoSize))
    ensures o.MapFailed? ==> IdentityClash(image.table, u.contextFrame, FrameList(allocator.original, 1))
    ensures o.Exhausted? ==> allocator.Remaining() == []
    ensures |allocator.given| <= |old(allocator.given)|
              + AllFramesBound(u.framebuffer, u.ramdisk, MemoryEnd(allocator.original), u.infoSize)
  {
    hide LegacyFrameAllocator.Consistent, BootAssumptions, HoldsImage, LoadedDuring, Inv, Read, LoadAll, SlotOf,
      HugeOf, Keeps, Partition, FreshFrames, MapsMemory, FramesKept, Shows, UsableFrames, Backs, Shared, IdentityMapped,
      FramebufferBacked, RamdiskBacked, Regions, Pages, OwnPages, E.Granted, E.Refused, E.Run, StackMapped, Flagged,
      AllRequests, FrameList, AllFramesBound, MemoryEnd, EndOfMemory, IdentityClash;
    NotEmpty(allocator.original, u.start, u.len);
    AlignedStart(allocator.original, u.start, u.len);
    ghost var before := allocator.given;
    StateInv(s, allocator.original, |before|, u.start, u.len);
    var mapper := new BootMapper(entries, allocator, image.table, own);
    var l, infoPage;
    o, l, infoPage, regions := mapper.Boot(u.contextFrame, u.framebuffer, u.ramdisk, u.infoSize, u.start, u.len);
    x := Machine(image, mapper.kernel, mapper.huge, mapper.bootloader, l, infoPage);
    if !o.Ok? {
      return;
    }
    OneEnd(allocator.original, l.maxPhys);
    KeptTogether(u, x, regions, s, allocator, before);
    ShowsRead(s, x.kernel);
    TablesInSpace(mapper, x);
  }

  lemma TablesInSpace(mapper: BootMapper, x: Machine)
    requires mapper.Valid() && x.kernel == mapper.kernel && x.huge == mapper.huge
    ensures InSpace(x)
  {
  }

  /**
    load_and_switch_to_kernel up to the switch. Where it succeeds, the kernel finds its image, stack, devices,
    memory window and boot info as specified, and its allocator's frames clear of all of them. Where it fails,
    the reason is one in the input: the file, the slots asked for, an identity page, or the number of frames.
  */
  method Start(u: Setup, allocator: LegacyFrameAllocator, own: map<int, Entry>)
      returns (r: Result, x: Machine, ghost h: E.History)
    requires allocator.Valid() && allocator.first == 1 && BootAssumptions(allocator.original, u.start, u.len)
    requires GoodFile(u) && GoodMemory(u, allocator.Remaining())
    requires GoodMachine(u, FrameList(allocator.original, 1), own)
    modifies allocator
    ensures allocator.Valid()
    ensures !r.NotPlaced? ==> PlacedIn(u, x.image, E.OnlySlotZero())
    ensures r.Booted? ==> Laid(u, x, allocator.original) && FramesKept(u, x, r.info.regions)
    ensures r.Booted? ==> MapsMemory(allocator, u.start, u.len, r.info.regions)
    ensures r.Booted? ==> InSpace(x) && Told(u, x, r.info, allocator.original)
    ensures r.Booted? ==> r.entryPoint == Linear(x.image.e.vao + u.entry)
    ensures r.Booted? ==> Keeps(own, x.bootloader)
    ensures r.Booted? ==>
              E.Granted(E.Start(), h, SlotOps(u, x.image.placed.vao, MemoryEnd(allocator.original)))
    ensures u.sharedObject && InSpan(u.headers) ==>
              && (r.Booted? ==> SlotsSuffice(u, MemoryEnd(allocator.original)))
              && (r.Booted? ==> InOrder(u, x.layout, x.infoPage, MemoryEnd(allocator.original)))
              && (r.NotMapped? && r.o.NoSlots? ==> !SlotsSuffice(u, MemoryEnd(allocator.original)))
    ensures r.NotPlaced? ==> CannotPlace(u.headers, u.sharedObject, E.OnlySlotZero())
    ensures r.NotLoaded? ==> LoadAll(x.image.e).None?
    ensures r.NoEntry? ==> !Accepted(x.image.e.vao + u.entry)
    ensures r.NotMapped? ==> r.o.NoSlots? || r.o.Exhausted? || r.o.MapFailed?
    ensures r.NotMapped? && r.o.NoSlots? ==>
              E.Refused(E.Start(), h, SlotOps(u, x.image.placed.vao, MemoryEnd(allocator.original)))
    ensures r.NotMapped? && r.o.MapFailed? ==>
              IdentityClash(x.image.table, u.contextFrame, FrameList(allocator.original, 1))
    ensures r.NotMapped? && r.o.MapFailed? && u.sharedObject ==>
              exists f :: f in FrameList(allocator.original, 1) && (f == u.contextFrame || f == u.contextFrame + 1)
    ensures r.OutOfFrames? || (r.NotMapped? && r.o.Exhausted?) ==>
              && allocator.Remaining() == []
              && |old(allocator.Remaining())| <= FramesNeeded(u, x.image.e, MemoryEnd(allocator.original))
  {
    hide LegacyFrameAllocator.Consistent, BootAssumptions, GoodFile, GoodMemory, HoldsImage, LoadedDuring, Inv, Read,
      LoadAll, TlsOf, SlotOf, Keeps, MapsMemory, FramesKept, Laid, Told, InSpace, CannotPlace, E.Granted, E.Refused,
      E.Run, PlacedIn, InOrder, LayoutAnswers, Backs, FramebufferBacked, RamdiskBacked, EndOfMemory,
      PlacingOps, AllRequests, FrameList, LoadFrames, AllFramesBound, MemoryEnd, SlotsSuffice, InSpan;
    ghost var end, taken := MemoryEnd(allocator.original), allocator.given;
    ghost var frames := allocator.given + allocator.Remaining();
    var entries := new E.Entries();
    var loaded, image;
    ghost var s;
    loaded, image, s := LoadKernel(u, entries, allocator);
    h := entries.history;
    x := Machine(image, map[], map[], own, NoLayout(), 0);
    match loaded {
      case Unplaceable => return NotPlaced, x, h;
      case Unloadable => return NotLoaded, x, h;
      case BadEntry => return NoEntry, x, h;
      case NoFrames =>
        DryRun(taken, allocator, frames, LoadFrames(image.e));
        return OutOfFrames, x, h;
      case Loaded(tls, entryPoint) =>
        ghost var h1 := entries.history;
        var o, regions;
        o, x, regions := BootImage(u, entries, allocator, own, image, s);
        h := entries.history;
        E.GrantedThen(E.Start(), h1, h, PlacingOps(u.headers, u.sharedObject, image.placed.vao),
                      AllRequests(u.framebuffer, u.ramdisk, end, u.infoSize));
        if u.sharedObject && InSpan(u.headers) {
          SlotsIff(u, image, h, end);
        }
        if o.Exhausted? {
          DryRun(taken, allocator, frames, FramesNeeded(u, image.e, end));
        }
        if !o.Ok? {
          return NotMapped(o), x, h;
        }
        if u.sharedObject && InSpan(u.headers) {
          AsManyAnswers(h1, PlacingOps(u.headers, true, image.placed.vao));
          LaidStarts(u, x, allocator.original);
          LaidInOrder(u, image, h, h1.answers, x.layout, x.infoPage, end);
        }
        HeadersPlaced(u, image, E.OnlySlotZero());
        InfoTold(u, x, allocator.original, regions);
        return Booted(InfoOf(u, x.layout, tls, regions), entryPoint), x, h;
    }
  }

  /** If nothing is left and at most n frames were taken, there were at most n. */
  lemma DryRun(taken: seq<nat>, allocator: LegacyFrameAllocator, frames: seq<nat>, n: nat)
    requires allocator.Valid() && allocator.Remaining() == [] && frames == allocator.given + allocator.Remaining()
    requires |allocator.given| <= |taken| + n
    ensures |frames| - |taken| <= n
  {
  }

  lemma AsManyAnswers(h: E.History, ops: seq<E.Op>)
    requires E.Granted(E.Start(), h, ops)
    ensures |h.answers| == |ops|
  {
  }

  lemma NotEmpty(descs: seq<Descriptor>, ks: nat, len: nat)
    requires BootAssumptions(descs, ks, len)
    ensures descs != []
  {
  }

  lemma StateInv(s: Space, descs: seq<Descriptor>, k: nat, ks: nat, len: nat)
    requires AllWellFormed(descs) && k <= |FrameList(descs, 1)| && LoadedDuring(s, descs, k, ks, len)
    ensures Inv(s)
  {
  }
}
