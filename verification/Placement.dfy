/** Where the kernel is placed, and why its pages keep clear of everything mapped later. */
module Placement {
  import opened Common
  import opened Elf
  import opened Paging
  import opened VirtualAddress
  import opened LoaderSteps
  import opened LoaderTheorems
  import opened BootSteps
  import E = Entries

  // ---- extremes over the Load headers ----

  function MaxEnd(hs: seq<Header>): Option<nat> {
    if hs == [] then None
    else
      var rest := MaxEnd(hs[1..]);
      if hs[0].kind != Load then rest
      else Some(Max(hs[0].vaddr + hs[0].memsz, if rest.None? then 0 else rest.value))
  }

  function MinAddr(hs: seq<Header>): Option<nat> {
    if hs == [] then None
    else
      var rest := MinAddr(hs[1..]);
      if hs[0].kind != Load then rest
      else Some(if rest.None? then hs[0].vaddr else Min(hs[0].vaddr, rest.value))
  }

  function MaxAlign(hs: seq<Header>): Option<nat> {
    if hs == [] then None
    else
      var rest := MaxAlign(hs[1..]);
      if hs[0].kind != Load then rest
      else Some(Max(hs[0].align, if rest.None? then 0 else rest.value))
  }

  function OrElse(o: Option<nat>, default: nat): nat { if o.Some? then o.value else default }

  lemma {:induction false} ExtremesBound(hs: seq<Header>, h: Header)
    requires h in hs && h.kind == Load
    ensures MinAddr(hs).Some? && MaxEnd(hs).Some?
    ensures MinAddr(hs).value <= h.vaddr && h.vaddr + h.memsz <= MaxEnd(hs).value
  {
    if h != hs[0] {
      ExtremesBound(hs[1..], h);
    }
  }

  /** The least address of a Load header, none without one. */
  lemma {:induction false} MinAddrIs(hs: seq<Header>)
    ensures MinAddr(hs).None? <==> forall h :: h in hs ==> h.kind != Load
    ensures MinAddr(hs).Some? ==>
              && (forall h :: h in hs && h.kind == Load ==> MinAddr(hs).value <= h.vaddr)
              && (exists h :: h in hs && h.kind == Load && h.vaddr == MinAddr(hs).value)
  {
    if hs != [] {
      MinAddrIs(hs[1..]);
      HeadAndTail(hs);
      if MinAddr(hs[1..]).Some? {
        var g :| g in hs[1..] && g.kind == Load && g.vaddr == MinAddr(hs[1..]).value;
        assert g in hs;
      }
    }
  }

  /** The greatest end. */
  lemma {:induction false} MaxEndIs(hs: seq<Header>)
    ensures MaxEnd(hs).None? <==> forall h :: h in hs ==> h.kind != Load
    ensures MaxEnd(hs).Some? ==>
              && (forall h :: h in hs && h.kind == Load ==> h.vaddr + h.memsz <= MaxEnd(hs).value)
              && (exists h :: h in hs && h.kind == Load && h.vaddr + h.memsz == MaxEnd(hs).value)
  {
    if hs != [] {
      MaxEndIs(hs[1..]);
      HeadAndTail(hs);
      if MaxEnd(hs[1..]).Some? {
        var g :| g in hs[1..] && g.kind == Load && g.vaddr + g.memsz == MaxEnd(hs[1..]).value;
        assert g in hs;
      }
    }
  }

  /** The greatest alignment. */
  lemma {:induction false} MaxAlignIs(hs: seq<Header>)
    ensures MaxAlign(hs).None? <==> forall h :: h in hs ==> h.kind != Load
    ensures MaxAlign(hs).Some? ==>
              && (forall h :: h in hs && h.kind == Load ==> h.align <= MaxAlign(hs).value)
              && (exists h :: h in hs && h.kind == Load && h.align == MaxAlign(hs).value)
  {
    if hs != [] {
      MaxAlignIs(hs[1..]);
      HeadAndTail(hs);
      if MaxAlign(hs[1..]).Some? {
        var g :| g in hs[1..] && g.kind == Load && g.align == MaxAlign(hs[1..]).value;
        assert g in hs;
      }
    }
  }

  lemma HeadAndTail(hs: seq<Header>)
    requires hs != []
    ensures forall h :: h in hs <==> h == hs[0] || h in hs[1..]
  {
  }

  lemma {:induction false} ExtremesOrdered(hs: seq<Header>)
    ensures MinAddr(hs).Some? <==> MaxEnd(hs).Some?
    ensures OrElse(MinAddr(hs), 0) <= OrElse(MaxEnd(hs), 0)
  {
    if hs != [] {
      ExtremesOrdered(hs[1..]);
    }
  }

  // ---- placing ----

  /** The offset added to every address, and for a shared object the 48-bit address of its slots. */
  datatype Placed = Placed(vao: int, base: Option<int>)

  /** Panicked stands for the slot search, the alignment assertion and the address checks while marking. */
  datatype PlaceResult = Ok(placed: Placed) | Err(message: string) | Panicked

  /**
    Loader::new for a file at physical address `start`: a shared object gets slots of its own, an
    executable stays where it asks to be; then the slots of all headers are marked.
  */
  method PlaceKernel(start: nat, hs: seq<Header>, sharedObject: bool, entries: E.Entries) returns (r: PlaceResult)
    requires entries.Valid()
    modifies entries, entries.entryState
    ensures entries.Valid()
    ensures r.Ok? ==>
              E.Granted(old(entries.history), entries.history, PlacingOps(hs, sharedObject, r.placed.vao))
    ensures forall i :: 0 <= i < E.SLOTS && old(entries.State())[i] ==> entries.State()[i]
    ensures r.Err? <==> start % 4096 != 0
    ensures r.Err? ==> entries.State() == old(entries.State())
    ensures r.Ok? ==> !Unmarkable(hs, r.placed.vao)
    ensures r.Ok? ==> forall i :: 0 <= i < E.SLOTS ==>
              (entries.State()[i] <==>
                 old(entries.State())[i] || E.Touched(hs, r.placed.vao, i) || InOwnSlots(hs, r.placed, i))
    ensures r.Ok? && sharedObject ==> r.placed.base.Some? && InFreeSlots(hs, old(entries.State()), r.placed)
    ensures r.Ok? && !sharedObject ==> r.placed == Placed(0, None)
    ensures r.Panicked? ==> CannotPlace(hs, sharedObject, old(entries.State()))
  {
    hide E.Granted, E.Run, E.Grows, E.MarkOps, E.Touched, InFreeSlots, ImageSize, E.IsPowerOfTwo, E.MarkableRange;
    ghost var h0 := entries.history;
    E.GrantedNothing(h0);
    if start % 4096 != 0 {
      return Err("Loaded kernel ELF file is not sufficiently aligned");
    }
    var placed := Placed(0, None);
    if sharedObject {
      var found := FindPlace(hs, entries);
      if found.None? {
        return Panicked;
      }
      placed := found.value;
    }
    ghost var h1 := entries.history;
    var ok := entries.MarkSegments(hs, placed.vao);
    if !ok {
      return Panicked;
    }
    E.MarksGranted(h1, entries.history, hs, placed.vao);
    E.GrantedThen(h0, h1, entries.history, if sharedObject then [E.Alloc(E.SlotsFor(ImageSize(hs)))] else [],
                  E.MarkOps(hs, placed.vao));
    return Ok(placed);
  }

  /** Slots for a shared object, and the offset that puts its lowest address at their start. */
  method FindPlace(hs: seq<Header>, entries: E.Entries) returns (r: Option<Placed>)
    requires entries.Valid()
    modifies entries, entries.entryState
    ensures entries.Valid()
    ensures r.Some? ==>
              && r.value.base.Some? && InFreeSlots(hs, old(entries.State()), r.value)
              && E.Granted(old(entries.history), entries.history, [E.Alloc(E.SlotsFor(ImageSize(hs)))])
              && forall i :: 0 <= i < E.SLOTS ==>
                   (entries.State()[i] <==> old(entries.State())[i] || InOwnSlots(hs, r.value, i))
    ensures r.None? ==> entries.State() == old(entries.State())
    ensures r.None? ==> !E.IsPowerOfTwo(OrElse(MaxAlign(hs), 1))
                        || E.FirstFit(old(entries.State()), E.SlotsFor(ImageSize(hs)), None)
  {
    hide E.Step, E.IsPowerOfTwo;
    ghost var h0 := entries.history;
    var maxAddr, minAddr := OrElse(MaxEnd(hs), 0), OrElse(MinAddr(hs), 0);
    ExtremesOrdered(hs);
    var size := maxAddr - minAddr;
    var offset := entries.GetFreeAddress(size, OrElse(MaxAlign(hs), 1));
    if offset.None? {
      return None;
    }
    E.OneRequest(h0, entries.history, E.SlotsFor(size));
    return Some(Placed(SignExtend(offset.value) - minAddr, Some(offset.value)));
  }

  /** What placing asks of the slots: a run for a shared object, then the marks. */
  function PlacingOps(hs: seq<Header>, sharedObject: bool, vao: int): seq<E.Op> {
    (if sharedObject then [E.Alloc(E.SlotsFor(ImageSize(hs)))] else []) + E.MarkOps(hs, vao)
  }

  /** From the lowest Load address to the highest end. */
  function ImageSize(hs: seq<Header>): nat {
    ExtremesOrdered(hs);
    OrElse(MaxEnd(hs), 0) - OrElse(MinAddr(hs), 0)
  }

  /** From the start of one Load segment to the end of one, and no Load segment sticks out. */
  lemma ImageSizeIs(hs: seq<Header>)
    ensures (forall h :: h in hs ==> h.kind != Load) ==> ImageSize(hs) == 0
    ensures (exists h :: h in hs && h.kind == Load) ==>
              exists g, h ::
                && g in hs && h in hs && g.kind == Load && h.kind == Load
                && ImageSize(hs) == h.vaddr + h.memsz - g.vaddr
                && forall f :: f in hs && f.kind == Load ==>
                     g.vaddr <= f.vaddr && f.vaddr + f.memsz <= h.vaddr + h.memsz
  {
    MinAddrIs(hs);
    MaxEndIs(hs);
  }

  /** The shared object got the lowest run of free slots that holds it, its lowest address at their start. */
  ghost predicate InFreeSlots(hs: seq<Header>, s: seq<bool>, placed: Placed)
    requires placed.base.Some?
  {
    var base := placed.base.value;
    && 0 < ImageSize(hs) && 0 <= base && base % E.SLOT_SIZE == 0
    && E.FirstFit(s, E.SlotsFor(ImageSize(hs)), Some(base / E.SLOT_SIZE))
    && placed.vao == SignExtend(base) - OrElse(MinAddr(hs), 0)
  }

  /** No run of free slots holds the shared object, its alignment is no power of two, or a header leaves the space. */
  ghost predicate CannotPlace(hs: seq<Header>, sharedObject: bool, s: seq<bool>) {
    if sharedObject then
      || !E.IsPowerOfTwo(OrElse(MaxAlign(hs), 1))
      || E.FirstFit(s, E.SlotsFor(ImageSize(hs)), None)
      || exists placed: Placed :: placed.base.Some? && InFreeSlots(hs, s, placed) && Unmarkable(hs, placed.vao)
    else Unmarkable(hs, 0)
  }

  predicate InOwnSlots(hs: seq<Header>, placed: Placed, i: int) {
    placed.base.Some? &&
    placed.base.value / E.SLOT_SIZE <= i < placed.base.value / E.SLOT_SIZE + E.SlotsFor(ImageSize(hs))
  }

  /** Some header's range leaves the address space. */
  ghost predicate Unmarkable(hs: seq<Header>, vao: int) {
    exists h :: h in hs && 0 < h.memsz && !E.MarkableRange(vao + h.vaddr, h.memsz)
  }

  // ---- where a shared object goes, and what fits behind it ----

  /** In an empty table that is behind slot 0. */
  lemma FirstPlace(hs: seq<Header>, placed: Placed)
    requires placed.base.Some? && InFreeSlots(hs, E.OnlySlotZero(), placed)
    ensures placed.base.value == E.SLOT_SIZE && E.SlotsFor(ImageSize(hs)) < E.SLOTS
  {
    var s, num, i := E.OnlySlotZero(), E.SlotsFor(ImageSize(hs)), placed.base.value / E.SLOT_SIZE;
    assert s[0] && !s[i];
    if 1 < i {
      assert E.FreeRun(s, 1, num);
    }
  }

  /** No header reaches beyond the Load segments. */
  ghost predicate InSpan(hs: seq<Header>) {
    forall h :: h in hs && 0 < h.memsz ==>
      OrElse(MinAddr(hs), 0) <= h.vaddr && h.vaddr + h.memsz <= OrElse(MaxEnd(hs), 0)
  }

  lemma MarkInOwnSlots(hs: seq<Header>, h: Header, placed: Placed)
    requires placed.base.Some? && InFreeSlots(hs, E.OnlySlotZero(), placed)
    requires 0 < h.memsz && OrElse(MinAddr(hs), 0) <= h.vaddr && h.vaddr + h.memsz <= OrElse(MaxEnd(hs), 0)
    ensures E.P4(Linear(placed.vao + h.vaddr) + h.memsz - 1) <= E.SlotsFor(ImageSize(hs))
  {
    FirstPlace(hs, placed);
    var off := h.vaddr - OrElse(MinAddr(hs), 0);
    SlotsCover(ImageSize(hs));
    SlotsFit(E.SLOT_SIZE, E.SlotsFor(ImageSize(hs)), ImageSize(hs));
    assert placed.vao + h.vaddr == E.SLOT_SIZE + off;
    ShiftSlot(E.SLOT_SIZE, off + h.memsz - 1, E.SlotsFor(ImageSize(hs)));
  }

  lemma {:induction false} MarksInOwnSlots(hs: seq<Header>, all: seq<Header>, placed: Placed, k: nat)
    requires placed.base.Some? && InFreeSlots(all, E.OnlySlotZero(), placed) && InSpan(all)
    requires (forall h :: h in hs ==> h in all) && k < |E.MarkOps(hs, placed.vao)|
    ensures E.MarkOps(hs, placed.vao)[k].Mark? && E.MarkOps(hs, placed.vao)[k].hi <= E.SlotsFor(ImageSize(all))
    decreases |hs|
  {
    hide InFreeSlots, E.P4, E.SlotsFor;
    var init, h := hs[..|hs| - 1], hs[|hs| - 1];
    if k < |E.MarkOps(init, placed.vao)| {
      MarksInOwnSlots(init, all, placed, k);
    } else {
      assert h in hs;
      MarkInOwnSlots(all, h, placed);
    }
  }

  /** A shared object whose headers stay in its span, placed first, leaves the slots behind it free. */
  lemma PlacingContained(hs: seq<Header>, placed: Placed, requests: seq<E.Op>)
    requires placed.base.Some? && InFreeSlots(hs, E.OnlySlotZero(), placed) && InSpan(hs)
    requires forall k :: 0 <= k < |requests| ==> requests[k].Alloc?
    ensures E.Contained(PlacingOps(hs, true, placed.vao) + requests)
  {
    hide InFreeSlots, E.SlotsFor, InSpan, E.MarkOps;
    var first, marks := [E.Alloc(E.SlotsFor(ImageSize(hs)))], E.MarkOps(hs, placed.vao);
    var ops := PlacingOps(hs, true, placed.vao) + requests;
    assert ops == first + marks + requests;
    assert ops[..1] == first && E.Total(first) == E.SlotsFor(ImageSize(hs)) by {
      assert first[..0] == [];
    }
    forall k | 0 <= k < |ops| && ops[k].Mark?
      ensures ops[k].hi <= E.Total(ops[..k])
    {
      assert ops[k] == marks[k - 1];
      MarksInOwnSlots(hs, hs, placed, k - 1);
      E.TotalGrows(ops[..k], 1);
      assert ops[..k][..1] == ops[..1];
    }
  }

  /** Slots taken by placing a shared object. */
  lemma PlacingTotal(hs: seq<Header>, vao: int)
    ensures E.Total(PlacingOps(hs, true, vao)) == E.SlotsFor(ImageSize(hs))
  {
    var first := [E.Alloc(E.SlotsFor(ImageSize(hs)))];
    assert first[..0] == [];
    E.MarkOpsAreMarks(hs, vao);
    E.TotalConcat(first, E.MarkOps(hs, vao));
  }

  // ---- slots of the image ----

  lemma PageSlot(a: int)
    ensures SlotOf(PageOf(a)) == E.P4(a)
  {
  }

  lemma P4Monotone(a: int, b: int, c: int)
    requires 0 <= a <= c <= b < SPACE
    ensures 0 <= E.P4(a) <= E.P4(c) <= E.P4(b) < E.SLOTS
  {
  }

  /** Every page of the segment lies in a slot that mark_segments touches. */
  lemma PageTouched(e: Kernel, h: Header, page: int)
    requires h in e.headers && 0 < h.memsz && e.InSegment(h, page)
    requires e.Addr(h) + h.memsz < SPACE
    ensures 0 <= SlotOf(page) < E.SLOTS && E.Touched(e.headers, e.vao, SlotOf(page))
  {
    hide SlotOf, E.P4;
    var c := InPage(e, h, page);
    P4Monotone(e.Addr(h), e.Addr(h) + h.memsz - 1, c);
    PageSlot(c);
  }

  /** A byte of the segment on the page. */
  lemma InPage(e: Kernel, h: Header, page: int) returns (c: int)
    requires 0 < h.memsz && e.InSegment(h, page)
    ensures e.Addr(h) <= c <= e.Addr(h) + h.memsz - 1 && PageOf(c) == page
  {
    c := Max(e.Addr(h), page * 4096);
  }

  /** A shared object's addresses are counted from the start of its slots. */
  lemma PlacedAddr(e: Kernel, h: Header, s: seq<bool>, placed: Placed)
    requires h in e.headers && h.kind == Load && |s| == E.SLOTS
    requires placed.base.Some? && placed.vao == e.vao && InFreeSlots(e.headers, s, placed)
    requires Accepted(e.RawAddr(h))
    ensures MinAddr(e.headers).Some? && MinAddr(e.headers).value <= h.vaddr
    ensures h.vaddr + h.memsz - MinAddr(e.headers).value <= ImageSize(e.headers)
    ensures e.Addr(h) == placed.base.value + (h.vaddr - MinAddr(e.headers).value)
  {
    ExtremesBound(e.headers, h);
    var base, off := placed.base.value, h.vaddr - MinAddr(e.headers).value;
    SlotsCover(ImageSize(e.headers));
    SlotsFit(base, E.SlotsFor(ImageSize(e.headers)), ImageSize(e.headers));
    ExtendLinear(base);
    Advance(SignExtend(base), off);
  }

  lemma SlotsFit(base: int, num: nat, size: nat)
    requires 0 <= base && base % E.SLOT_SIZE == 0 && base / E.SLOT_SIZE + num <= E.SLOTS && size <= num * E.SLOT_SIZE
    ensures base + size <= SPACE
  {
  }

  lemma ShiftSlot(base: int, off: nat, num: nat)
    requires 0 <= base && base % E.SLOT_SIZE == 0 && off < num * E.SLOT_SIZE
    ensures base / E.SLOT_SIZE <= E.P4(base + off) < base / E.SLOT_SIZE + num
  {
  }

  /** A shared object's pages lie in the slots it was given, hence never in slot 0. */
  lemma PageInOwnSlots(e: Kernel, h: Header, page: int, s: seq<bool>, placed: Placed)
    requires h in e.headers && h.kind == Load && 0 < h.memsz && e.InSegment(h, page)
    requires Accepted(e.RawAddr(h))
    requires |s| == E.SLOTS && s[0] && placed.base.Some? && placed.vao == e.vao && InFreeSlots(e.headers, s, placed)
    ensures 1 <= SlotOf(page) < E.SLOTS && !s[SlotOf(page)]
  {
    var c := InPage(e, h, page);
    PlacedAddr(e, h, s, placed);
    SlotsCover(ImageSize(e.headers));
    ShiftSlot(placed.base.value, c - placed.base.value, E.SlotsFor(ImageSize(e.headers)));
    PageSlot(c);
  }

  /**
    After a successful load, each page of the kernel image lies in a marked slot; for a shared object,
    in a slot that was free before, so never in slot 0 with the identity mappings.
  */
  lemma ImageSlots(e: Kernel, page: int, s0: seq<bool>, s1: seq<bool>, placed: Placed)
    requires LoadAll(e).Some? && page in LoadAll(e).value.perms && placed.vao == e.vao && AllRegular(e)
    requires forall h :: h in e.headers && h.kind == Load ==> 0 < h.memsz
    requires |s0| == |s1| == E.SLOTS && s0[0]
    requires forall i :: 0 <= i < E.SLOTS && E.Touched(e.headers, e.vao, i) ==> s1[i]
    ensures 0 <= SlotOf(page) < E.SLOTS && s1[SlotOf(page)]
    ensures placed.base.Some? && InFreeSlots(e.headers, s0, placed) ==> 1 <= SlotOf(page) && !s0[SlotOf(page)]
  {
    hide InFreeSlots, E.Touched, SlotOf, Kernel.InSegment, PageOf, LoadFold, DynamicFold, RelroFold, LoadPage,
      AllRegular;
    LoadedPages(e, page);
    var i :| 0 <= i < |e.headers| && e.headers[i].kind == Load && e.InSegment(e.headers[i], page);
    var h := e.headers[i];
    assert RangeMapped(e, h, LoadAll(e).value.perms);
    PageTouched(e, h, page);
    if placed.base.Some? && InFreeSlots(e.headers, s0, placed) {
      PageInOwnSlots(e, h, page, s0, placed);
    }
  }

  /** What the boot sequence asks of the loaded image holds after PlaceKernel and LoadSegments. */
  lemma ImageReady(e: Kernel, table: map<int, Entry>, s0: seq<bool>, s1: seq<bool>, placed: Placed)
    requires LoadAll(e).Some? && LoadAll(e).value.perms == Perms(table) && placed.vao == e.vao && AllRegular(e)
    requires forall h :: h in e.headers && h.kind == Load ==> 0 < h.memsz
    requires |s0| == |s1| == E.SLOTS && s0[0]
    requires forall i :: 0 <= i < E.SLOTS && E.Touched(e.headers, e.vao, i) ==> s1[i]
    ensures forall p :: p in table ==> 0 <= SlotOf(p) < E.SLOTS && s1[SlotOf(p)]
    ensures placed.base.Some? && InFreeSlots(e.headers, s0, placed) ==> forall p :: p in table ==> SlotOf(p) != 0
  {
    hide LoadAll, InFreeSlots, E.Touched, SlotOf, AllRegular;
    forall p | p in table
      ensures 0 <= SlotOf(p) < E.SLOTS && s1[SlotOf(p)]
      ensures placed.base.Some? && InFreeSlots(e.headers, s0, placed) ==> SlotOf(p) != 0
    {
      assert p in Perms(table);
      ImageSlots(e, p, s0, s1, placed);
    }
  }

  // ---- what the placement does to the segments' alignment ----

  lemma AlignedShift(base: int, offset: nat, vaddr: nat, lowest: nat)
    requires base % 4096 == 0 && vaddr % 4096 == offset % 4096
    ensures (base + (vaddr - lowest)) % 4096 == offset % 4096 <==> lowest % 4096 == 0
  {
    var bq, vq, lq, v, l := base / 4096, vaddr / 4096, lowest / 4096, vaddr % 4096, lowest % 4096;
    if l <= v {
      DivMod(base + (vaddr - lowest), bq + vq - lq, v - l);
    } else {
      DivMod(base + (vaddr - lowest), bq + vq - lq - 1, v - l + 4096);
    }
  }

  /** Every Load header agrees with its file offset modulo the page size, as the ELF format asks. */
  ghost predicate OffsetsAgree(hs: seq<Header>) {
    forall h :: h in hs && h.kind == Load ==> h.vaddr % 4096 == h.offset % 4096
  }

  /**
    A placed segment still agrees with its file offset, and so shows its own file bytes, unless the kernel
    is a shared object whose lowest Load address is not page aligned; then no segment does.
  */
  lemma CongruentIff(e: Kernel, h: Header, s: seq<bool>, placed: Placed)
    requires h in e.headers && h.kind == Load && OffsetsAgree(e.headers) && Accepted(e.RawAddr(h))
    requires placed.vao == e.vao && |s| == E.SLOTS
    requires if placed.base.Some? then InFreeSlots(e.headers, s, placed) else placed.vao == 0
    ensures e.Congruent(h) <==> placed.base.None? || OrElse(MinAddr(e.headers), 0) % 4096 == 0
  {
    if placed.base.Some? {
      PlacedAddr(e, h, s, placed);
      var q := placed.base.value / E.SLOT_SIZE;
      assert placed.base.value == 4096 * (q * 0x800_0000);
      AlignedShift(placed.base.value, h.offset, h.vaddr, MinAddr(e.headers).value);
    } else {
      ExecutableAddr(e, h);
    }
  }

  lemma {:induction false} LowestIsLoad(hs: seq<Header>)
    ensures MinAddr(hs).Some? ==> exists h :: h in hs && h.kind == Load
  {
    if hs != [] {
      LowestIsLoad(hs[1..]);
    }
  }

  /** For what PlaceKernel answers: all headers stay regular exactly if the lowest Load address is page aligned. */
  lemma AllRegularIff(e: Kernel, s: seq<bool>, placed: Placed)
    requires e.start % 4096 == 0 && OffsetsAgree(e.headers)
    requires forall h :: h in e.headers && h.kind == Load ==> h.filesz <= h.memsz && 0 < h.memsz
    requires placed.vao == e.vao && !Unmarkable(e.headers, e.vao) && |s| == E.SLOTS
    requires if placed.base.Some? then InFreeSlots(e.headers, s, placed) else placed.vao == 0
    ensures AllRegular(e) <==> placed.base.None? || OrElse(MinAddr(e.headers), 0) % 4096 == 0
  {
    hide InFreeSlots, Kernel.Congruent, OffsetsAgree;
    forall h | h in e.headers && h.kind == Load
      ensures Regular(e, h) <==> placed.base.None? || OrElse(MinAddr(e.headers), 0) % 4096 == 0
    {
      assert E.MarkableRange(e.vao + h.vaddr, h.memsz);
      CongruentIff(e, h, s, placed);
    }
    LowestIsLoad(e.headers);
  }

  lemma ExecutableAddr(e: Kernel, h: Header)
    requires e.vao == 0 && Accepted(e.RawAddr(h))
    ensures OffsetOf(e.Addr(h)) == OffsetOf(h.vaddr)
  {
    var linear := if h.vaddr < SPACE then h.vaddr else h.vaddr - (UPPER_START - LOWER_END);
    Reduce(linear, h.vaddr >= SPACE);
    assert h.vaddr == linear + (if h.vaddr >= SPACE then 4096 * 0xf_fff0_0000_0000 else 0);
  }

  // ---- the failing case is real ----

  /** A segment of 16 bytes at offset and address 0x1234, in a file of three pages at 1 MiB. */
  function OddHeader(): Header { Header(Load, 0x1234, 0x1234, 0x10, 0x10, true, false, 0x1000, []) }

  /** The second page of the file counts 0, 1, 2, ..; the others are zero. */
  function OddPage(f: nat): (r: seq<byte>)
    ensures |r| == 4096
  {
    seq(4096, i requires 0 <= i => if f == 0x101 then i % 256 else 0)
  }

  function OddMemory(): Memory { map f | f in {0x100, 0x101, 0x102} :: OddPage(f) }

  function OddKernel(): Kernel { Kernel([OddHeader()], 0x10_0000, 0x3000, 0x80_0000_0000 - 0x1234, OddMemory()) }

  function OddPlaced(): Placed { Placed(0x80_0000_0000 - 0x1234, Some(0x80_0000_0000)) }

  lemma OddShape()
    ensures var e, h := OddKernel(), OddHeader();
            && e.Addr(h) == 0x80_0000_0000 && e.FirstPage(h) == e.FileLast(h) == e.LastPage(h) == 0x800_0000
            && e.StartFrame(h) == 0x101 && Placeable(e, h) && RangeOk(e, h) && !e.Congruent(h)
            && e.SegmentByte(h, e.Addr(h)) == 0 && e.FileByte(h.offset) == 0x34
  {
  }

  lemma OddPlacement(s: seq<bool>)
    requires |s| == E.SLOTS && forall i :: 0 <= i < E.SLOTS ==> s[i] == (i == 0)
    ensures MinAddr([OddHeader()]) == Some(0x1234) && MaxEnd([OddHeader()]) == Some(0x1244)
    ensures InFreeSlots([OddHeader()], s, OddPlaced())
  {
    var hs := [OddHeader()];
    assert hs[1..] == [] && MinAddr(hs[1..]) == None && MaxEnd(hs[1..]) == None;
    assert s[0] && !s[1];
    assert E.FreeRun(s, 1, 1) && !E.FreeRun(s, 0, 1);
  }

  /**
    It is placed at the first free slot and loads, but shows the file from 0x1000 on where the file
    from 0x1234 on belongs.
  */
  lemma MisalignedExample(s: seq<bool>)
    requires |s| == E.SLOTS && forall i :: 0 <= i < E.SLOTS ==> s[i] == (i == 0)
    ensures var e, h := OddKernel(), OddHeader();
            && e.WellFormed({}) && OffsetsAgree(e.headers) && InFreeSlots(e.headers, s, OddPlaced())
            && OddPlaced().vao == e.vao && !AllRegular(e)
            && LoadAll(e).Some? && e.Addr(h) in LoadAll(e).value.view
            && LoadAll(e).value.view[e.Addr(h)] != e.FileByte(h.offset)
  {
    var e, h := OddKernel(), OddHeader();
    OddPlacement(s);
    OddShape();
    OddLoads(e, h);
  }

  /** One Load segment without a BSS part, and nothing else. */
  lemma OddLoads(e: Kernel, h: Header)
    requires e.headers == [h] && h.kind == Load && !HasBss(h) && Placeable(e, h) && RangeOk(e, h)
    requires e.FirstPage(h) == e.FileLast(h) == e.LastPage(h) && PageOf(e.Addr(h)) == e.FirstPage(h)
    ensures LoadAll(e).Some? && e.Addr(h) in LoadAll(e).value.view
    ensures LoadAll(e).value.view[e.Addr(h)] == e.SegmentByte(h, e.Addr(h))
  {
    hide Placeable, RangeOk, Kernel.FirstPage, Kernel.FileLast, Kernel.LastPage, Kernel.Addr, PageOf,
      Kernel.SegmentByte;
    assert e.headers[0] == h;
    assert LoadFold(e, 0) == Some(Image(imap[], map[]));
    var one := Image(AddSegment(e, h, imap[]), AddPerms(e, h, map[]));
    assert LoadFold(e, 1) == Some(one);
    assert DynamicFold(e, 0, one.view) == Some([]) && DynamicFold(e, 1, one.view) == Some([]);
    assert RelroFold(e, 0, one.perms) == Some(one.perms) && RelroFold(e, 1, one.perms) == Some(one.perms);
    AddPermsPages(e, h, map[], e.FirstPage(h));
    AddSegmentAt(e, h, imap[], e.Addr(h));
    assert RangesOk(e, one.perms);
  }
}
