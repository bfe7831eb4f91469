/**
  The loaded kernel survives its own allocator: which frames behind the kernel's virtual pages can
  the kernel's frame allocator ever hand out?
*/
module ImageSafety {
  import opened Descriptors
  import opened FrameAllocator
  import opened Handoff
  import opened Paging
  import opened Elf
  import opened KernelLoader

  lemma ApartNotMeeting(d: Descriptor, kd: Descriptor, ks: nat, len: nat, f: nat)
    requires d.WellFormed() && kd.WellFormed() && ks % 4096 == 0
    requires d.Contains(f * 4096) && kd.Start() <= ks < ks + len <= kd.End()
    requires d.End() <= kd.Start() || kd.End() <= d.Start()
    ensures !MeetsSlice(f, ks, len)
  {
  }

  /** The bootloader's allocator never hands out a frame of the kernel file. */
  lemma SupplyAvoidsFile(descs: seq<Descriptor>, ks: nat, len: nat, f: nat)
    requires BootAssumptions(descs, ks, len) && f in FrameList(descs, 1)
    ensures !MeetsSlice(f, ks, len)
  {
    FrameListIncreasing(descs, 1);
    var d :| d in descs && d.Kind() == Usable && d.Contains(f * 4096);
    var kd :| kd in descs && kd.UsableAfterExit() && kd.Kind() != Usable && kd.Start() <= ks < ks + len <= kd.End();
    DisjointFrom(descs, kd);
    hide MeetsSlice;
    ApartNotMeeting(d, kd, ks, len, f);
  }

  /** A loader state reached while the bootloader's allocator had made k allocations. */
  ghost predicate LoadedDuring(s: Space, descs: seq<Descriptor>, k: nat, ks: nat, len: nat)
    requires AllWellFormed(descs) && k <= |FrameList(descs, 1)|
  {
    && Inv(s)
    && (forall f :: f in s.pool ==> f in FrameList(descs, 1))
    && s.supply == FrameList(descs, 1)[k..]
    && (forall f :: f in s.file ==> MeetsSlice(f, ks, len))
  }

  lemma PoolFrameGiven(s: Space, descs: seq<Descriptor>, k: nat, ks: nat, len: nat, page: int, later: nat)
    requires BootAssumptions(descs, ks, len) && k <= later <= |FrameList(descs, 1)|
    requires LoadedDuring(s, descs, k, ks, len) && page in s.table && s.table[page].frame in s.pool
    ensures s.table[page].frame in Given(descs, later)
  {
    var list, f := FrameList(descs, 1), s.table[page].frame;
    assert list == list[..k] + list[k..];
    assert list[..later] == list[..k] + list[k..later];
    assert f in list && f !in list[k..];
  }

  /**
    However many allocations follow the load, the kernel's allocator hands out the frame behind a
    kernel page exactly when that frame is the last, partly filled page of the kernel file. Private
    copies and BSS frames are always safe.
  */
  lemma ImageFrameReusedIff(s: Space, descs: seq<Descriptor>, k: nat, ks: nat, len: nat, page: int, later: nat)
    requires BootAssumptions(descs, ks, len) && k <= later <= |FrameList(descs, 1)|
    requires LoadedDuring(s, descs, k, ks, len) && page in s.table
    ensures s.table[page].frame in KernelGets(descs, later, ks, len) <==>
            len % 4096 != 0 && s.table[page].frame == (ks + len) / 4096
  {
    hide Inv, KernelGets, BootAssumptions, UsableByte;
    var f := s.table[page].frame;
    PoolOrFile(s, page);
    KernelSliceSafeIff(descs, later, ks, len);
    if f in s.pool {
      PoolFrameGiven(s, descs, k, ks, len, page, later);
      GivenNotKernels(descs, later, ks, len, f);
      SupplyAvoidsFile(descs, ks, len, f);
    } else if len % 4096 != 0 && f == (ks + len) / 4096 {
      LastFrameGiven(descs, later, ks, len);
    }
  }

  lemma PoolOrFile(s: Space, page: int)
    requires Inv(s) && page in s.table
    ensures s.table[page].frame in s.pool || s.table[page].frame in s.file
  {
  }

  lemma LastFrameGiven(descs: seq<Descriptor>, k: nat, ks: nat, len: nat)
    requires BootAssumptions(descs, ks, len) && k <= |FrameList(descs, 1)| && len % 4096 != 0
    ensures (ks + len) / 4096 in KernelGets(descs, k, ks, len)
  {
    KernelFrames(descs, k, ks, len);
    EndOfKernelUsable(descs, NextFree(descs, k), ks, len);
  }

  lemma FileFrameMeets(e: Kernel, f: nat)
    requires e.start % 4096 == 0 && f in e.FileFrames()
    ensures MeetsSlice(f, e.start, e.len)
  {
  }

  /** The loader's precondition that the file and the allocator's frames are apart. */
  lemma FileOutsidePool(e: Kernel, descs: seq<Descriptor>)
    requires BootAssumptions(descs, e.start, e.len)
    ensures forall f :: f in e.FileFrames() ==> f !in FrameList(descs, 1)
  {
    forall f | f in e.FileFrames()
      ensures f !in FrameList(descs, 1)
    {
      FileFrameMeets(e, f);
      if f in FrameList(descs, 1) {
        SupplyAvoidsFile(descs, e.start, e.len, f);
      }
    }
  }

  /** Every state of the loader is one of the states above. */
  lemma LoaderStates(loader: Loader)
    requires loader.Valid() && loader.allocator.first == 1
    requires BootAssumptions(loader.allocator.original, loader.e.start, loader.e.len)
    requires forall f :: f in loader.pool ==> f in FrameList(loader.allocator.original, 1)
    ensures |loader.allocator.given| <= |FrameList(loader.allocator.original, 1)|
    ensures LoadedDuring(loader.State(), loader.allocator.original, |loader.allocator.given|,
                         loader.e.start, loader.e.len)
  {
    var list := FrameList(loader.allocator.original, 1);
    assert list[|loader.allocator.given|..] == loader.allocator.Remaining();
    forall f | f in loader.e.FileFrames()
      ensures MeetsSlice(f, loader.e.start, loader.e.len)
    {
      FileFrameMeets(loader.e, f);
    }
  }
}
