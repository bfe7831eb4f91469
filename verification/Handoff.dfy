/**
  The whole life of a physical frame: the bootloader's allocator runs for any number of steps,
  its cursor rewrites the firmware map, and the kernel's allocator enumerates what is left.
*/
module Handoff {
  import opened Common
  import opened Descriptors
  import opened MemoryMap
  import opened FrameAllocator
  import opened Nukleus

  /** What the firmware, the ELF alignment check and allocate_pages(LOADER_DATA) establish. */
  ghost predicate BootAssumptions(descs: seq<Descriptor>, ks: nat, len: nat) {
    && AllWellFormed(descs) && Sorted(descs)
    && ks % 4096 == 0
    && KernelInLoaderData(descs, ks, ks + len)
  }

  /** The frames the bootloader handed out in its first k successful allocations. */
  ghost function Given(descs: seq<Descriptor>, k: nat): seq<nat>
    requires AllWellFormed(descs) && k <= |FrameList(descs, 1)|
  {
    FrameList(descs, 1)[..k]
  }

  /** The allocator's cursor, as an address, after those allocations. */
  ghost function NextFree(descs: seq<Descriptor>, k: nat): nat
    requires AllWellFormed(descs) && k <= |FrameList(descs, 1)|
  {
    Cursor(1, Given(descs, k)) * 4096
  }

  /** The map the kernel receives after k bootloader allocations. */
  ghost function MapAfter(descs: seq<Descriptor>, k: nat, ks: nat, len: nat): Option<seq<Region>>
    requires AllWellFormed(descs) && k <= |FrameList(descs, 1)|
  {
    MapOf(descs, NextFree(descs, k), ks, ks + len)
  }

  predicate MeetsSlice(f: nat, ks: nat, len: nat) {
    f * 4096 < ks + len && ks < (f + 1) * 4096
  }

  lemma DisjointFrom(descs: seq<Descriptor>, d: Descriptor)
    requires Sorted(descs) && d in descs
    ensures forall e :: e in descs ==> e == d || e.End() <= d.Start() || d.End() <= e.Start()
  {
    var i :| 0 <= i < |descs| && descs[i] == d;
    forall e | e in descs
      ensures e == d || e.End() <= d.Start() || d.End() <= e.Start()
    {
      var j :| 0 <= j < |descs| && descs[j] == e;
    }
  }

  /** No panic: the assertions hold and the buffer of n + 4 regions is large enough, wherever the cursor is. */
  lemma MapFits(descs: seq<Descriptor>, nextFree: nat, ks: nat, len: nat)
    requires BootAssumptions(descs, ks, len)
    ensures MapOf(descs, nextFree, ks, ks + len).Some?
    ensures |MapOf(descs, nextFree, ks, ks + len).value| < |descs| + 4
    ensures Ordered(MapOf(descs, nextFree, ks, ks + len).value)
  {
    var d :| d in descs && d.UsableAfterExit() && d.Kind() != Usable && d.Start() <= ks < ks + len <= d.End();
    DisjointFrom(descs, d);
    MapSucceeds(descs, d, nextFree, ks, ks + len);
    MapSize(descs, nextFree, ks, ks + len);
    MapConserves(descs, nextFree, ks, ks + len);
  }

  /** All frames the kernel's allocator can ever hand out, in order. */
  ghost function KernelGets(descs: seq<Descriptor>, k: nat, ks: nat, len: nat): seq<nat>
    requires BootAssumptions(descs, ks, len) && k <= |FrameList(descs, 1)|
  {
    MapFits(descs, NextFree(descs, k), ks, len);
    UsableFrames(MapAfter(descs, k, ks, len).value)
  }

  lemma DescriptorUsableEnds(d: Descriptor, nextFree: nat, ks: nat, ke: nat)
    requires d.WellFormed() && ks % 4096 == 0
    requires DescriptorRegions(d, nextFree, ks, ke).Some?
    ensures UsableEndsAligned(DescriptorRegions(d, nextFree, ks, ke).value)
  {
  }

  lemma {:induction false} UsableEnds(descs: seq<Descriptor>, nextFree: nat, ks: nat, ke: nat)
    requires AllWellFormed(descs) && ks % 4096 == 0
    requires MapOf(descs, nextFree, ks, ke).Some?
    ensures UsableEndsAligned(MapOf(descs, nextFree, ks, ke).value)
    decreases |descs|
  {
    if descs != [] {
      UsableEnds(descs[..|descs| - 1], nextFree, ks, ke);
      DescriptorUsableEnds(descs[|descs| - 1], nextFree, ks, ke);
    }
  }

  ghost predicate UsableByte(descs: seq<Descriptor>, nextFree: nat, ks: nat, ke: nat, addr: int) {
    exists d :: d in descs && d.Contains(addr) && KindIn(d, nextFree, ks, ke, addr) == Usable
  }

  lemma UsableByteIff(descs: seq<Descriptor>, nextFree: nat, ks: nat, ke: nat, addr: int)
    requires AllWellFormed(descs) && Sorted(descs) && ks <= ke && MapOf(descs, nextFree, ks, ke).Some?
    ensures UsableByte(descs, nextFree, ks, ke, addr) <==> InUsable(MapOf(descs, nextFree, ks, ke).value, addr)
  {
    var rs := MapOf(descs, nextFree, ks, ke).value;
    if r :| r in rs && r.kind == Usable && Within(r, addr) {
      MapKindsFrom(descs, nextFree, ks, ke, r, addr);
    }
    if d :| d in descs && d.Contains(addr) && KindIn(d, nextFree, ks, ke, addr) == Usable {
      MapConserves(descs, nextFree, ks, ke);
      assert Covered(descs, addr) && Covers(rs, addr);
      var r :| r in rs && Within(r, addr);
      MapKinds(descs, nextFree, ks, ke, r, d, addr);
    }
  }

  /** The kernel gets frame f, and gets it once, iff the last byte of f is specified as usable. */
  lemma KernelFrames(descs: seq<Descriptor>, k: nat, ks: nat, len: nat)
    requires BootAssumptions(descs, ks, len) && k <= |FrameList(descs, 1)|
    ensures Increasing(KernelGets(descs, k, ks, len))
    ensures forall f: nat :: f in KernelGets(descs, k, ks, len) <==>
              UsableByte(descs, NextFree(descs, k), ks, ks + len, LastByte(f))
  {
    var nextFree, ke := NextFree(descs, k), ks + len;
    MapFits(descs, nextFree, ks, len);
    UsableEnds(descs, nextFree, ks, ke);
    UsableFramesAre(MapAfter(descs, k, ks, len).value);
    forall f: nat
      ensures f in KernelGets(descs, k, ks, len) <==> UsableByte(descs, nextFree, ks, ke, LastByte(f))
    {
      UsableByteIff(descs, nextFree, ks, ke, LastByte(f));
    }
  }

  lemma GivenBelowCursor(descs: seq<Descriptor>, k: nat, f: nat)
    requires AllWellFormed(descs) && k <= |FrameList(descs, 1)| && f in Given(descs, k)
    ensures 1 <= f && (f + 1) * 4096 <= NextFree(descs, k) && UsableFrame(descs, f)
  {
    FrameListIncreasing(descs, 1);
    var i :| 0 <= i < k && FrameList(descs, 1)[i] == f;
    assert f in FrameList(descs, 1);
  }

  /** A byte of conventional memory below the cursor is not usable. */
  lemma BelowCursorNotUsable(descs: seq<Descriptor>, nextFree: nat, ks: nat, ke: nat, f: nat)
    requires AllWellFormed(descs) && Sorted(descs)
    requires UsableFrame(descs, f) && (f + 1) * 4096 <= nextFree
    ensures !UsableByte(descs, nextFree, ks, ke, LastByte(f))
  {
    var e :| e in descs && e.Kind() == Usable && e.Contains(f * 4096);
    assert e.WellFormed() && e.Contains(LastByte(f));
    if d :| d in descs && d.Contains(LastByte(f)) && KindIn(d, nextFree, ks, ke, LastByte(f)) == Usable {
      SameDescriptor(descs, d, e, LastByte(f));
    }
  }

  lemma GivenNotKernels(descs: seq<Descriptor>, k: nat, ks: nat, len: nat, f: nat)
    requires BootAssumptions(descs, ks, len) && k <= |FrameList(descs, 1)| && f in Given(descs, k)
    ensures f !in KernelGets(descs, k, ks, len)
  {
    KernelFrames(descs, k, ks, len);
    GivenBelowCursor(descs, k, f);
    BelowCursorNotUsable(descs, NextFree(descs, k), ks, ks + len, f);
  }

  /** No frame the kernel can ever get was handed out before, whatever the number of allocations on either side. */
  lemma GivenDistinct(descs: seq<Descriptor>, k: nat, ks: nat, len: nat)
    requires BootAssumptions(descs, ks, len) && k <= |FrameList(descs, 1)|
    ensures Distinct(Given(descs, k) + KernelGets(descs, k, ks, len))
  {
    KernelFrames(descs, k, ks, len);
    FrameListIncreasing(descs, 1);
    var given, kernel := Given(descs, k), KernelGets(descs, k, ks, len);
    forall f | f in given
      ensures f !in kernel
    {
      GivenNotKernels(descs, k, ks, len, f);
    }
    DistinctConcat(given, kernel);
  }

  /** `regions` is the memory map for the allocations made so far. */
  ghost predicate MapsMemory(allocator: LegacyFrameAllocator, ks: nat, len: nat, regions: seq<Region>)
    reads allocator
  {
    && AllWellFormed(allocator.original) && |allocator.given| <= |FrameList(allocator.original, 1)|
    && allocator.given == Given(allocator.original, |allocator.given|)
    && MapAfter(allocator.original, |allocator.given|, ks, len) == Some(regions)
  }

  /**
    Safety of the handoff: at any point of any run of the two allocators, the second over the map made
    from the first, no frame has been handed out twice.
  */
  lemma NoFrameTwice(boot: LegacyFrameAllocator, kernel: NukleusFrameAllocator, ks: nat, len: nat)
    requires boot.Valid() && BootAssumptions(boot.original, ks, len)
    requires MapsMemory(boot, ks, len, kernel.memoryMap) && kernel.Valid()
    ensures Distinct(boot.given + kernel.given)
  {
    hide BootAssumptions, FrameList, MapOf, UsableFrames;
    var n := |boot.given|;
    MapFits(boot.original, NextFree(boot.original, n), ks, len);
    GivenDistinct(boot.original, n, ks, len);
    var frames := UsableFrames(kernel.memoryMap);
    assert KernelGets(boot.original, n, ks, len) == frames;
    PrefixDistinct(boot.given, frames, |kernel.given|);
  }

  lemma PrefixDistinct(a: seq<nat>, b: seq<nat>, n: nat)
    requires n <= |b| && Distinct(a + b)
    ensures Distinct(a + b[..n])
  {
    forall i, j | 0 <= i < j < |a + b[..n]|
      ensures (a + b[..n])[i] != (a + b[..n])[j]
    {
      assert (a + b[..n])[i] == (a + b)[i] && (a + b[..n])[j] == (a + b)[j];
    }
  }

  lemma DistinctConcat(a: seq<nat>, b: seq<nat>)
    requires Increasing(a) && Increasing(b) && forall f :: f in a ==> f !in b
    ensures Distinct(a + b)
  {
    forall i, j | 0 <= i < j < |a + b|
      ensures (a + b)[i] != (a + b)[j]
    {
      if i < |a| <= j {
        assert a[i] in a && b[j - |a|] in b;
      }
    }
  }

  lemma EndOfKernelUsable(descs: seq<Descriptor>, nextFree: nat, ks: nat, len: nat)
    requires BootAssumptions(descs, ks, len) && len % 4096 != 0
    ensures UsableByte(descs, nextFree, ks, ks + len, LastByte((ks + len) / 4096))
  {
    var d :| d in descs && d.UsableAfterExit() && d.Kind() != Usable && d.Start() <= ks < ks + len <= d.End();
    assert d.WellFormed();
    assert d.Contains(LastByte((ks + len) / 4096));
  }

  lemma AlignedStart(descs: seq<Descriptor>, ks: nat, len: nat)
    requires BootAssumptions(descs, ks, len)
    ensures ks % 4096 == 0 && 0 < len && AllWellFormed(descs)
  {
  }

  lemma MeetingFrame(descs: seq<Descriptor>, nextFree: nat, ks: nat, len: nat, f: nat)
    requires ks % 4096 == 0 && MeetsSlice(f, ks, len)
    requires UsableByte(descs, nextFree, ks, ks + len, LastByte(f))
    ensures f == (ks + len) / 4096 && len % 4096 != 0
  {
    var d :| d in descs && d.Contains(LastByte(f)) && KindIn(d, nextFree, ks, ks + len, LastByte(f)) == Usable;
    assert LastByte(f) >= ks + len;
  }

  /**
    The kernel's allocator can hand out a frame holding kernel-file bytes exactly when the file
    does not fill its last page: the region after the slice then starts mid-page and is rounded down.
  */
  lemma KernelSliceSafeIff(descs: seq<Descriptor>, k: nat, ks: nat, len: nat)
    requires BootAssumptions(descs, ks, len) && k <= |FrameList(descs, 1)|
    ensures len % 4096 == 0 <==>
            forall f: nat :: f in KernelGets(descs, k, ks, len) ==> !MeetsSlice(f, ks, len)
    ensures forall f: nat :: f in KernelGets(descs, k, ks, len) && MeetsSlice(f, ks, len) ==>
              f == (ks + len) / 4096
  {
    hide BootAssumptions, KernelGets, UsableByte;
    KernelFrames(descs, k, ks, len);
    var kernel := KernelGets(descs, k, ks, len);
    AlignedStart(descs, ks, len);
    forall f: nat | f in kernel && MeetsSlice(f, ks, len)
      ensures f == (ks + len) / 4096 && len % 4096 != 0
    {
      MeetingFrame(descs, NextFree(descs, k), ks, len, f);
    }
    if len % 4096 != 0 {
      EndOfKernelUsable(descs, NextFree(descs, k), ks, len);
      assert MeetsSlice((ks + len) / 4096, ks, len);
    }
  }

  /** A machine with 16 MiB of conventional memory, and four pages of loader data for a file of 5000 bytes. */
  function SmallMachine(): seq<Descriptor> {
    [Descriptor(LOADER_DATA, 0x2000, 4), Descriptor(CONVENTIONAL, 0x10_0000, 4096)]
  }

  /** The failing case is real there, however much the bootloader allocates. */
  lemma KernelSliceUnsafeExample(k: nat)
    requires AllWellFormed(SmallMachine()) && k <= |FrameList(SmallMachine(), 1)|
    ensures BootAssumptions(SmallMachine(), 0x2000, 5000)
    ensures 3 in KernelGets(SmallMachine(), k, 0x2000, 5000) && MeetsSlice(3, 0x2000, 5000)
  {
    var descs := SmallMachine();
    var d := descs[0];
    assert d in descs && d.UsableAfterExit() && d.Start() <= 0x2000 < 0x2000 + 5000 <= d.End();
    assert BootAssumptions(descs, 0x2000, 5000);
    KernelFrames(descs, k, 0x2000, 5000);
    EndOfKernelUsable(descs, NextFree(descs, k), 0x2000, 5000);
  }

  /** A byte of conventional memory at or above the cursor is usable. */
  lemma AboveCursorUsable(descs: seq<Descriptor>, nextFree: nat, ks: nat, len: nat, f: nat)
    requires BootAssumptions(descs, ks, len)
    requires UsableFrame(descs, f) && nextFree <= f * 4096
    ensures UsableByte(descs, nextFree, ks, ks + len, LastByte(f))
  {
    var d :| d in descs && d.Kind() == Usable && d.Contains(f * 4096);
    var kd :| kd in descs && kd.UsableAfterExit() && kd.Kind() != Usable && kd.Start() <= ks < ks + len <= kd.End();
    assert d.WellFormed();
    LastByteIn(d, f);
    hide Descriptor.Contains, LastByte;
    if ks <= LastByte(f) < ks + len {
      ContainsByte(kd, LastByte(f));
      SameDescriptor(descs, d, kd, LastByte(f));
    }
    assert KindIn(d, nextFree, ks, ks + len, LastByte(f)) == Usable;
  }

  lemma ContainsByte(d: Descriptor, addr: int)
    requires d.Start() <= addr < d.End()
    ensures d.Contains(addr)
  {
  }

  lemma LastByteIn(d: Descriptor, f: nat)
    requires d.WellFormed() && d.Contains(f * 4096)
    ensures d.Contains(LastByte(f)) && f * 4096 <= LastByte(f)
  {
  }

  /** Nothing is lost: a conventional frame other than frame 0 is the bootloader's or the kernel's, never both. */
  lemma NoFrameLost(descs: seq<Descriptor>, k: nat, ks: nat, len: nat, f: nat)
    requires BootAssumptions(descs, ks, len) && k <= |FrameList(descs, 1)|
    requires 1 <= f && UsableFrame(descs, f)
    ensures f in Given(descs, k) <==> f !in KernelGets(descs, k, ks, len)
  {
    KernelFrames(descs, k, ks, len);
    FrameListIncreasing(descs, 1);
    FrameListComplete(descs, 1, f);
    var all := FrameList(descs, 1);
    var i :| 0 <= i < |all| && all[i] == f;
    if i < k {
      assert Given(descs, k)[i] == f;
      GivenBelowCursor(descs, k, f);
      BelowCursorNotUsable(descs, NextFree(descs, k), ks, ks + len, f);
    } else {
      AboveCursorUsable(descs, NextFree(descs, k), ks, len, f);
      if f in Given(descs, k) {
        GivenBelowCursor(descs, k, f);
      }
    }
  }
}
