/**
  What construct_memory_map writes, as a function of the descriptors, the allocator's cursor
  and the kernel slice, and what that function guarantees.
*/
module MemoryMap {
  import opened Common
  import opened Descriptors

  function NonEmpty(r: Region): seq<Region> {
    if r.start == r.end then [] else [r]
  }

  /** A usable region meeting the kernel slice is cut in three; None when the slice sticks out. */
  function CutKernel(r: Region, ks: nat, ke: nat): Option<seq<Region>> {
    if r.kind == Usable && ks < r.end && ke > r.start then
      if r.start <= ks && ke <= r.end then
        Some(NonEmpty(r.(end := ks)) + NonEmpty(Region(ks, ke, Bootloader)) + NonEmpty(r.(start := ke)))
      else None
    else Some(NonEmpty(r))
  }

  function DescriptorRegions(d: Descriptor, nextFree: nat, ks: nat, ke: nat): Option<seq<Region>> {
    if d.Kind() == Usable then
      if d.End() <= nextFree then CutKernel(Region(d.Start(), d.End(), Bootloader), ks, ke)
      else if nextFree <= d.Start() then CutKernel(Region(d.Start(), d.End(), Usable), ks, ke)
      else
        var rest := CutKernel(Region(nextFree, d.End(), Usable), ks, ke);
        if rest.None? then None
        else Some(NonEmpty(Region(d.Start(), nextFree, Bootloader)) + rest.value)
    else if d.UsableAfterExit() then CutKernel(Region(d.Start(), d.End(), Usable), ks, ke)
    else CutKernel(Region(d.Start(), d.End(), d.Kind()), ks, ke)
  }

  function MapOf(descs: seq<Descriptor>, nextFree: nat, ks: nat, ke: nat): Option<seq<Region>> {
    if descs == [] then Some([])
    else
      var init := MapOf(descs[..|descs| - 1], nextFree, ks, ke);
      var last := DescriptorRegions(descs[|descs| - 1], nextFree, ks, ke);
      if init.None? || last.None? then None else Some(init.value + last.value)
  }

  lemma {:induction false} MapOfPrefix(descs: seq<Descriptor>, i: nat, nextFree: nat, ks: nat, ke: nat)
    requires i <= |descs|
    requires MapOf(descs, nextFree, ks, ke).Some?
    ensures MapOf(descs[..i], nextFree, ks, ke).Some?
    ensures |MapOf(descs[..i], nextFree, ks, ke).value| <= |MapOf(descs, nextFree, ks, ke).value|
    decreases |descs|
  {
    if i == |descs| {
      assert descs[..i] == descs;
    } else {
      MapOfPrefix(descs[..|descs| - 1], i, nextFree, ks, ke);
      assert descs[..|descs| - 1][..i] == descs[..i];
    }
  }

  // ---- the pointwise specification ----

  /** The kind the kernel must see for a byte of descriptor `d`. */
  function KindIn(d: Descriptor, nextFree: nat, ks: nat, ke: nat, addr: int): RegionKind {
    if d.Kind() == Usable && addr < nextFree then Bootloader
    else if !d.UsableAfterExit() then d.Kind()
    else if ks <= addr < ke then Bootloader
    else Usable
  }

  predicate Within(r: Region, addr: int) { r.start <= addr < r.end }

  ghost predicate Ordered(rs: seq<Region>) {
    && (forall r :: r in rs ==> r.start < r.end)
    && (forall i, j :: 0 <= i < j < |rs| ==> rs[i].end <= rs[j].start)
  }

  ghost predicate Covers(rs: seq<Region>, addr: int) { exists r :: r in rs && Within(r, addr) }

  /** `rs` cuts [lo, hi) into consecutive nonempty pieces. */
  ghost predicate Tiles(rs: seq<Region>, lo: nat, hi: nat) {
    && Ordered(rs)
    && (forall r :: r in rs ==> lo <= r.start && r.end <= hi)
    && (forall addr :: lo <= addr < hi ==> Covers(rs, addr))
  }

  ghost predicate KindsRight(rs: seq<Region>, d: Descriptor, nextFree: nat, ks: nat, ke: nat) {
    forall r, addr {:trigger r in rs, KindIn(d, nextFree, ks, ke, addr)} {:trigger r in rs, Within(r, addr)} ::
      r in rs && Within(r, addr) ==> r.kind == KindIn(d, nextFree, ks, ke, addr)
  }

  lemma TilesOne(r: Region)
    requires r.start <= r.end
    ensures Tiles(NonEmpty(r), r.start, r.end)
  {
    forall addr | r.start <= addr < r.end
      ensures Covers(NonEmpty(r), addr)
    {
      assert r in NonEmpty(r) && Within(r, addr);
    }
  }

  lemma TilesConcat(a: seq<Region>, b: seq<Region>, lo: nat, mid: nat, hi: nat)
    requires Tiles(a, lo, mid) && Tiles(b, mid, hi) && lo <= mid <= hi
    ensures Tiles(a + b, lo, hi)
  {
    forall i, j | 0 <= i < j < |a + b|
      ensures (a + b)[i].end <= (a + b)[j].start
    {
      if i < |a| <= j {
        assert a[i] in a && b[j - |a|] in b;
      }
    }
    forall addr | lo <= addr < hi
      ensures Covers(a + b, addr)
    {
      var part := if addr < mid then a else b;
      assert Covers(part, addr);
      var r :| r in part && Within(r, addr);
      assert r in a + b;
    }
  }

  lemma CutTiles(r: Region, ks: nat, ke: nat)
    requires r.start <= r.end && ks <= ke && CutKernel(r, ks, ke).Some?
    ensures Tiles(CutKernel(r, ks, ke).value, r.start, r.end)
  {
    if r.kind == Usable && ks < r.end && ke > r.start {
      var a, b, c := r.(end := ks), Region(ks, ke, Bootloader), r.(start := ke);
      TilesOne(a);
      TilesOne(b);
      TilesOne(c);
      TilesConcat(NonEmpty(a), NonEmpty(b), r.start, ks, ke);
      TilesConcat(NonEmpty(a) + NonEmpty(b), NonEmpty(c), r.start, ke, r.end);
    } else {
      TilesOne(r);
    }
  }

  /** One descriptor: its regions tile it, each byte with the specified kind. */
  lemma DescriptorTiled(d: Descriptor, nextFree: nat, ks: nat, ke: nat)
    requires ks <= ke && DescriptorRegions(d, nextFree, ks, ke).Some?
    ensures Tiles(DescriptorRegions(d, nextFree, ks, ke).value, d.Start(), d.End())
  {
    if d.Kind() == Usable && d.Start() < nextFree < d.End() {
      var used := Region(d.Start(), nextFree, Bootloader);
      var rest := Region(nextFree, d.End(), Usable);
      TilesOne(used);
      CutTiles(rest, ks, ke);
      TilesConcat(NonEmpty(used), CutKernel(rest, ks, ke).value, d.Start(), nextFree, d.End());
    } else {
      var kind := if d.Kind() == Usable && d.End() <= nextFree then Bootloader
                  else if d.UsableAfterExit() then Usable else d.Kind();
      CutTiles(Region(d.Start(), d.End(), kind), ks, ke);
    }
  }

  lemma DescriptorKinds(d: Descriptor, nextFree: nat, ks: nat, ke: nat)
    requires ks <= ke && DescriptorRegions(d, nextFree, ks, ke).Some?
    ensures KindsRight(DescriptorRegions(d, nextFree, ks, ke).value, d, nextFree, ks, ke)
  {
  }

  // ---- the whole map ----

  ghost predicate Covered(descs: seq<Descriptor>, addr: int) { exists d :: d in descs && d.Contains(addr) }

  /** Conservation: the output is ordered and disjoint and covers exactly the bytes of the input. */
  lemma {:induction false} MapConserves(descs: seq<Descriptor>, nextFree: nat, ks: nat, ke: nat)
    requires AllWellFormed(descs) && Sorted(descs) && ks <= ke
    requires MapOf(descs, nextFree, ks, ke).Some?
    ensures Ordered(MapOf(descs, nextFree, ks, ke).value)
    ensures forall addr :: Covered(descs, addr) <==> Covers(MapOf(descs, nextFree, ks, ke).value, addr)
    decreases |descs|
  {
    if descs != [] {
      var init, d := descs[..|descs| - 1], descs[|descs| - 1];
      MapConserves(init, nextFree, ks, ke);
      DescriptorTiled(d, nextFree, ks, ke);
      var a, b := MapOf(init, nextFree, ks, ke).value, DescriptorRegions(d, nextFree, ks, ke).value;
      EndsBefore(init, d, a);
      forall i, j | 0 <= i < j < |a + b|
        ensures (a + b)[i].end <= (a + b)[j].start
      {
        if i < |a| <= j {
          assert a[i] in a && b[j - |a|] in b;
        }
      }
      forall addr
        ensures Covered(descs, addr) <==> Covers(a + b, addr)
      {
        assert descs == init + [d];
        assert Covered(descs, addr) <==> Covered(init, addr) || d.Contains(addr);
        assert Covers(a + b, addr) <==> Covers(a, addr) || Covers(b, addr);
      }
    }
  }

  /** Regions covering only descriptors that end before `d` end before `d`. */
  lemma EndsBefore(init: seq<Descriptor>, d: Descriptor, rs: seq<Region>)
    requires Sorted(init + [d]) && Ordered(rs)
    requires forall addr :: Covers(rs, addr) ==> Covered(init, addr)
    ensures forall r :: r in rs ==> r.end <= d.Start()
  {
    forall r | r in rs
      ensures r.end <= d.Start()
    {
      assert Within(r, r.end - 1);
      assert Covers(rs, r.end - 1);
      var i :| 0 <= i < |init| && init[i].Contains(r.end - 1);
      assert (init + [d])[i] == init[i] && (init + [d])[|init|] == d;
    }
  }

  lemma {:induction false} MapKindsFrom(descs: seq<Descriptor>, nextFree: nat, ks: nat, ke: nat, r: Region, addr: int)
    requires ks <= ke && MapOf(descs, nextFree, ks, ke).Some?
    requires r in MapOf(descs, nextFree, ks, ke).value && Within(r, addr)
    ensures exists d :: d in descs && d.Contains(addr) && r.kind == KindIn(d, nextFree, ks, ke, addr)
    decreases |descs|
  {
    var init, last := descs[..|descs| - 1], descs[|descs| - 1];
    if r in DescriptorRegions(last, nextFree, ks, ke).value {
      DescriptorTiled(last, nextFree, ks, ke);
      DescriptorKinds(last, nextFree, ks, ke);
      assert last in descs && last.Contains(addr);
    } else {
      MapKindsFrom(init, nextFree, ks, ke, r, addr);
      var d :| d in init && d.Contains(addr) && r.kind == KindIn(d, nextFree, ks, ke, addr);
      assert d in descs;
    }
  }

  /** Every byte of every output region has the kind specified for the descriptor it lies in. */
  lemma MapKinds(descs: seq<Descriptor>, nextFree: nat, ks: nat, ke: nat, r: Region, d: Descriptor, addr: int)
    requires Sorted(descs) && ks <= ke && MapOf(descs, nextFree, ks, ke).Some?
    requires r in MapOf(descs, nextFree, ks, ke).value && Within(r, addr)
    requires d in descs && d.Contains(addr)
    ensures r.kind == KindIn(d, nextFree, ks, ke, addr)
  {
    MapKindsFrom(descs, nextFree, ks, ke, r, addr);
    var e :| e in descs && e.Contains(addr) && r.kind == KindIn(e, nextFree, ks, ke, addr);
    SameDescriptor(descs, d, e, addr);
  }

  lemma SameDescriptor(descs: seq<Descriptor>, d: Descriptor, e: Descriptor, addr: int)
    requires Sorted(descs) && d in descs && e in descs && d.Contains(addr) && e.Contains(addr)
    ensures d == e
  {
    var i :| 0 <= i < |descs| && descs[i] == d;
    var j :| 0 <= j < |descs| && descs[j] == e;
    assert i == j;
  }

  // ---- size of the output ----

  predicate CutByCursor(d: Descriptor, nextFree: nat) {
    d.Kind() == Usable && d.Start() < nextFree < d.End()
  }

  predicate HoldsKernel(d: Descriptor, ks: nat, ke: nat) {
    d.Start() <= ks < d.End() && d.Start() < ke <= d.End()
  }

  ghost predicate AnyCut(descs: seq<Descriptor>, nextFree: nat) {
    exists d :: d in descs && CutByCursor(d, nextFree)
  }

  ghost predicate AnyHolds(descs: seq<Descriptor>, ks: nat, ke: nat) {
    exists d :: d in descs && HoldsKernel(d, ks, ke)
  }

  function Extra(cut: bool, holds: bool): nat { (if cut then 1 else 0) + (if holds then 2 else 0) }

  lemma DescriptorSize(d: Descriptor, nextFree: nat, ks: nat, ke: nat)
    requires ks <= ke && DescriptorRegions(d, nextFree, ks, ke).Some?
    ensures |DescriptorRegions(d, nextFree, ks, ke).value|
              <= 1 + Extra(CutByCursor(d, nextFree), HoldsKernel(d, ks, ke))
  {
  }

  lemma LastAlone(init: seq<Descriptor>, last: Descriptor, nextFree: nat, ks: nat, ke: nat)
    requires Sorted(init + [last])
    ensures AnyCut(init + [last], nextFree) <==> AnyCut(init, nextFree) || CutByCursor(last, nextFree)
    ensures AnyHolds(init + [last], ks, ke) <==> AnyHolds(init, ks, ke) || HoldsKernel(last, ks, ke)
    ensures !(AnyCut(init, nextFree) && CutByCursor(last, nextFree))
    ensures !(AnyHolds(init, ks, ke) && HoldsKernel(last, ks, ke))
  {
    var all := init + [last];
    assert forall d :: d in all <==> d in init || d == last;
    forall d | d in init
      ensures d.End() <= last.Start()
    {
      var i :| 0 <= i < |init| && init[i] == d;
      assert all[i] == d && all[|init|] == last;
    }
  }

  /** At most one descriptor is cut by the cursor and one by the kernel: n descriptors give at most n + 3 regions. */
  lemma {:induction false} MapSize(descs: seq<Descriptor>, nextFree: nat, ks: nat, ke: nat)
    requires Sorted(descs) && ks <= ke
    requires MapOf(descs, nextFree, ks, ke).Some?
    ensures |MapOf(descs, nextFree, ks, ke).value|
              <= |descs| + Extra(AnyCut(descs, nextFree), AnyHolds(descs, ks, ke))
              <= |descs| + 3
    decreases |descs|
  {
    if descs != [] {
      var init, last := descs[..|descs| - 1], descs[|descs| - 1];
      MapSize(init, nextFree, ks, ke);
      DescriptorSize(last, nextFree, ks, ke);
      assert descs == init + [last];
      LastAlone(init, last, nextFree, ks, ke);
    }
  }

  // ---- when the assertions hold ----

  /** The kernel file lies inside one descriptor that is kept for the kernel but is not conventional memory. */
  ghost predicate KernelInLoaderData(descs: seq<Descriptor>, ks: nat, ke: nat) {
    exists d :: d in descs && d.UsableAfterExit() && d.Kind() != Usable && d.Start() <= ks < ke <= d.End()
  }

  /** Then no assertion of construct_memory_map fails. */
  lemma {:induction false} MapSucceeds(descs: seq<Descriptor>, k: Descriptor, nextFree: nat, ks: nat, ke: nat)
    requires k.UsableAfterExit() && k.Kind() != Usable && k.Start() <= ks < ke <= k.End()
    requires forall d :: d in descs ==> d == k || d.End() <= k.Start() || k.End() <= d.Start()
    ensures MapOf(descs, nextFree, ks, ke).Some?
    decreases |descs|
  {
    if descs != [] {
      MapSucceeds(descs[..|descs| - 1], k, nextFree, ks, ke);
    }
  }

  /** A byte of the descriptor that the kernel may use once the bootloader is gone, its file apart. */
  predicate Free(d: Descriptor, nextFree: nat, addr: int) {
    d.Contains(addr) && (if d.Kind() == Usable then nextFree <= addr else d.UsableAfterExit())
  }

  /** The assertions fail for a descriptor exactly if the kernel slice lies partly in its free bytes and partly out. */
  lemma FailsIff(d: Descriptor, nextFree: nat, ks: nat, ke: nat)
    requires ks < ke && 0 < d.pageCount
    ensures DescriptorRegions(d, nextFree, ks, ke).None? <==>
              && (exists a :: ks <= a < ke && Free(d, nextFree, a))
              && (exists b :: ks <= b < ke && !Free(d, nextFree, b))
  {
    var lo := if d.Kind() == Usable && d.Start() < nextFree then nextFree else d.Start();
    if DescriptorRegions(d, nextFree, ks, ke).None? {
      var a := if ks < lo then lo else ks;
      var b := if ks < lo then ks else ke - 1;
      assert ks <= a < ke && Free(d, nextFree, a);
      assert ks <= b < ke && !Free(d, nextFree, b);
    }
  }

  /**
    The kind of a byte by the firmware's type number: conventional memory (7) is usable from the cursor on,
    loader and boot services memory (1 to 4) throughout, both but for the kernel slice; any other type keeps
    its number.
  */
  lemma KindsByType(descs: seq<Descriptor>, nextFree: nat, ks: nat, ke: nat, r: Region, d: Descriptor, addr: int)
    requires Sorted(descs) && ks <= ke && MapOf(descs, nextFree, ks, ke).Some?
    requires r in MapOf(descs, nextFree, ks, ke).value && Within(r, addr)
    requires d in descs && d.physStart <= addr < d.physStart + d.pageCount * 4096
    ensures d.ty == 7 ==>
              r.kind == if addr < nextFree || ks <= addr < ke then Bootloader else Usable
    ensures d.ty in {1, 2, 3, 4} ==> r.kind == if ks <= addr < ke then Bootloader else Usable
    ensures d.ty !in {1, 2, 3, 4, 7} ==> r.kind == UnknownUefi(d.ty)
  {
    MapKinds(descs, nextFree, ks, ke, r, d, addr);
  }
}
