/** The bootloader's bump allocator over the firmware memory map. */
module FrameAllocator {
  import opened Common
  import opened Descriptors
  import opened MemoryMap

  /** First and last page frame of a descriptor. */
  function FirstFrame(d: Descriptor): nat { d.Start() / 4096 }

  function LastFrame(d: Descriptor): (r: int)
    ensures -1 <= r
  {
    (d.End() - 1) / 4096
  }

  /** The frames of usable descriptors in map order, never going below the cursor. */
  function FrameList(descs: seq<Descriptor>, cursor: nat): seq<nat>
    requires AllWellFormed(descs)
  {
    if descs == [] then []
    else if descs[0].Kind() != Usable then FrameList(descs[1..], cursor)
    else
      var lo := Max(cursor, FirstFrame(descs[0]));
      var hi := LastFrame(descs[0]) + 1;
      Range(lo, hi) + FrameList(descs[1..], Max(lo, hi))
  }

  /** The cursor after the frames `given` have been handed out. */
  function Cursor(first: nat, given: seq<nat>): nat {
    if given == [] then first else given[|given| - 1] + 1
  }

  ghost predicate UsableFrame(descs: seq<Descriptor>, f: nat) {
    exists d :: d in descs && d.Kind() == Usable && d.Contains(f * 4096)
  }

  /** The frames of a well-formed descriptor are those that start inside it. */
  lemma FramesOf(d: Descriptor, f: nat)
    requires d.WellFormed()
    ensures FirstFrame(d) <= f <= LastFrame(d) <==> d.Contains(f * 4096)
  {
  }

  /** Sorted or not, the list strictly increases, stays above the cursor and holds only usable frames. */
  lemma {:induction false} FrameListIncreasing(descs: seq<Descriptor>, cursor: nat)
    requires AllWellFormed(descs)
    ensures Increasing(FrameList(descs, cursor))
    ensures forall f :: f in FrameList(descs, cursor) ==> cursor <= f && UsableFrame(descs, f)
    decreases |descs|
  {
    hide FirstFrame, LastFrame, Descriptor.Contains;
    if descs != [] {
      var d := descs[0];
      var lo := Max(cursor, FirstFrame(d));
      var hi := LastFrame(d) + 1;
      var next := if d.Kind() == Usable then Max(lo, hi) else cursor;
      FrameListIncreasing(descs[1..], next);
      if d.Kind() == Usable {
        IncreasingConcat(Range(lo, hi), FrameList(descs[1..], next), next);
      }
      forall f | f in FrameList(descs, cursor)
        ensures cursor <= f && UsableFrame(descs, f)
      {
        if d.Kind() == Usable && f in Range(lo, hi) {
          assert d in descs;
          FramesOf(d, f);
        } else {
          var e :| e in descs[1..] && e.Kind() == Usable && e.Contains(f * 4096);
          assert e in descs;
        }
      }
    }
  }

  /** On a sorted map the list is exactly the usable frames from the cursor on. */
  lemma {:induction false} FrameListComplete(descs: seq<Descriptor>, cursor: nat, f: nat)
    requires AllWellFormed(descs) && Sorted(descs)
    requires cursor <= f && UsableFrame(descs, f)
    ensures f in FrameList(descs, cursor)
    decreases |descs|
  {
    var d := descs[0];
    var lo := Max(cursor, FirstFrame(d));
    var hi := LastFrame(d) + 1;
    assert d in descs;
    FramesOf(d, f);
    if !(d.Kind() == Usable && d.Contains(f * 4096)) {
      UsableLater(descs, f);
      FrameListComplete(descs[1..], if d.Kind() == Usable then Max(lo, hi) else cursor, f);
    }
  }

  lemma UsableLater(descs: seq<Descriptor>, f: nat)
    requires AllWellFormed(descs) && Sorted(descs) && UsableFrame(descs, f)
    requires !(descs[0].Kind() == Usable && descs[0].Contains(f * 4096))
    ensures UsableFrame(descs[1..], f) && LastFrame(descs[0]) < f
  {
    var k :| 0 <= k < |descs| && descs[k].Kind() == Usable && descs[k].Contains(f * 4096);
    assert descs[1..][k - 1] == descs[k];
    assert descs[0].End() <= descs[k].Start();
  }

  class LegacyFrameAllocator {
    const original: seq<Descriptor>
    const first: nat
    var memoryMap: seq<Descriptor>
    var currentDescriptor: Option<Descriptor>
    var nextFrame: nat
    /** Every frame handed out so far, oldest first. */
    ghost var given: seq<nat>

    constructor StartingAt(frame: nat, descs: seq<Descriptor>)
      requires AllWellFormed(descs)
      ensures Valid() && original == descs && first == frame && given == []
    {
      original, first := descs, frame;
      memoryMap, currentDescriptor, nextFrame := descs, None, frame;
      given := [];
      new;
      assert [] + memoryMap == original && given + Remaining() == Remaining();
    }

    /** Skips frame 0. */
    constructor (descs: seq<Descriptor>)
      requires AllWellFormed(descs)
      ensures Valid() && original == descs && first == 1 && given == []
    {
      original, first := descs, 1;
      memoryMap, currentDescriptor, nextFrame := descs, None, 1;
      given := [];
      new;
      assert [] + memoryMap == original && given + Remaining() == Remaining();
    }

    ghost predicate Consistent()
      reads this
    {
      && AllWellFormed(original)
      && AllWellFormed(memoryMap)
      && (currentDescriptor.Some? ==>
            currentDescriptor.value.WellFormed() && currentDescriptor.value.Kind() == Usable)
    }

    /** The frames still to be handed out, in order. */
    ghost function Remaining(): seq<nat>
      reads this
      requires Consistent()
    {
      FrameList((if currentDescriptor.Some? then [currentDescriptor.value] else []) + memoryMap, nextFrame)
    }

    ghost predicate Valid()
      reads this
    {
      && Consistent()
      && given + Remaining() == FrameList(original, first)
      && nextFrame == Cursor(first, given)
    }

    method AllocateFrameFromDescriptor(descriptor: Descriptor) returns (r: Option<nat>)
      requires descriptor.WellFormed()
      modifies this`nextFrame
      ensures var lo := Max(old(nextFrame), FirstFrame(descriptor));
              if lo <= LastFrame(descriptor)
              then r == Some(lo) && nextFrame == lo + 1
              else r == None && nextFrame == old(nextFrame)
    {
      var startFrame := descriptor.Start() / 4096;
      var endFrame := (descriptor.Start() + descriptor.Len() - 1) / 4096;
      if nextFrame < startFrame {
        nextFrame := startFrame;
      }
      if nextFrame <= endFrame {
        r := Some(nextFrame);
        nextFrame := nextFrame + 1;
      } else {
        r := None;
      }
    }

    /** Hands out the head of the remaining list; None only when it is exhausted, and then for good. */
    method AllocateFrame() returns (r: Option<nat>)
      requires Valid()
      modifies this
      ensures Valid()
      ensures old(Remaining()) == [] ==> r == None && Remaining() == [] && given == old(given)
      ensures old(Remaining()) != [] ==>
                && r == Some(old(Remaining())[0])
                && Remaining() == old(Remaining())[1..]
                && given == old(given) + [r.value]
    {
      hide FirstFrame, LastFrame, Descriptor.WellFormed, FrameList;
      if currentDescriptor.Some? {
        var d := currentDescriptor.value;
        r := AllocateFrameFromDescriptor(d);
        if r.Some? {
          given := given + [r.value];
          HeadMoves(d, memoryMap, old(nextFrame), r.value, old(given), FrameList(original, first));
          return;
        }
        NoFrame(d, memoryMap, nextFrame);
        currentDescriptor := None;
      }
      assert [] + memoryMap == memoryMap;
      while memoryMap != []
        invariant Consistent() && currentDescriptor.None?
        invariant FrameList(memoryMap, nextFrame) == old(Remaining())
        invariant given == old(given) && nextFrame == old(nextFrame)
        decreases |memoryMap|
      {
        var descriptor := memoryMap[0];
        assert memoryMap == [descriptor] + memoryMap[1..];
        memoryMap := memoryMap[1..];
        if descriptor.Kind() != Usable {
          NoFrame(descriptor, memoryMap, nextFrame);
          continue;
        }
        r := AllocateFrameFromDescriptor(descriptor);
        if r.Some? {
          currentDescriptor := Some(descriptor);
          given := given + [r.value];
          HeadMoves(descriptor, memoryMap, old(nextFrame), r.value, old(given), FrameList(original, first));
          return;
        }
        NoFrame(descriptor, memoryMap, nextFrame);
      }
      r := None;
      NothingListed(nextFrame);
      assert [] + memoryMap == memoryMap;
    }

    /** The number of descriptors; allocation never changes it. */
    function Len(): nat { |original| }

    /** The end of the highest descriptor; None where max() has no element to return. */
    method MaxPhysicalAddress() returns (r: Option<nat>)
      ensures r.None? <==> original == []
      ensures r.Some? ==> (forall d :: d in original ==> d.End() <= r.value)
                          && exists d :: d in original && d.End() == r.value
    {
      r := None;
      for i := 0 to |original|
        invariant r.None? <==> i == 0
        invariant r.Some? ==> (forall d :: d in original[..i] ==> d.End() <= r.value)
                              && exists d :: d in original[..i] && d.End() == r.value
      {
        var end := original[i].Start() + original[i].Len();
        assert original[..i + 1] == original[..i] + [original[i]];
        if r.None? || r.value < end {
          r := Some(end);
          assert original[i] in original[..i + 1];
        } else {
          var d :| d in original[..i] && d.End() == r.value;
          assert d in original[..i + 1];
        }
      }
      assert original[..|original|] == original;
    }

    /** Writes one region unless it is empty; None is the panic on a full buffer. */
    static method AddRegion(region: Region, regions: array<Region>, nextIndex: nat) returns (r: Option<nat>)
      requires nextIndex <= regions.Length
      modifies regions
      ensures r.None? <==> nextIndex + |NonEmpty(region)| > regions.Length
      ensures r.Some? ==> Appended(old(regions[..]), regions[..], nextIndex, r.value, NonEmpty(region))
    {
      if region.start == region.end {
        return Some(nextIndex);
      }
      if nextIndex >= regions.Length {
        return None;
      }
      regions[nextIndex] := region;
      return Some(nextIndex + 1);
    }

    /** Writes a region, cut in three where it is usable and meets the kernel slice. */
    static method AddAroundKernel(region: Region, regions: array<Region>, nextIndex: nat, ks: nat, ke: nat)
        returns (r: Option<nat>)
      requires nextIndex <= regions.Length
      modifies regions
      ensures r.None? <==> CutKernel(region, ks, ke).None?
                           || nextIndex + |CutKernel(region, ks, ke).value| > regions.Length
      ensures r.Some? ==>
                Appended(old(regions[..]), regions[..], nextIndex, r.value, CutKernel(region, ks, ke).value)
    {
      hide Appended, NonEmpty;
      if region.kind == Usable && ks < region.end && ke > region.start {
        if !(ks >= region.start) || !(ke <= region.end) {
          return None;
        }
        var beforeKernel := region.(end := ks);
        var kernel := Region(ks, ke, Bootloader);
        var afterKernel := region.(start := ke);
        ghost var s0 := regions[..];
        r := AddRegion(beforeKernel, regions, nextIndex);
        if r.None? { return; }
        ghost var s1, n1 := regions[..], r.value;
        r := AddRegion(kernel, regions, r.value);
        if r.None? { return; }
        ghost var s2, n2 := regions[..], r.value;
        r := AddRegion(afterKernel, regions, r.value);
        if r.None? { return; }
        AppendedTwice(s0, s1, s2, nextIndex, n1, n2, NonEmpty(beforeKernel), NonEmpty(kernel));
        AppendedTwice(s0, s2, regions[..], nextIndex, n2, r.value,
                      NonEmpty(beforeKernel) + NonEmpty(kernel), NonEmpty(afterKernel));
      } else {
        r := AddRegion(region, regions, nextIndex);
      }
    }

    /** The loop body of construct_memory_map: all regions of one descriptor. */
    static method AddDescriptor(descriptor: Descriptor, nextFree: nat, regions: array<Region>, nextIndex: nat,
                                ks: nat, ke: nat)
        returns (r: Option<nat>)
      requires nextIndex <= regions.Length
      modifies regions
      ensures var out := DescriptorRegions(descriptor, nextFree, ks, ke);
              && (r.None? <==> out.None? || nextIndex + |out.value| > regions.Length)
              && (r.Some? ==> Appended(old(regions[..]), regions[..], nextIndex, r.value, out.value))
    {
      hide Appended, NonEmpty, CutKernel;
      var index, start, end := nextIndex, descriptor.Start(), descriptor.Start() + descriptor.Len();
      var kind := descriptor.Kind();
      if descriptor.Kind() == Usable {
        if end <= nextFree {
          kind := Bootloader;
        } else if descriptor.Start() >= nextFree {
          kind := Usable;
        } else {
          ghost var s0, used := regions[..], Region(descriptor.Start(), nextFree, Bootloader);
          r := AddRegion(Region(descriptor.Start(), nextFree, Bootloader), regions, index);
          if r.None? { return; }
          ghost var s1 := regions[..];
          index, start, kind := r.value, nextFree, Usable;
          r := AddAroundKernel(Region(start, end, kind), regions, index, ks, ke);
          if r.Some? {
            AppendedTwice(s0, s1, regions[..], nextIndex, index, r.value,
                          NonEmpty(used), CutKernel(Region(start, end, kind), ks, ke).value);
          }
          return;
        }
      } else if descriptor.UsableAfterExit() {
        kind := Usable;
      }
      r := AddAroundKernel(Region(start, end, kind), regions, index, ks, ke);
    }

    /** Rewrites the firmware map around the cursor and the kernel slice; None is one of the panics. */
    method ConstructMemoryMap(regions: array<Region>, ks: nat, len: nat) returns (r: Option<nat>)
      modifies regions
      ensures var out := MapOf(original, nextFrame * 4096, ks, ks + len);
              && (r.None? <==> out.None? || |out.value| > regions.Length)
              && (r.Some? ==> Appended(old(regions[..]), regions[..], 0, r.value, out.value))
    {
      var nextIndex: nat := 0;
      var nextFree := nextFrame * 4096;
      var ke := ks + len;
      for i := 0 to |original|
        invariant MapOf(original[..i], nextFree, ks, ke).Some?
        invariant nextIndex <= regions.Length
        invariant Appended(old(regions[..]), regions[..], 0, nextIndex, MapOf(original[..i], nextFree, ks, ke).value)
      {
        PrefixNone(original, i, nextFree, ks, ke);
        ghost var before := regions[..];
        var added := AddDescriptor(original[i], nextFree, regions, nextIndex, ks, ke);
        if added.None? { return None; }
        AppendedTwice(old(regions[..]), before, regions[..], 0, nextIndex, added.value,
                      MapOf(original[..i], nextFree, ks, ke).value,
                      DescriptorRegions(original[i], nextFree, ks, ke).value);
        nextIndex := added.value;
      }
      assert original[..|original|] == original;
      return Some(nextIndex);
    }
  }

  /** `now` is `was` with `parts` written over positions [at, end). */
  ghost predicate Appended(was: seq<Region>, now: seq<Region>, at: nat, end: nat, parts: seq<Region>) {
    && at <= end == at + |parts| <= |was| == |now|
    && now == was[..at] + parts + was[end..]
  }

  lemma AppendedTwice(was: seq<Region>, mid: seq<Region>, now: seq<Region>, from: nat, at: nat, end: nat,
                      a: seq<Region>, b: seq<Region>)
    requires Appended(was, mid, from, at, a) && Appended(mid, now, at, end, b)
    ensures Appended(was, now, from, end, a + b)
  {
    assert mid[..at] == was[..from] + a;
    assert mid[end..] == was[end..];
  }

  /** One more descriptor; and if a prefix of the map panics or overflows the buffer, so does the whole map. */
  lemma PrefixNone(descs: seq<Descriptor>, i: nat, nextFree: nat, ks: nat, ke: nat)
    requires i < |descs| && MapOf(descs[..i], nextFree, ks, ke).Some?
    ensures var last := DescriptorRegions(descs[i], nextFree, ks, ke);
            MapOf(descs[..i + 1], nextFree, ks, ke) ==
              if last.None? then None else Some(MapOf(descs[..i], nextFree, ks, ke).value + last.value)
    ensures MapOf(descs, nextFree, ks, ke).Some? ==>
              && MapOf(descs[..i + 1], nextFree, ks, ke).Some?
              && |MapOf(descs[..i + 1], nextFree, ks, ke).value| <= |MapOf(descs, nextFree, ks, ke).value|
  {
    assert descs[..i + 1][..i] == descs[..i];
    if MapOf(descs, nextFree, ks, ke).Some? {
      MapOfPrefix(descs, i + 1, nextFree, ks, ke);
    }
  }

  /** Taking frame `f` out of descriptor `d` moves the head of the list to the frames given. */
  lemma HeadMoves(d: Descriptor, rest: seq<Descriptor>, cursor: nat, f: nat, given: seq<nat>, all: seq<nat>)
    requires d.WellFormed() && AllWellFormed(rest) && d.Kind() == Usable
    requires f == Max(cursor, FirstFrame(d)) <= LastFrame(d)
    requires AllWellFormed([d] + rest) && given + FrameList([d] + rest, cursor) == all
    ensures FrameList([d] + rest, cursor) == [f] + FrameList([d] + rest, f + 1)
    ensures (given + [f]) + FrameList([d] + rest, f + 1) == all
  {
    assert ([d] + rest)[1..] == rest;
    assert Range(f, LastFrame(d) + 1) == [f] + Range(f + 1, LastFrame(d) + 1);
    assert FrameList([d] + rest, cursor) == [f] + FrameList([d] + rest, f + 1);
  }

  lemma NothingListed(cursor: nat)
    ensures FrameList([], cursor) == []
  {
  }

  lemma NoFrame(d: Descriptor, rest: seq<Descriptor>, cursor: nat)
    requires d.WellFormed() && AllWellFormed(rest)
    requires d.Kind() != Usable || LastFrame(d) < Max(cursor, FirstFrame(d))
    ensures AllWellFormed([d] + rest)
    ensures FrameList([d] + rest, cursor) == FrameList(rest, cursor)
  {
    assert ([d] + rest)[1..] == rest;
  }
}
