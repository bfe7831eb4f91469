/** The kernel's own frame allocator over the regions it was handed. */
module Nukleus {
  import opened Common
  import opened Descriptors
  import opened MemoryMap

  /** The frames of (start..end).step_by(4096), each address rounded down to its frame. */
  function RegionFrames(r: Region): (fs: seq<nat>)
    requires r.start <= r.end
  {
    seq((r.end - r.start + 4096 - 1) / 4096, i requires 0 <= i => (r.start + i * 4096) / 4096)
  }

  function UsableFrames(rs: seq<Region>): seq<nat>
    requires forall r :: r in rs ==> r.start <= r.end
  {
    if rs == [] then []
    else (if rs[0].kind == Usable then RegionFrames(rs[0]) else []) + UsableFrames(rs[1..])
  }

  class NukleusFrameAllocator {
    const memoryMap: seq<Region>
    var next: nat
    /** Every frame handed out so far, oldest first. */
    ghost var given: seq<nat>

    /** The frames handed out are the first ones of the usable frames, and all of them once a call found none. */
    ghost predicate Valid()
      reads this
    {
      && (forall r :: r in memoryMap ==> r.start <= r.end)
      && given == UsableFrames(memoryMap)[..Min(next, |UsableFrames(memoryMap)|)]
    }

    constructor (memoryMap: seq<Region>)
      requires forall r :: r in memoryMap ==> r.start <= r.end
      ensures Valid() && this.memoryMap == memoryMap && given == []
    {
      this.memoryMap := memoryMap;
      next, given := 0, [];
    }

    /** Hands out the next usable frame; None only when every one has been handed out, and then for good. */
    method AllocateFrame() returns (r: Option<nat>)
      requires Valid()
      modifies this
      ensures Valid() && next == old(next) + 1
      ensures r.None? <==> old(given) == UsableFrames(memoryMap)
      ensures given == if r.Some? then old(given) + [r.value] else old(given)
    {
      var frames := UsableFrames(memoryMap);
      r := if next < |frames| then Some(frames[next]) else None;
      given := if r.Some? then given + [r.value] else given;
      next := next + 1;
    }
  }

  ghost predicate UsableEndsAligned(rs: seq<Region>) {
    forall r :: r in rs && r.kind == Usable ==> r.end % 4096 == 0
  }

  /** The last byte of a frame. */
  function LastByte(f: nat): nat { f * 4096 + 4096 - 1 }

  /** For any region: the frames of the addresses start, start + 4096, .. below the end, in that order. */
  lemma RegionFramesAt(r: Region, i: nat)
    requires r.start <= r.end
    ensures i < |RegionFrames(r)| <==> r.start + 4096 * i < r.end
    ensures i < |RegionFrames(r)| ==> RegionFrames(r)[i] * 4096 <= r.start + 4096 * i < RegionFrames(r)[i] * 4096 + 4096
  {
  }

  lemma RegionFramesAre(r: Region)
    requires r.start < r.end && r.end % 4096 == 0
    ensures Increasing(RegionFrames(r))
    ensures forall f :: f in RegionFrames(r) <==> Within(r, LastByte(f))
  {
    var fs := RegionFrames(r);
    assert forall i :: 0 <= i < |fs| ==> fs[i] == r.start / 4096 + i;
    assert |fs| == r.end / 4096 - r.start / 4096;
    forall f: nat
      ensures f in fs <==> Within(r, LastByte(f))
    {
      if Within(r, LastByte(f)) {
        assert fs[f - r.start / 4096] == f;
      }
    }
  }

  ghost predicate InUsable(rs: seq<Region>, addr: int) {
    exists r :: r in rs && r.kind == Usable && Within(r, addr)
  }

  lemma BehindHead(rs: seq<Region>, addr: int)
    requires rs != [] && Ordered(rs) && InUsable(rs[1..], addr)
    ensures rs[0].end <= addr
  {
    var r :| r in rs[1..] && r.kind == Usable && Within(r, addr);
    var i :| 0 <= i < |rs[1..]| && rs[1..][i] == r;
    assert rs[i + 1] == r;
  }

  lemma InHeadOrTail(rs: seq<Region>, addr: int)
    requires rs != []
    ensures InUsable(rs, addr) <==> (rs[0].kind == Usable && Within(rs[0], addr)) || InUsable(rs[1..], addr)
  {
    assert forall r :: r in rs <==> r == rs[0] || r in rs[1..];
  }

  /** A frame that ends behind an aligned address starts there at the earliest. */
  lemma FramesSplit(f: nat, end: nat)
    requires end % 4096 == 0
    ensures end <= LastByte(f) <==> end / 4096 <= f
  {
  }

  /** No frame comes twice, and a frame comes iff its last byte lies in a usable region. */
  lemma {:induction false} UsableFramesAre(rs: seq<Region>)
    requires Ordered(rs) && UsableEndsAligned(rs)
    ensures Increasing(UsableFrames(rs))
    ensures forall f :: f in UsableFrames(rs) <==> InUsable(rs, LastByte(f))
  {
    hide RegionFrames, LastByte, InUsable, Increasing;
    if rs != [] {
      var head, tail := rs[0], rs[1..];
      UsableFramesAre(tail);
      if head.kind == Usable {
        RegionFramesAre(head);
        forall f: nat | f in UsableFrames(tail)
          ensures head.end / 4096 <= f
        {
          BehindHead(rs, LastByte(f));
          FramesSplit(f, head.end);
        }
        forall f: nat | f in RegionFrames(head)
          ensures f < head.end / 4096
        {
          FramesSplit(f, head.end);
        }
        IncreasingConcat(RegionFrames(head), UsableFrames(tail), head.end / 4096);
      } else {
        assert UsableFrames(rs) == UsableFrames(tail);
      }
      forall f: nat
        ensures f in UsableFrames(rs) <==> InUsable(rs, LastByte(f))
      {
        InHeadOrTail(rs, LastByte(f));
      }
    } else {
      NoneUsable();
    }
  }

  lemma NoneUsable()
    ensures Increasing([]) && forall addr :: !InUsable([], addr)
  {
  }
}
