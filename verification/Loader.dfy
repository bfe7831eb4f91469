/** The copy-on-write loader: page by page over physical frames. */
module KernelLoader {
  import opened Common
  import opened Paging
  import opened VirtualAddress
  import opened Elf
  import opened FrameAllocator
  import opened LoaderSteps

  /** Panicked stands for every assertion, unwrap and expect; Exhausted for an allocator that has run dry. */
  datatype Outcome = Done | Failed(message: string) | Panicked | Exhausted

  class Loader {
    const e: Kernel
    const allocator: LegacyFrameAllocator
    var mem: Memory
    var table: map<int, Entry>
    ghost const pool: set<nat>

    ghost function State(): Space
      reads this, allocator
      requires allocator.Consistent()
    {
      Space(mem, table, allocator.Remaining(), e.base, pool, e.FileFrames())
    }

    ghost predicate Valid()
      reads this, allocator
    {
      allocator.Valid() && Inv(State()) && e.WellFormed(pool)
    }

    /** The allocator has no frame left. */
    ghost predicate Dry()
      reads this, allocator
      requires allocator.Consistent()
    {
      allocator.Remaining() == []
    }

    /** The frames taken beyond those accounted for by the page table. */
    ghost function Spent(): int
      reads this, allocator
    {
      |allocator.given| - Cost(table)
    }

    /** What a step that stops early may have taken beyond its account. */
    static function Slack(o: Outcome): int { if o.Done? then 0 else 8 }

    ghost function View(): View
      reads this, allocator
      requires Valid()
    {
      Read(State())
    }

    /** Start from an empty page table; the file's frames are not the allocator's. */
    constructor (e: Kernel, allocator: LegacyFrameAllocator)
      requires allocator.Valid()
      requires Frames(e.base)
      requires forall f :: f in allocator.Remaining() ==> f in e.base
      requires e.WellFormed(set f | f in allocator.Remaining())
      ensures Valid() && table == map[] && mem == e.base
      ensures this.e == e && this.allocator == allocator
      ensures pool == set f | f in allocator.Remaining()
    {
      this.e, this.allocator := e, allocator;
      mem, table := e.base, map[];
      pool := set f | f in allocator.Remaining();
      new;
      ListIncreasing(allocator);
    }

    method AllocateFrame() returns (r: Option<nat>)
      requires Valid()
      modifies allocator
      ensures Valid()
      ensures r.None? ==> State() == old(State()) && Dry()
      ensures r.Some? ==>
                && old(State()).supply != [] && r.value == old(State()).supply[0]
                && State() == Take(old(State())) && Free(State(), r.value)
      ensures |allocator.given| == |old(allocator.given)| + if r.Some? then 1 else 0
      ensures View() == old(View())
    {
      ghost var s := State();
      r := allocator.AllocateFrame();
      if r.Some? {
        TakeKeeps(s);
      }
    }

    /** The mapper: may use up frames for page-table pages, and refuses a page that is mapped. */
    method MapTo(page: int, frame: nat, flags: Flags) returns (o: Outcome)
      requires Valid() && Mappable(State(), frame, flags)
      modifies this, allocator
      ensures Valid()
      ensures o.Exhausted? ==> Dry()
      ensures |allocator.given| <= |old(allocator.given)| + if o.Failed? then 0 else 3
      ensures o.Failed? <==> page in old(table)
      ensures !o.Panicked?
      ensures o.Done? ==>
                && table == old(table)[page := Entry(frame, flags)]
                && View() == old(View()) + PageView(page, old(mem)[frame])
                && Perms(table) == Perms(old(table))[page := flags.(copied := false)]
      ensures !o.Done? ==> View() == old(View()) && table == old(table)
    {
      if page in table {
        return Failed("PageAlreadyMapped");
      }
      var tables: nat :| tables <= 3;
      for i := 0 to tables
        invariant Valid() && table == old(table) && View() == old(View())
        invariant |allocator.given| <= |old(allocator.given)| + i
        invariant Mappable(State(), frame, flags) && mem[frame] == old(mem)[frame]
      {
        ghost var s := State();
        var t := AllocateFrame();
        if t.None? {
          return Exhausted;
        }
        TakeKeeps(s);
        DropKeeps(State(), t.value);
        mem := mem - {t.value};
      }
      MapKeeps(State(), page, frame, flags);
      table := table[page := Entry(frame, flags)];
      return Done;
    }

    /** Unmaps a page and maps it to an identical frame of its own. */
    method Remap(page: int, copy: nat) returns (o: Outcome)
      requires Valid() && page in table && Free(State(), copy)
      requires !table[page].flags.copied
      requires mem[copy] == mem[table[page].frame]
      modifies this, allocator
      ensures Valid()
      ensures table.Keys <= old(table).Keys
      ensures o.Exhausted? ==> Dry()
      ensures Spent() <= old(Spent()) + Slack(o) - 1
      ensures o.Done? || o.Exhausted?
      ensures o.Done? ==>
                && View() == old(View())
                && Perms(table) == Perms(old(table))
                && table == old(table)[page := Entry(copy, old(table)[page].flags.(copied := true))]
    {
      hide Inv, Read, Perms, FrameList, PageOf, OffsetOf, Cost;
      ghost var s := State();
      var flags := table[page].flags;
      UnmapKeeps(s, page);
      PutBack(s, page);
      CostOfGone(table, page);
      CostOfCopy(table, page, Entry(copy, flags.(copied := true)));
      table := table - {page};
      o := MapTo(page, copy, flags.(copied := true));
      if o.Done? {
        assert table == old(table)[page := Entry(copy, flags.(copied := true))];
      }
    }

    /** Gives a page a private copy of its frame, once; the view and the permissions stay as they are. */
    method MakeMut(page: int) returns (o: Outcome, newFrame: nat)
      requires Valid()
      modifies this, allocator
      ensures Valid()
      ensures table.Keys <= old(table).Keys
      ensures o.Exhausted? ==> Dry()
      ensures Spent() <= old(Spent()) + Slack(o)
      ensures o.Done? || o.Panicked? || o.Exhausted?
      ensures o.Panicked? <==> page !in old(table)
      ensures o.Done? ==>
                && View() == old(View())
                && Perms(table) == Perms(old(table))
                && newFrame in pool
                && table == old(table)[page := Entry(newFrame, old(table)[page].flags.(copied := true))]
      ensures o.Done? && old(table)[page].flags.copied ==> State() == old(State())
    {
      newFrame := 0;
      if page !in table {
        return Panicked, 0;
      }
      var frame, flags := table[page].frame, table[page].flags;
      if flags.copied {
        return Done, frame;
      }
      var r := AllocateFrame();
      if r.None? {
        return Exhausted, 0;
      }
      newFrame := r.value;
      PokeFree(State(), newFrame, mem[frame]);
      mem := mem[newFrame := mem[frame]];
      o := Remap(page, newFrame);
    }

    /** The part of a page-by-page transfer that falls into `page`: offset in the page, in the buffer, and length. */
    static function Chunk(addr: int, len: nat, page: int): (r: (int, int, int))
      requires 0 < len && PageOf(addr) <= page <= PageOf(addr + len - 1)
      ensures 0 <= r.0 && 0 < r.2 && r.0 + r.2 <= 4096 && 0 <= r.1 && r.1 + r.2 <= len
      ensures page * 4096 + r.0 == addr + r.1
      ensures r.1 == Min(Max(page * 4096 - addr, 0), len)
      ensures page == PageOf(addr + len - 1) ==> r.1 + r.2 == len
      ensures page < PageOf(addr + len - 1) ==> addr + r.1 + r.2 == (page + 1) * 4096
    {
      var startCopy := Max(addr, page * 4096);
      var endCopyInclusive := Min(addr + len - 1, page * 4096 + 4095);
      (startCopy - page * 4096, startCopy - addr, endCopyInclusive - startCopy + 1)
    }

    /** The slice copy out of one mapped frame. */
    method ReadInPage(page: int, at: int, buf: array<byte>, inBuf: nat, len: nat)
      requires Valid() && page in table && inBuf + len <= buf.Length
      requires page * 4096 <= at && at + len <= page * 4096 + 4096
      requires buf as object != this && buf as object != allocator
      modifies buf
      ensures Readable(View(), at, len)
      ensures buf[..inBuf + len] == old(buf[..inBuf]) + Bytes(View(), at, len)
    {
      var src, inFrame := mem[table[page].frame], at - page * 4096;
      forall i | 0 <= i < len {
        buf[inBuf + i] := src[inFrame + i];
      }
      assert buf[..inBuf + len] == old(buf[..inBuf]) + src[inFrame..inFrame + len];
      assert src[inFrame..inFrame + len] == Bytes(View(), at, len);
    }

    /** Reads a byte range through the page table. */
    method CopyFrom(addr: int, buf: array<byte>) returns (o: Outcome)
      requires Valid() && 0 <= addr < SPACE && 0 < buf.Length
      requires buf as object != this && buf as object != allocator
      modifies buf
      ensures Valid()
      ensures o.Done? || o.Panicked?
      ensures o.Done? <==> addr + buf.Length <= SPACE && Readable(View(), addr, buf.Length)
      ensures o.Done? ==> buf[..] == Bytes(View(), addr, buf.Length)
    {
      hide Inv, Read, FrameList;
      var endInclusive := addr + buf.Length - 1;
      if endInclusive >= SPACE {
        return Panicked;
      }
      var page, done: nat := PageOf(addr), 0;
      while page <= PageOf(endInclusive)
        invariant PageOf(addr) <= page <= PageOf(endInclusive) + 1
        invariant done == Min(Max(page * 4096 - addr, 0), buf.Length)
        invariant Readable(View(), addr, done) && buf[..done] == Bytes(View(), addr, done)
      {
        var (_, inBuf, len) := Chunk(addr, buf.Length, page);
        assert inBuf == done;
        if page !in table {
          Unreadable(State(), addr + done);
          return Panicked;
        }
        ReadInPage(page, addr + done, buf, done, len);
        BytesConcat(View(), addr, done, len);
        page, done := page + 1, done + len;
      }
      return Done;
    }

    /** The slice copy into one private frame. */
    method WriteInPage(page: int, frame: nat, at: int, bytes: seq<byte>)
      requires Valid() && page in table && table[page].frame == frame && frame in pool
      requires page * 4096 <= at && at + |bytes| <= page * 4096 + 4096
      modifies this`mem
      ensures Valid()
      ensures View() == Overwrite(old(View()), at, bytes)
    {
      hide PageOf, OffsetOf;
      var was, inFrame := mem[frame], at - page * 4096;
      var now := was[..inFrame] + bytes + was[inFrame + |bytes|..];
      PokeMapped(State(), page, now);
      OverwriteInPage(View(), page, was, at, bytes);
      mem := mem[frame := now];
    }

    /** Makes a page private and writes part of it. */
    method WriteChunk(page: int, at: int, bytes: seq<byte>) returns (o: Outcome)
      requires Valid() && page * 4096 <= at && at + |bytes| <= page * 4096 + 4096
      modifies this, allocator
      ensures Valid()
      ensures table.Keys <= old(table).Keys
      ensures o.Exhausted? ==> Dry()
      ensures Spent() <= old(Spent()) + Slack(o)
      ensures o.Done? || o.Panicked? || o.Exhausted?
      ensures o.Panicked? <==> page !in old(table)
      ensures o.Done? ==>
                && View() == Overwrite(old(View()), at, bytes)
                && Perms(table) == Perms(old(table))
    {
      var frame;
      o, frame := MakeMut(page);
      if o.Done? {
        WriteInPage(page, frame, at, bytes);
      }
    }

    /** Writes a byte range through the page table: a plain write of the virtual view. */
    method CopyTo(addr: int, buf: seq<byte>) returns (o: Outcome)
      requires Valid() && 0 <= addr < SPACE && 0 < |buf|
      modifies this, allocator
      ensures Valid()
      ensures table.Keys <= old(table).Keys
      ensures o.Exhausted? ==> Dry()
      ensures Spent() <= old(Spent()) + Slack(o)
      ensures o.Done? || o.Panicked? || o.Exhausted?
      ensures o.Done? ==> addr + |buf| <= SPACE && PagesMapped(old(table), addr, |buf|)
      ensures o.Panicked? ==> !(addr + |buf| <= SPACE && PagesMapped(old(table), addr, |buf|))
      ensures o.Done? ==> View() == Overwrite(old(View()), addr, buf)
      ensures o.Done? ==> Perms(table) == Perms(old(table))
    {
      hide Cost, Inv, Read, Overwrite, Perms, FrameList;
      ghost var v0 := View();
      var endInclusive := addr + |buf| - 1;
      if endInclusive >= SPACE {
        return Panicked;
      }
      var page, done: nat := PageOf(addr), 0;
      OverwriteNothing(v0, addr);
      while page <= PageOf(endInclusive)
        invariant Spent() <= old(Spent())
        invariant Valid()
        invariant PageOf(addr) <= page <= PageOf(endInclusive) + 1
        invariant done == Min(Max(page * 4096 - addr, 0), |buf|)
        invariant forall p :: PageOf(addr) <= p < page ==> p in old(table)
        invariant View() == Overwrite(v0, addr, buf[..done])
        invariant Perms(table) == Perms(old(table)) && table.Keys <= old(table).Keys
      {
        var (_, inBuf, len) := Chunk(addr, |buf|, page);
        assert inBuf == done;
        ghost var v := View();
        KeysOfPerms(table, old(table));
        o := WriteChunk(page, addr + done, buf[done..done + len]);
        if !o.Done? {
          return;
        }
        NextChunk(v0, v, View(), addr, buf, done, len);
        page, done := page + 1, done + len;
      }
      assert buf[..|buf|] == buf;
      return Done;
    }

    // ---- Load segments ----

    /** Maps one file page onto its frame; `v0` and `t0` are the view and table before the segment. */
    method MapFilePage(h: Header, page: int, frame: nat, flags: Flags, ghost v0: View, ghost t0: map<int, Entry>)
        returns (o: Outcome)
      requires Valid() && e.FirstPage(h) <= page && !flags.copied
      requires frame == e.StartFrame(h) + (page - e.FirstPage(h))
      requires frame in e.base && frame in e.FileFrames() && frame !in pool
      requires FileSoFar(v0, t0, View(), Perms(table), e, h, page, flags)
      modifies this, allocator
      ensures Valid()
      ensures o.Exhausted? ==> Dry()
      ensures Spent() <= old(Spent()) + Slack(o)
      ensures table.Keys <= old(table).Keys + {page}
      ensures o.Failed? ==> page in t0
      ensures !o.Panicked?
      ensures o.Done? ==> page !in t0 && FileSoFar(v0, t0, View(), Perms(table), e, h, page + 1, flags)
    {
      hide Cost, Inv, Read, FrameList, Perms, PageOf, OffsetOf, PageView, Mappable, Kernel.WellFormed,
        Kernel.FileFrames, Kernel.FirstPage, Kernel.StartFrame, FileSoFar;
      ghost var v, t := View(), table;
      FileKey(e, h, v0, t0, v, t, page, flags);
      FileMappable(State(), frame, flags);
      if page !in table {
        CostOfNew(table, page, Entry(frame, flags));
      }
      o := MapTo(page, frame, flags);
      if o.Failed? {
        o := Failed("map_to failed");
      }
      if o.Done? {
        FilePageAdded(e, h, v0, t0, v, t, View(), table, page, frame, flags);
      }
    }

    /** Maps the file pages of a segment directly onto the frames of the file. */
    method MapFilePages(h: Header, flags: Flags) returns (o: Outcome)
      requires Valid() && h in e.headers && h.kind == Load && !flags.copied
      modifies this, allocator
      ensures Valid()
      ensures o.Exhausted? ==> Dry()
      ensures Spent() <= old(Spent()) + Slack(o)
      ensures MappedOnly(old(table), table, e.FirstPage(h), e.FileLast(h) + 1)
      ensures o.Panicked? ==> !FileInSpace(e, h)
      ensures o.Failed? ==> !NoneMapped(old(table), e.FirstPage(h), e.FileLast(h) + 1)
      ensures o.Done? ==>
                && FileInSpace(e, h)
                && NoneMapped(old(table), e.FirstPage(h), e.FileLast(h) + 1)
                && FileSoFar(old(View()), old(table), View(), Perms(table), e, h, e.FileLast(h) + 1, flags)
    {
      hide Cost, Inv, Read, FrameList, Perms, PageOf, OffsetOf, Kernel.FirstPage, Kernel.StartFrame, Kernel.EndFrame,
        Kernel.WellFormed, FileSoFar;
      var startFrame := e.StartFrame(h);
      var endFrame := e.EndFrame(h);
      var startPage := e.FirstPage(h);
      ghost var v0, t0 := View(), table;
      FileFrames(e, h, pool);
      NothingAdded(e, h, v0, t0, flags);
      var frame, page := startFrame, startPage;
      while frame <= endFrame
        invariant Spent() <= old(Spent())
        invariant Valid()
        invariant startPage <= page && frame == startFrame + (page - startPage)
        invariant page <= e.FileLast(h) + 1 && page <= PAGES
        invariant NoneMapped(t0, startPage, page)
        invariant MappedOnly(t0, table, startPage, page)
        invariant FileSoFar(v0, t0, View(), Perms(table), e, h, page, flags)
      {
        if page >= PAGES {
          return Panicked;
        }
        o := MapFilePage(h, page, frame, flags, v0, t0);
        if !o.Done? {
          return;
        }
        frame, page := frame + 1, page + 1;
      }
      return Done;
    }

    /** Fills one page of a segment's BSS part with a fresh zeroed frame. */
    method MapBssPage(h: Header, page: int, flags: Flags, ghost v0: View, ghost t0: map<int, Entry>)
        returns (o: Outcome)
      requires Valid() && !flags.copied && e.WholeZeroFirst(h) <= page
      requires BssSoFar(v0, t0, View(), Perms(table), e, h, page, flags)
      modifies this, allocator
      ensures Valid()
      ensures o.Exhausted? ==> Dry()
      ensures Spent() <= old(Spent()) + Slack(o)
      ensures table.Keys <= old(table).Keys + {page}
      ensures o.Failed? ==> page in t0
      ensures !o.Panicked?
      ensures o.Done? ==> page !in t0 && BssSoFar(v0, t0, View(), Perms(table), e, h, page + 1, flags)
    {
      hide Cost, Inv, Read, FrameList, Perms, PageOf, OffsetOf, PageView, Kernel.WholeZeroFirst, Kernel.WellFormed,
        BssSoFar;
      ghost var v, t := View(), table;
      BssKey(e, h, v0, t0, v, t, page, flags);
      var r := AllocateFrame();
      if r.None? {
        return Exhausted;
      }
      var frame := r.value;
      PokeFree(State(), frame, Zeros(4096));
      mem := mem[frame := Zeros(4096)];
      if page !in table {
        CostOfNew(table, page, Entry(frame, flags));
      }
      o := MapTo(page, frame, flags);
      if o.Failed? {
        o := Failed("Failed to map new frame for bss memory");
      }
      if o.Done? {
        BssPageAdded(e, h, v0, t0, v, t, View(), table, page, flags);
      }
    }

    /** Zeroes the part of the last file page that lies behind the file part. */
    method ZeroRestOfPage(h: Header, flags: Flags) returns (o: Outcome)
      requires Valid()
      modifies this, allocator
      ensures Valid()
      ensures o.Exhausted? ==> Dry()
      ensures Spent() <= old(Spent()) + Slack(o)
      ensures table.Keys <= old(table).Keys
      ensures !o.Failed?
      ensures o.Panicked? ==> PartialPageMissing(e, h, old(table))
      ensures o.Done? ==>
                && !PartialPageMissing(e, h, old(table))
                && BssSoFar(old(View()), old(table), View(), Perms(table), e, h, e.WholeZeroFirst(h), flags)
    {
      hide Cost, Inv, Read, FrameList, Perms, OffsetOf, Overwrite, Kernel.WellFormed, BssSoFar;
      ghost var s := State();
      var zeroStart := e.ZeroStart(h);
      if zeroStart % 4096 != 0 {
        var lastPage := PageOf(zeroStart - 1);
        var bytes := Zeros(4096 - zeroStart % 4096);
        assert lastPage == PageOf(zeroStart) && |bytes| == e.WholeZeroFirst(h) * 4096 - zeroStart;
        o := WriteChunk(lastPage, zeroStart, bytes);
        if o.Done? {
          PartialZero(s, e, h, View(), Perms(table), flags);
        }
      } else {
        NothingZeroed(e, h, View(), table, flags);
        o := Done;
      }
    }

    /** Zeroes a segment from the end of its file part on: the rest of the last file page, then fresh pages. */
    method HandleBssSection(h: Header, flags: Flags) returns (o: Outcome)
      requires Valid() && !flags.copied && HasBss(h) && Accepted(e.RawAddr(h))
      modifies this, allocator
      ensures Valid()
      ensures o.Exhausted? ==> Dry()
      ensures Spent() <= old(Spent()) + Slack(o)
      ensures MappedOnly(old(table), table, e.WholeZeroFirst(h), e.LastPage(h) + 1)
      ensures o.Panicked? ==> !ZeroRangeValid(e, h) || PartialPageMissing(e, h, old(table))
      ensures o.Failed? ==> !NoneMapped(old(table), e.WholeZeroFirst(h), e.LastPage(h) + 1)
      ensures o.Done? ==>
                && ZeroRangeValid(e, h)
                && NoneMapped(old(table), e.WholeZeroFirst(h), e.LastPage(h) + 1)
                && !PartialPageMissing(e, h, old(table))
                && BssSoFar(old(View()), old(table), View(), Perms(table), e, h, e.LastPage(h) + 1, flags)
    {
      hide Cost, Inv, Read, FrameList, Perms, OffsetOf, PartialPageMissing, Kernel.WellFormed, BssSoFar;
      var zeroStart := e.Addr(h) + h.filesz;
      var zeroEnd := e.Addr(h) + h.memsz;
      if zeroStart >= SPACE || zeroEnd >= SPACE {
        return Panicked;
      }
      ghost var v0, t0 := View(), table;
      o := ZeroRestOfPage(h, flags);
      if !o.Done? {
        return;
      }
      var startPage := PageOf(zeroStart + 4095);
      if startPage >= PAGES || !CanStepBack(zeroEnd) {
        return Panicked;
      }
      BssPages(e, h);
      var page := startPage;
      var endPage := PageOf(zeroEnd - 1);
      while page <= endPage
        invariant Spent() <= old(Spent())
        invariant Valid()
        invariant startPage <= page <= endPage + 1
        invariant NoneMapped(t0, startPage, page)
        invariant MappedOnly(t0, table, startPage, page)
        invariant BssSoFar(v0, t0, View(), Perms(table), e, h, page, flags)
      {
        o := MapBssPage(h, page, flags, v0, t0);
        if !o.Done? {
          return;
        }
        page := page + 1;
      }
      return Done;
    }

    /** One Load segment: file bytes, then zeros; it fails exactly where the specification does. */
    method HandleLoadSegment(h: Header) returns (o: Outcome)
      requires Valid() && h in e.headers && h.kind == Load
      modifies this, allocator
      ensures Valid()
      ensures o.Exhausted? ==> Dry()
      ensures Spent() <= old(Spent()) + Slack(o)
      ensures forall p :: p in table ==> p in old(table) || HeaderPage(e, h, p)
      ensures o.Done? ==>
                && LoadOk(e, h, Perms(old(table)))
                && View() == AddSegment(e, h, old(View()))
                && Perms(table) == AddPerms(e, h, Perms(old(table)))
      ensures o.Failed? ==> MapClash(e, h, Perms(old(table)))
      ensures o.Panicked? ==> BadRange(e, h, Perms(old(table)))
    {
      hide Cost, Inv, Read, FrameList, Perms, PageOf, OffsetOf, Kernel.WellFormed, LoadOk, FileSoFar, BssSoFar,
        AddSegment, AddPerms, PartialPageMissing, FileInSpace, MapClash, BadRange, NoneMapped, ZeroRangeValid,
        Kernel.FirstPage, Kernel.LastPage, Kernel.FileLast, Kernel.WholeZeroFirst, Kernel.ZeroStart;
      ghost var v0, t0 := View(), table;
      if !Accepted(e.RawAddr(h)) {
        NotPlaced(e, h, t0);
        return Panicked;
      }
      var segmentFlags := SegmentFlags(h);
      o := MapFilePages(h, segmentFlags);
      if !o.Done? {
        if !o.Exhausted? {
          NotPlaced(e, h, t0);
        }
        return;
      }
      ghost var v1, t1 := View(), table;
      if h.memsz > h.filesz {
        o := HandleBssSection(h, segmentFlags);
        if !o.Done? {
          if !o.Exhausted? {
            NoBss(e, h, v0, t0, v1, t1);
          }
          return;
        }
      }
      SegmentOk(e, h, v0, t0, v1, t1);
      SegmentDone(e, h, v0, t0, v1, t1, View(), table);
    }

    // ---- relocations ----

    method CheckIsInLoad(offset: nat) returns (ok: bool)
      ensures ok <==> InLoad(e, offset)
    {
      for i := 0 to |e.headers|
        invariant forall h :: h in e.headers[..i] ==> !(h.kind == Load && h.vaddr <= offset < h.vaddr + h.memsz)
      {
        var h := e.headers[i];
        if h.kind == Load && h.vaddr <= offset && offset - h.vaddr < h.memsz {
          return true;
        }
      }
      return false;
    }

    /** Reads one table entry through the page table. */
    method ReadRelocation(relocationTable: nat, idx: nat) returns (o: Outcome, rela: Rela)
      requires Valid()
      ensures o.Done? || o.Panicked?
      ensures o.Done? <==> ReadRela(e, relocationTable, idx, View()).Some?
      ensures o.Done? ==> rela == ReadRela(e, relocationTable, idx, View()).value
    {
      hide Inv, Read, FrameList, Kernel.WellFormed, DecodeRela;
      rela := Rela(0, 0, 0);
      var offset := relocationTable + 24 * idx;
      var value := e.vao + offset;
      if offset >= U64 || !Accepted(value) {
        return Panicked, rela;
      }
      var addr := Linear(value);
      var buf := new byte[24];
      o := CopyFrom(addr, buf);
      if o.Done? {
        rela := DecodeRela(buf[..]);
      }
    }

    /** Stores base + addend at the target of an R_X86_64_RELATIVE entry. */
    method ApplyRelocation(rela: Rela) returns (o: Outcome)
      requires Valid()
      modifies this, allocator
      ensures Valid()
      ensures table.Keys <= old(table).Keys
      ensures o.Exhausted? ==> Dry()
      ensures Spent() <= old(Spent()) + Slack(o)
      ensures o.Done? ==> WordOf(e, rela, old(View())).Some? && Perms(table) == Perms(old(table))
      ensures o.Done? ==>
                var w := WordOf(e, rela, old(View())).value;
                View() == Overwrite(old(View()), w.addr, w.bytes)
      ensures o.Failed? ==> OutsideLoad(e, rela)
      ensures o.Panicked? ==> BadWord(e, rela, old(View()))
    {
      hide Cost, Inv, Read, FrameList, Perms, Kernel.WellFormed, Overwrite, ToLe, Readable, PagesMapped, InLoad;
      if rela.info / 0x1_0000_0000 != 0 {
        return Panicked;
      }
      if rela.info % 0x1_0000_0000 != 8 {
        return Panicked;
      }
      var inLoad := CheckIsInLoad(rela.offset);
      if !inLoad {
        return Failed("offset is not in load segment");
      }
      var value := e.vao + rela.addend;
      if !Accepted(e.vao + rela.offset) || !(0 <= value < U64) {
        return Panicked;
      }
      var addr := Linear(e.vao + rela.offset);
      MappedIsReadable(State(), addr, 8);
      o := CopyTo(addr, ToLe(value, 8));
    }

    /** The relocations of one Dynamic segment, in table order. */
    method HandleDynamicSegment(h: Header) returns (o: Outcome)
      requires Valid()
      modifies this, allocator
      ensures Valid()
      ensures table.Keys <= old(table).Keys
      ensures o.Exhausted? ==> Dry()
      ensures Spent() <= old(Spent()) + Slack(o)
      ensures o.Done? ==> TableOf(h.dynamic).Some? && Perms(table) == Perms(old(table))
      ensures o.Done? ==>
                var t := TableOf(h.dynamic).value;
                && Words(e, t.offset, t.count, old(View())).Some?
                && View() == ApplyAll(old(View()), Words(e, t.offset, t.count, old(View())).value)
      ensures o.Failed? || o.Panicked? ==> SectionStops(e, h.dynamic, old(View()), o.Failed?)
    {
      hide Cost, Inv, Read, FrameList, Perms, Kernel.WellFormed, Overwrite, ReadRela, WordOf, Words, ApplyAll,
        TableStops;
      var rela: Option<nat>, relaSize: Option<nat>, relaEnt: Option<nat> := None, None, None;
      for i := 0 to |h.dynamic|
        invariant Spent() <= old(Spent())
        invariant Valid() && View() == old(View()) && table == old(table)
        invariant ScanFold(h.dynamic[..i]) == Some(Scan(rela, relaSize, relaEnt))
      {
        var d := h.dynamic[i];
        assert h.dynamic[..i + 1][..i] == h.dynamic[..i];
        if ScanEntry(Scan(rela, relaSize, relaEnt), d).None? {
          ScanNone(h.dynamic, i + 1);
        }
        match d.tag {
          case TagRela =>
            if rela.Some? { return Failed("Dynamic section contains more than one Rela entry"); }
            rela := Some(d.value);
          case TagRelaSize =>
            if relaSize.Some? { return Failed("Dynamic section contains more than one RelaSize entry"); }
            relaSize := Some(d.value);
          case TagRelaEnt =>
            if relaEnt.Some? { return Failed("Dynamic section contains more than one RelaEnt entry"); }
            relaEnt := Some(d.value);
          case TagOther =>
          case TagInvalid => return Failed("invalid dynamic tag");
        }
      }
      assert h.dynamic[..|h.dynamic|] == h.dynamic;
      if rela.None? {
        if relaSize.Some? || relaEnt.Some? {
          return Failed("Rela entry is missing but RelaSize or RelaEnt have been provided");
        }
        NoWords(e, 0, View());
        return Done;
      }
      if relaSize.None? { return Failed("RelaSize entry is missing"); }
      if relaEnt.None? { return Failed("RelaEnt entry is missing"); }
      if relaEnt.value != 24 { return Panicked; }
      o := ApplyTable(rela.value, relaSize.value / 24);
    }

    /** Reads and applies the entries one after the other. */
    method ApplyTable(offset: nat, numEntries: nat) returns (o: Outcome)
      requires Valid()
      modifies this, allocator
      ensures Valid()
      ensures table.Keys <= old(table).Keys
      ensures o.Exhausted? ==> Dry()
      ensures Spent() <= old(Spent()) + Slack(o)
      ensures o.Done? ==>
                && Words(e, offset, numEntries, old(View())).Some?
                && View() == ApplyAll(old(View()), Words(e, offset, numEntries, old(View())).value)
                && Perms(table) == Perms(old(table))
      ensures o.Failed? || o.Panicked? ==> TableStops(e, offset, numEntries, old(View()), o.Failed?)
    {
      hide Cost, Inv, Read, FrameList, Perms, Kernel.WellFormed, Overwrite, ReadRela, WordOf, Words, ApplyAll,
        TableStops, OutsideLoad, BadWord;
      ghost var v0 := View();
      NoWords(e, offset, v0);
      for idx := 0 to numEntries
        invariant Spent() <= old(Spent())
        invariant Valid() && Perms(table) == Perms(old(table)) && table.Keys <= old(table).Keys
        invariant Words(e, offset, idx, v0).Some?
        invariant View() == ApplyAll(v0, Words(e, offset, idx, v0).value)
      {
        NextWord(e, offset, idx, v0);
        var rela;
        o, rela := ReadRelocation(offset, idx);
        if !o.Done? {
          assert StopsAt(e, offset, idx, v0, false);
          TableStopsAt(e, offset, numEntries, v0, idx, false);
          return;
        }
        o := ApplyRelocation(rela);
        if !o.Done? {
          if !o.Exhausted? {
            assert StopsAt(e, offset, idx, v0, o.Failed?);
            TableStopsAt(e, offset, numEntries, v0, idx, o.Failed?);
          }
          return;
        }
      }
      return Done;
    }

    // ---- protection ----

    /** Takes WRITABLE from every page the RELRO segment touches. */
    method HandleRelroSegment(h: Header) returns (o: Outcome)
      requires Valid()
      modifies this`table
      ensures Valid()
      ensures table.Keys <= old(table).Keys
      ensures o.Done? || o.Panicked?
      ensures o.Done? <==> RangeMapped(e, h, Perms(old(table)))
      ensures o.Done? ==> View() == old(View()) && Perms(table) == Strip(e, h, Perms(old(table)))
    {
      hide Cost, Inv, Read, FrameList, PageOf, Kernel.WellFormed;
      if !RangeOk(e, h) {
        return Panicked;
      }
      ghost var t0 := table;
      var page, endPage := e.FirstPage(h), e.LastPage(h);
      while page <= endPage
        invariant Valid() && View() == old(View())
        invariant page <= Max(endPage + 1, e.FirstPage(h))
        invariant forall p :: e.FirstPage(h) <= p < page ==> p in t0
        invariant StrippedUpTo(t0, table, e.FirstPage(h), page)
      {
        if page !in table {
          assert e.InSegment(h, page) && page !in Perms(t0);
          return Panicked;
        }
        var frame, flags := table[page].frame, table[page].flags;
        if flags.writable {
          FlagsKeep(State(), page, flags.(writable := false));
          table := table[page := Entry(frame, flags.(writable := false))];
        }
        page := page + 1;
      }
      StrippedAll(e, h, t0, table);
      return Done;
    }

    /** Drops the bookkeeping flag from the pages of one segment. */
    method RemoveCopiedIn(h: Header) returns (o: Outcome)
      requires Valid()
      modifies this`table
      ensures Valid()
      ensures table.Keys <= old(table).Keys
      ensures o.Done? || o.Panicked?
      ensures o.Done? <==> RangeMapped(e, h, Perms(old(table)))
      ensures View() == old(View()) && Perms(table) == Perms(old(table))
      ensures o.Done? ==> UncopiedBetween(old(table), table, e.FirstPage(h), e.LastPage(h) + 1)
    {
      hide Cost, Inv, Read, FrameList, PageOf, Kernel.WellFormed;
      if !RangeOk(e, h) {
        return Panicked;
      }
      ghost var t0 := table;
      var page, endPage := e.FirstPage(h), e.LastPage(h);
      while page <= endPage
        invariant Valid() && View() == old(View()) && Perms(table) == Perms(t0)
        invariant page <= Max(endPage + 1, e.FirstPage(h))
        invariant forall p :: e.FirstPage(h) <= p < page ==> p in t0
        invariant UncopiedBetween(t0, table, e.FirstPage(h), page)
      {
        if page !in table {
          assert e.InSegment(h, page);
          return Panicked;
        }
        var frame, flags := table[page].frame, table[page].flags;
        if flags.copied {
          FlagsKeep(State(), page, flags.(copied := false));
          table := table[page := Entry(frame, flags.(copied := false))];
        }
        page := page + 1;
      }
      return Done;
    }

    /** Drops the bookkeeping flag from the pages of all Load segments; panics where one of them is not mapped. */
    method RemoveCopiedFlags() returns (o: Outcome)
      requires Valid()
      modifies this`table
      ensures Valid()
      ensures table.Keys <= old(table).Keys
      ensures o.Done? || o.Panicked?
      ensures o.Done? <==> RangesOk(e, Perms(old(table)))
      ensures View() == old(View()) && Perms(table) == Perms(old(table))
      ensures o.Done? ==> forall p :: p in table && SegmentPage(e, |e.headers|, p) ==> !table[p].flags.copied
    {
      hide Cost, Inv, Read, FrameList, PageOf, Perms, Kernel.WellFormed, RangeMapped;
      for i := 0 to |e.headers|
        invariant Valid() && View() == old(View()) && Perms(table) == Perms(old(table))
        invariant table.Keys <= old(table).Keys
        invariant forall h :: h in e.headers[..i] && h.kind == Load ==> RangeMapped(e, h, Perms(old(table)))
        invariant forall p :: p in table && SegmentPage(e, i, p) ==> !table[p].flags.copied
      {
        var h := e.headers[i];
        if h.kind == Load {
          o := RemoveCopiedIn(h);
          if !o.Done? {
            return;
          }
        }
      }
      return Done;
    }

    // ---- the whole load ----

    method LoadAllSegments() returns (o: Outcome, tls: Option<TlsTemplate>)
      requires Valid() && table == map[]
      modifies this, allocator
      ensures Valid()
      ensures o.Exhausted? ==> Dry()
      ensures Spent() <= old(Spent()) + Slack(o)
      ensures forall p :: p in table ==> LoadPage(e, |e.headers|, p)
      ensures o.Done? ==> LoadFold(e, |e.headers|) == Some(Image(View(), Perms(table))) && tls == TlsOf(e, |e.headers|)
      ensures o.Failed? || o.Panicked? ==> SomeSegmentStops(e, o.Failed?)
    {
      hide Cost, Inv, Read, FrameList, PageOf, Kernel.WellFormed, LoadOk, AddSegment, AddPerms, HeaderPage, MapClash,
        BadRange, SomeSegmentStops;
      tls := None;
      EmptyView(State());
      for i := 0 to |e.headers|
        invariant Spent() <= old(Spent())
        invariant Valid()
        invariant forall p :: p in table ==> LoadPage(e, i, p)
        invariant LoadFold(e, i) == Some(Image(View(), Perms(table))) && tls == TlsOf(e, i)
      {
        var h := e.headers[i];
        match h.kind {
          case Load =>
            o := HandleLoadSegment(h);
            if !o.Done? {
              if !o.Exhausted? {
                SegmentStopsAt(e, i, o.Failed?);
              }
              return;
            }
          case Tls =>
            if tls.Some? {
              SegmentStopsAt(e, i, true);
              return Failed("multiple TLS segments not supported"), None;
            }
            if !(0 <= e.RawAddr(h) < U64) {
              SegmentStopsAt(e, i, false);
              return Panicked, None;
            }
            tls := Some(TlsTemplate(e.RawAddr(h), h.memsz, h.filesz));
          case _ =>
        }
      }
      o := Done;
    }

    method RelocateAll() returns (o: Outcome)
      requires Valid()
      modifies this, allocator
      ensures Valid()
      ensures table.Keys <= old(table).Keys
      ensures o.Exhausted? ==> Dry()
      ensures Spent() <= old(Spent()) + Slack(o)
      ensures o.Done? ==> DynamicFold(e, |e.headers|, old(View())).Some? && Perms(table) == Perms(old(table))
      ensures o.Done? ==> View() == ApplyAll(old(View()), DynamicFold(e, |e.headers|, old(View())).value)
      ensures o.Failed? || o.Panicked? ==> SomeRelocationStops(e, old(View()), o.Failed?)
    {
      hide Cost, Inv, Read, FrameList, PageOf, Perms, Kernel.WellFormed, TableOf, Words, Overwrite, SectionStops,
        SomeRelocationStops;
      ghost var v0 := View();
      for i := 0 to |e.headers|
        invariant Spent() <= old(Spent())
        invariant Valid() && Perms(table) == Perms(old(table)) && table.Keys <= old(table).Keys
        invariant DynamicFold(e, i, v0).Some?
        invariant View() == ApplyAll(v0, DynamicFold(e, i, v0).value)
      {
        var h := e.headers[i];
        if h.kind == Dynamic {
          ghost var ws, v := DynamicFold(e, i, v0).value, View();
          o := HandleDynamicSegment(h);
          if !o.Done? {
            if !o.Exhausted? {
              RelocationStopsAt(e, i, v0, o.Failed?);
            }
            return;
          }
          ApplyConcat(v0, ws, Words(e, TableOf(h.dynamic).value.offset, TableOf(h.dynamic).value.count, v).value);
        }
      }
      return Done;
    }

    method ProtectAll() returns (o: Outcome)
      requires Valid()
      modifies this`table
      ensures Valid()
      ensures table.Keys <= old(table).Keys
      ensures o.Done? || o.Panicked?
      ensures o.Done? <==> RelroFold(e, |e.headers|, Perms(old(table))).Some?
      ensures o.Done? ==> View() == old(View()) && Perms(table) == RelroFold(e, |e.headers|, Perms(old(table))).value
    {
      hide Cost, Inv, Read, FrameList, PageOf, Perms, Kernel.WellFormed, RangeMapped, Strip;
      ghost var perms := Perms(table);
      for i := 0 to |e.headers|
        invariant Valid() && View() == old(View()) && table.Keys <= old(table).Keys
        invariant RelroFold(e, i, perms) == Some(Perms(table))
      {
        var h := e.headers[i];
        if RelroFold(e, i + 1, perms).None? {
          RelroFoldNone(e, i + 1, |e.headers|, perms);
        }
        if h.kind == GnuRelro {
          o := HandleRelroSegment(h);
          if !o.Done? { return; }
        }
      }
      return Done;
    }

    /**
      Loads the kernel. Unless the allocator runs dry, it succeeds exactly where the flat specification
      gives an image, and then the page table shows that image; the file's own bytes never change, and
      only pages of Load segments are ever mapped.
    */
    method LoadSegments() returns (o: Outcome, tls: Option<TlsTemplate>)
      requires Valid() && table == map[]
      modifies this, allocator
      ensures Valid()
      ensures o.Exhausted? ==> Dry()
      ensures o.Done? ==>
                && LoadAll(e) == Some(Image(View(), Perms(table)))
                && tls == TlsOf(e, |e.headers|)
                && forall p :: p in table && SegmentPage(e, |e.headers|, p) ==> !table[p].flags.copied
      ensures o.Failed? ==> LoadFails(e)
      ensures o.Panicked? ==> LoadPanics(e)
      ensures o.Failed? || o.Panicked? ==> LoadAll(e).None?
      ensures forall p :: p in table ==> LoadPage(e, |e.headers|, p)
      ensures |allocator.given| <= |old(allocator.given)| + 8 * PageCount(e, |e.headers|) + 8
      ensures forall f :: f in e.FileFrames() ==> f in mem && mem[f] == e.base[f]
    {
      hide Cost, Inv, Read, FrameList, PageOf, Perms, Kernel.WellFormed, Kernel.FileFrames, LoadFold, DynamicFold,
        RelroFold, ApplyAll, TlsOf, LoadPage, SegmentPage, RangesOk, PageCount,
        SomeSegmentStops, SomeRelocationStops;
      CostOfNothing();
      o, tls := LoadAllSegments();
      CostBound(table);
      FewPages(e, |e.headers|, table.Keys);
      if o.Done? {
        o := RelocateAll();
        CostBound(table);
        FewPages(e, |e.headers|, table.Keys);
        if o.Done? {
          o := ProtectAll();
          if o.Done? {
            o := RemoveCopiedFlags();
          }
        }
      }
      NoImageIff(e);
      FileUnchanged(State(), e);
    }
  }
}
