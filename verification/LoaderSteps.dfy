/**
  The arithmetic and the view lemmas behind the loader's loops: what each page adds, and how the
  pages of one segment add up to its specification.
*/
module LoaderSteps {
  import opened Common
  import opened Paging
  import opened VirtualAddress
  import opened Elf
  import opened FrameAllocator

  /** Euclid's division is determined by its equation. */
  lemma DivMod(x: int, q: int, r: int)
    requires x == 4096 * q + r && 0 <= r < 4096
    ensures x / 4096 == q && x % 4096 == r
  {
  }

  lemma SegmentByteAt(e: Kernel, h: Header, a: int)
    requires var f := e.StartFrame(h) + (PageOf(a) - e.FirstPage(h));
             f in e.base && |e.base[f]| == 4096
    ensures var f := e.StartFrame(h) + (PageOf(a) - e.FirstPage(h));
            e.SegmentByte(h, a) == e.base[f][OffsetOf(a)]
  {
  }

  lemma FileViewGrows(e: Kernel, h: Header, hi: int)
    requires e.FirstPage(h) <= hi
    requires var f := e.StartFrame(h) + (hi - e.FirstPage(h));
             f in e.base && |e.base[f]| == 4096
    ensures var f := e.StartFrame(h) + (hi - e.FirstPage(h));
            FileView(e, h, hi) + PageView(hi, e.base[f]) == FileView(e, h, hi + 1)
  {
    hide Kernel.FirstPage, Kernel.StartFrame, Kernel.SegmentByte, PageOf, OffsetOf;
    forall a: int | PageOf(a) == hi
      ensures e.SegmentByte(h, a) == e.base[e.StartFrame(h) + (hi - e.FirstPage(h))][OffsetOf(a)]
    {
      SegmentByteAt(e, h, a);
    }
  }

  /** Every file page of the segment has a valid address. */
  predicate FileInSpace(e: Kernel, h: Header) {
    e.FirstPage(h) <= e.FileLast(h) ==> e.FileLast(h) < PAGES
  }

  /** The frames behind the file pages of a segment are frames of the file. */
  lemma FileFrames(e: Kernel, h: Header, pool: set<nat>)
    requires e.WellFormed(pool) && h in e.headers && h.kind == Load
    ensures 0 <= e.StartFrame(h) && e.FirstPage(h) <= e.FileLast(h) + 1 && 0 <= e.FirstPage(h) < PAGES
    ensures forall f: nat :: e.StartFrame(h) <= f <= e.EndFrame(h) ==>
              f in e.FileFrames() && f in e.base && f !in pool && |e.base[f]| == 4096
  {
    assert h.offset + h.filesz < e.len;
  }

  lemma FileUnchanged(s: Space, e: Kernel)
    requires Inv(s) && s.base == e.base && e.WellFormed(s.pool)
    ensures forall f :: f in e.FileFrames() ==> f in s.mem && s.mem[f] == e.base[f]
  {
  }

  lemma FileMappable(s: Space, f: nat, flags: Flags)
    requires Inv(s) && f in s.base && f in s.file && f !in s.pool && !flags.copied
    ensures Mappable(s, f, flags) && s.mem[f] == s.base[f] && |s.base[f]| == 4096
  {
  }

  /** View and permissions once the file pages below `page` have been mapped. */
  ghost predicate FileSoFar(v0: View, t0: map<int, Entry>, v: View, perms: map<int, Flags>,
                            e: Kernel, h: Header, page: int, flags: Flags) {
    && v == v0 + FileView(e, h, page)
    && perms == Perms(t0) + PagePerms(e.FirstPage(h), page, flags)
  }

  lemma NothingAdded(e: Kernel, h: Header, v: View, t: map<int, Entry>, flags: Flags)
    ensures FileSoFar(v, t, v, Perms(t), e, h, e.FirstPage(h), flags)
  {
    assert FileView(e, h, e.FirstPage(h)) == imap[];
    assert PagePerms(e.FirstPage(h), e.FirstPage(h), flags) == map[];
  }

  /** Mapping the frame behind the next file page. */
  lemma FilePageAdded(e: Kernel, h: Header, v0: View, t0: map<int, Entry>, v: View, t: map<int, Entry>,
                      w: View, u: map<int, Entry>, page: int, f: nat, flags: Flags)
    requires e.FirstPage(h) <= page && !flags.copied
    requires f == e.StartFrame(h) + (page - e.FirstPage(h))
    requires f in e.base && |e.base[f]| == 4096 && w == v + PageView(page, e.base[f])
    requires Perms(u) == Perms(t)[page := flags.(copied := false)]
    requires FileSoFar(v0, t0, v, Perms(t), e, h, page, flags)
    ensures FileSoFar(v0, t0, w, Perms(u), e, h, page + 1, flags)
  {
    FileViewGrows(e, h, page);
    AddThenAdd(v0, FileView(e, h, page), PageView(page, e.base[f]));
    PermsAdded(t0, t, u, e.FirstPage(h), page, flags);
  }

  lemma FileKey(e: Kernel, h: Header, v0: View, t0: map<int, Entry>, v: View, t: map<int, Entry>,
                page: int, flags: Flags)
    requires FileSoFar(v0, t0, v, Perms(t), e, h, page, flags)
    ensures page in t <==> page in t0
  {
    NextPageKey(t, t0, e.FirstPage(h), page, flags);
  }

  lemma AddThenAdd(a: View, b: View, c: View)
    ensures (a + b) + c == a + (b + c)
  {
  }

  lemma PermsAdded(t0: map<int, Entry>, t: map<int, Entry>, u: map<int, Entry>, first: int, page: int, flags: Flags)
    requires first <= page && !flags.copied
    requires Perms(t) == Perms(t0) + PagePerms(first, page, flags)
    requires Perms(u) == Perms(t)[page := flags.(copied := false)]
    ensures Perms(u) == Perms(t0) + PagePerms(first, page + 1, flags)
  {
  }

  ghost predicate NoneMapped(t: map<int, Entry>, lo: int, hi: int) {
    forall p :: lo <= p < hi ==> p !in t
  }

  /** Only pages of [lo, hi) have been added. */
  ghost predicate MappedOnly(was: map<int, Entry>, now: map<int, Entry>, lo: int, hi: int) {
    forall p :: p in now && p !in was ==> lo <= p < hi
  }

  lemma NextPageKey(t: map<int, Entry>, t0: map<int, Entry>, first: int, page: int, flags: Flags)
    requires Perms(t) == Perms(t0) + PagePerms(first, page, flags)
    ensures page in t <==> page in t0
  {
    assert page in t <==> page in Perms(t);
    assert !PageIn(first, page, page);
  }

  lemma EmptyView(s: Space)
    requires Inv(s) && s.table == map[]
    ensures Read(s) == imap[] && Perms(s.table) == map[]
  {
  }

  lemma {:induction false} ApplyConcat(v: View, a: seq<Write>, b: seq<Write>)
    ensures ApplyAll(v, a + b) == ApplyAll(ApplyAll(v, a), b)
    decreases |b|
  {
    if b == [] {
      assert a + b == a;
    } else {
      ApplyConcat(v, a, b[..|b| - 1]);
      assert (a + b)[..|a + b| - 1] == a + b[..|b| - 1];
    }
  }

  /** The pages that adding the segment maps. */
  predicate HeaderPage(e: Kernel, h: Header, page: int) {
    e.InFilePages(h, page) || (HasBss(h) && e.WholeZeroFirst(h) <= page <= e.LastPage(h))
  }

  /** `page` is one that one of the first n headers' Load segments maps. */
  ghost predicate LoadPage(e: Kernel, n: nat, page: int)
    requires n <= |e.headers|
  {
    exists i :: 0 <= i < n && e.headers[i].kind == Load && HeaderPage(e, e.headers[i], page)
  }

  /** `page` belongs to one of the first n headers' Load segments. */
  ghost predicate SegmentPage(e: Kernel, n: nat, page: int)
    requires n <= |e.headers|
  {
    exists i :: 0 <= i < n && e.headers[i].kind == Load && e.InSegment(e.headers[i], page)
  }

  lemma AddPermsPages(e: Kernel, h: Header, perms: map<int, Flags>, p: int)
    ensures p in AddPerms(e, h, perms) <==> p in perms || HeaderPage(e, h, p)
    ensures HeaderPage(e, h, p) ==> AddPerms(e, h, perms)[p] == SegmentFlags(h)
  {
    assert PageIn(e.FirstPage(h), e.FileLast(h) + 1, p) <==> e.InFilePages(h, p);
    assert PageIn(e.WholeZeroFirst(h), e.LastPage(h) + 1, p) <==> e.WholeZeroFirst(h) <= p <= e.LastPage(h);
  }

  /** The pages of the image are the pages the Load segments map. */
  lemma {:induction false} LoadFoldPages(e: Kernel, n: nat)
    requires n <= |e.headers| && LoadFold(e, n).Some?
    ensures forall p :: p in LoadFold(e, n).value.perms <==> LoadPage(e, n, p)
  {
    hide HeaderPage, AddPerms, AddSegment, LoadOk;
    if n > 0 {
      LoadFoldPages(e, n - 1);
      var h := e.headers[n - 1];
      forall p
        ensures p in LoadFold(e, n).value.perms <==> LoadPage(e, n, p)
      {
        assert LoadPage(e, n, p) <==> LoadPage(e, n - 1, p) || (h.kind == Load && HeaderPage(e, h, p));
        if h.kind == Load {
          AddPermsPages(e, h, LoadFold(e, n - 1).value.perms, p);
        }
      }
    }
  }

  lemma {:induction false} RelroKeys(e: Kernel, n: nat, perms: map<int, Flags>)
    requires n <= |e.headers| && RelroFold(e, n, perms).Some?
    ensures RelroFold(e, n, perms).value.Keys == perms.Keys
  {
    if n > 0 {
      RelroKeys(e, n - 1, perms);
    }
  }

  /** `now` is `was` without WRITABLE on the pages [lo, hi). */
  ghost predicate StrippedUpTo(was: map<int, Entry>, now: map<int, Entry>, lo: int, hi: int) {
    && now.Keys == was.Keys
    && forall p :: p in was ==>
         now[p].flags.(copied := false) ==
           (if lo <= p < hi then was[p].flags.(writable := false, copied := false) else was[p].flags.(copied := false))
  }

  lemma StrippedAll(e: Kernel, h: Header, was: map<int, Entry>, now: map<int, Entry>)
    requires StrippedUpTo(was, now, e.FirstPage(h), Max(e.FirstPage(h), e.LastPage(h) + 1))
    ensures Perms(now) == Strip(e, h, Perms(was))
  {
  }

  /** `now` is `was` without COPIED on the pages [lo, hi). */
  ghost predicate UncopiedBetween(was: map<int, Entry>, now: map<int, Entry>, lo: int, hi: int) {
    && now.Keys == was.Keys
    && forall p :: p in was ==>
         now[p] == (if lo <= p < hi then was[p].(flags := was[p].flags.(copied := false)) else was[p])
  }

  lemma NoWords(e: Kernel, offset: nat, v: View)
    ensures Words(e, offset, 0, v) == Some([]) && ApplyAll(v, []) == v
  {
  }

  /** What one more entry does. */
  lemma NextWord(e: Kernel, offset: nat, idx: nat, v0: View)
    requires Words(e, offset, idx, v0).Some?
    ensures var now := ApplyAll(v0, Words(e, offset, idx, v0).value);
            var r := ReadRela(e, offset, idx, now);
            if r.None? || WordOf(e, r.value, now).None? then Words(e, offset, idx + 1, v0).None?
            else
              var w := WordOf(e, r.value, now).value;
              && Words(e, offset, idx + 1, v0).Some?
              && ApplyAll(v0, Words(e, offset, idx + 1, v0).value) == Overwrite(now, w.addr, w.bytes)
  {
  }

  lemma NotPlaced(e: Kernel, h: Header, t: map<int, Entry>)
    ensures !Accepted(e.RawAddr(h)) || !FileInSpace(e, h) ==> BadRange(e, h, Perms(t))
    ensures !NoneMapped(t, e.FirstPage(h), e.FileLast(h) + 1) ==> MapClash(e, h, Perms(t))
  {
    if !NoneMapped(t, e.FirstPage(h), e.FileLast(h) + 1) {
      var p :| e.FirstPage(h) <= p < e.FileLast(h) + 1 && p in t;
      assert e.InFilePages(h, p) && p in Perms(t);
    }
  }

  /** The pages mapped once the file part is in place. */
  lemma KeysAfterFile(e: Kernel, h: Header, v0: View, t0: map<int, Entry>, v1: View, t1: map<int, Entry>, p: int)
    requires FileSoFar(v0, t0, v1, Perms(t1), e, h, e.FileLast(h) + 1, SegmentFlags(h))
    ensures p in t1 <==> p in t0 || e.InFilePages(h, p)
  {
    assert p in t1 <==> p in Perms(t1);
    assert p in t0 <==> p in Perms(t0);
    assert PageIn(e.FirstPage(h), e.FileLast(h) + 1, p) <==> e.InFilePages(h, p);
  }

  lemma BssPages(e: Kernel, h: Header)
    requires HasBss(h)
    ensures e.WholeZeroFirst(h) <= e.LastPage(h) + 1
  {
  }

  lemma NoBss(e: Kernel, h: Header, v0: View, t0: map<int, Entry>, v1: View, t1: map<int, Entry>)
    requires HasBss(h) && FileSoFar(v0, t0, v1, Perms(t1), e, h, e.FileLast(h) + 1, SegmentFlags(h))
    ensures !ZeroRangeValid(e, h) || PartialPageMissing(e, h, t1) ==> BadRange(e, h, Perms(t0))
    ensures !NoneMapped(t1, e.WholeZeroFirst(h), e.LastPage(h) + 1) ==> MapClash(e, h, Perms(t0))
  {
    hide Kernel.InFilePages, Kernel.WholeZeroFirst, Kernel.LastPage, FileSoFar, PageOf;
    KeysAfterFile(e, h, v0, t0, v1, t1, PageOf(e.ZeroStart(h)));
    if !NoneMapped(t1, e.WholeZeroFirst(h), e.LastPage(h) + 1) {
      var p :| e.WholeZeroFirst(h) <= p < e.LastPage(h) + 1 && p in t1;
      KeysAfterFile(e, h, v0, t0, v1, t1, p);
      assert p in Perms(t0) || e.InFilePages(h, p);
    }
  }

  /** What the two parts of a segment require of the table before it is what LoadOk requires. */
  lemma SegmentOk(e: Kernel, h: Header, v0: View, t0: map<int, Entry>, v1: View, t1: map<int, Entry>)
    requires Accepted(e.RawAddr(h)) && FileInSpace(e, h)
    requires NoneMapped(t0, e.FirstPage(h), e.FileLast(h) + 1)
    requires FileSoFar(v0, t0, v1, Perms(t1), e, h, e.FileLast(h) + 1, SegmentFlags(h))
    requires HasBss(h) ==>
               && ZeroRangeValid(e, h) && !PartialPageMissing(e, h, t1)
               && NoneMapped(t1, e.WholeZeroFirst(h), e.LastPage(h) + 1)
    ensures LoadOk(e, h, Perms(t0))
  {
    hide Kernel.FirstPage, Kernel.FileLast, Kernel.WholeZeroFirst, Kernel.LastPage, Kernel.ZeroStart, PageOf, FileSoFar;
    if HasBss(h) {
      KeysAfterFile(e, h, v0, t0, v1, t1, PageOf(e.ZeroStart(h)));
      forall p | e.WholeZeroFirst(h) <= p <= e.LastPage(h)
        ensures p !in Perms(t0) && !e.InFilePages(h, p)
      {
        KeysAfterFile(e, h, v0, t0, v1, t1, p);
      }
    }
  }

  lemma ViewDone(e: Kernel, h: Header, v0: View, v1: View, v2: View)
    requires v1 == v0 + FileView(e, h, e.FileLast(h) + 1)
    requires v2 == if HasBss(h) then ZeroedUpTo(e, h, v1, e.LastPage(h) + 1) else v1
    ensures v2 == AddSegment(e, h, v0)
  {
    hide Kernel.FileLast, Kernel.LastPage, FileView, ZeroedUpTo;
  }

  lemma PermsDone(e: Kernel, h: Header, p0: map<int, Flags>, p1: map<int, Flags>, p2: map<int, Flags>)
    requires p1 == p0 + PagePerms(e.FirstPage(h), e.FileLast(h) + 1, SegmentFlags(h))
    requires p2 == if HasBss(h) then p1 + PagePerms(e.WholeZeroFirst(h), e.LastPage(h) + 1, SegmentFlags(h)) else p1
    ensures p2 == AddPerms(e, h, p0)
  {
    hide Kernel.FirstPage, Kernel.FileLast, Kernel.WholeZeroFirst, Kernel.LastPage, PagePerms;
  }

  lemma SegmentDone(e: Kernel, h: Header, v0: View, t0: map<int, Entry>, v1: View, t1: map<int, Entry>,
                    v2: View, t2: map<int, Entry>)
    requires FileSoFar(v0, t0, v1, Perms(t1), e, h, e.FileLast(h) + 1, SegmentFlags(h))
    requires if HasBss(h) then BssSoFar(v1, t1, v2, Perms(t2), e, h, e.LastPage(h) + 1, SegmentFlags(h))
             else v2 == v1 && t2 == t1
    ensures v2 == AddSegment(e, h, v0) && Perms(t2) == AddPerms(e, h, Perms(t0))
  {
    hide Kernel.FirstPage, Kernel.FileLast, Kernel.WholeZeroFirst, Kernel.LastPage, Perms, PagePerms, FileView,
      ZeroedUpTo, AddSegment, AddPerms;
    ViewDone(e, h, v0, v1, v2);
    PermsDone(e, h, Perms(t0), Perms(t1), Perms(t2));
  }

  function Zeros(n: nat): (r: seq<byte>)
    ensures |r| == n && forall i :: 0 <= i < n ==> r[i] == 0
  {
    seq(n, i => 0)
  }

  ghost predicate PartialPageMissing(e: Kernel, h: Header, t: map<int, Entry>) {
    e.ZeroStart(h) % 4096 != 0 && PageOf(e.ZeroStart(h)) !in t
  }

  ghost predicate BssSoFar(v0: View, t0: map<int, Entry>, v: View, perms: map<int, Flags>,
                           e: Kernel, h: Header, page: int, flags: Flags) {
    && v == ZeroedUpTo(e, h, v0, page)
    && perms == Perms(t0) + PagePerms(e.WholeZeroFirst(h), page, flags)
  }

  lemma ZeroedGrows(e: Kernel, h: Header, v: View, page: int)
    requires e.WholeZeroFirst(h) <= page
    ensures ZeroedUpTo(e, h, v, page) + PageView(page, Zeros(4096)) == ZeroedUpTo(e, h, v, page + 1)
  {
    assert e.ZeroStart(h) <= page * 4096;
    assert forall a :: PageOf(a) == page ==> page * 4096 <= a;
  }

  /** Mapping a zeroed frame as the next BSS page. */
  lemma BssPageAdded(e: Kernel, h: Header, v0: View, t0: map<int, Entry>, v: View, t: map<int, Entry>,
                     w: View, u: map<int, Entry>, page: int, flags: Flags)
    requires e.WholeZeroFirst(h) <= page && !flags.copied
    requires w == v + PageView(page, Zeros(4096)) && Perms(u) == Perms(t)[page := flags.(copied := false)]
    requires BssSoFar(v0, t0, v, Perms(t), e, h, page, flags)
    ensures BssSoFar(v0, t0, w, Perms(u), e, h, page + 1, flags)
  {
    ZeroedGrows(e, h, v0, page);
    PermsAdded(t0, t, u, e.WholeZeroFirst(h), page, flags);
  }

  lemma BssKey(e: Kernel, h: Header, v0: View, t0: map<int, Entry>, v: View, t: map<int, Entry>,
               page: int, flags: Flags)
    requires BssSoFar(v0, t0, v, Perms(t), e, h, page, flags)
    ensures page in t <==> page in t0
  {
    NextPageKey(t, t0, e.WholeZeroFirst(h), page, flags);
  }

  lemma PartialZero(s: Space, e: Kernel, h: Header, v: View, perms: map<int, Flags>, flags: Flags)
    requires Inv(s) && e.ZeroStart(h) % 4096 != 0 && PageOf(e.ZeroStart(h)) in s.table
    requires v == Overwrite(Read(s), e.ZeroStart(h), Zeros(e.WholeZeroFirst(h) * 4096 - e.ZeroStart(h)))
    requires perms == Perms(s.table)
    ensures BssSoFar(Read(s), s.table, v, perms, e, h, e.WholeZeroFirst(h), flags)
  {
    var zs, hi := e.ZeroStart(h), e.WholeZeroFirst(h);
    forall a: int
      ensures PageOf(a) < hi && zs <= a <==> zs <= a < zs + (hi * 4096 - zs)
      ensures PageOf(a) < hi && zs <= a ==> PageOf(a) == PageOf(zs)
    {
    }
    hide PageOf, Inv;
    assert v == ZeroedUpTo(e, h, Read(s), hi);
    assert PagePerms(hi, hi, flags) == map[];
  }

  lemma NothingZeroed(e: Kernel, h: Header, v: View, t: map<int, Entry>, flags: Flags)
    requires e.ZeroStart(h) % 4096 == 0
    ensures BssSoFar(v, t, v, Perms(t), e, h, e.WholeZeroFirst(h), flags)
  {
    var hi := e.WholeZeroFirst(h);
    assert forall a :: e.ZeroStart(h) <= a ==> hi <= PageOf(a);
    assert ZeroedUpTo(e, h, v, hi) == v;
    assert PagePerms(hi, hi, flags) == map[];
  }

  ghost predicate PagesMapped(table: map<int, Entry>, addr: int, len: nat) {
    forall p :: PageOf(addr) <= p <= PageOf(addr + len - 1) ==> p in table
  }

  lemma KeysOfPerms(t: map<int, Entry>, u: map<int, Entry>)
    requires Perms(t) == Perms(u)
    ensures t.Keys == u.Keys
  {
    assert t.Keys == Perms(t).Keys && u.Keys == Perms(u).Keys;
  }

  lemma NextChunk(v0: View, v: View, w: View, addr: int, buf: seq<byte>, n: nat, len: nat)
    requires n + len <= |buf|
    requires v == Overwrite(v0, addr, buf[..n]) && w == Overwrite(v, addr + n, buf[n..n + len])
    ensures w == Overwrite(v0, addr, buf[..n + len])
  {
    OverwriteTwice(v0, addr, buf[..n], buf[n..n + len]);
    assert buf[..n] + buf[n..n + len] == buf[..n + len];
  }

  lemma Unreadable(s: Space, addr: int)
    requires Inv(s) && PageOf(addr) !in s.table
    ensures addr !in Read(s)
  {
  }

  lemma MappedIsReadable(s: Space, addr: int, len: nat)
    requires Inv(s) && 0 < len
    ensures Readable(Read(s), addr, len) <==> PagesMapped(s.table, addr, len)
  {
    if Readable(Read(s), addr, len) {
      forall p | PageOf(addr) <= p <= PageOf(addr + len - 1)
        ensures p in s.table
      {
        assert Max(addr, p * 4096) in Read(s);
      }
    }
  }

  lemma BytesConcat(v: View, addr: int, n: nat, len: nat)
    requires Readable(v, addr, n) && Readable(v, addr + n, len)
    ensures Readable(v, addr, n + len)
    ensures Bytes(v, addr, n + len) == Bytes(v, addr, n) + Bytes(v, addr + n, len)
  {
  }

  lemma ListIncreasing(allocator: LegacyFrameAllocator)
    requires allocator.Valid()
    ensures Distinct(allocator.Remaining())
  {
    var list := FrameList(allocator.original, allocator.first);
    FrameListIncreasing(allocator.original, allocator.first);
    forall i, j | 0 <= i < j < |allocator.Remaining()|
      ensures allocator.Remaining()[i] != allocator.Remaining()[j]
    {
      assert list[|allocator.given| + i] == allocator.Remaining()[i];
      assert list[|allocator.given| + j] == allocator.Remaining()[j];
    }
  }

  // ---- why a load stops ----

  /** An error: a page of the segment is mapped already, or is a file page and a zero page at once. */
  ghost predicate MapClash(e: Kernel, h: Header, perms: map<int, Flags>) {
    || (exists p :: e.InFilePages(h, p) && p in perms)
    || (HasBss(h) && exists p :: e.WholeZeroFirst(h) <= p <= e.LastPage(h) && (p in perms || e.InFilePages(h, p)))
  }

  /** A panic: an address is not valid, or the page to be zeroed in part is not there. */
  ghost predicate BadRange(e: Kernel, h: Header, perms: map<int, Flags>) {
    !Placeable(e, h) || (HasBss(h) && !PartialPageThere(e, h, perms))
  }

  lemma LoadOkIff(e: Kernel, h: Header, perms: map<int, Flags>)
    ensures LoadOk(e, h, perms) <==> !MapClash(e, h, perms) && !BadRange(e, h, perms)
  {
  }

  /** An error: a relocation of the supported kind whose target is outside the Load segments. */
  ghost predicate OutsideLoad(e: Kernel, r: Rela) { r.info == 8 && !InLoad(e, r.offset) }

  /** A panic: an unsupported kind, a value or address that is not valid, or a target that is not mapped. */
  ghost predicate BadWord(e: Kernel, r: Rela, v: View) {
    r.info != 8 || (InLoad(e, r.offset) && WordOf(e, r, v).None?)
  }

  ghost predicate StopsAt(e: Kernel, table: nat, k: nat, v: View, error: bool) {
    && Words(e, table, k, v).Some?
    && var now := ApplyAll(v, Words(e, table, k, v).value);
       var r := ReadRela(e, table, k, now);
       if error then r.Some? && OutsideLoad(e, r.value) else r.None? || BadWord(e, r.value, now)
  }

  /** Some entry of the table is the first that cannot be applied. */
  ghost predicate TableStops(e: Kernel, table: nat, n: nat, v: View, error: bool) {
    exists k: nat :: k < n && StopsAt(e, table, k, v, error)
  }

  lemma TableStopsAt(e: Kernel, table: nat, n: nat, v: View, k: nat, error: bool)
    requires k < n && StopsAt(e, table, k, v, error)
    ensures TableStops(e, table, n, v, error)
  {
  }

  /** The scan found all three values, but entries of another size than 24 bytes; that is a panic. */
  predicate OddEntrySize(ds: seq<DynEntry>) {
    var s := ScanFold(ds);
    s.Some? && s.value.rela.Some? && s.value.relaSize.Some? && s.value.relaEnt.Some? && s.value.relaEnt != Some(24)
  }

  ghost predicate SectionStops(e: Kernel, ds: seq<DynEntry>, v: View, error: bool) {
    || (TableOf(ds).None? && error == !OddEntrySize(ds))
    || (TableOf(ds).Some? && TableStops(e, TableOf(ds).value.offset, TableOf(ds).value.count, v, error))
  }

  /** Header i is the first that stops the mapping of segments. */
  ghost predicate SegmentStops(e: Kernel, i: int, error: bool) {
    && 0 <= i < |e.headers| && LoadFold(e, i).Some?
    && var h, perms := e.headers[i], LoadFold(e, i).value.perms;
       || (h.kind == Load && if error then MapClash(e, h, perms) else BadRange(e, h, perms))
       || (h.kind == Tls && if error then TlsOf(e, i).Some? else !(0 <= e.RawAddr(h) < U64))
  }

  /** Header i is the first that stops the relocation. */
  ghost predicate RelocationStops(e: Kernel, i: int, v: View, error: bool) {
    && 0 <= i < |e.headers| && DynamicFold(e, i, v).Some? && e.headers[i].kind == Dynamic
    && SectionStops(e, e.headers[i].dynamic, ApplyAll(v, DynamicFold(e, i, v).value), error)
  }

  ghost predicate SomeSegmentStops(e: Kernel, error: bool) { exists i :: SegmentStops(e, i, error) }

  lemma SegmentStopsAt(e: Kernel, i: int, error: bool)
    requires SegmentStops(e, i, error)
    ensures SomeSegmentStops(e, error)
  {
  }

  ghost predicate SomeRelocationStops(e: Kernel, v: View, error: bool) {
    exists i :: RelocationStops(e, i, v, error)
  }

  lemma RelocationStopsAt(e: Kernel, i: int, v: View, error: bool)
    requires RelocationStops(e, i, v, error)
    ensures SomeRelocationStops(e, v, error)
  {
  }

  /** Why load_segments returns an error. */
  ghost predicate LoadFails(e: Kernel) {
    || SomeSegmentStops(e, true)
    || (LoadFold(e, |e.headers|).Some? && SomeRelocationStops(e, LoadFold(e, |e.headers|).value.view, true))
  }

  /** Why it panics: as above, or a RELRO or Load range that is not valid or not mapped throughout. */
  ghost predicate LoadPanics(e: Kernel) {
    || SomeSegmentStops(e, false)
    || (LoadFold(e, |e.headers|).Some? && SomeRelocationStops(e, LoadFold(e, |e.headers|).value.view, false))
    || (Relocated(e).Some?
        && var perms := RelroFold(e, |e.headers|, LoadFold(e, |e.headers|).value.perms);
           perms.None? || !RangesOk(e, perms.value))
  }

  lemma {:induction false} SegmentsNoneIff(e: Kernel, n: nat)
    requires n <= |e.headers|
    ensures LoadFold(e, n).None? <==> exists i :: i < n && (SegmentStops(e, i, true) || SegmentStops(e, i, false))
  {
    hide LoadOk, AddSegment, AddPerms, MapClash, BadRange;
    if n > 0 {
      SegmentsNoneIff(e, n - 1);
      if LoadFold(e, n - 1).Some? {
        LoadOkIff(e, e.headers[n - 1], LoadFold(e, n - 1).value.perms);
        assert LoadFold(e, n).None? <==> SegmentStops(e, n - 1, true) || SegmentStops(e, n - 1, false);
      }
    }
  }

  lemma WordIff(e: Kernel, r: Rela, v: View)
    ensures WordOf(e, r, v).None? <==> OutsideLoad(e, r) || BadWord(e, r, v)
  {
    hide InLoad;
  }

  lemma {:induction false} TableNoneIff(e: Kernel, table: nat, n: nat, v: View)
    ensures Words(e, table, n, v).None? <==> TableStops(e, table, n, v, true) || TableStops(e, table, n, v, false)
  {
    hide ReadRela, WordOf, ApplyAll, OutsideLoad, BadWord;
    if n > 0 {
      TableNoneIff(e, table, n - 1, v);
      if Words(e, table, n - 1, v).Some? {
        var now := ApplyAll(v, Words(e, table, n - 1, v).value);
        var r := ReadRela(e, table, n - 1, now);
        if r.Some? {
          WordIff(e, r.value, now);
        }
        if Words(e, table, n, v).None? {
          assert StopsAt(e, table, n - 1, v, true) || StopsAt(e, table, n - 1, v, false);
        }
      } else {
        StopsSooner(e, table, n, v);
      }
      LaterStops(e, table, n, v);
    }
  }

  lemma StopsSooner(e: Kernel, table: nat, n: nat, v: View)
    requires 0 < n && (TableStops(e, table, n - 1, v, true) || TableStops(e, table, n - 1, v, false))
    ensures TableStops(e, table, n, v, true) || TableStops(e, table, n, v, false)
  {
    hide StopsAt;
    var error := TableStops(e, table, n - 1, v, true);
    var k: nat :| k < n - 1 && StopsAt(e, table, k, v, error);
    TableStopsAt(e, table, n, v, k, error);
  }

  lemma LaterStops(e: Kernel, table: nat, n: nat, v: View)
    requires 0 < n
    ensures forall error :: TableStops(e, table, n, v, error) ==>
              TableStops(e, table, n - 1, v, error) || StopsAt(e, table, n - 1, v, error)
  {
    hide StopsAt;
  }

  lemma {:induction false} DynamicNoneIff(e: Kernel, n: nat, v: View)
    requires n <= |e.headers|
    ensures DynamicFold(e, n, v).None? <==>
              exists i :: i < n && (RelocationStops(e, i, v, true) || RelocationStops(e, i, v, false))
  {
    hide Words, TableOf, ApplyAll, TableStops, OddEntrySize;
    if n > 0 {
      DynamicNoneIff(e, n - 1, v);
      if DynamicFold(e, n - 1, v).Some? && e.headers[n - 1].kind == Dynamic {
        var t, now := TableOf(e.headers[n - 1].dynamic), ApplyAll(v, DynamicFold(e, n - 1, v).value);
        if t.Some? {
          TableNoneIff(e, t.value.offset, t.value.count, now);
        }
        assert DynamicFold(e, n, v).None? <==>
            RelocationStops(e, n - 1, v, true) || RelocationStops(e, n - 1, v, false);
      }
    }
  }

  /** There is no image exactly if there is a reason to return an error or to panic. */
  lemma NoImageIff(e: Kernel)
    ensures LoadAll(e).None? <==> LoadFails(e) || LoadPanics(e)
  {
    hide LoadFold, DynamicFold, RelroFold, RangesOk, ApplyAll, SegmentStops, RelocationStops;
    var n := |e.headers|;
    SegmentsNoneIff(e, n);
    StopsWithin(e);
    if LoadFold(e, n).Some? {
      DynamicNoneIff(e, n, LoadFold(e, n).value.view);
    }
  }

  lemma StopsWithin(e: Kernel)
    ensures forall i, error :: SegmentStops(e, i, error) ==> i < |e.headers|
    ensures forall i, v, error :: RelocationStops(e, i, v, error) ==> i < |e.headers|
  {
  }

  // ---- frames taken ----

  ghost function CopiedPages(t: map<int, Entry>): set<int> { set p | p in t && t[p].flags.copied }

  /** Four frames for every mapped page and every copied page: itself or its copy, and three for page tables. */
  ghost function Cost(t: map<int, Entry>): int { 4 * |t.Keys| + 4 * |CopiedPages(t)| }

  lemma CostOfNothing()
    ensures Cost(map[]) == 0
  {
    assert CopiedPages(map[]) == {};
  }

  lemma CostOfNew(t: map<int, Entry>, page: int, x: Entry)
    requires page !in t && !x.flags.copied
    ensures Cost(t[page := x]) == Cost(t) + 4
  {
    assert t[page := x].Keys == t.Keys + {page};
    assert CopiedPages(t[page := x]) == CopiedPages(t);
  }

  lemma CostOfCopy(t: map<int, Entry>, page: int, x: Entry)
    requires page in t && !t[page].flags.copied && x.flags.copied
    ensures Cost(t[page := x]) == Cost(t) + 4
  {
    assert t[page := x].Keys == t.Keys;
    assert CopiedPages(t[page := x]) == CopiedPages(t) + {page};
  }

  lemma CostOfGone(t: map<int, Entry>, page: int)
    requires page in t && !t[page].flags.copied
    ensures Cost(t - {page}) == Cost(t) - 4
  {
    assert t.Keys == (t - {page}).Keys + {page};
    assert CopiedPages(t - {page}) == CopiedPages(t);
  }

  lemma SmallerSet(a: set<int>, b: set<int>)
    requires a <= b
    ensures |a| <= |b|
  {
    assert b == a + (b - a);
  }

  lemma CostBound(t: map<int, Entry>)
    ensures Cost(t) <= 8 * |t.Keys|
  {
    SmallerSet(CopiedPages(t), t.Keys);
  }

  function Span(lo: int, hi: int): nat { if lo < hi then hi - lo else 0 }

  /** The number of pages a segment maps, and that of all Load segments among the first n headers. */
  function HeaderPageCount(e: Kernel, h: Header): nat {
    Span(e.FirstPage(h), e.FileLast(h) + 1) + if HasBss(h) then Span(e.WholeZeroFirst(h), e.LastPage(h) + 1) else 0
  }

  function PageCount(e: Kernel, n: nat): nat
    requires n <= |e.headers|
  {
    if n == 0 then 0
    else PageCount(e, n - 1) + if e.headers[n - 1].kind == Load then HeaderPageCount(e, e.headers[n - 1]) else 0
  }

  lemma {:induction false} FewInSpan(pages: set<int>, lo: int, hi: int)
    requires forall p :: p in pages ==> lo <= p < hi
    ensures |pages| <= Span(lo, hi)
    decreases Span(lo, hi)
  {
    if lo < hi {
      FewInSpan(pages - {hi - 1}, lo, hi - 1);
      SmallerSet(pages, (pages - {hi - 1}) + {hi - 1});
    } else {
      NoneOf(pages);
    }
  }

  lemma FewInHeader(e: Kernel, h: Header, pages: set<int>)
    requires forall p :: p in pages ==> HeaderPage(e, h, p)
    ensures |pages| <= HeaderPageCount(e, h)
  {
    var file := set p | p in pages && e.InFilePages(h, p);
    FewInSpan(file, e.FirstPage(h), e.FileLast(h) + 1);
    assert pages == file + (pages - file);
    if HasBss(h) {
      FewInSpan(pages - file, e.WholeZeroFirst(h), e.LastPage(h) + 1);
    } else {
      assert pages - file == {};
    }
  }

  lemma LoadPageSplit(e: Kernel, n: nat, p: int)
    requires 0 < n <= |e.headers| && LoadPage(e, n, p)
    ensures LoadPage(e, n - 1, p) || (e.headers[n - 1].kind == Load && HeaderPage(e, e.headers[n - 1], p))
  {
    hide HeaderPage;
  }

  /** No more pages than the headers ask for. */
  lemma {:induction false} FewPages(e: Kernel, n: nat, pages: set<int>)
    requires n <= |e.headers| && forall p :: p in pages ==> LoadPage(e, n, p)
    ensures |pages| <= PageCount(e, n)
  {
    if n == 0 {
      NoneOf(pages);
      return;
    }
    hide HeaderPage, HeaderPageCount, LoadPage;
    var h := e.headers[n - 1];
    var before := set p | p in pages && LoadPage(e, n - 1, p);
    forall p | p in pages - before
      ensures h.kind == Load && HeaderPage(e, h, p)
    {
      LoadPageSplit(e, n, p);
    }
    FewPages(e, n - 1, before);
    if h.kind == Load {
      FewInHeader(e, h, pages - before);
    } else {
      NoneOf(pages - before);
    }
    assert pages == before + (pages - before);
  }
}
