/** What the loaded image is, byte by byte and page by page, for every kernel file. */
module LoaderTheorems {
  import opened Common
  import opened Paging
  import opened VirtualAddress
  import opened Elf
  import opened LoaderSteps

  // ---- regular headers ----

  /** A Load header whose file part ends first and agrees with its address modulo the page size. */
  predicate Regular(e: Kernel, h: Header) { e.Congruent(h) && h.filesz <= h.memsz }

  ghost predicate AllRegular(e: Kernel) {
    e.start % 4096 == 0 && forall h :: h in e.headers && h.kind == Load ==> Regular(e, h)
  }

  /** Which file byte a file page shows: displaced by the skew, which is 0 exactly for congruent headers. */
  lemma Displaced(e: Kernel, h: Header, a: int)
    ensures e.SegmentByte(h, a) == e.FileByte(h.offset + (a - e.Addr(h)) + e.Skew(h))
    ensures e.start % 4096 == 0 ==> (e.Congruent(h) <==> e.Skew(h) == 0)
  {
    var x := e.start + (h.offset + (a - e.Addr(h)) + e.Skew(h));
    var f := e.StartFrame(h) + (PageOf(a) - e.FirstPage(h));
    assert x == 4096 * f + OffsetOf(a);
    DivMod(x, f, OffsetOf(a));
    if e.start % 4096 == 0 {
      DivMod(e.start + h.offset, e.start / 4096 + h.offset / 4096, h.offset % 4096);
    }
  }

  /** The pages of a regular segment: file pages first, the zero pages right behind them. */
  lemma RegularShape(e: Kernel, h: Header)
    requires e.start % 4096 == 0 && Regular(e, h)
    ensures e.FileLast(h) == PageOf(e.ZeroStart(h) - 1)
    ensures e.FirstPage(h) <= e.FileLast(h) + 1 && e.FileLast(h) <= e.LastPage(h)
    ensures HasBss(h) ==> e.WholeZeroFirst(h) == e.FileLast(h) + 1 <= e.LastPage(h) + 1
    ensures e.ZeroStart(h) % 4096 != 0 ==> e.InFilePages(h, PageOf(e.ZeroStart(h)))
    ensures !HasBss(h) ==> e.FileLast(h) == e.LastPage(h)
  {
    var q := e.start / 4096;
    assert e.start + h.offset == 4096 * (q + h.offset / 4096) + h.offset % 4096;
    DivMod(e.start + h.offset, q + h.offset / 4096, h.offset % 4096);
    var last := e.start + h.offset + h.filesz - 1;
    var shift := q + h.offset / 4096 - e.FirstPage(h);
    assert last == (e.ZeroStart(h) - 1) + 4096 * shift;
    DivMod(last, (e.ZeroStart(h) - 1) / 4096 + shift, (e.ZeroStart(h) - 1) % 4096);
  }

  /** A regular segment maps exactly the pages it meets. */
  lemma RegularPages(e: Kernel, h: Header, p: int)
    requires e.start % 4096 == 0 && Regular(e, h)
    ensures HeaderPage(e, h, p) <==> e.InSegment(h, p)
  {
    hide Kernel.FirstPage, Kernel.FileLast, Kernel.LastPage, Kernel.WholeZeroFirst;
    RegularShape(e, h);
  }

  lemma RegularLoadPages(e: Kernel, n: nat, p: int)
    requires n <= |e.headers| && AllRegular(e)
    ensures LoadPage(e, n, p) <==> SegmentPage(e, n, p)
  {
    hide HeaderPage, Kernel.InSegment, Regular;
    if i :| 0 <= i < n && e.headers[i].kind == Load && HeaderPage(e, e.headers[i], p) {
      RegularPages(e, e.headers[i], p);
    }
    if i :| 0 <= i < n && e.headers[i].kind == Load && e.InSegment(e.headers[i], p) {
      RegularPages(e, e.headers[i], p);
    }
  }

  /** What a regular segment shows: file bytes, then zeros. */
  ghost function SegmentView(e: Kernel, h: Header): View {
    imap a: int | e.InSegment(h, PageOf(a)) :: if HasBss(h) && e.ZeroStart(h) <= a then 0 else e.SegmentByte(h, a)
  }

  ghost predicate Covering(v: View, perms: map<int, Flags>) {
    forall a :: a in v <==> PageOf(a) in perms
  }

  lemma RegularOk(e: Kernel, h: Header, perms: map<int, Flags>)
    requires e.start % 4096 == 0 && Regular(e, h)
    ensures LoadOk(e, h, perms) <==> Placeable(e, h) && forall p :: e.InSegment(h, p) ==> p !in perms
  {
    hide Kernel.FirstPage, Kernel.FileLast, Kernel.LastPage, Kernel.WholeZeroFirst, Kernel.ZeroStart, PageOf, Placeable;
    RegularShape(e, h);
    if LoadOk(e, h, perms) {
      forall p | e.InSegment(h, p)
        ensures p !in perms
      {
        if !e.InFilePages(h, p) {
          assert e.WholeZeroFirst(h) <= p <= e.LastPage(h);
        }
      }
    }
    if Placeable(e, h) && forall p :: e.InSegment(h, p) ==> p !in perms {
      forall p | e.InFilePages(h, p) ensures p !in perms { assert e.InSegment(h, p); }
      forall p | HasBss(h) && e.WholeZeroFirst(h) <= p <= e.LastPage(h)
        ensures p !in perms && !e.InFilePages(h, p)
      {
        assert e.InSegment(h, p);
      }
    }
  }

  lemma PageOrder(a: int, b: int)
    ensures a <= b ==> PageOf(a) <= PageOf(b)
    ensures PageOf(a) <= PageOf(b - 1) ==> a < b || PageOf(b) == PageOf(b - 1)
    ensures b <= a ==> PageOf(b) <= PageOf(a)
    ensures PageOf(b - 1) < PageOf(a) ==> b <= a
  {
  }

  lemma TailAt(e: Kernel, h: Header, a: int)
    requires e.start % 4096 == 0 && Regular(e, h)
    ensures e.ZeroStart(h) <= a ==> e.FirstPage(h) <= PageOf(a)
    ensures a < e.ZeroStart(h) ==> PageOf(a) <= e.FileLast(h)
    ensures e.FileLast(h) < PageOf(a) ==> e.ZeroStart(h) <= a
    ensures e.FileLast(h) <= e.LastPage(h) && (!HasBss(h) ==> e.FileLast(h) == e.LastPage(h))
  {
    RegularShape(e, h);
  }

  /** Adding a segment, byte by byte. */
  lemma AddSegmentAt(e: Kernel, h: Header, v: View, a: int)
    ensures var zero := HasBss(h) && e.ZeroStart(h) <= a && PageOf(a) <= e.LastPage(h);
            && (a in AddSegment(e, h, v) <==> a in v || e.InFilePages(h, PageOf(a)) || zero)
            && (zero ==> AddSegment(e, h, v)[a] == 0)
            && (!zero && e.InFilePages(h, PageOf(a)) ==> AddSegment(e, h, v)[a] == e.SegmentByte(h, a))
            && (!zero && !e.InFilePages(h, PageOf(a)) && a in v ==> AddSegment(e, h, v)[a] == v[a])
  {
    hide Kernel.FirstPage, Kernel.FileLast, Kernel.LastPage, Kernel.ZeroStart, Kernel.SegmentByte, PageOf;
  }

  lemma RegularAddAt(e: Kernel, h: Header, v: View, a: int)
    requires e.start % 4096 == 0 && Regular(e, h) && (a in v ==> !e.InSegment(h, PageOf(a)))
    ensures a in AddSegment(e, h, v) <==> a in v || a in SegmentView(e, h)
    ensures a in SegmentView(e, h) ==> AddSegment(e, h, v)[a] == SegmentView(e, h)[a]
    ensures a in v ==> a !in SegmentView(e, h) && AddSegment(e, h, v)[a] == v[a]
  {
    hide Kernel.FirstPage, Kernel.FileLast, Kernel.LastPage, Kernel.ZeroStart, PageOf, Kernel.SegmentByte, Regular,
      AddSegment;
    TailAt(e, h, a);
    AddSegmentAt(e, h, v, a);
  }

  /** Adding a regular segment adds what it shows. */
  lemma RegularAdd(e: Kernel, h: Header, v: View, perms: map<int, Flags>)
    requires e.start % 4096 == 0 && Regular(e, h) && Covering(v, perms) && LoadOk(e, h, perms)
    ensures AddSegment(e, h, v) == v + SegmentView(e, h)
  {
    RegularOk(e, h, perms);
    hide Kernel.InSegment, PageOf, Placeable, LoadOk, Regular, Covering, AddSegment, SegmentView;
    forall a: int
      ensures a in AddSegment(e, h, v) <==> a in v + SegmentView(e, h)
      ensures a in AddSegment(e, h, v) ==> AddSegment(e, h, v)[a] == (v + SegmentView(e, h))[a]
    {
      NotBoth(e, h, v, perms, a);
      RegularAddAt(e, h, v, a);
    }
  }

  lemma NotBoth(e: Kernel, h: Header, v: View, perms: map<int, Flags>, a: int)
    requires Covering(v, perms) && forall p :: e.InSegment(h, p) ==> p !in perms
    ensures a in v ==> !e.InSegment(h, PageOf(a))
  {
  }

  /** The view covers exactly the mapped pages. */
  lemma AddCovers(e: Kernel, h: Header, v: View, perms: map<int, Flags>)
    requires Covering(v, perms) && LoadOk(e, h, perms)
    ensures Covering(AddSegment(e, h, v), AddPerms(e, h, perms))
  {
    BssStart(e, h);
    hide Kernel.FirstPage, Kernel.FileLast, Kernel.LastPage, Kernel.WholeZeroFirst, Kernel.ZeroStart, PageOf,
      Placeable, Kernel.SegmentByte, AddPerms;
    forall a: int
      ensures a in AddSegment(e, h, v) <==> PageOf(a) in AddPerms(e, h, perms)
    {
      AddPermsPages(e, h, perms, PageOf(a));
      PageOrder(a, e.ZeroStart(h));
    }
  }

  lemma BssStart(e: Kernel, h: Header)
    ensures forall a :: e.WholeZeroFirst(h) <= PageOf(a) ==> e.ZeroStart(h) <= a
    ensures forall a :: e.ZeroStart(h) <= a && PageOf(a) < e.WholeZeroFirst(h) ==>
              e.ZeroStart(h) % 4096 != 0 && PageOf(a) == PageOf(e.ZeroStart(h))
  {
  }

  lemma {:induction false} FoldCovers(e: Kernel, n: nat)
    requires n <= |e.headers| && LoadFold(e, n).Some?
    ensures Covering(LoadFold(e, n).value.view, LoadFold(e, n).value.perms)
  {
    hide AddSegment, AddPerms, LoadOk, PageOf;
    if n > 0 {
      FoldCovers(e, n - 1);
      if e.headers[n - 1].kind == Load {
        AddCovers(e, e.headers[n - 1], LoadFold(e, n - 1).value.view, LoadFold(e, n - 1).value.perms);
      }
    }
  }

  // ---- which pages ----

  /** The page ranges share no page (an empty range shares none). */
  predicate PagesApart(e: Kernel, g: Header, h: Header) {
    e.LastPage(g) < e.FirstPage(h) || e.LastPage(h) < e.FirstPage(g)
      || e.LastPage(g) < e.FirstPage(g) || e.LastPage(h) < e.FirstPage(h)
  }

  /** A checkable condition on the headers alone. */
  ghost predicate Loadable(e: Kernel, n: nat)
    requires n <= |e.headers|
  {
    && (forall i :: 0 <= i < n && e.headers[i].kind == Load ==> Placeable(e, e.headers[i]))
    && (forall i, j :: 0 <= i < j < n && e.headers[i].kind == Load && e.headers[j].kind == Load ==>
          PagesApart(e, e.headers[i], e.headers[j]))
    && (forall i :: 0 <= i < n && e.headers[i].kind == Tls ==> 0 <= e.RawAddr(e.headers[i]) < U64)
    && (forall i, j :: 0 <= i < j < n ==> !(e.headers[i].kind == Tls && e.headers[j].kind == Tls))
  }

  lemma ApartIff(e: Kernel, g: Header, h: Header)
    ensures PagesApart(e, g, h) <==> forall p :: e.InSegment(g, p) ==> !e.InSegment(h, p)
  {
    if !PagesApart(e, g, h) {
      var p := Max(e.FirstPage(g), e.FirstPage(h));
      assert e.InSegment(g, p) && e.InSegment(h, p);
    }
  }

  lemma {:induction false} TlsOfSome(e: Kernel, n: nat)
    requires n <= |e.headers|
    ensures TlsOf(e, n).Some? <==> exists i :: 0 <= i < n && e.headers[i].kind == Tls
  {
    if n > 0 {
      TlsOfSome(e, n - 1);
    }
  }

  lemma ApartFromAll(e: Kernel, n: nat, h: Header, perms: map<int, Flags>)
    requires n <= |e.headers| && forall p :: p in perms <==> SegmentPage(e, n, p)
    ensures (forall p :: e.InSegment(h, p) ==> p !in perms) <==>
            forall i :: 0 <= i < n && e.headers[i].kind == Load ==> PagesApart(e, e.headers[i], h)
  {
    hide Kernel.InSegment, PagesApart;
    if forall p :: e.InSegment(h, p) ==> p !in perms {
      forall i | 0 <= i < n && e.headers[i].kind == Load
        ensures PagesApart(e, e.headers[i], h)
      {
        forall p | e.InSegment(e.headers[i], p)
          ensures !e.InSegment(h, p)
        {
          assert SegmentPage(e, n, p);
        }
        ApartIff(e, e.headers[i], h);
      }
    }
    if forall i :: 0 <= i < n && e.headers[i].kind == Load ==> PagesApart(e, e.headers[i], h) {
      forall p | e.InSegment(h, p)
        ensures p !in perms
      {
        if SegmentPage(e, n, p) {
          var i :| 0 <= i < n && e.headers[i].kind == Load && e.InSegment(e.headers[i], p);
          ApartIff(e, e.headers[i], h);
        }
      }
    }
  }

  lemma RegularFoldPages(e: Kernel, n: nat)
    requires n <= |e.headers| && AllRegular(e) && LoadFold(e, n).Some?
    ensures forall p :: p in LoadFold(e, n).value.perms <==> SegmentPage(e, n, p)
  {
    LoadFoldPages(e, n);
    forall p
      ensures p in LoadFold(e, n).value.perms <==> SegmentPage(e, n, p)
    {
      RegularLoadPages(e, n, p);
    }
  }

  ghost predicate ApartFromFirst(e: Kernel, n: nat, h: Header)
    requires n <= |e.headers|
  {
    forall i :: 0 <= i < n && e.headers[i].kind == Load ==> PagesApart(e, e.headers[i], h)
  }

  /** What one more header adds to the condition. */
  lemma LoadableMore(e: Kernel, n: nat)
    requires n < |e.headers|
    ensures var h := e.headers[n];
            Loadable(e, n + 1) <==>
              && Loadable(e, n)
              && (h.kind == Load ==> Placeable(e, h) && ApartFromFirst(e, n, h))
              && (h.kind == Tls ==> TlsOf(e, n).None? && 0 <= e.RawAddr(h) < U64)
  {
    hide Placeable, PagesApart;
    TlsOfSome(e, n);
  }

  /** The segments load exactly when they fit the address space, share no page, and there is at most one TLS header. */
  lemma {:induction false} LoadableIff(e: Kernel, n: nat)
    requires n <= |e.headers| && AllRegular(e)
    ensures LoadFold(e, n).Some? <==> Loadable(e, n)
  {
    hide Placeable, PagesApart, AddSegment, AddPerms, LoadOk, Kernel.InSegment, Regular, SegmentPage;
    if n > 0 {
      LoadableIff(e, n - 1);
      LoadableMore(e, n - 1);
      hide Loadable;
      var h := e.headers[n - 1];
      if LoadFold(e, n - 1).Some? && h.kind == Load {
        RegularFoldPages(e, n - 1);
        RegularOk(e, h, LoadFold(e, n - 1).value.perms);
        ApartFromAll(e, n - 1, h, LoadFold(e, n - 1).value.perms);
      }
    }
  }

  /** Two segments of half a page each, one right behind the other on the same page. */
  function LowerHalf(): Header { Header(Load, 0x1000, 0x1000, 0x800, 0x800, true, false, 0x1000, []) }

  function UpperHalf(): Header { Header(Load, 0x1800, 0x1800, 0x800, 0x800, false, true, 0x1000, []) }

  function ThreeFrames(): Memory { map[0x100 := Zeros(4096), 0x101 := Zeros(4096), 0x102 := Zeros(4096)] }

  function TwoHalves(): Kernel { Kernel([LowerHalf(), UpperHalf()], 0x10_0000, 0x3000, 0x80_0000_0000, ThreeFrames()) }

  lemma HalfIs(h: Header)
    requires h == LowerHalf() || h == UpperHalf()
    ensures var e := TwoHalves();
            && e.Addr(h) == 0x80_0000_0000 + h.vaddr && e.FirstPage(h) == e.LastPage(h) == 0x800_0001
            && e.FileLast(h) == e.FirstPage(h) && e.RawAddr(h) == e.Addr(h)
  {
  }

  lemma HalvesAre()
    ensures var e, g, h := TwoHalves(), LowerHalf(), UpperHalf();
            && e.start % 4096 == 0 && Regular(e, g) && Regular(e, h) && Placeable(e, g) && Placeable(e, h)
            && e.Addr(g) + g.memsz == e.Addr(h) && !PagesApart(e, g, h)
  {
    HalfIs(LowerHalf());
    HalfIs(UpperHalf());
    hide Kernel.Addr, Kernel.FirstPage, Kernel.LastPage, Kernel.FileLast, Kernel.RawAddr, PageOf;
  }

  lemma HalvesInMemory()
    ensures TwoHalves().WellFormed({})
  {
    forall f | f in TwoHalves().FileFrames()
      ensures f in ThreeFrames() && |ThreeFrames()[f]| == 4096
    {
      assert 0x100 <= f < 0x103;
    }
  }

  /** Sharing a page is enough to fail: these two have no byte in common. */
  lemma SharedPageExample()
    ensures var e, g, h := TwoHalves(), LowerHalf(), UpperHalf();
            && e.headers == [g, h] && g.kind == h.kind == Load && AllRegular(e) && Placeable(e, g) && Placeable(e, h)
            && e.Addr(g) + g.memsz == e.Addr(h) && e.WellFormed({})
            && LoadFold(e, 1).Some? && LoadAll(e).None?
  {
    hide LoadFold, Placeable, Regular, PagesApart, Kernel.Addr, Kernel.WellFormed;
    HalvesAre();
    HalvesInMemory();
    LoadableIff(TwoHalves(), 1);
    LoadableIff(TwoHalves(), 2);
    assert !PagesApart(TwoHalves(), TwoHalves().headers[0], TwoHalves().headers[1]);
  }

  /** Every RELRO range is valid and touches pages of Load segments only. */
  ghost predicate RelroInside(e: Kernel, n: nat)
    requires n <= |e.headers|
  {
    forall i :: 0 <= i < n && e.headers[i].kind == GnuRelro ==> RangeInside(e, e.headers[i])
  }

  ghost predicate RangeInside(e: Kernel, h: Header) {
    RangeOk(e, h) && forall p :: e.InSegment(h, p) ==> SegmentPage(e, |e.headers|, p)
  }

  lemma {:induction false} RelroIff(e: Kernel, n: nat, perms: map<int, Flags>)
    requires n <= |e.headers| && forall p :: p in perms <==> SegmentPage(e, |e.headers|, p)
    ensures RelroFold(e, n, perms).Some? <==> RelroInside(e, n)
  {
    hide RangeOk, SegmentPage, Kernel.InSegment, Strip;
    if n > 0 {
      RelroIff(e, n - 1, perms);
      if RelroFold(e, n - 1, perms).Some? {
        RelroKeys(e, n - 1, perms);
        var now := RelroFold(e, n - 1, perms).value;
        assert forall p :: p in now <==> p in perms;
      }
    }
  }

  /** A Load segment whose range is valid has all its pages mapped. */
  lemma RangesIff(e: Kernel, perms: map<int, Flags>)
    requires forall p :: p in perms <==> SegmentPage(e, |e.headers|, p)
    ensures RangesOk(e, perms) <==> forall h :: h in e.headers && h.kind == Load ==> RangeOk(e, h)
  {
    hide RangeOk, Kernel.InSegment;
    forall h | h in e.headers && h.kind == Load && RangeOk(e, h)
      ensures RangeMapped(e, h, perms)
    {
      forall p | e.InSegment(h, p)
        ensures p in perms
      {
        assert SegmentPage(e, |e.headers|, p);
      }
    }
    if RangesOk(e, perms) {
      forall h | h in e.headers && h.kind == Load
        ensures RangeOk(e, h)
      {
        assert RangeMapped(e, h, perms);
      }
    }
  }

  /**
    When the whole load succeeds: the segments can be mapped, their ends are valid addresses, the
    relocations can be applied, and every RELRO range stays on pages of Load segments.
  */
  lemma LoadAllIff(e: Kernel)
    requires AllRegular(e)
    ensures LoadAll(e).Some? <==>
              && Loadable(e, |e.headers|)
              && (forall h :: h in e.headers && h.kind == Load ==> RangeOk(e, h))
              && Relocated(e).Some?
              && RelroInside(e, |e.headers|)
  {
    hide AllRegular, Loadable, LoadFold, DynamicFold, RelroFold, RelroInside, RangesOk, RangeOk, ApplyAll;
    var n := |e.headers|;
    LoadableIff(e, n);
    if LoadFold(e, n).Some? {
      var perms := LoadFold(e, n).value.perms;
      RegularFoldPages(e, n);
      RelroIff(e, n, perms);
      if RelroFold(e, n, perms).Some? {
        RelroKeys(e, n, perms);
        RangesIff(e, RelroFold(e, n, perms).value);
      }
    }
  }

  // ---- which bytes ----

  predicate CoversByte(w: Write, a: int) { w.addr <= a < w.addr + |w.bytes| }

  /** Write k is the last one to cover byte a. */
  ghost predicate LastCover(ws: seq<Write>, k: int, a: int) {
    0 <= k < |ws| && CoversByte(ws[k], a) && forall j :: k < j < |ws| ==> !CoversByte(ws[j], a)
  }

  /** After any list of writes, each byte is that of the last write covering it, or the old byte. */
  lemma {:induction false} ApplyAllAt(v: View, ws: seq<Write>, a: int)
    ensures a in ApplyAll(v, ws) <==> a in v
    ensures forall k :: a in v && LastCover(ws, k, a) ==> ApplyAll(v, ws)[a] == ws[k].bytes[a - ws[k].addr]
    ensures a in v && (forall w :: w in ws ==> !CoversByte(w, a)) ==> ApplyAll(v, ws)[a] == v[a]
    decreases |ws|
  {
    if ws != [] {
      var init, last := ws[..|ws| - 1], ws[|ws| - 1];
      ApplyAllAt(v, init, a);
      if !CoversByte(last, a) {
        forall k | LastCover(ws, k, a)
          ensures LastCover(init, k, a) && ws[k] == init[k]
        {
        }
      }
      assert last in ws && forall w :: w in init ==> w in ws;
    }
  }

  lemma {:induction false} LastCoverExists(ws: seq<Write>, a: int)
    ensures (exists k :: LastCover(ws, k, a)) || forall w :: w in ws ==> !CoversByte(w, a)
    decreases |ws|
  {
    if ws != [] {
      var init, last := ws[..|ws| - 1], ws[|ws| - 1];
      LastCoverExists(init, a);
      if CoversByte(last, a) {
        assert LastCover(ws, |ws| - 1, a);
      } else if k :| LastCover(init, k, a) {
        assert LastCover(ws, k, a);
      }
    }
  }

  /** Storing the same words a second time changes nothing. */
  lemma ApplyTwice(v: View, ws: seq<Write>)
    ensures ApplyAll(ApplyAll(v, ws), ws) == ApplyAll(v, ws)
  {
    var once := ApplyAll(v, ws);
    forall a: int
      ensures a in ApplyAll(once, ws) <==> a in once
      ensures a in once ==> ApplyAll(once, ws)[a] == once[a]
    {
      ApplyAllAt(v, ws, a);
      ApplyAllAt(once, ws, a);
      LastCoverExists(ws, a);
    }
  }

  /** A page mapped before the segment is added is neither one of its file pages nor one of its zero pages. */
  lemma OldPage(e: Kernel, n: nat, a: int)
    requires n < |e.headers| && LoadFold(e, n + 1).Some? && e.headers[n].kind == Load
    requires PageOf(a) in LoadFold(e, n).value.perms
    ensures !HeaderPage(e, e.headers[n], PageOf(a))
  {
    hide AddSegment, AddPerms, Placeable;
  }

  /** One of the headers i, .., n - 1 zeroes address a. */
  ghost predicate Zeroed(e: Kernel, i: nat, n: nat, a: int)
    requires i <= n <= |e.headers|
  {
    exists j :: i <= j < n && e.headers[j].kind == Load && HasBss(e.headers[j])
                && e.ZeroStart(e.headers[j]) <= a && PageOf(a) <= e.LastPage(e.headers[j])
  }

  /** For any headers at all: a file page shows its frame, except where a segment's end is zeroed. */
  lemma {:induction false} FilePageBytes(e: Kernel, n: nat, i: nat, a: int)
    requires i < n <= |e.headers| && LoadFold(e, n).Some?
    requires e.headers[i].kind == Load && e.InFilePages(e.headers[i], PageOf(a))
    ensures a in LoadFold(e, n).value.view && PageOf(a) in LoadFold(e, n).value.perms
    ensures LoadFold(e, n).value.view[a] == if Zeroed(e, i, n, a) then 0 else e.SegmentByte(e.headers[i], a)
  {
    hide LoadOk, Kernel.InFilePages, Kernel.LastPage, Kernel.ZeroStart, Kernel.SegmentByte, PageOf, AddPerms,
      AddSegment, HasBss;
    var h := e.headers[n - 1];
    var zeroedHere := h.kind == Load && HasBss(h) && e.ZeroStart(h) <= a && PageOf(a) <= e.LastPage(h);
    assert Zeroed(e, i, n, a) <==> (i < n - 1 && Zeroed(e, i, n - 1, a)) || zeroedHere;
    if i < n - 1 {
      FilePageBytes(e, n - 1, i, a);
      if h.kind == Load {
        OldPage(e, n - 1, a);
      }
    }
    if h.kind == Load {
      AddSegmentAt(e, h, LoadFold(e, n - 1).value.view, a);
      AddPermsPages(e, h, LoadFold(e, n - 1).value.perms, PageOf(a));
    }
  }

  lemma SegmentAlone(e: Kernel, n: nat, i: nat, a: int)
    requires i < n < |e.headers| && AllRegular(e) && LoadFold(e, n + 1).Some?
    requires e.headers[i].kind == Load && e.InSegment(e.headers[i], PageOf(a)) && e.headers[n].kind == Load
    ensures a !in SegmentView(e, e.headers[n])
  {
    hide LoadOk, HeaderPage, Regular, PageOf;
    RegularFoldPages(e, n);
    assert SegmentPage(e, n, PageOf(a));
    OldPage(e, n, a);
    RegularPages(e, e.headers[n], PageOf(a));
  }

  /** Before relocation, a byte on a page of Load segment i is that segment's byte. */
  lemma {:induction false} SegmentBytes(e: Kernel, n: nat, i: nat, a: int)
    requires i < n <= |e.headers| && AllRegular(e) && LoadFold(e, n).Some?
    requires e.headers[i].kind == Load && e.InSegment(e.headers[i], PageOf(a))
    ensures a in LoadFold(e, n).value.view
    ensures LoadFold(e, n).value.view[a] == SegmentView(e, e.headers[i])[a]
  {
    hide AddSegment, AddPerms, LoadOk, Regular, PageOf, Kernel.SegmentByte, Kernel.ZeroStart, Kernel.FirstPage,
      Kernel.LastPage;
    if e.headers[n - 1].kind == Load {
      FoldCovers(e, n - 1);
      RegularAdd(e, e.headers[n - 1], LoadFold(e, n - 1).value.view, LoadFold(e, n - 1).value.perms);
    }
    if i < n - 1 {
      SegmentBytes(e, n - 1, i, a);
      if e.headers[n - 1].kind == Load {
        SegmentAlone(e, n - 1, i, a);
      }
    }
  }

  lemma LoadAllParts(e: Kernel)
    requires LoadAll(e).Some?
    ensures LoadFold(e, |e.headers|).Some? && Relocated(e).Some?
    ensures LoadAll(e).value.view == ApplyAll(LoadFold(e, |e.headers|).value.view, Relocated(e).value)
    ensures RelroFold(e, |e.headers|, LoadFold(e, |e.headers|).value.perms) == Some(LoadAll(e).value.perms)
  {
  }

  lemma InSegmentAt(e: Kernel, h: Header, k: nat)
    requires k < h.memsz
    ensures e.InSegment(h, PageOf(e.Addr(h) + k))
  {
  }

  /** Byte `a` of `v` is as specified: the last word covering it, else `otherwise`. */
  ghost predicate ByteIs(v: View, ws: seq<Write>, a: int, otherwise: byte) {
    && a in v
    && (forall j :: LastCover(ws, j, a) ==> v[a] == ws[j].bytes[a - ws[j].addr])
    && ((forall w :: w in ws ==> !CoversByte(w, a)) ==> v[a] == otherwise)
  }

  /**
    The image after a successful load: byte k of a Load segment is the byte of the last relocation
    word covering it, else the file byte, else zero.
  */
  lemma LoadedByte(e: Kernel, i: nat, k: nat)
    requires LoadAll(e).Some? && AllRegular(e)
    requires i < |e.headers| && e.headers[i].kind == Load && k < e.headers[i].memsz
    ensures Relocated(e).Some?
    ensures var h := e.headers[i];
            ByteIs(LoadAll(e).value.view, Relocated(e).value, e.Addr(h) + k,
                   if k < h.filesz then e.FileByte(h.offset + k) else 0)
  {
    hide LoadAll, LoadFold, Relocated, ApplyAll, PageOf, Kernel.InSegment, Kernel.SegmentByte, Kernel.FileByte,
      Kernel.Skew;
    LoadAllParts(e);
    var h := e.headers[i];
    var a := e.Addr(h) + k;
    InSegmentAt(e, h, k);
    Displaced(e, h, a);
    SegmentBytes(e, |e.headers|, i, a);
    ApplyAllAt(LoadFold(e, |e.headers|).value.view, Relocated(e).value, a);
  }

  /**
    Without any regularity: the bytes of the file pages are those of the file, displaced by the skew of
    their header, so an incongruent segment loads without complaint and shows the wrong file bytes.
  */
  lemma LoadedFileByte(e: Kernel, i: nat, a: int)
    requires LoadAll(e).Some? && i < |e.headers| && e.headers[i].kind == Load
    requires e.InFilePages(e.headers[i], PageOf(a))
    ensures Relocated(e).Some?
    ensures var h := e.headers[i];
            ByteIs(LoadAll(e).value.view, Relocated(e).value, a,
                   if Zeroed(e, i, |e.headers|, a) then 0 else e.FileByte(h.offset + (a - e.Addr(h)) + e.Skew(h)))
  {
    hide LoadAll, LoadFold, Relocated, ApplyAll, PageOf, Kernel.InFilePages, Kernel.SegmentByte, Kernel.FileByte,
      Kernel.Skew, Zeroed;
    LoadAllParts(e);
    Displaced(e, e.headers[i], a);
    FilePageBytes(e, |e.headers|, i, a);
    ApplyAllAt(LoadFold(e, |e.headers|).value.view, Relocated(e).value, a);
  }

  // ---- which words ----

  /** Write w is what an R_X86_64_RELATIVE entry asks for: base + addend at base + offset, in a Load segment. */
  ghost predicate Stores(e: Kernel, w: Write, r: Rela) {
    && r.info == 8 && InLoad(e, r.offset)
    && w.addr == Linear(e.vao + r.offset)
    && |w.bytes| == 8 && FromLe(w.bytes) == e.vao + r.addend
  }

  /** The word is there: base + addend is read at base + offset. */
  ghost predicate ReadsBack(e: Kernel, v: View, w: Write, r: Rela) {
    Stores(e, w, r) && Readable(v, w.addr, 8) && FromLe(Bytes(v, w.addr, 8)) == e.vao + r.addend
  }

  lemma WordStores(e: Kernel, r: Rela, v: View)
    requires WordOf(e, r, v).Some?
    ensures Stores(e, WordOf(e, r, v).value, r) && Readable(v, WordOf(e, r, v).value.addr, 8)
  {
    assert Pow256(8) == U64;
    LeRoundTrip(e.vao + r.addend, 8);
  }

  lemma SameReadable(v: View, ws: seq<Write>, addr: int)
    ensures Readable(ApplyAll(v, ws), addr, 8) <==> Readable(v, addr, 8)
  {
    forall a: int
      ensures a in ApplyAll(v, ws) <==> a in v
    {
      ApplyAllAt(v, ws, a);
    }
  }

  /** Word k of a table is the one asked for by entry k, as read once the words before it are stored. */
  lemma {:induction false} TableWord(e: Kernel, table: nat, n: nat, v: View, k: nat)
    requires Words(e, table, n, v).Some? && k < n
    ensures var ws := Words(e, table, n, v).value;
            && |ws| == n
            && ReadRela(e, table, k, ApplyAll(v, ws[..k])).Some?
            && Stores(e, ws[k], ReadRela(e, table, k, ApplyAll(v, ws[..k])).value)
            && Readable(v, ws[k].addr, 8)
  {
    hide Stores, WordOf, ReadRela, ApplyAll, Readable;
    var prev, ws := Words(e, table, n - 1, v).value, Words(e, table, n, v).value;
    WordsCount(e, table, n, v);
    if k < n - 1 {
      TableWord(e, table, n - 1, v, k);
      assert ws[..k] == prev[..k];
    } else {
      assert ws[..k] == prev;
      var now := ApplyAll(v, prev);
      WordStores(e, ReadRela(e, table, k, now).value, now);
      SameReadable(v, prev, ws[k].addr);
    }
  }

  lemma {:induction false} WordsCount(e: Kernel, table: nat, n: nat, v: View)
    requires Words(e, table, n, v).Some?
    ensures |Words(e, table, n, v).value| == n
  {
    hide WordOf, ReadRela, ApplyAll;
    if n > 0 {
      WordsCount(e, table, n - 1, v);
    }
  }

  lemma {:induction false} DynamicStores(e: Kernel, n: nat, v: View, w: Write)
    requires n <= |e.headers| && DynamicFold(e, n, v).Some? && w in DynamicFold(e, n, v).value
    ensures Readable(v, w.addr, 8) && exists r :: Stores(e, w, r)
  {
    hide Stores, Words, TableOf, ApplyAll, ReadRela, Readable;
    var prev := DynamicFold(e, n - 1, v).value;
    if w in prev {
      DynamicStores(e, n - 1, v, w);
    } else {
      var t, now := TableOf(e.headers[n - 1].dynamic).value, ApplyAll(v, prev);
      var ws := Words(e, t.offset, t.count, now).value;
      var k :| 0 <= k < |ws| && ws[k] == w;
      WordsCount(e, t.offset, t.count, now);
      TableWord(e, t.offset, t.count, now, k);
      SameReadable(v, prev, w.addr);
    }
  }

  /** A relocated word no later word overlaps reads as base + addend in the loaded image. */
  lemma LoadedWord(e: Kernel, j: nat)
    requires LoadAll(e).Some? && Relocated(e).Some? && j < |Relocated(e).value|
    requires var ws := Relocated(e).value;
             forall l, a :: j < l < |ws| && CoversByte(ws[j], a) ==> !CoversByte(ws[l], a)
    ensures exists r :: ReadsBack(e, LoadAll(e).value.view, Relocated(e).value[j], r)
  {
    hide LoadAll, LoadFold, ApplyAll, DynamicFold;
    LoadAllParts(e);
    var ws, v := Relocated(e).value, LoadAll(e).value.view;
    DynamicStores(e, |e.headers|, LoadFold(e, |e.headers|).value.view, ws[j]);
    SameReadable(LoadFold(e, |e.headers|).value.view, ws, ws[j].addr);
    var r :| Stores(e, ws[j], r);
    forall a | CoversByte(ws[j], a)
      ensures v[a] == ws[j].bytes[a - ws[j].addr]
    {
      assert LastCover(ws, j, a);
      ApplyAllAt(LoadFold(e, |e.headers|).value.view, ws, a);
    }
    assert Bytes(v, ws[j].addr, 8) == ws[j].bytes;
    assert ReadsBack(e, v, ws[j], r);
  }

  // ---- the dynamic section ----

  /** The one value of a tag, and whether the tag occurs. */
  ghost predicate ValueOf(ds: seq<DynEntry>, tag: DynTag, v: Option<nat>) {
    && (v.Some? <==> exists i :: 0 <= i < |ds| && ds[i].tag == tag)
    && forall i :: 0 <= i < |ds| && ds[i].tag == tag ==> v == Some(ds[i].value)
  }

  ghost predicate TagsOnce(ds: seq<DynEntry>) {
    && (forall i :: 0 <= i < |ds| ==> ds[i].tag != TagInvalid)
    && forall i, j :: 0 <= i < j < |ds| && ds[i].tag == ds[j].tag ==> ds[i].tag == TagOther
  }

  lemma ValueMore(ds: seq<DynEntry>, d: DynEntry, tag: DynTag, v: Option<nat>)
    requires ValueOf(ds, tag, v)
    ensures d.tag != tag ==> ValueOf(ds + [d], tag, v)
    ensures d.tag == tag && v.None? ==> ValueOf(ds + [d], tag, Some(d.value))
    ensures d.tag == tag && v.Some? && tag != TagOther ==> !TagsOnce(ds + [d])
    ensures d.tag == tag && v.None? && d.tag != TagInvalid && TagsOnce(ds) ==> TagsOnce(ds + [d])
  {
    var all := ds + [d];
    assert all[|ds|] == d;
    assert forall i :: 0 <= i < |ds| ==> all[i] == ds[i];
  }

  /** The scan succeeds iff every entry decodes and no table tag is repeated; then it finds each tag's value. */
  lemma {:induction false} ScanIs(ds: seq<DynEntry>)
    ensures ScanFold(ds).Some? <==> TagsOnce(ds)
    ensures ScanFold(ds).Some? ==>
              && ValueOf(ds, TagRela, ScanFold(ds).value.rela)
              && ValueOf(ds, TagRelaSize, ScanFold(ds).value.relaSize)
              && ValueOf(ds, TagRelaEnt, ScanFold(ds).value.relaEnt)
    decreases |ds|
  {
    hide ValueOf;
    if ds != [] {
      var init, d := ds[..|ds| - 1], ds[|ds| - 1];
      ScanIs(init);
      assert ds == init + [d];
      if ScanFold(init).Some? {
        var s := ScanFold(init).value;
        ValueMore(init, d, TagRela, s.rela);
        ValueMore(init, d, TagRelaSize, s.relaSize);
        ValueMore(init, d, TagRelaEnt, s.relaEnt);
      }
    } else {
      NoValues();
    }
  }

  lemma NoValues()
    ensures ValueOf([], TagRela, None) && ValueOf([], TagRelaSize, None) && ValueOf([], TagRelaEnt, None)
  {
  }

  // ---- decoding first ----

  /** The words of the first n entries, all read before any word is stored. */
  ghost function DecodedFirst(e: Kernel, table: nat, n: nat, v: View): Option<seq<Write>> {
    if n == 0 then Some([])
    else
      var prev := DecodedFirst(e, table, n - 1, v);
      var r := ReadRela(e, table, n - 1, v);
      if prev.None? || r.None? then None
      else
        var w := WordOf(e, r.value, v);
        if w.None? then None else Some(prev.value + [w.value])
  }

  /** Address a belongs to one of the first n entries of the table. */
  ghost predicate InTable(e: Kernel, table: nat, n: nat, a: int) {
    exists idx: nat :: idx < n && EntryAddr(e, table, idx) <= a < EntryAddr(e, table, idx) + 24
  }

  ghost predicate Apart(e: Kernel, table: nat, n: nat, ws: seq<Write>) {
    forall w, a :: w in ws && CoversByte(w, a) ==> !InTable(e, table, n, a)
  }

  /** No decoded word touches the table. */
  ghost predicate TableApart(e: Kernel, table: nat, n: nat, v: View) {
    forall m: nat :: m <= n && DecodedFirst(e, table, m, v).Some? ==>
      Apart(e, table, n, DecodedFirst(e, table, m, v).value)
  }

  lemma ReadRelaSame(e: Kernel, table: nat, idx: nat, n: nat, v: View, ws: seq<Write>)
    requires idx < n && Apart(e, table, n, ws)
    ensures ReadRela(e, table, idx, ApplyAll(v, ws)) == ReadRela(e, table, idx, v)
  {
    hide EntryAddr;
    var addr, now := EntryAddr(e, table, idx), ApplyAll(v, ws);
    forall a: int
      ensures a in now <==> a in v
      ensures addr <= a < addr + 24 && a in v ==> now[a] == v[a]
    {
      ApplyAllAt(v, ws, a);
      if addr <= a < addr + 24 {
        assert InTable(e, table, n, a);
      }
    }
    if Readable(v, addr, 24) {
      assert Bytes(now, addr, 24) == Bytes(v, addr, 24);
    }
  }

  lemma WordOfSame(e: Kernel, r: Rela, v: View, ws: seq<Write>)
    ensures WordOf(e, r, ApplyAll(v, ws)) == WordOf(e, r, v)
  {
    SameReadable(v, ws, Linear(e.vao + r.offset));
  }

  lemma {:induction false} DecodePrefix(e: Kernel, table: nat, m: nat, n: nat, v: View)
    requires m <= n && TableApart(e, table, n, v)
    ensures Words(e, table, m, v) == DecodedFirst(e, table, m, v)
  {
    hide ReadRela, WordOf, ApplyAll, Apart;
    if m > 0 {
      DecodePrefix(e, table, m - 1, n, v);
      var prev := DecodedFirst(e, table, m - 1, v);
      if prev.Some? {
        ReadRelaSame(e, table, m - 1, n, v, prev.value);
        var r := ReadRela(e, table, m - 1, v);
        if r.Some? {
          WordOfSame(e, r.value, v, prev.value);
        }
      }
    }
  }

  /** Then reading each entry only after the words before it were stored gives the same words. */
  lemma DecodeFirst(e: Kernel, table: nat, n: nat, v: View)
    requires TableApart(e, table, n, v)
    ensures Words(e, table, n, v) == DecodedFirst(e, table, n, v)
  {
    DecodePrefix(e, table, n, n, v);
  }

  /** Entry idx can be read and asks for a word that can be stored. */
  ghost predicate EntryOk(e: Kernel, table: nat, idx: nat, v: View) {
    ReadRela(e, table, idx, v).Some? && WordOf(e, ReadRela(e, table, idx, v).value, v).Some?
  }

  lemma {:induction false} DecodedIff(e: Kernel, table: nat, n: nat, v: View)
    ensures DecodedFirst(e, table, n, v).Some? <==> forall idx: nat :: idx < n ==> EntryOk(e, table, idx, v)
  {
    hide ReadRela, WordOf;
    if n > 0 {
      DecodedIff(e, table, n - 1, v);
      assert EntryOk(e, table, n - 1, v) <==>
          ReadRela(e, table, n - 1, v).Some? && WordOf(e, ReadRela(e, table, n - 1, v).value, v).Some?;
    }
  }

  /** When a table apart from its targets can be applied: every entry is one that could be applied on its own, first. */
  lemma WordsIff(e: Kernel, table: nat, n: nat, v: View)
    requires TableApart(e, table, n, v)
    ensures Words(e, table, n, v).Some? <==> forall idx: nat :: idx < n ==> EntryOk(e, table, idx, v)
  {
    hide Words, DecodedFirst, TableApart, EntryOk;
    DecodeFirst(e, table, n, v);
    DecodedIff(e, table, n, v);
  }

  lemma {:induction false} DecodedSame(e: Kernel, table: nat, m: nat, n: nat, v: View, ws: seq<Write>)
    requires m <= n && Apart(e, table, n, ws)
    ensures DecodedFirst(e, table, m, ApplyAll(v, ws)) == DecodedFirst(e, table, m, v)
  {
    hide ReadRela, WordOf, ApplyAll, Apart;
    if m > 0 {
      DecodedSame(e, table, m - 1, n, v, ws);
      ReadRelaSame(e, table, m - 1, n, v, ws);
      var r := ReadRela(e, table, m - 1, v);
      if r.Some? {
        WordOfSame(e, r.value, v, ws);
      }
    }
  }

  /** A table apart from its targets may be applied again: the same words are read and nothing changes. */
  lemma TableTwice(e: Kernel, table: nat, n: nat, v: View)
    requires TableApart(e, table, n, v) && Words(e, table, n, v).Some?
    ensures var ws := Words(e, table, n, v).value;
            var once := ApplyAll(v, ws);
            Words(e, table, n, once) == Some(ws) && ApplyAll(once, ws) == once
  {
    hide Words, DecodedFirst, ApplyAll, Apart;
    DecodeFirst(e, table, n, v);
    var ws := Words(e, table, n, v).value;
    forall m: nat | m <= n
      ensures DecodedFirst(e, table, m, ApplyAll(v, ws)) == DecodedFirst(e, table, m, v)
    {
      DecodedSame(e, table, m, n, v, ws);
    }
    DecodeFirst(e, table, n, ApplyAll(v, ws));
    ApplyTwice(v, ws);
  }

  // ---- which permissions ----

  ghost predicate InRelro(e: Kernel, n: nat, page: int)
    requires n <= |e.headers|
  {
    exists j :: 0 <= j < n && e.headers[j].kind == GnuRelro && e.InSegment(e.headers[j], page)
  }

  lemma {:induction false} SegmentFlagsAt(e: Kernel, n: nat, i: nat, page: int)
    requires i < n <= |e.headers| && LoadFold(e, n).Some?
    requires e.headers[i].kind == Load && HeaderPage(e, e.headers[i], page)
    ensures page in LoadFold(e, n).value.perms
    ensures LoadFold(e, n).value.perms[page] == SegmentFlags(e.headers[i])
  {
    hide AddSegment, AddPerms, LoadOk, HeaderPage, Kernel.InFilePages;
    if i < n - 1 {
      SegmentFlagsAt(e, n - 1, i, page);
    }
    if e.headers[n - 1].kind == Load {
      AddPermsPages(e, e.headers[n - 1], LoadFold(e, n - 1).value.perms, page);
      if i < n - 1 {
        OldPage(e, n - 1, page * 4096);
        AddPermsKeep(e, e.headers[n - 1], LoadFold(e, n - 1).value.perms, page);
      }
    }
  }

  lemma AddPermsKeep(e: Kernel, h: Header, perms: map<int, Flags>, page: int)
    requires page in perms && !HeaderPage(e, h, page)
    ensures AddPerms(e, h, perms)[page] == perms[page]
  {
  }

  lemma {:induction false} RelroFlagsAt(e: Kernel, n: nat, perms: map<int, Flags>, page: int)
    requires n <= |e.headers| && RelroFold(e, n, perms).Some? && page in perms
    ensures page in RelroFold(e, n, perms).value
    ensures RelroFold(e, n, perms).value[page] ==
              if InRelro(e, n, page) then perms[page].(writable := false) else perms[page]
  {
    if n > 0 {
      RelroFlagsAt(e, n - 1, perms, page);
      var here := e.headers[n - 1].kind == GnuRelro && e.InSegment(e.headers[n - 1], page);
      assert InRelro(e, n, page) <==> InRelro(e, n - 1, page) || here;
    }
  }

  /**
    The permissions after a successful load: present, executable iff the segment is, writable iff the
    segment is and no RELRO range meets the page.
  */
  lemma LoadedFlags(e: Kernel, i: nat, page: int)
    requires LoadAll(e).Some? && i < |e.headers| && e.headers[i].kind == Load && HeaderPage(e, e.headers[i], page)
    ensures page in LoadAll(e).value.perms
    ensures LoadAll(e).value.perms[page] ==
              Flags(true, e.headers[i].write && !InRelro(e, |e.headers|, page), !e.headers[i].execute, false)
  {
    hide LoadAll, LoadFold, HeaderPage;
    LoadAllParts(e);
    SegmentFlagsAt(e, |e.headers|, i, page);
    RelroFlagsAt(e, |e.headers|, LoadFold(e, |e.headers|).value.perms, page);
  }

  /** The mapped pages: those the Load segments map, and with regular headers exactly those they meet. */
  lemma LoadedPages(e: Kernel, page: int)
    requires LoadAll(e).Some?
    ensures page in LoadAll(e).value.perms <==> LoadPage(e, |e.headers|, page)
    ensures AllRegular(e) ==> (page in LoadAll(e).value.perms <==> SegmentPage(e, |e.headers|, page))
  {
    hide LoadAll, LoadFold, LoadPage, SegmentPage, AllRegular;
    LoadAllParts(e);
    LoadFoldPages(e, |e.headers|);
    RelroKeys(e, |e.headers|, LoadFold(e, |e.headers|).value.perms);
    if AllRegular(e) {
      RegularLoadPages(e, |e.headers|, page);
    }
  }

  /** With regular headers no page at all keeps the bookkeeping flag. */
  lemma NoPageCopied(e: Kernel, table: map<int, Entry>)
    requires AllRegular(e) && LoadAll(e).Some? && LoadAll(e).value.perms == Perms(table)
    requires forall p :: p in table && SegmentPage(e, |e.headers|, p) ==> !table[p].flags.copied
    ensures forall p :: p in table ==> !table[p].flags.copied
  {
    hide LoadAll, SegmentPage, AllRegular;
    forall p | p in table
      ensures !table[p].flags.copied
    {
      assert p in Perms(table);
      LoadedPages(e, p);
    }
  }

  // ---- the two copies ----

  /** Reading back what was written. */
  lemma ReadBack(v: View, addr: int, buf: seq<byte>)
    requires Readable(v, addr, |buf|)
    ensures Readable(Overwrite(v, addr, buf), addr, |buf|)
    ensures Bytes(Overwrite(v, addr, buf), addr, |buf|) == buf
  {
    var w := Overwrite(v, addr, buf);
    assert forall a :: addr <= a < addr + |buf| ==> a in w && w[a] == buf[a - addr];
  }
}
