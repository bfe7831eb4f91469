/**
  The loaded image in plain numbers: 48-bit addresses, frames of physical memory and pages of 4096 bytes.
  Nothing here rests on the loader's own address functions.
*/
module LoadedImage {
  import opened Common
  import opened Paging
  import opened VirtualAddress
  import opened Elf
  import opened LoaderSteps
  import opened LoaderTheorems

  /** The 48-bit address of a segment's first byte, for a kernel loaded at `vao`. */
  function StartOf(vao: int, h: Header): int { (vao + h.vaddr) % 0x1_0000_0000_0000 }

  /** Pages from that of the first to that of the last byte. */
  predicate Meets(vao: int, h: Header, page: int) {
    StartOf(vao, h) / 4096 <= page <= (StartOf(vao, h) + h.memsz - 1) / 4096
  }

  /** Every Load segment agrees with its file offset modulo 4096, and its file part is no longer than itself. */
  ghost predicate Aligned(e: Kernel) {
    && e.start % 4096 == 0
    && forall h :: h in e.headers && h.kind == Load ==> (e.vao + h.vaddr - h.offset) % 4096 == 0 && h.filesz <= h.memsz
  }

  lemma SameRemainder(x: int, y: int)
    ensures (x - y) % 4096 == 0 <==> x % 4096 == y % 4096
  {
    DivMod(x, x / 4096, x % 4096);
    DivMod(y, y / 4096, y % 4096);
    var d, r := x / 4096 - y / 4096, x % 4096 - y % 4096;
    assert x - y == 4096 * d + r;
    if 0 <= r {
      DivMod(x - y, d, r);
    } else {
      DivMod(x - y, d - 1, r + 4096);
    }
  }

  lemma AlignedIsRegular(e: Kernel)
    ensures Aligned(e) <==> AllRegular(e)
  {
    forall h | h in e.headers && h.kind == Load
      ensures (e.vao + h.vaddr - h.offset) % 4096 == 0 <==> e.Congruent(h)
    {
      SameRemainder(e.vao + h.vaddr, h.offset);
      var q := (e.vao + h.vaddr) / 0x1_0000_0000_0000;
      assert e.vao + h.vaddr == 4096 * (q * 0x10_0000_0000) + e.Addr(h);
      DivMod(e.vao + h.vaddr, q * 0x10_0000_0000 + e.Addr(h) / 4096, e.Addr(h) % 4096);
    }
  }

  /** A byte of the file, where it lies in physical memory. */
  predicate FileByteIs(e: Kernel, x: nat, value: byte) {
    var at := e.start + x;
    at / 4096 in e.base && |e.base[at / 4096]| == 4096 && e.base[at / 4096][at % 4096] == value
  }

  lemma InFile(e: Kernel, pool: set<nat>, x: nat)
    requires e.WellFormed(pool) && x < e.len
    ensures FileByteIs(e, x, e.FileByte(x))
  {
    var f := (e.start + x) / 4096;
    assert f in e.FileFrames();
  }

  /**
    Byte k of a Load segment is at its address plus k; it is the byte of the last word stored over it, or
    else the byte of the file at offset plus k, or zero behind the file part.
  */
  lemma SegmentByteLoaded(e: Kernel, pool: set<nat>, i: nat, k: nat) returns (otherwise: byte)
    requires LoadAll(e).Some? && Aligned(e) && e.WellFormed(pool)
    requires i < |e.headers| && e.headers[i].kind == Load && k < e.headers[i].memsz
    ensures Relocated(e).Some?
    ensures ByteIs(LoadAll(e).value.view, Relocated(e).value, StartOf(e.vao, e.headers[i]) + k, otherwise)
    ensures if k < e.headers[i].filesz then FileByteIs(e, e.headers[i].offset + k, otherwise) else otherwise == 0
  {
    hide LoadAll, Relocated, Kernel.FileByte, FileByteIs, ByteIs;
    AlignedIsRegular(e);
    LoadedByte(e, i, k);
    var h := e.headers[i];
    otherwise := if k < h.filesz then e.FileByte(h.offset + k) else 0;
    if k < h.filesz {
      assert h.offset + h.filesz < e.len;
      InFile(e, pool, h.offset + k);
    }
  }

  /** The mapped pages are exactly those that a Load segment meets. */
  lemma PagesLoaded(e: Kernel, page: int)
    requires LoadAll(e).Some? && Aligned(e)
    ensures page in LoadAll(e).value.perms <==> exists h :: h in e.headers && h.kind == Load && Meets(e.vao, h, page)
  {
    hide LoadAll;
    AlignedIsRegular(e);
    LoadedPages(e, page);
    if i :| 0 <= i < |e.headers| && e.headers[i].kind == Load && e.InSegment(e.headers[i], page) {
      assert Meets(e.vao, e.headers[i], page);
    }
    if h :| h in e.headers && h.kind == Load && Meets(e.vao, h, page) {
      assert e.InSegment(h, page);
    }
  }

  /** Each is present, executable iff its segment is, and writable iff its segment is and no RELRO range meets it. */
  lemma FlagsLoaded(e: Kernel, h: Header, page: int)
    requires LoadAll(e).Some? && Aligned(e) && h in e.headers && h.kind == Load && Meets(e.vao, h, page)
    ensures page in LoadAll(e).value.perms
    ensures var f := LoadAll(e).value.perms[page];
            && f.present && !f.copied && f.noExecute == !h.execute
            && f.writable == (h.write && !exists g :: g in e.headers && g.kind == GnuRelro && Meets(e.vao, g, page))
  {
    hide LoadAll;
    var i :| 0 <= i < |e.headers| && e.headers[i] == h;
    AlignedIsRegular(e);
    RegularPages(e, h, page);
    LoadedFlags(e, i, page);
    if g :| g in e.headers && g.kind == GnuRelro && Meets(e.vao, g, page) {
      assert e.InSegment(g, page);
    }
    if j :| 0 <= j < |e.headers| && e.headers[j].kind == GnuRelro && e.InSegment(e.headers[j], page) {
      assert Meets(e.vao, e.headers[j], page);
    }
  }

  // ---- which addresses are valid ----

  /** A RELRO or Load range passes exactly if its start, its end and the address before its end are valid addresses. */
  lemma RangeOkIff(e: Kernel, h: Header)
    requires h.memsz < U64 / 2
    ensures RangeOk(e, h) <==>
              var start, end := e.vao + h.vaddr, e.vao + h.vaddr + h.memsz;
              Accepted(start) && Accepted(end) && Accepted(SignExtend(Linear(end)) - 1)
  {
    if Accepted(e.vao + h.vaddr) {
      Advance(e.vao + h.vaddr, h.memsz);
      Back(Linear(e.vao + h.vaddr + h.memsz));
    }
  }

  /** Rounding up to a page. */
  function AlignUp(address: int): int { (address + 4095) / 4096 * 4096 }

  lemma AlignUpIff(linear: int)
    requires 0 <= linear < SPACE
    ensures Accepted(AlignUp(SignExtend(linear))) <==> PageOf(linear + 4095) < PAGES
  {
    if linear >= LOWER_END {
      var page := (linear + 4095) / 4096;
      DivMod(SignExtend(linear) + 4095, page + (UPPER_START - LOWER_END) / 4096, (linear + 4095) % 4096);
    }
  }

  /** The zeroed range passes exactly if every address computed for it is valid. */
  lemma ZeroRangeIff(e: Kernel, h: Header)
    requires Accepted(e.RawAddr(h)) && HasBss(h) && h.memsz < U64 / 2
    ensures ZeroRangeValid(e, h) <==>
              var start := SignExtend(StartOf(e.vao, h));
              var from, to := start + h.filesz, start + h.memsz;
              Accepted(from) && Accepted(to) && Accepted(AlignUp(SignExtend(Linear(from))))
              && Accepted(SignExtend(Linear(to)) - 1)
  {
    assert StartOf(e.vao, h) == e.Addr(h);
    hide Accepted, CanStepBack, SignExtend, AlignUp, Linear, StartOf;
    Advance(e.RawAddr(h), h.filesz);
    Advance(e.RawAddr(h), h.memsz);
    if e.Addr(h) + h.memsz < SPACE {
      AlignUpIff(e.Addr(h) + h.filesz);
      Back(e.Addr(h) + h.memsz);
    }
  }

  /** As many file pages as the file part touches frames; each starts at a valid address. */
  lemma FilePagesIff(e: Kernel, h: Header)
    requires Accepted(e.RawAddr(h))
    ensures e.FileLast(h) ==
              StartOf(e.vao, h) / 4096 + (e.start + h.offset + h.filesz - 1) / 4096 - (e.start + h.offset) / 4096
    ensures FileInSpace(e, h) <==>
              forall p :: e.InFilePages(h, p) ==> p * 4096 < SPACE
  {
    if e.FirstPage(h) <= e.FileLast(h) {
      assert e.InFilePages(h, e.FileLast(h));
    }
  }

  /** A segment can be placed if and only if its address, its file pages and the range to be zeroed are valid. */
  lemma PlaceableIff(e: Kernel, h: Header)
    ensures Placeable(e, h) <==>
              && Accepted(e.vao + h.vaddr)
              && (forall p :: e.InFilePages(h, p) ==> p * 4096 < 0x1_0000_0000_0000)
              && (h.filesz < h.memsz ==> ZeroRangeValid(e, h))
  {
    hide ZeroRangeValid, Accepted;
    if e.FirstPage(h) <= e.FileLast(h) {
      assert e.InFilePages(h, e.FileLast(h));
    }
  }

  // ---- thread-local storage ----

  /** The template is that of the first Tls header: its address, its size in memory and its size in the file. */
  lemma {:induction false} TlsIs(e: Kernel, n: nat, i: nat)
    requires i < n <= |e.headers| && e.headers[i].kind == Tls
    requires forall j :: 0 <= j < i ==> e.headers[j].kind != Tls
    ensures TlsOf(e, n).Some?
    ensures var t, h := TlsOf(e, n).value, e.headers[i];
            t.start == e.vao + h.vaddr && t.memSize == h.memsz && t.fileSize == h.filesz
  {
    if i < n - 1 {
      TlsIs(e, n - 1, i);
    } else {
      TlsOfSome(e, n - 1);
    }
  }

  /** Without a Tls header there is none. */
  lemma NoTls(e: Kernel, n: nat)
    requires n <= |e.headers| && forall j :: 0 <= j < n ==> e.headers[j].kind != Tls
    ensures TlsOf(e, n).None?
  {
    TlsOfSome(e, n);
  }
}
