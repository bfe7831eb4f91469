/**
  The kernel file as decoded program headers, and the loader's simple specification: a flat memory
  that is filled with file bytes and zeros, then overwritten by relocated words. No frames, no
  page sharing and no copying appear here.
*/
module Elf {
  import opened Common
  import opened Paging
  import opened VirtualAddress

  datatype Kind = Load | Dynamic | Tls | GnuRelro | OtherKind

  datatype DynTag = TagRela | TagRelaSize | TagRelaEnt | TagOther | TagInvalid

  datatype DynEntry = DynEntry(tag: DynTag, value: nat)

  /** A program header; `dynamic` holds the decoded entries of a Dynamic segment. */
  datatype Header = Header(
    kind: Kind, offset: nat, vaddr: nat, filesz: nat, memsz: nat,
    execute: bool, write: bool, align: nat, dynamic: seq<DynEntry>)

  /** A kernel file at physical address `start`, to be loaded at `vao` plus its own addresses. */
  datatype Kernel = Kernel(headers: seq<Header>, start: nat, len: nat, vao: int, base: Memory) {
    /** The 64-bit value handed to VirtAddr::new, and the address it becomes. */
    function RawAddr(h: Header): int { vao + h.vaddr }

    function Addr(h: Header): int { Linear(vao + h.vaddr) }

    function FirstPage(h: Header): int { PageOf(Addr(h)) }

    function LastPage(h: Header): int { PageOf(Addr(h) + h.memsz - 1) }

    predicate InSegment(h: Header, page: int) { FirstPage(h) <= page <= LastPage(h) }

    /** The frames from that of the first to that of the last file byte, and the last page mapped onto them. */
    function StartFrame(h: Header): int { PageOf(start + h.offset) }

    function EndFrame(h: Header): int { PageOf(start + h.offset + h.filesz - 1) }

    function FileLast(h: Header): int { FirstPage(h) + (EndFrame(h) - StartFrame(h)) }

    predicate InFilePages(h: Header, page: int) { FirstPage(h) <= page <= FileLast(h) }

    /** Where the part to be zeroed begins, and the first page that is all zeros. */
    function ZeroStart(h: Header): int { Addr(h) + h.filesz }

    function WholeZeroFirst(h: Header): int { PageOf(ZeroStart(h) + 4095) }

    /** A byte of physical memory before loading. */
    function FrameByte(frame: int, at: int): byte
      requires 0 <= at < 4096
    {
      if frame in base && |base[frame]| == 4096 then base[frame][at] else 0
    }

    /** Byte `x` of the file. */
    function FileByte(x: int): byte { FrameByte(PageOf(start + x), OffsetOf(start + x)) }

    /** The byte a file page of the segment shows at `a`: pages are mapped to consecutive frames. */
    function SegmentByte(h: Header, a: int): byte {
      FrameByte(StartFrame(h) + (PageOf(a) - FirstPage(h)), OffsetOf(a))
    }

    /** System V gABI chapter 5: address and offset agree modulo the page size. */
    predicate Congruent(h: Header) { OffsetOf(Addr(h)) == OffsetOf(h.offset) }

    /** How far the bytes of the segment are displaced in memory. */
    function Skew(h: Header): int { OffsetOf(Addr(h)) - OffsetOf(start + h.offset) }

    /** The physical frames that hold the file. */
    ghost function FileFrames(): set<nat> {
      var fs := Range(start / 4096, (start + len + 4095) / 4096);
      set f | f in fs
    }

    /** An aligned file in memory of its own, whose segments end before the file does. */
    ghost predicate WellFormed(pool: set<nat>) {
      && 0 < start && start % 4096 == 0
      && (forall f :: f in FileFrames() ==> f in base && f !in pool && |base[f]| == 4096)
      && (forall h :: h in headers && h.kind == Load ==> h.offset + h.filesz < len)
    }
  }

  datatype TlsTemplate = TlsTemplate(start: int, memSize: nat, fileSize: nat)

  /** The thread-local storage template: the first Tls header, if there is one. */
  function TlsOf(e: Kernel, n: nat): Option<TlsTemplate>
    requires n <= |e.headers|
  {
    if n == 0 then None
    else
      var prev := TlsOf(e, n - 1);
      var h := e.headers[n - 1];
      if prev.Some? || h.kind != Tls then prev else Some(TlsTemplate(e.RawAddr(h), h.memsz, h.filesz))
  }

  /** The virtual bytes and page permissions of the loaded kernel. */
  datatype Image = Image(view: View, perms: map<int, Flags>)

  // ---- Load segments ----

  function SegmentFlags(h: Header): Flags { Flags(true, h.write, !h.execute, false) }

  /** The file pages of a segment below page `hi`. */
  ghost function FileView(e: Kernel, h: Header, hi: int): View {
    imap a: int | e.FirstPage(h) <= PageOf(a) < hi :: e.SegmentByte(h, a)
  }

  /** The view once a segment is zeroed from the end of its file part up to page `hi`. */
  ghost function ZeroedUpTo(e: Kernel, h: Header, v: View, hi: int): View {
    imap a: int | a in v || (PageOf(a) < hi && e.ZeroStart(h) <= a) ::
      if PageOf(a) < hi && e.ZeroStart(h) <= a then 0 else v[a]
  }

  predicate PageIn(lo: int, hi: int, p: int) { lo <= p < hi }

  ghost function PagePerms(lo: int, hi: int, flags: Flags): map<int, Flags> {
    map p | lo <= p < hi && PageIn(lo, hi, p) :: flags
  }

  predicate HasBss(h: Header) { h.filesz < h.memsz }

  /** Adding a Load segment: the file pages, then zeros from the end of the file part to the end of the last page. */
  ghost function AddSegment(e: Kernel, h: Header, v: View): View {
    var withFile := v + FileView(e, h, e.FileLast(h) + 1);
    if HasBss(h) then ZeroedUpTo(e, h, withFile, e.LastPage(h) + 1) else withFile
  }

  ghost function AddPerms(e: Kernel, h: Header, perms: map<int, Flags>): map<int, Flags> {
    var withFile := perms + PagePerms(e.FirstPage(h), e.FileLast(h) + 1, SegmentFlags(h));
    if HasBss(h) then withFile + PagePerms(e.WholeZeroFirst(h), e.LastPage(h) + 1, SegmentFlags(h)) else withFile
  }

  /** The addresses of the segment are valid, and so is every address computed from them. */
  predicate Placeable(e: Kernel, h: Header) {
    && Accepted(e.RawAddr(h))
    && (e.FirstPage(h) <= e.FileLast(h) ==> e.FileLast(h) < PAGES)
    && (HasBss(h) ==> ZeroRangeValid(e, h))
  }

  predicate ZeroRangeValid(e: Kernel, h: Header) {
    e.Addr(h) + h.memsz < SPACE && CanStepBack(e.Addr(h) + h.memsz) && e.WholeZeroFirst(h) < PAGES
  }

  /** The page in which the file part ends is mapped, unless the file part ends with a page. */
  ghost predicate PartialPageThere(e: Kernel, h: Header, perms: map<int, Flags>) {
    e.ZeroStart(h) % 4096 != 0 ==> PageOf(e.ZeroStart(h)) in perms || e.InFilePages(h, PageOf(e.ZeroStart(h)))
  }

  ghost predicate LoadOk(e: Kernel, h: Header, perms: map<int, Flags>) {
    && Placeable(e, h)
    && (forall p :: e.InFilePages(h, p) ==> p !in perms)
    && (HasBss(h) ==>
          && PartialPageThere(e, h, perms)
          && forall p :: e.WholeZeroFirst(h) <= p <= e.LastPage(h) ==> p !in perms && !e.InFilePages(h, p))
  }

  /** The image after the first n program headers. */
  ghost function LoadFold(e: Kernel, n: nat): Option<Image>
    requires n <= |e.headers|
  {
    if n == 0 then Some(Image(imap[], map[]))
    else
      var prev := LoadFold(e, n - 1);
      var h := e.headers[n - 1];
      if prev.None? then None
      else if h.kind == Load then
        if LoadOk(e, h, prev.value.perms)
        then Some(Image(AddSegment(e, h, prev.value.view), AddPerms(e, h, prev.value.perms)))
        else None
      else if h.kind == Tls && (TlsOf(e, n - 1).Some? || !(0 <= e.RawAddr(h) < U64)) then None
      else prev
  }

  // ---- relocations ----

  /** Little-endian value of a byte string. */
  function FromLe(bytes: seq<byte>): nat {
    if bytes == [] then 0 else bytes[0] + 256 * FromLe(bytes[1..])
  }

  function ToLe(x: nat, n: nat): (r: seq<byte>)
    ensures |r| == n
  {
    if n == 0 then [] else [x % 256] + ToLe(x / 256, n - 1)
  }

  function Pow256(n: nat): nat { if n == 0 then 1 else 256 * Pow256(n - 1) }

  lemma {:induction false} LeRoundTrip(x: nat, n: nat)
    requires x < Pow256(n)
    ensures FromLe(ToLe(x, n)) == x
  {
    if n > 0 {
      LeRoundTrip(x / 256, n - 1);
      assert ToLe(x, n)[1..] == ToLe(x / 256, n - 1);
    }
  }

  datatype Rela = Rela(offset: nat, info: nat, addend: nat)

  datatype Write = Write(addr: int, bytes: seq<byte>)

  ghost predicate Readable(v: View, addr: int, len: nat) {
    forall a :: addr <= a < addr + len ==> a in v
  }

  ghost function Bytes(v: View, addr: int, len: nat): seq<byte>
    requires Readable(v, addr, len)
  {
    seq(len, i requires 0 <= i < len => v[addr + i])
  }

  function DecodeRela(b: seq<byte>): Rela
    requires |b| == 24
  {
    Rela(FromLe(b[..8]), FromLe(b[8..16]), FromLe(b[16..24]))
  }

  /** The virtual address of entry idx of the table at file address `table`. */
  function EntryAddr(e: Kernel, table: nat, idx: nat): int { Linear(e.vao + (table + 24 * idx)) }

  /** That entry, read at its virtual address. */
  ghost function ReadRela(e: Kernel, table: nat, idx: nat, v: View): Option<Rela> {
    var addr := EntryAddr(e, table, idx);
    if table + 24 * idx < U64 && Accepted(e.vao + (table + 24 * idx)) && addr + 24 <= SPACE && Readable(v, addr, 24)
    then Some(DecodeRela(Bytes(v, addr, 24))) else None
  }

  ghost predicate InLoad(e: Kernel, x: nat) {
    exists h :: h in e.headers && h.kind == Load && h.vaddr <= x < h.vaddr + h.memsz
  }

  /**
    The word an R_X86_64_RELATIVE entry (type 8: base + addend, System V ABI AMD64 supplement,
    section 4.4.1) stores; None where the loader refuses the entry.
  */
  ghost function WordOf(e: Kernel, r: Rela, v: View): Option<Write> {
    var addr, value := Linear(e.vao + r.offset), e.vao + r.addend;
    if r.info / 0x1_0000_0000 == 0 && r.info % 0x1_0000_0000 == 8 && InLoad(e, r.offset)
       && 0 <= value < U64 && Accepted(e.vao + r.offset) && addr + 8 <= SPACE && Readable(v, addr, 8)
    then Some(Write(addr, ToLe(value, 8))) else None
  }

  ghost function ApplyAll(v: View, ws: seq<Write>): View {
    if ws == [] then v
    else Overwrite(ApplyAll(v, ws[..|ws| - 1]), ws[|ws| - 1].addr, ws[|ws| - 1].bytes)
  }

  /** The words stored by the first n entries, each entry read after the words before it were stored. */
  ghost function Words(e: Kernel, table: nat, n: nat, v: View): Option<seq<Write>> {
    if n == 0 then Some([])
    else
      var prev := Words(e, table, n - 1, v);
      if prev.None? then None
      else
        var now := ApplyAll(v, prev.value);
        var r := ReadRela(e, table, n - 1, now);
        if r.None? then None
        else
          var w := WordOf(e, r.value, now);
          if w.None? then None else Some(prev.value + [w.value])
  }

  // ---- the dynamic section ----

  datatype Scan = Scan(rela: Option<nat>, relaSize: Option<nat>, relaEnt: Option<nat>)

  /** One entry; a repeated or undecodable tag is an error. The scan does not stop at DT_NULL. */
  function ScanEntry(s: Scan, d: DynEntry): Option<Scan> {
    match d.tag
    case TagRela => if s.rela.Some? then None else Some(s.(rela := Some(d.value)))
    case TagRelaSize => if s.relaSize.Some? then None else Some(s.(relaSize := Some(d.value)))
    case TagRelaEnt => if s.relaEnt.Some? then None else Some(s.(relaEnt := Some(d.value)))
    case TagOther => Some(s)
    case TagInvalid => None
  }

  function ScanFold(ds: seq<DynEntry>): Option<Scan> {
    if ds == [] then Some(Scan(None, None, None))
    else
      var prev := ScanFold(ds[..|ds| - 1]);
      if prev.None? then None else ScanEntry(prev.value, ds[|ds| - 1])
  }

  lemma {:induction false} ScanNone(ds: seq<DynEntry>, i: nat)
    requires i <= |ds| && ScanFold(ds[..i]).None?
    ensures ScanFold(ds).None?
    decreases |ds|
  {
    if i == |ds| {
      assert ds[..i] == ds;
    } else {
      assert ds[..|ds| - 1][..i] == ds[..i];
      ScanNone(ds[..|ds| - 1], i);
    }
  }

  datatype Table = Table(offset: nat, count: nat)

  /** The relocation table; no Rela entry means an empty one. */
  function TableOf(ds: seq<DynEntry>): Option<Table> {
    var s := ScanFold(ds);
    if s.None? then None
    else if s.value.rela.None? then
      if s.value.relaSize.Some? || s.value.relaEnt.Some? then None else Some(Table(0, 0))
    else if s.value.relaSize.None? || s.value.relaEnt.None? then None
    else if s.value.relaEnt.value != 24 then None
    else Some(Table(s.value.rela.value, s.value.relaSize.value / 24))
  }

  /** All words stored for the Dynamic headers among the first n. */
  ghost function DynamicFold(e: Kernel, n: nat, v: View): Option<seq<Write>>
    requires n <= |e.headers|
  {
    if n == 0 then Some([])
    else
      var prev := DynamicFold(e, n - 1, v);
      var h := e.headers[n - 1];
      if prev.None? then None
      else if h.kind != Dynamic then prev
      else
        var t := TableOf(h.dynamic);
        if t.None? then None
        else
          var ws := Words(e, t.value.offset, t.value.count, ApplyAll(v, prev.value));
          if ws.None? then None else Some(prev.value + ws.value)
  }

  // ---- protection ----

  /** The start, the end and the address before the end are valid. */
  predicate RangeOk(e: Kernel, h: Header) {
    Accepted(e.RawAddr(h)) && e.Addr(h) + h.memsz < SPACE && CanStepBack(e.Addr(h) + h.memsz)
  }

  /** The range is valid and all its pages are mapped. */
  ghost predicate RangeMapped(e: Kernel, h: Header, perms: map<int, Flags>) {
    RangeOk(e, h) && forall p :: e.InSegment(h, p) ==> p in perms
  }

  ghost function Strip(e: Kernel, h: Header, perms: map<int, Flags>): map<int, Flags> {
    map p | p in perms :: if e.InSegment(h, p) then perms[p].(writable := false) else perms[p]
  }

  ghost function RelroFold(e: Kernel, n: nat, perms: map<int, Flags>): Option<map<int, Flags>>
    requires n <= |e.headers|
  {
    if n == 0 then Some(perms)
    else
      var prev := RelroFold(e, n - 1, perms);
      var h := e.headers[n - 1];
      if prev.None? then None
      else if h.kind != GnuRelro then prev
      else if RangeMapped(e, h, prev.value) then Some(Strip(e, h, prev.value)) else None
  }

  lemma {:induction false} RelroFoldNone(e: Kernel, i: nat, n: nat, perms: map<int, Flags>)
    requires i <= n <= |e.headers| && RelroFold(e, i, perms).None?
    ensures RelroFold(e, n, perms).None?
    decreases n - i
  {
    if i < n {
      RelroFoldNone(e, i, n - 1, perms);
    }
  }

  // ---- the whole load ----

  /** Every page of every Load segment is mapped. */
  ghost predicate RangesOk(e: Kernel, perms: map<int, Flags>) {
    forall h :: h in e.headers && h.kind == Load ==> RangeMapped(e, h, perms)
  }

  /** The words stored while loading, in order. */
  ghost function Relocated(e: Kernel): Option<seq<Write>> {
    var loaded := LoadFold(e, |e.headers|);
    if loaded.None? then None else DynamicFold(e, |e.headers|, loaded.value.view)
  }

  /** The image a load must produce, or None where it must not succeed. */
  ghost function LoadAll(e: Kernel): Option<Image> {
    var loaded := LoadFold(e, |e.headers|);
    if loaded.None? then None
    else
      var ws := Relocated(e);
      var perms := RelroFold(e, |e.headers|, loaded.value.perms);
      if ws.None? || perms.None? || !RangesOk(e, perms.value) then None
      else Some(Image(ApplyAll(loaded.value.view, ws.value), perms.value))
  }
}
