/**
  The machine the loader works on: physical frames, one page table, and the frames the allocator
  has yet to hand out. The virtual view is what a read through the page table returns.
*/
module Paging {
  import opened Common

  datatype Flags = Flags(present: bool, writable: bool, noExecute: bool, copied: bool)

  datatype Entry = Entry(frame: nat, flags: Flags)

  type Memory = map<nat, seq<byte>>

  type View = imap<int, byte>

  function PageOf(addr: int): int { addr / 4096 }

  function OffsetOf(addr: int): (r: int)
    ensures 0 <= r < 4096
  {
    addr % 4096
  }

  /**
    `base` is physical memory before loading; `pool` holds every frame the allocator may ever hand
    out, `supply` lists those it has not handed out yet, and `file` holds the kernel file's frames.
  */
  datatype Space = Space(mem: Memory, table: map<int, Entry>, supply: seq<nat>,
                         base: Memory, pool: set<nat>, file: set<nat>)

  ghost predicate Frames(mem: Memory) { forall f :: f in mem ==> |mem[f]| == 4096 }

  ghost predicate TableOk(s: Space) {
    forall p :: p in s.table ==>
      && s.table[p].frame in s.mem
      && s.table[p].frame !in s.supply
      && (s.table[p].frame in s.pool || s.table[p].frame in s.file)
      && (s.table[p].flags.copied ==> s.table[p].frame in s.pool)
  }

  /** A frame of the allocator is mapped by at most one page; file frames may be shared. */
  ghost predicate Private(s: Space) {
    forall p, q :: p in s.table && q in s.table && p != q && s.table[p].frame == s.table[q].frame ==>
      s.table[p].frame !in s.pool
  }

  ghost predicate SupplyOk(s: Space) {
    && Distinct(s.supply)
    && forall f :: f in s.supply ==> f in s.pool && f in s.mem
  }

  /** Only frames of the allocator are ever written. */
  ghost predicate BaseKept(s: Space) {
    forall f :: f in s.base && f !in s.pool ==> f in s.mem && s.mem[f] == s.base[f]
  }

  /** The copy-on-write invariant. */
  ghost predicate Inv(s: Space) {
    Frames(s.mem) && TableOk(s) && Private(s) && SupplyOk(s) && BaseKept(s) && s.file !! s.pool
  }

  /** A frame handed out by the allocator and not mapped yet. */
  ghost predicate Free(s: Space, f: nat) {
    && f in s.pool && f in s.mem && f !in s.supply
    && forall p :: p in s.table ==> s.table[p].frame != f
  }

  // ---- the view ----

  /** What a virtual read returns. */
  ghost function Read(s: Space): View
    requires Inv(s)
  {
    imap a: int | PageOf(a) in s.table :: s.mem[s.table[PageOf(a)].frame][OffsetOf(a)]
  }

  /** Permissions of each mapped page; the loader's bookkeeping flag is not one. */
  function Perms(table: map<int, Entry>): map<int, Flags> {
    map p | p in table :: table[p].flags.(copied := false)
  }

  ghost function PageView(page: int, bytes: seq<byte>): View
    requires |bytes| == 4096
  {
    imap a: int | PageOf(a) == page :: bytes[OffsetOf(a)]
  }

  /** A plain write of a byte range. */
  ghost function Overwrite(v: View, addr: int, buf: seq<byte>): View {
    imap a | a in v :: if addr <= a < addr + |buf| then buf[a - addr] else v[a]
  }

  lemma OverwriteTwice(v: View, addr: int, a: seq<byte>, b: seq<byte>)
    ensures Overwrite(Overwrite(v, addr, a), addr + |a|, b) == Overwrite(v, addr, a + b)
  {
  }

  lemma OverwriteNothing(v: View, addr: int)
    ensures Overwrite(v, addr, []) == v
  {
  }

  /** Rewriting part of one page is a byte-range write. */
  lemma OverwriteInPage(v: View, page: int, was: seq<byte>, addr: int, buf: seq<byte>)
    requires |was| == 4096 && page * 4096 <= addr && addr + |buf| <= page * 4096 + 4096
    requires forall a :: PageOf(a) == page ==> a in v && v[a] == was[OffsetOf(a)]
    ensures var at := addr - page * 4096;
            v + PageView(page, was[..at] + buf + was[at + |buf|..]) == Overwrite(v, addr, buf)
  {
  }

  // ---- steps of the machine ----

  /** The allocator hands out its first frame. */
  ghost function Take(s: Space): Space
    requires s.supply != []
  {
    s.(supply := s.supply[1..])
  }

  lemma TakeKeeps(s: Space)
    requires Inv(s) && s.supply != []
    ensures Inv(Take(s)) && Read(Take(s)) == Read(s) && Free(Take(s), s.supply[0])
    ensures forall g :: Free(s, g) ==> Free(Take(s), g) && g != s.supply[0]
  {
    assert s.supply[0] in s.supply;
    assert forall f :: f in s.supply[1..] ==> f in s.supply;
    assert forall i :: 0 <= i < |s.supply[1..]| ==> s.supply[1..][i] == s.supply[i + 1];
  }

  /** A handed-out frame becomes a page-table page: its contents are no longer data. */
  ghost function Drop(s: Space, f: nat): Space { s.(mem := s.mem - {f}) }

  lemma DropKeeps(s: Space, f: nat)
    requires Inv(s) && Free(s, f)
    ensures Inv(Drop(s, f)) && Read(Drop(s, f)) == Read(s)
    ensures forall g :: Free(s, g) && g != f ==> Free(Drop(s, f), g) && Drop(s, f).mem[g] == s.mem[g]
  {
  }

  ghost function Poke(s: Space, f: nat, bytes: seq<byte>): Space { s.(mem := s.mem[f := bytes]) }

  lemma PokeFree(s: Space, f: nat, bytes: seq<byte>)
    requires Inv(s) && Free(s, f) && |bytes| == 4096
    ensures Inv(Poke(s, f, bytes)) && Free(Poke(s, f, bytes), f)
    ensures Read(Poke(s, f, bytes)) == Read(s)
  {
  }

  lemma PokeMapped(s: Space, page: int, bytes: seq<byte>)
    requires Inv(s) && page in s.table && s.table[page].frame in s.pool && |bytes| == 4096
    ensures Inv(Poke(s, s.table[page].frame, bytes))
    ensures Read(Poke(s, s.table[page].frame, bytes)) == Read(s) + PageView(page, bytes)
  {
    var f := s.table[page].frame;
    var t := Poke(s, f, bytes);
    assert Inv(t);
    forall a: int | PageOf(a) in s.table
      ensures Read(t)[a] == (Read(s) + PageView(page, bytes))[a]
    {
      if PageOf(a) != page {
        assert s.table[PageOf(a)].frame != f;
      }
    }
  }

  ghost function Map(s: Space, page: int, f: nat, flags: Flags): Space {
    s.(table := s.table[page := Entry(f, flags)])
  }

  /** A frame that may be mapped: a free allocator frame, or a frame of the file. */
  ghost predicate Mappable(s: Space, f: nat, flags: Flags) {
    Free(s, f) || (f in s.mem && f in s.file && f !in s.pool && !flags.copied)
  }

  lemma MapKeepsInv(s: Space, page: int, f: nat, flags: Flags)
    requires Inv(s) && page !in s.table && Mappable(s, f, flags)
    ensures Inv(Map(s, page, f, flags))
  {
    var t := Map(s, page, f, flags);
    assert TableOk(t);
    assert Private(t);
  }

  lemma MapKeeps(s: Space, page: int, f: nat, flags: Flags)
    requires Inv(s) && page !in s.table && Mappable(s, f, flags)
    ensures Inv(Map(s, page, f, flags))
    ensures Read(Map(s, page, f, flags)) == Read(s) + PageView(page, s.mem[f])
    ensures Perms(Map(s, page, f, flags).table) == Perms(s.table)[page := flags.(copied := false)]
  {
    hide PageOf, OffsetOf;
    MapKeepsInv(s, page, f, flags);
  }

  ghost function Unmap(s: Space, page: int): Space { s.(table := s.table - {page}) }

  lemma UnmapKeeps(s: Space, page: int)
    requires Inv(s)
    ensures Inv(Unmap(s, page))
    ensures forall g :: Free(s, g) ==> Free(Unmap(s, page), g)
  {
  }

  /** Unmapping a page and mapping its bytes again, wherever they are, changes no virtual byte. */
  lemma PutBack(s: Space, page: int)
    requires Inv(s) && page in s.table && Inv(Unmap(s, page))
    ensures Read(Unmap(s, page)) + PageView(page, s.mem[s.table[page].frame]) == Read(s)
    ensures Perms(Unmap(s, page).table)[page := s.table[page].flags.(copied := false)] == Perms(s.table)
  {
  }

  lemma FlagsKeep(s: Space, page: int, flags: Flags)
    requires Inv(s) && page in s.table && (flags.copied ==> s.table[page].flags.copied)
    ensures Inv(Map(s, page, s.table[page].frame, flags))
    ensures Read(Map(s, page, s.table[page].frame, flags)) == Read(s)
    ensures Perms(Map(s, page, s.table[page].frame, flags).table) == Perms(s.table)[page := flags.(copied := false)]
  {
    var t := Map(s, page, s.table[page].frame, flags);
    assert TableOk(t);
    assert Private(t);
  }
}
