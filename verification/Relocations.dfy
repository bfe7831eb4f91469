/**
  Which words a load stores, in terms of the bytes of the file's tables: every entry of every relocation
  table, in order, and nothing else. Byte positions and place values are written out here.
*/
module Relocations {
  import opened Common
  import opened Paging
  import opened VirtualAddress
  import opened Elf
  import opened LoaderSteps
  import opened LoaderTheorems

  // ---- numbers in memory ----

  /** Eight digits to the base 256, the first being the least significant. */
  function Places(b0: nat, b1: nat, b2: nat, b3: nat, b4: nat, b5: nat, b6: nat, b7: nat): nat {
    b0 + 0x100 * b1 + 0x1_0000 * b2 + 0x100_0000 * b3 + 0x1_0000_0000 * b4 + 0x100_0000_0000 * b5
      + 0x1_0000_0000_0000 * b6 + 0x100_0000_0000_0000 * b7
  }

  /** The number of eight bytes. */
  function Sum8(b: seq<byte>): nat
    requires |b| == 8
  {
    Places(b[0], b[1], b[2], b[3], b[4], b[5], b[6], b[7])
  }

  /** The number at an address. */
  ghost function Number(v: View, at: int): nat
    requires Readable(v, at, 8)
  {
    Places(v[at], v[at + 1], v[at + 2], v[at + 3], v[at + 4], v[at + 5], v[at + 6], v[at + 7])
  }

  lemma FromLeStep(b: seq<byte>)
    requires b != []
    ensures FromLe(b) == b[0] + 256 * FromLe(b[1..])
  {
  }

  lemma FromLeIsSum(b: seq<byte>)
    requires |b| == 8
    ensures FromLe(b) == Sum8(b)
  {
    hide FromLe;
    var b1, b2, b3, b4 := b[1..], b[2..], b[3..], b[4..];
    var b5, b6, b7 := b[5..], b[6..], b[7..];
    assert b1[1..] == b2 && b2[1..] == b3 && b3[1..] == b4 && b4[1..] == b5 && b5[1..] == b6 && b6[1..] == b7;
    FromLeStep(b);
    FromLeStep(b1);
    FromLeStep(b2);
    FromLeStep(b3);
    FromLeStep(b4);
    FromLeStep(b5);
    FromLeStep(b6);
    FromLeStep(b7);
    FromLeNothing();
    assert b7[1..] == [];
  }

  lemma FromLeNothing()
    ensures FromLe([]) == 0
  {
  }

  /** The eight bytes stored for a number are those of its base-256 digits, least significant first. */
  lemma ToLeIsSum(x: nat)
    requires x < U64
    ensures Sum8(ToLe(x, 8)) == x
  {
    assert Pow256(8) == U64;
    LeRoundTrip(x, 8);
    FromLeIsSum(ToLe(x, 8));
  }

  /** In the 24 bytes of an entry the offset comes first, then the info, then the addend. */
  lemma EntryDecoded(b: seq<byte>)
    requires |b| == 24
    ensures DecodeRela(b).offset == Sum8(b[..8])
    ensures DecodeRela(b).info == Sum8(b[8..16])
    ensures DecodeRela(b).addend == Sum8(b[16..24])
  {
    hide Sum8, FromLe;
    FromLeIsSum(b[..8]);
    FromLeIsSum(b[8..16]);
    FromLeIsSum(b[16..24]);
  }

  /** An entry written out decodes to what was written. */
  lemma EntryRoundTrip(offset: nat, info: nat, addend: nat)
    requires offset < U64 && info < U64 && addend < U64
    ensures DecodeRela(ToLe(offset, 8) + ToLe(info, 8) + ToLe(addend, 8)) == Rela(offset, info, addend)
  {
    hide FromLe, ToLe;
    var b := ToLe(offset, 8) + ToLe(info, 8) + ToLe(addend, 8);
    assert b[..8] == ToLe(offset, 8) && b[8..16] == ToLe(info, 8) && b[16..24] == ToLe(addend, 8);
    assert Pow256(8) == U64;
    LeRoundTrip(offset, 8);
    LeRoundTrip(info, 8);
    LeRoundTrip(addend, 8);
  }

  lemma NumberIs(v: View, at: int, len: nat, i: nat)
    requires Readable(v, at, len) && i + 8 <= len
    ensures Readable(v, at + i, 8) && Sum8(Bytes(v, at, len)[i..i + 8]) == Number(v, at + i)
  {
  }

  // ---- one entry ----

  /** The address of entry k of a table, for a kernel loaded at `vao`. */
  function EntryAt(vao: int, table: nat, k: nat): int { (vao + table + 24 * k) % 0x1_0000_0000_0000 }

  /** The entry at `at` is an R_X86_64_RELATIVE one and asks for word `w`. */
  ghost predicate AsksFor(e: Kernel, v: View, at: int, w: Write) {
    && Readable(v, at, 24)
    && Number(v, at + 8) == 8
    && (exists h :: h in e.headers && h.kind == Load && h.vaddr <= Number(v, at) < h.vaddr + h.memsz)
    && w.addr == (e.vao + Number(v, at)) % 0x1_0000_0000_0000
    && |w.bytes| == 8 && Sum8(w.bytes) == e.vao + Number(v, at + 16)
  }

  lemma EntryRead(e: Kernel, table: nat, k: nat, v: View)
    requires ReadRela(e, table, k, v).Some?
    ensures Readable(v, EntryAt(e.vao, table, k), 24)
    ensures var at, r := EntryAt(e.vao, table, k), ReadRela(e, table, k, v).value;
            && r.offset == Number(v, at) && r.info == Number(v, at + 8) && r.addend == Number(v, at + 16)
  {
    hide Sum8, Number, DecodeRela;
    var at := EntryAt(e.vao, table, k);
    assert e.vao + (table + 24 * k) == e.vao + table + 24 * k;
    EntryDecoded(Bytes(v, at, 24));
    NumberIs(v, at, 24, 0);
    NumberIs(v, at, 24, 8);
    NumberIs(v, at, 24, 16);
  }

  lemma StoredAsAsked(e: Kernel, v: View, at: int, w: Write, r: Rela)
    requires Stores(e, w, r) && Readable(v, at, 24)
    requires r.offset == Number(v, at) && r.info == Number(v, at + 8) && r.addend == Number(v, at + 16)
    ensures AsksFor(e, v, at, w)
  {
    hide Sum8, Number, FromLe;
    FromLeIsSum(w.bytes);
  }

  /** When its turn comes, entry k of a table stores the word its 24 bytes ask for. */
  lemma TableEntry(e: Kernel, table: nat, n: nat, v: View, k: nat)
    requires Words(e, table, n, v).Some? && k < n
    ensures var ws := Words(e, table, n, v).value;
            |ws| == n && AsksFor(e, ApplyAll(v, ws[..k]), EntryAt(e.vao, table, k), ws[k])
  {
    hide Words, ReadRela, Stores, ApplyAll, EntryAt, AsksFor, Number;
    TableWord(e, table, n, v, k);
    var ws := Words(e, table, n, v).value;
    var now := ApplyAll(v, ws[..k]);
    EntryRead(e, table, k, now);
    StoredAsAsked(e, now, EntryAt(e.vao, table, k), ws[k], ReadRela(e, table, k, now).value);
  }

  /** What the loader demands of an entry, all addresses being 64-bit sums. */
  ghost predicate Applicable(e: Kernel, v: View, table: nat, k: nat) {
    var at := EntryAt(e.vao, table, k);
    && table + 24 * k < U64 && Accepted(e.vao + table + 24 * k) && at + 24 <= SPACE && Readable(v, at, 24)
    && Number(v, at + 8) == 8
    && (exists h :: h in e.headers && h.kind == Load && h.vaddr <= Number(v, at) < h.vaddr + h.memsz)
    && 0 <= e.vao + Number(v, at + 16) < U64
    && Accepted(e.vao + Number(v, at))
    && (e.vao + Number(v, at)) % 0x1_0000_0000_0000 + 8 <= SPACE
    && Readable(v, (e.vao + Number(v, at)) % 0x1_0000_0000_0000, 8)
  }

  lemma ReadIff(e: Kernel, table: nat, k: nat, v: View)
    ensures ReadRela(e, table, k, v).Some? <==>
              && table + 24 * k < U64 && Accepted(e.vao + table + 24 * k)
              && EntryAt(e.vao, table, k) + 24 <= SPACE && Readable(v, EntryAt(e.vao, table, k), 24)
  {
    assert e.vao + (table + 24 * k) == e.vao + table + 24 * k;
  }

  /** An entry can be applied exactly if that holds. */
  lemma EntryIff(e: Kernel, table: nat, k: nat, v: View)
    ensures EntryOk(e, table, k, v) <==> Applicable(e, v, table, k)
  {
    hide EntryAt, Number, ReadRela;
    ReadIff(e, table, k, v);
    if ReadRela(e, table, k, v).Some? {
      EntryRead(e, table, k, v);
    }
  }

  // ---- one table ----

  /**
    What the three values of a dynamic section mean: a table of as many whole entries as its size holds,
    no table if none is given, and nothing else.
  */
  lemma TableIs(ds: seq<DynEntry>, rela: Option<nat>, size: Option<nat>, ent: Option<nat>)
    requires TagsOnce(ds)
    requires ValueOf(ds, TagRela, rela) && ValueOf(ds, TagRelaSize, size) && ValueOf(ds, TagRelaEnt, ent)
    ensures rela.Some? && size.Some? && ent == Some(24) ==>
              && TableOf(ds).Some? && TableOf(ds).value.offset == rela.value
              && 24 * TableOf(ds).value.count <= size.value < 24 * (TableOf(ds).value.count + 1)
    ensures rela.None? && size.None? && ent.None? ==> TableOf(ds).Some? && TableOf(ds).value.count == 0
    ensures TableOf(ds).Some? ==>
              (rela.Some? && size.Some? && ent == Some(24)) || (rela.None? && size.None? && ent.None?)
  {
    ScanIs(ds);
    var s := ScanFold(ds).value;
    OneValue(ds, TagRela, rela, s.rela);
    OneValue(ds, TagRelaSize, size, s.relaSize);
    OneValue(ds, TagRelaEnt, ent, s.relaEnt);
  }

  lemma OneValue(ds: seq<DynEntry>, tag: DynTag, a: Option<nat>, b: Option<nat>)
    requires ValueOf(ds, tag, a) && ValueOf(ds, tag, b)
    ensures a == b
  {
    if i :| 0 <= i < |ds| && ds[i].tag == tag {
      assert a == Some(ds[i].value) == b;
    }
  }

  /** A section with a repeated or undecodable tag has no table. */
  lemma NoTable(ds: seq<DynEntry>)
    requires !TagsOnce(ds)
    ensures TableOf(ds).None?
  {
    ScanIs(ds);
  }

  // ---- all tables ----

  /** The number of entries in the tables of the Dynamic headers among the first n. */
  function Before(e: Kernel, n: nat): nat
    requires n <= |e.headers|
  {
    if n == 0 then 0
    else
      var h := e.headers[n - 1];
      Before(e, n - 1) +
      if h.kind == Dynamic && TableOf(h.dynamic).Some? then TableOf(h.dynamic).value.count else 0
  }

  lemma {:induction false} AsMany(e: Kernel, n: nat, v: View)
    requires n <= |e.headers| && DynamicFold(e, n, v).Some?
    ensures |DynamicFold(e, n, v).value| == Before(e, n)
  {
    hide Words, TableOf, ApplyAll;
    if n > 0 {
      AsMany(e, n - 1, v);
      var h := e.headers[n - 1];
      if h.kind == Dynamic {
        var t := TableOf(h.dynamic).value;
        WordsCount(e, t.offset, t.count, ApplyAll(v, DynamicFold(e, n - 1, v).value));
      }
    }
  }

  lemma {:induction false} WordAt(e: Kernel, n: nat, v: View, i: nat, k: nat)
    requires i < n <= |e.headers| && DynamicFold(e, n, v).Some? && e.headers[i].kind == Dynamic
    requires TableOf(e.headers[i].dynamic).Some? && k < TableOf(e.headers[i].dynamic).value.count
    ensures var ws, p := DynamicFold(e, n, v).value, Before(e, i) + k;
            && p < |ws|
            && AsksFor(e, ApplyAll(v, ws[..p]), EntryAt(e.vao, TableOf(e.headers[i].dynamic).value.offset, k), ws[p])
  {
    hide Words, TableOf, ApplyAll, AsksFor, EntryAt;
    var h, prev := e.headers[n - 1], DynamicFold(e, n - 1, v).value;
    AsMany(e, n - 1, v);
    AsMany(e, n, v);
    var ws, p := DynamicFold(e, n, v).value, Before(e, i) + k;
    if i < n - 1 {
      WordAt(e, n - 1, v, i, k);
      assert ws[..p] == prev[..p];
    } else {
      var t := TableOf(h.dynamic).value;
      var now := ApplyAll(v, prev);
      TableEntry(e, t.offset, t.count, now, k);
      var here := Words(e, t.offset, t.count, now).value;
      assert ws == prev + here && ws[..p] == prev + here[..k] && ws[p] == here[k];
      ApplyConcat(v, prev, here[..k]);
    }
  }

  /**
    Every entry of every table of a loaded kernel has stored its word, in order of headers and entries:
    word Before(e, i) + k is the one asked for by entry k of Dynamic header i when its turn came.
  */
  lemma EveryEntryStored(e: Kernel, i: nat, k: nat, rela: nat, size: nat)
    requires LoadAll(e).Some? && i < |e.headers| && e.headers[i].kind == Dynamic
    requires ValueOf(e.headers[i].dynamic, TagRela, Some(rela))
    requires ValueOf(e.headers[i].dynamic, TagRelaSize, Some(size))
    requires 24 * (k + 1) <= size
    ensures LoadFold(e, |e.headers|).Some? && Relocated(e).Some? && Before(e, i) + k < |Relocated(e).value|
    ensures var ws, p := Relocated(e).value, Before(e, i) + k;
            AsksFor(e, ApplyAll(LoadFold(e, |e.headers|).value.view, ws[..p]), EntryAt(e.vao, rela, k), ws[p])
  {
    hide LoadFold, DynamicFold, RelroFold, ApplyAll, AsksFor, EntryAt, Before, TableOf, ValueOf;
    var ds := e.headers[i].dynamic;
    FoldHasTable(e, |e.headers|, LoadFold(e, |e.headers|).value.view, i);
    if !TagsOnce(ds) {
      NoTable(ds);
    }
    var ent := EntryValue(ds);
    TableIs(ds, Some(rela), Some(size), ent);
    WordAt(e, |e.headers|, LoadFold(e, |e.headers|).value.view, i, k);
  }

  lemma {:induction false} FoldHasTable(e: Kernel, n: nat, v: View, i: nat)
    requires i < n <= |e.headers| && DynamicFold(e, n, v).Some? && e.headers[i].kind == Dynamic
    ensures TableOf(e.headers[i].dynamic).Some?
  {
    hide Words, TableOf, ApplyAll;
    if i < n - 1 {
      FoldHasTable(e, n - 1, v, i);
    }
  }

  lemma EntryValue(ds: seq<DynEntry>) returns (ent: Option<nat>)
    requires TagsOnce(ds)
    ensures ValueOf(ds, TagRelaEnt, ent)
  {
    ScanIs(ds);
    ent := ScanFold(ds).value.relaEnt;
  }

  /** And there are no other words. */
  lemma NoOtherWords(e: Kernel)
    requires LoadAll(e).Some?
    ensures Relocated(e).Some? && |Relocated(e).value| == Before(e, |e.headers|)
  {
    hide LoadFold, DynamicFold, RelroFold, ApplyAll, Before;
    AsMany(e, |e.headers|, LoadFold(e, |e.headers|).value.view);
  }

  /** A word that no later word overlaps is the number read at its address in the loaded image. */
  lemma WordReadsBack(e: Kernel, p: nat)
    requires LoadAll(e).Some? && Relocated(e).Some? && p < |Relocated(e).value|
    requires var ws := Relocated(e).value;
             forall l, a :: p < l < |ws| && CoversByte(ws[p], a) ==> !CoversByte(ws[l], a)
    ensures var w, v := Relocated(e).value[p], LoadAll(e).value.view;
            |w.bytes| == 8 && Readable(v, w.addr, 8) && Number(v, w.addr) == Sum8(w.bytes)
  {
    hide LoadAll, Relocated, Number, Sum8, FromLe, CoversByte;
    LoadedWord(e, p);
    var w, v := Relocated(e).value[p], LoadAll(e).value.view;
    var r :| ReadsBack(e, v, w, r);
    FromLeIsSum(w.bytes);
    FromLeIsSum(Bytes(v, w.addr, 8));
    NumberIs(v, w.addr, 8, 0);
    assert Bytes(v, w.addr, 8)[0..8] == Bytes(v, w.addr, 8);
  }
}
