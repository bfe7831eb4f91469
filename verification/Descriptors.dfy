/**
  Memory descriptors as the firmware reports them (UEFI Specification 2.10, section 7.2)
  and the memory regions that are handed to the kernel.
*/
module Descriptors {

  datatype RegionKind = Usable | Bootloader | UnknownUefi(ty: nat)

  /** A half-open range [start, end) of physical addresses. */
  datatype Region = Region(start: nat, end: nat, kind: RegionKind)

  const LOADER_CODE: nat := 1
  const LOADER_DATA: nat := 2
  const BOOT_SERVICES_CODE: nat := 3
  const BOOT_SERVICES_DATA: nat := 4
  const CONVENTIONAL: nat := 7

  datatype Descriptor = Descriptor(ty: nat, physStart: nat, pageCount: nat) {
    function Start(): nat { physStart }

    function Len(): nat { pageCount * 4096 }

    function End(): nat { physStart + Len() }

    function Kind(): RegionKind {
      if ty == CONVENTIONAL then Usable else UnknownUefi(ty)
    }

    predicate UsableAfterExit() {
      ty in {CONVENTIONAL, LOADER_CODE, LOADER_DATA, BOOT_SERVICES_CODE, BOOT_SERVICES_DATA}
    }

    predicate Contains(addr: int) { Start() <= addr < End() }

    /** What section 7.2 guarantees of one descriptor: page aligned and not empty. */
    predicate WellFormed() { physStart % 4096 == 0 && 0 < pageCount }
  }

  ghost predicate AllWellFormed(descs: seq<Descriptor>) {
    forall d :: d in descs ==> d.WellFormed()
  }

  /** The map after memory_map.sort(), with pairwise disjoint descriptors. */
  ghost predicate Sorted(descs: seq<Descriptor>) {
    forall i, j :: 0 <= i < j < |descs| ==> descs[i].End() <= descs[j].Start()
  }
}
