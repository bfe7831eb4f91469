/**
  Virtual addresses as the x86-64 address type keeps them: 48 bits, sign-extended. The rest of the
  project numbers them from 0 to 2^48; the lemmas here say that the type's arithmetic is that of the numbers.
*/
module VirtualAddress {

  const U64: int := 0x1_0000_0000_0000_0000
  const SPACE: int := 0x1_0000_0000_0000
  const LOWER_END: int := 0x8000_0000_0000
  const UPPER_START: int := 0xffff_8000_0000_0000
  const PAGES: int := 0x10_0000_0000

  /** What VirtAddr::new takes: bits 48 to 63 repeat bit 47, or are zero and get sign-extended. */
  predicate Accepted(raw: int) { 0 <= raw < SPACE || UPPER_START <= raw < U64 }

  /** The 48-bit number of an address. */
  function Linear(raw: int): (r: int)
    ensures 0 <= r < SPACE
  {
    raw % SPACE
  }

  /** The 64-bit form of a number. */
  function SignExtend(linear: int): int {
    if linear < LOWER_END then linear else linear + (UPPER_START - LOWER_END)
  }

  /** Subtracting 1 is refused at 0, and at the start of the upper half. */
  predicate CanStepBack(linear: int) { 0 < linear && linear != LOWER_END }

  lemma Reduce(linear: int, upper: bool)
    requires 0 <= linear < SPACE
    ensures Linear(if upper then linear + (UPPER_START - LOWER_END) else linear) == linear
  {
    if upper {
      assert linear + (UPPER_START - LOWER_END) == 0xffff * SPACE + linear;
    }
  }

  lemma ExtendLinear(linear: int)
    requires 0 <= linear < SPACE
    ensures Accepted(SignExtend(linear)) && Linear(SignExtend(linear)) == linear
  {
    Reduce(linear, linear >= LOWER_END);
  }

  /** Adding to an address, whether before or after it is sign-extended, is refused exactly at the end of the space. */
  lemma Advance(raw: int, n: nat)
    requires Accepted(raw) && n < U64 / 2
    ensures Accepted(raw + n) <==> Linear(raw) + n < SPACE
    ensures Accepted(SignExtend(Linear(raw)) + n) <==> Linear(raw) + n < SPACE
    ensures Linear(raw) + n < SPACE ==>
              Linear(raw + n) == Linear(SignExtend(Linear(raw)) + n) == Linear(raw) + n
  {
    var linear := if raw < SPACE then raw else raw - (UPPER_START - LOWER_END);
    Reduce(linear, raw >= SPACE);
    if linear + n < SPACE {
      Reduce(linear + n, raw >= SPACE);
      Reduce(linear + n, linear >= LOWER_END);
    }
  }

  lemma Back(linear: int)
    requires 0 <= linear < SPACE
    ensures Accepted(SignExtend(linear) - 1) <==> CanStepBack(linear)
    ensures CanStepBack(linear) ==> Linear(SignExtend(linear) - 1) == linear - 1
  {
    if CanStepBack(linear) {
      Reduce(linear - 1, linear >= LOWER_END);
    }
  }

  /** In bits: 48 to 63 are zero, or 47 to 63 are all ones. */
  lemma AcceptedIff(raw: int)
    ensures Accepted(raw) <==>
              && 0 <= raw < 0x1_0000_0000_0000_0000
              && (raw / 0x1_0000_0000_0000 == 0 || raw / 0x8000_0000_0000 == 0x1_ffff)
  {
  }

  /** Sign extension keeps bits 0 to 47 and repeats bit 47 in all bits above. */
  lemma SignExtendIs(linear: int)
    requires 0 <= linear < 0x1_0000_0000_0000
    ensures SignExtend(linear) % 0x1_0000_0000_0000 == linear
    ensures SignExtend(linear) / 0x1_0000_0000_0000 == if linear / 0x8000_0000_0000 == 1 then 0xffff else 0
  {
    if linear >= LOWER_END {
      assert SignExtend(linear) == 0xffff * 0x1_0000_0000_0000 + linear;
    }
  }
}
