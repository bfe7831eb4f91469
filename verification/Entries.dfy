/** Level-4 slots of the kernel's address space: which are used, and first-fit allocation of free runs. */
module Entries {
  import opened Common
  import opened Elf
  import opened VirtualAddress

  const SLOTS: int := 512
  const SLOT_SIZE: int := 0x80_0000_0000

  /** The level-4 slot of an address. */
  function P4(linear: int): int { linear / 0x80_0000_0000 }

  // ---- specification on slot states ----

  predicate FreeRun(s: seq<bool>, idx: nat, num: nat) {
    0 < num && idx + num <= |s| && forall i :: idx <= i < idx + num ==> !s[i]
  }

  /** `t` is `s` with the slots [lo, hi] used as well. */
  predicate Marked(s: seq<bool>, t: seq<bool>, lo: int, hi: int) {
    |t| == |s| && forall i :: 0 <= i < |s| ==> t[i] == (s[i] || lo <= i <= hi)
  }

  /** The lowest free run of `num` slots; an empty request is a panic like a full table. */
  ghost predicate FirstFit(s: seq<bool>, num: nat, r: Option<nat>) {
    if r.None? then forall idx: nat :: !FreeRun(s, idx, num)
    else FreeRun(s, r.value, num) && forall idx: nat :: idx < r.value ==> !FreeRun(s, idx, num)
  }

  predicate IsPowerOfTwo(a: nat) {
    a == 1 || (1 < a && a % 2 == 0 && IsPowerOfTwo(a / 2))
  }

  /** Slots needed for `size` bytes. */
  function SlotsFor(size: nat): nat { (size + (SLOT_SIZE - 1)) / SLOT_SIZE }

  /** The start, the end and the address before the end are valid. */
  // ---- what the arithmetic means ----

  /** As few slots of 512 GiB as hold the size. */
  lemma SlotsForIs(size: nat)
    ensures size <= SlotsFor(size) * 0x80_0000_0000
    ensures 0 < size ==> (SlotsFor(size) - 1) * 0x80_0000_0000 < size
    ensures SlotsFor(0) == 0
  {
  }

  function Pow2(n: nat): nat { if n == 0 then 1 else 2 * Pow2(n - 1) }

  lemma {:induction false} PowerOfTwoIs(n: nat)
    ensures IsPowerOfTwo(Pow2(n))
  {
    if n > 0 {
      PowerOfTwoIs(n - 1);
    }
  }

  lemma {:induction false} IsOfPowers(a: nat)
    requires IsPowerOfTwo(a)
    ensures exists n: nat :: a == Pow2(n)
  {
    if a == 1 {
      assert a == Pow2(0);
    } else {
      IsOfPowers(a / 2);
      var n: nat :| a / 2 == Pow2(n);
      assert a == Pow2(n + 1);
    }
  }

  /** A header touches slot i iff one of its bytes lies in the i-th 512 GiB. */
  lemma TouchesIff(h: Header, vao: int, i: int)
    ensures var start := (vao + h.vaddr) % 0x1_0000_0000_0000;
            Touches(h, vao, i) <==> exists a :: start <= a < start + h.memsz && InSlot(a, i)
  {
    var start := (vao + h.vaddr) % 0x1_0000_0000_0000;
    if Touches(h, vao, i) {
      var a := if start < i * 0x80_0000_0000 then i * 0x80_0000_0000 else start;
      assert start <= a < start + h.memsz && InSlot(a, i);
    }
  }

  predicate InSlot(address: int, i: int) { i * 0x80_0000_0000 <= address < (i + 1) * 0x80_0000_0000 }

  predicate MarkableRange(address: int, size: nat) {
    Accepted(address) && Linear(address) + size < SPACE && CanStepBack(Linear(address) + size)
  }

  /** In 64-bit addresses: the start, start + size and the address before that are all accepted. */
  lemma MarkableIff(address: int, size: nat)
    requires size < U64 / 2
    ensures MarkableRange(address, size) <==>
              && Accepted(address) && Accepted(SignExtend(Linear(address)) + size)
              && Accepted(SignExtend(Linear(SignExtend(Linear(address)) + size)) - 1)
  {
    if Accepted(address) {
      Advance(address, size);
      if Linear(address) + size < SPACE {
        Back(Linear(address) + size);
      }
    }
  }

  /** Slot i is touched by one of the headers. */
  ghost predicate Touched(hs: seq<Header>, vao: int, i: int) {
    exists h :: h in hs && Touches(h, vao, i)
  }

  predicate Touches(h: Header, vao: int, i: int) {
    0 < h.memsz && P4(Linear(vao + h.vaddr)) <= i <= P4(Linear(vao + h.vaddr) + h.memsz - 1)
  }

  // ---- runs ----

  /** What is asked of the slots: a range is marked, or a run of slots is asked for. */
  datatype Op = Mark(lo: int, hi: int) | Alloc(num: nat)

  /** One step from `s` to `t` with answer `r`. */
  ghost predicate Step(s: seq<bool>, op: Op, t: seq<bool>, r: Option<nat>) {
    match op
    case Mark(lo, hi) => r == None && Marked(s, t, lo, hi)
    case Alloc(num) =>
      FirstFit(s, num, r) && (if r.Some? then Marked(s, t, r.value, r.value + num - 1) else t == s)
  }

  /** All that has happened to the slots: the states before and after every step, and the answers. */
  datatype History = History(states: seq<seq<bool>>, ops: seq<Op>, answers: seq<Option<nat>>)

  function OnlySlotZero(): seq<bool> { seq(SLOTS, i => i == 0) }

  ghost predicate Run(h: History) {
    && |h.states| == |h.ops| + 1 && |h.answers| == |h.ops|
    && h.states[0] == OnlySlotZero()
    && forall k :: 0 <= k < |h.ops| ==> Step(h.states[k], h.ops[k], h.states[k + 1], h.answers[k])
  }

  function Start(): History { History([OnlySlotZero()], [], []) }

  function After(h: History, op: Op, t: seq<bool>, r: Option<nat>): History {
    History(h.states + [t], h.ops + [op], h.answers + [r])
  }

  lemma RunAfter(h: History, op: Op, t: seq<bool>, r: Option<nat>)
    requires Run(h) && Step(h.states[|h.ops|], op, t, r)
    ensures Run(After(h, op, t, r)) && Grows(h, After(h, op, t, r), [op])
  {
    hide Step, OnlySlotZero;
  }

  /** `h1` is `h0` with the operations `ops` after it. */
  ghost predicate Grows(h0: History, h1: History, ops: seq<Op>) {
    h0.states <= h1.states && h0.answers <= h1.answers && h1.ops == h0.ops + ops
  }

  lemma GrowsNone(h: History)
    ensures Grows(h, h, [])
  {
  }

  lemma GrowsTrans(h0: History, h1: History, h2: History, a: seq<Op>, b: seq<Op>)
    requires Grows(h0, h1, a) && Grows(h1, h2, b)
    ensures Grows(h0, h2, a + b)
  {
  }

  /** Everything asked for has been granted. */
  ghost predicate Granted(h0: History, h1: History, ops: seq<Op>) {
    && Run(h0) && Run(h1) && Grows(h0, h1, ops)
    && forall k :: |h0.ops| <= k < |h1.ops| && h1.ops[k].Alloc? ==> h1.answers[k].Some?
  }

  /** Some first part of `ops` was done, and its last request is the first that found no slots. */
  ghost predicate Refused(h0: History, h1: History, ops: seq<Op>) {
    && Run(h0) && Run(h1) && exists n: nat :: n < |ops| && RefusedAt(h0, h1, ops, n)
  }

  ghost predicate RefusedAt(h0: History, h1: History, ops: seq<Op>, n: nat)
    requires n < |ops| && Run(h0) && Run(h1)
  {
    && Grows(h0, h1, ops[..n + 1]) && ops[n].Alloc? && h1.answers[|h1.ops| - 1].None?
    && forall k :: |h0.ops| <= k < |h1.ops| - 1 && h1.ops[k].Alloc? ==> h1.answers[k].Some?
  }

  lemma OneRequest(h0: History, h1: History, num: nat)
    requires Run(h0) && Run(h1) && Grows(h0, h1, [Alloc(num)])
    ensures if h1.answers[|h1.ops| - 1].Some? then Granted(h0, h1, [Alloc(num)]) else Refused(h0, h1, [Alloc(num)])
  {
    hide Step;
    assert [Alloc(num)][..0 + 1] == [Alloc(num)];
    if h1.answers[|h1.ops| - 1].None? {
      assert RefusedAt(h0, h1, [Alloc(num)], 0);
    }
  }

  lemma GrantedNothing(h: History)
    requires Run(h)
    ensures Granted(h, h, [])
  {
  }

  lemma GrantedThen(h0: History, h1: History, h2: History, a: seq<Op>, b: seq<Op>)
    requires Granted(h0, h1, a)
    ensures Granted(h1, h2, b) ==> Granted(h0, h2, a + b)
    ensures Refused(h1, h2, b) ==> Refused(h0, h2, a + b)
  {
    hide Run;
    assert |h1.ops| == |h0.ops| + |a|;
    if Granted(h1, h2, b) {
      GrantedBoth(h0, h1, h2, a, b);
    }
    if Refused(h1, h2, b) {
      var n: nat :| n < |b| && RefusedAt(h1, h2, b, n);
      RefusedAfter(h0, h1, h2, a, b, n);
    }
  }

  lemma SameAnswers(h0: History, h1: History, h2: History, a: seq<Op>, b: seq<Op>)
    requires Run(h0) && Run(h1) && Run(h2) && Grows(h0, h1, a) && Grows(h1, h2, b)
    ensures |h1.answers| == |h1.ops| == |h0.ops| + |a|
    ensures forall k :: 0 <= k < |h1.ops| ==> h2.ops[k] == h1.ops[k] && h2.answers[k] == h1.answers[k]
  {
    hide Step;
  }

  lemma GrantedBoth(h0: History, h1: History, h2: History, a: seq<Op>, b: seq<Op>)
    requires Granted(h0, h1, a) && Granted(h1, h2, b)
    ensures Granted(h0, h2, a + b)
  {
    hide Run;
    SameAnswers(h0, h1, h2, a, b);
    GrowsTrans(h0, h1, h2, a, b);
  }

  lemma RefusedAfter(h0: History, h1: History, h2: History, a: seq<Op>, b: seq<Op>, n: nat)
    requires Granted(h0, h1, a) && Run(h2) && n < |b| && RefusedAt(h1, h2, b, n)
    ensures Refused(h0, h2, a + b)
  {
    hide Run;
    SameAnswers(h0, h1, h2, a, b[..n + 1]);
    GrowsTrans(h0, h1, h2, a, b[..n + 1]);
    assert (a + b)[..|a| + n + 1] == a + b[..n + 1];
    assert RefusedAt(h0, h2, a + b, |a| + n);
  }

  /** A request refused is refused however many more were to follow. */
  lemma RefusedMore(h0: History, h1: History, a: seq<Op>, b: seq<Op>)
    requires Refused(h0, h1, a)
    ensures Refused(h0, h1, a + b)
  {
    hide Run;
    var n: nat :| n < |a| && RefusedAt(h0, h1, a, n);
    assert (a + b)[..n + 1] == a[..n + 1];
    assert RefusedAt(h0, h1, a + b, n);
  }

  /** The marks for a list of headers. */
  function MarkOps(hs: seq<Header>, vao: int): seq<Op> {
    if hs == [] then []
    else
      var h := hs[|hs| - 1];
      MarkOps(hs[..|hs| - 1], vao) +
      if 0 < h.memsz then [Mark(P4(Linear(vao + h.vaddr)), P4(Linear(vao + h.vaddr) + h.memsz - 1))] else []
  }

  lemma {:induction false} MarkOpsAreMarks(hs: seq<Header>, vao: int)
    ensures forall k :: 0 <= k < |MarkOps(hs, vao)| ==> MarkOps(hs, vao)[k].Mark?
    ensures Total(MarkOps(hs, vao)) == 0
    decreases |hs|
  {
    if hs != [] {
      MarkOpsAreMarks(hs[..|hs| - 1], vao);
      var init := MarkOps(hs[..|hs| - 1], vao);
      assert |MarkOps(hs, vao)| > |init| ==> MarkOps(hs, vao)[..|MarkOps(hs, vao)| - 1] == init;
      assert |MarkOps(hs, vao)| == |init| ==> MarkOps(hs, vao) == init;
    }
  }

  lemma {:induction false} TotalConcat(a: seq<Op>, b: seq<Op>)
    ensures Total(a + b) == Total(a) + Total(b)
    decreases |b|
  {
    if b == [] {
      assert a + b == a;
    } else {
      TotalConcat(a, b[..|b| - 1]);
      assert (a + b)[..|a + b| - 1] == a + b[..|b| - 1];
    }
  }

  lemma MarksGranted(h0: History, h1: History, hs: seq<Header>, vao: int)
    requires Run(h0) && Run(h1) && Grows(h0, h1, MarkOps(hs, vao))
    ensures Granted(h0, h1, MarkOps(hs, vao))
  {
    hide Run;
    MarkOpsAreMarks(hs, vao);
  }

  lemma MarkOpsNone(vao: int)
    ensures MarkOps([], vao) == []
  {
  }

  lemma MarkOpsMore(hs: seq<Header>, h: Header, vao: int, h0: History, h1: History, h2: History)
    requires Grows(h0, h1, MarkOps(hs, vao))
    requires if 0 < h.memsz
             then Grows(h1, h2, [Mark(P4(Linear(vao + h.vaddr)), P4(Linear(vao + h.vaddr) + h.memsz - 1))])
             else h2 == h1
    ensures Grows(h0, h2, MarkOps(hs + [h], vao))
  {
    hide P4;
    assert (hs + [h])[..|hs|] == hs;
  }

  class Entries {
    const entryState: array<bool>
    /** Everything that has happened to the slots so far. */
    ghost var history: History

    ghost predicate Valid()
      reads this, entryState
    {
      entryState.Length == SLOTS && Run(history) && history.states[|history.ops|] == entryState[..]
    }

    ghost function State(): seq<bool>
      reads this, entryState
    {
      entryState[..]
    }

    /** Only slot 0 is used. */
    constructor ()
      ensures Valid() && fresh(entryState)
      ensures State() == OnlySlotZero() && history == Start()
    {
      entryState := new bool[512](i => i == 0);
      history := Start();
      new;
      assert entryState[..] == OnlySlotZero();
    }

    method MarkRangeAsUsed(address: int, size: nat) returns (ok: bool)
      requires Valid()
      modifies this, entryState
      ensures Valid()
      ensures ok <==> MarkableRange(address, size)
      ensures if ok then Marked(old(State()), State(), P4(Linear(address)), P4(Linear(address) + size - 1))
              else State() == old(State())
      ensures if ok then Grows(old(history), history, [Mark(P4(Linear(address)), P4(Linear(address) + size - 1))])
              else history == old(history)
    {
      if !Accepted(address) {
        return false;
      }
      var start := Linear(address);
      if start + size >= SPACE || !CanStepBack(start + size) {
        return false;
      }
      var first, last := P4(start), P4(start + size - 1);
      var i := first;
      while i <= last
        invariant first <= i && (i <= last + 1 || i == first) && history == old(history)
        invariant forall k :: 0 <= k < SLOTS ==> entryState[k] == (old(entryState[k]) || first <= k < i)
      {
        entryState[i] := true;
        i := i + 1;
      }
      RunAfter(history, Mark(first, last), entryState[..], None);
      history := After(history, Mark(first, last), entryState[..], None);
      return true;
    }

    /** Marks every header with a memory size, whatever its kind. */
    method MarkSegments(hs: seq<Header>, vao: int) returns (ok: bool)
      requires Valid()
      modifies this, entryState
      ensures Valid()
      ensures ok <==> forall h :: h in hs && 0 < h.memsz ==> MarkableRange(vao + h.vaddr, h.memsz)
      ensures ok ==> forall i :: 0 <= i < SLOTS ==> (State()[i] <==> old(State())[i] || Touched(hs, vao, i))
      ensures ok ==> Grows(old(history), history, MarkOps(hs, vao))
      ensures forall i :: 0 <= i < SLOTS && old(State())[i] ==> State()[i]
    {
      hide P4, MarkableRange, Run, Grows, MarkOps;
      MarkOpsNone(vao);
      GrowsNone(history);
      for k := 0 to |hs|
        invariant Valid()
        invariant forall h :: h in hs[..k] && 0 < h.memsz ==> MarkableRange(vao + h.vaddr, h.memsz)
        invariant forall i :: 0 <= i < SLOTS ==> (State()[i] <==> old(State())[i] || Touched(hs[..k], vao, i))
        invariant Grows(old(history), history, MarkOps(hs[..k], vao))
      {
        assert hs[..k + 1] == hs[..k] + [hs[k]];
        ghost var h1 := history;
        if 0 < hs[k].memsz {
          ok := MarkRangeAsUsed(vao + hs[k].vaddr, hs[k].memsz);
          if !ok {
            return;
          }
        }
        TouchedMore(hs[..k], hs[k], vao);
        MarkOpsMore(hs[..k], hs[k], vao, old(history), h1, history);
      }
      assert hs[..|hs|] == hs;
      return true;
    }

    /** First-fit search, then marking; None is the panic. */
    method GetFreeEntries(num: nat) returns (r: Option<nat>)
      requires Valid()
      modifies this, entryState
      ensures Valid()
      ensures FirstFit(old(State()), num, r)
      ensures if r.Some? then Marked(old(State()), State(), r.value, r.value + num - 1) else State() == old(State())
      ensures Grows(old(history), history, [Alloc(num)]) && history.answers == old(history).answers + [r]
    {
      r := Search(num);
      if r.Some? {
        var idx := r.value;
        for i := 0 to num
          invariant history == old(history)
          invariant forall k :: 0 <= k < SLOTS ==> entryState[k] == (old(entryState[k]) || idx <= k < idx + i)
        {
          entryState[idx + i] := true;
        }
      }
      RunAfter(history, Alloc(num), entryState[..], r);
      history := After(history, Alloc(num), entryState[..], r);
    }

    /** The first window of `num` free slots; a window of none is a panic. */
    method Search(num: nat) returns (r: Option<nat>)
      requires Valid()
      ensures FirstFit(State(), num, r)
    {
      if num == 0 {
        return None;
      }
      var idx := 0;
      while idx + num <= 512
        invariant forall i: nat :: i < idx ==> !FreeRun(State(), i, num)
      {
        var free := true;
        for i := 0 to num
          invariant free <==> forall k :: idx <= k < idx + i ==> !entryState[k]
        {
          if entryState[idx + i] {
            free := false;
          }
        }
        if free {
          assert FreeRun(State(), idx, num);
          return Some(idx);
        }
        idx := idx + 1;
      }
      return None;
    }

    /** The 48-bit start address of enough free slots; None is a panic. */
    method GetFreeAddress(size: nat, alignment: nat) returns (r: Option<int>)
      requires Valid()
      modifies this, entryState
      ensures Valid()
      ensures r.Some? ==>
                && IsPowerOfTwo(alignment) && 0 < size
                && r.value % SLOT_SIZE == 0 && 0 <= r.value
                && FirstFit(old(State()), SlotsFor(size), Some(r.value / SLOT_SIZE))
                && Marked(old(State()), State(), r.value / SLOT_SIZE, r.value / SLOT_SIZE + SlotsFor(size) - 1)
      ensures r.None? ==>
                && State() == old(State())
                && (!IsPowerOfTwo(alignment) || FirstFit(old(State()), SlotsFor(size), None))
      ensures if IsPowerOfTwo(alignment) then
                && Grows(old(history), history, [Alloc(SlotsFor(size))])
                && history.answers == old(history).answers + [if r.Some? then Some(r.value / SLOT_SIZE) else None]
              else history == old(history)
    {
      if !IsPowerOfTwo(alignment) {
        return None;
      }
      var idx := GetFreeEntries((size + (SLOT_SIZE - 1)) / SLOT_SIZE);
      if idx.None? {
        return None;
      }
      return Some(idx.value * SLOT_SIZE);
    }
  }

  lemma TouchedMore(hs: seq<Header>, h: Header, vao: int)
    ensures forall i :: Touched(hs + [h], vao, i) <==>
              Touched(hs, vao, i) || Touches(h, vao, i)
  {
    hide P4;
    forall i
      ensures Touched(hs + [h], vao, i) <==>
                Touched(hs, vao, i) || Touches(h, vao, i)
    {
      assert forall g :: g in hs + [h] <==> g in hs || g == h;
    }
  }

  // ---- over any run ----

  /** Slots only go from free to used. */
  lemma {:induction false} SlotsOnlyFill(h: History, j: nat, k: nat, i: nat)
    requires Run(h) && j <= k <= |h.ops| && i < SLOTS
    ensures |h.states[j]| == |h.states[k]| == SLOTS
    ensures h.states[j][i] ==> h.states[k][i]
    decreases k
  {
    if j < k {
      SlotsOnlyFill(h, j, k - 1, i);
      assert Step(h.states[k - 1], h.ops[k - 1], h.states[k], h.answers[k - 1]);
    } else if 0 < k {
      SlotsOnlyFill(h, k - 1, k - 1, i);
      assert Step(h.states[k - 1], h.ops[k - 1], h.states[k], h.answers[k - 1]);
    }
  }

  /** The slots taken by step k. */
  predicate Takes(h: History, k: nat, i: int)
    requires k < |h.ops| == |h.answers|
  {
    match h.ops[k]
    case Mark(lo, hi) => lo <= i <= hi
    case Alloc(num) => h.answers[k].Some? && h.answers[k].value <= i < h.answers[k].value + num
  }

  /**
    Over any run, an allocation never returns slot 0, nor a slot taken by any earlier step: allocated
    runs are pairwise disjoint and avoid every slot marked before.
  */
  lemma AllocationsFresh(h: History, j: nat, k: nat, i: nat)
    requires Run(h) && j < k < |h.ops| && i < SLOTS
    requires h.ops[k].Alloc? && Takes(h, k, i)
    ensures i != 0 && !Takes(h, j, i)
  {
    assert Step(h.states[j], h.ops[j], h.states[j + 1], h.answers[j]);
    assert Step(h.states[k], h.ops[k], h.states[k + 1], h.answers[k]);
    SlotsOnlyFill(h, j, j, i);
    SlotsOnlyFill(h, j + 1, k, i);
    SlotsOnlyFill(h, 0, k, 0);
  }

  // ---- when a run of requests is granted ----

  /** The slots below m are used, and no others. */
  predicate Prefix(s: seq<bool>, m: int) {
    |s| == SLOTS && 1 <= m <= SLOTS && forall i :: 0 <= i < SLOTS ==> s[i] == (i < m)
  }

  /** The number of slots asked for. */
  function Total(ops: seq<Op>): nat {
    if ops == [] then 0
    else Total(ops[..|ops| - 1]) + match ops[|ops| - 1] case Mark(_, _) => 0 case Alloc(num) => num
  }

  /** Every mark stays inside what the requests before it took, if slots are taken from the front. */
  ghost predicate Contained(ops: seq<Op>) {
    forall k :: 0 <= k < |ops| && ops[k].Mark? ==> ops[k].hi <= Total(ops[..k])
  }

  lemma PrefixStep(s: seq<bool>, op: Op, t: seq<bool>, r: Option<nat>, m: int)
    requires Prefix(s, m) && Step(s, op, t, r) && (op.Mark? ==> op.hi < m)
    ensures op.Mark? ==> Prefix(t, m)
    ensures op.Alloc? ==>
              && (r.Some? <==> 0 < op.num && m + op.num <= SLOTS)
              && (r.Some? ==> r.value == m && Prefix(t, m + op.num))
  {
    if op.Alloc? && 0 < op.num && m + op.num <= SLOTS {
      assert FreeRun(s, m, op.num);
    }
    if r.Some? && op.Alloc? {
      assert !s[r.value];
      assert FreeRun(s, m, op.num);
    }
  }

  /** While all requests are granted and all marks contained, slots are taken from the front, without gaps. */
  lemma {:induction false} PrefixRun(h: History, k: nat)
    requires Run(h) && Contained(h.ops) && k <= |h.ops|
    requires forall j :: 0 <= j < k && h.ops[j].Alloc? ==> h.answers[j].Some?
    ensures Prefix(h.states[k], 1 + Total(h.ops[..k]))
  {
    if k > 0 {
      PrefixRun(h, k - 1);
      assert Step(h.states[k - 1], h.ops[k - 1], h.states[k], h.answers[k - 1]);
      assert h.ops[..k][..k - 1] == h.ops[..k - 1];
      PrefixStep(h.states[k - 1], h.ops[k - 1], h.states[k], h.answers[k - 1], 1 + Total(h.ops[..k - 1]));
    }
  }

  /** The k-th request, when those before it have been granted: granted exactly if there is room at the end. */
  lemma RequestIff(h: History, k: nat)
    requires Run(h) && Contained(h.ops) && k < |h.ops| && h.ops[k].Alloc?
    requires forall j :: 0 <= j < k && h.ops[j].Alloc? ==> h.answers[j].Some?
    ensures h.answers[k].Some? <==> 0 < h.ops[k].num && 1 + Total(h.ops[..k + 1]) <= SLOTS
    ensures h.answers[k].Some? ==> h.answers[k].value == 1 + Total(h.ops[..k])
  {
    PrefixRun(h, k);
    assert Step(h.states[k], h.ops[k], h.states[k + 1], h.answers[k]);
    assert h.ops[..k + 1][..k] == h.ops[..k];
    PrefixStep(h.states[k], h.ops[k], h.states[k + 1], h.answers[k], 1 + Total(h.ops[..k]));
  }

  /** All requests ask for something, and together they fit beside slot 0. */
  ghost predicate Fits(ops: seq<Op>) {
    (forall k :: 0 <= k < |ops| && ops[k].Alloc? ==> 0 < ops[k].num) && 1 + Total(ops) <= SLOTS
  }

  lemma {:induction false} TotalGrows(ops: seq<Op>, k: nat)
    requires k <= |ops|
    ensures Total(ops[..k]) <= Total(ops)
    decreases |ops|
  {
    if k == |ops| {
      assert ops[..k] == ops;
    } else {
      TotalGrows(ops[..|ops| - 1], k);
      assert ops[..|ops| - 1][..k] == ops[..k];
    }
  }

  /** A contained list of requests is granted in full exactly if it fits. */
  lemma GrantedIffFits(h: History, ops: seq<Op>)
    requires Contained(ops)
    ensures Granted(Start(), h, ops) ==> Fits(ops)
    ensures Refused(Start(), h, ops) ==> !Fits(ops)
  {
    if Granted(Start(), h, ops) {
      GrantedFits(h, ops);
    }
    if Refused(Start(), h, ops) {
      var n: nat :| n < |ops| && RefusedAt(Start(), h, ops, n);
      RefusedDoesNot(h, ops, n);
    }
  }

  /** A granted request got the slots right behind everything asked for before. */
  lemma GrantedAt(h: History, ops: seq<Op>, k: nat)
    requires Granted(Start(), h, ops) && Contained(ops) && k < |ops| && ops[k].Alloc?
    ensures h.ops == ops && |h.answers| == |ops|
    ensures h.answers[k] == Some(1 + Total(ops[..k]))
  {
    hide Step, Total, Contained;
    assert h.ops == ops;
    RequestIff(h, k);
  }

  lemma GrantedFits(h: History, ops: seq<Op>)
    requires Contained(ops) && Granted(Start(), h, ops)
    ensures Fits(ops)
  {
    assert h.ops == ops && ops[..|ops|] == ops;
    forall k | 0 <= k < |ops| && ops[k].Alloc?
      ensures 0 < ops[k].num
    {
      RequestIff(h, k);
    }
    PrefixRun(h, |ops|);
  }

  lemma RefusedDoesNot(h: History, ops: seq<Op>, n: nat)
    requires Contained(ops) && n < |ops| && Run(Start()) && Run(h) && RefusedAt(Start(), h, ops, n)
    ensures !Fits(ops)
  {
    assert h.ops == ops[..n + 1];
    forall k | 0 <= k < |h.ops| && h.ops[k].Mark?
      ensures h.ops[k].hi <= Total(h.ops[..k])
    {
      assert h.ops[..k] == ops[..k];
    }
    RequestIff(h, n);
    TotalGrows(ops, n + 1);
    assert h.ops[..n + 1] == ops[..n + 1];
  }
}
