/**
  The T-Head performance-counter mapper of `thead-generic.c` and the vendor
  SBI call that reaches it.

  Every operation is given as the block of CSR writes it issues, in program
  order; its effect on the register file is `ApplyWrites` of that block.
 */
module TheadPmu {
  import opened Wrappers
  import opened Registers

  /** `1 << 17`: bit 17 of `mideleg`, the T-Head counter-overflow interrupt. */
  const OverflowIrqMask: int := 0x2_0000

  /** The value written to `mcounterwen`: the 32-bit constant 0xffffffff, zero-extended. */
  const CounterWriteEnableAll: Word := 0xffff_ffff

  /** The operation type of the PMU call that binds one counter; every other type resets. */
  const PmuTypeMap: Word := 2

  /**
    The `switch` of `sbi_thead_pmu_map` as a table: entry `k` is the event
    selector its case for counter index `k + 3` writes.
   */
  function EventSelectorTable(): (t: seq<Csr>)
    ensures |t| == 29
    ensures forall k :: 0 <= k < 29 ==> t[k] == Mhpmevent(k + 3)
  {
    [ Mhpmevent(3), Mhpmevent(4), Mhpmevent(5), Mhpmevent(6), Mhpmevent(7),
      Mhpmevent(8), Mhpmevent(9), Mhpmevent(10), Mhpmevent(11), Mhpmevent(12),
      Mhpmevent(13), Mhpmevent(14), Mhpmevent(15), Mhpmevent(16), Mhpmevent(17),
      Mhpmevent(18), Mhpmevent(19), Mhpmevent(20), Mhpmevent(21), Mhpmevent(22),
      Mhpmevent(23), Mhpmevent(24), Mhpmevent(25), Mhpmevent(26), Mhpmevent(27),
      Mhpmevent(28), Mhpmevent(29), Mhpmevent(30), Mhpmevent(31) ]
  }

  /** The selector the switch writes for `idx`; None for an index no case matches. */
  function EventSelector(idx: Word): (r: Option<Csr>)
    ensures r.Some? <==> 3 <= idx <= 31
    ensures r.Some? ==> r.value == Mhpmevent(idx)
  {
    if 3 <= idx <= 31 then Some(EventSelectorTable()[idx - 3]) else None
  }

  /** The writes of `sbi_thead_pmu_map(idx, event_id)`: at most one. */
  function MapWrites(idx: Word, eventId: Word): (ws: seq<CsrWrite>)
    ensures |ws| <= 1
    ensures |ws| == 1 <==> 3 <= idx <= 31
    ensures |ws| == 1 ==> ws[0] == CsrWrite(Mhpmevent(idx), eventId)
  {
    match EventSelector(idx)
    case Some(c) => [CsrWrite(c, eventId)]
    case None => []
  }

  /**
    `sbi_thead_pmu_map`: a counter index 3..31 binds exactly that counter's
    event selector to `eventId`; any other index changes nothing.
   */
  function PmuMap(rf: RegFile, idx: Word, eventId: Word): (r: RegFile)
    ensures 3 <= idx <= 31 ==>
      && Mhpmevent(idx) in r && r[Mhpmevent(idx)] == eventId
      && UnchangedExcept(rf, r, {Mhpmevent(idx)})
    ensures 3 <= idx <= 31 ==> r == rf[Mhpmevent(idx) := eventId]
    ensures !(3 <= idx <= 31) ==> r == rf
  {
    var ws := MapWrites(idx, eventId);
    assert forall c :: c in ApplyWrites(rf, ws) <==> c in rf || LastWrite(ws, c).Some? by {
      forall c { ApplyWritesEffect(rf, ws, c); }
    }
    assert forall c :: c in rf ==> ApplyWrites(rf, ws)[c] == LastWrite(ws, c).GetOr(rf[c]) by {
      forall c | c in rf { ApplyWritesEffect(rf, ws, c); }
    }
    if 3 <= idx <= 31 then
      ApplyWritesEffect(rf, ws, Mhpmevent(idx));
      assert ApplyWrites(rf, ws).Keys == rf[Mhpmevent(idx) := eventId].Keys;
      ApplyWrites(rf, ws)
    else
      ApplyWrites(rf, ws)
  }

  /** A word split at bit 17: the bits above it, bit 17 itself, and the bits below it. */
  lemma SplitAtOverflowBit(m: Word)
    ensures 0 <= m / (2 * OverflowIrqMask) < WordLimit / (2 * OverflowIrqMask)
    ensures m == (m / (2 * OverflowIrqMask)) * (2 * OverflowIrqMask)
               + ((m / OverflowIrqMask) % 2) * OverflowIrqMask + m % OverflowIrqMask
  {
    var hi := m / (2 * OverflowIrqMask);
    var mid := m % (2 * OverflowIrqMask);
    assert m == hi * (2 * OverflowIrqMask) + mid;
    assert m / OverflowIrqMask == 2 * hi + mid / OverflowIrqMask;
    assert m % OverflowIrqMask == mid % OverflowIrqMask;
  }

  /**
    `mideleg | (1 << 17)`: a word that already has bit 17 is returned as it
    is, and any other word gains 2^17. Bits 0..16 and 18..63 are kept and bit
    17 ends up set.
   */
  function SetOverflowDelegation(m: Word): (r: Word)
    ensures r % OverflowIrqMask == m % OverflowIrqMask
    ensures (r / OverflowIrqMask) % 2 == 1
    ensures r / (2 * OverflowIrqMask) == m / (2 * OverflowIrqMask)
    ensures (m / OverflowIrqMask) % 2 == 1 ==> r == m
  {
    SplitAtOverflowBit(m);
    if (m / OverflowIrqMask) % 2 == 1 then m
    else
      var hi := m / (2 * OverflowIrqMask);
      var lo := m % OverflowIrqMask;
      assert m + OverflowIrqMask == hi * (2 * OverflowIrqMask) + OverflowIrqMask + lo;
      assert (m + OverflowIrqMask) / (2 * OverflowIrqMask) == hi;
      assert (m + OverflowIrqMask) / OverflowIrqMask == 2 * hi + 1;
      m + OverflowIrqMask
  }

  /** The CSRs `sbi_thead_pmu_init` writes. */
  ghost function InitTouched(): set<Csr>
  {
    {Mideleg, Mcounterwen} + set i: CounterIndex | i <= 28 :: Mhpmevent(i)
  }

  /** The CSRs of `InitTouched`, one by one. */
  lemma InitTouchedMembers(c: Csr)
    ensures c in InitTouched() <==> c == Mideleg || c == Mcounterwen || (c.Mhpmevent? && c.counter <= 28)
  {
    if c.Mhpmevent? && c.counter <= 28 {
      assert Mhpmevent(c.counter) in InitTouched();
    }
  }

  /**
    The default-binding writes of `sbi_thead_pmu_init` for counters
    `first`..28, in increasing order: counter `i` gets event id `i - 2`.
   */
  function DefaultEventWrites(first: CounterIndex): (ws: seq<CsrWrite>)
    requires first <= 29
    ensures |ws| == 29 - first
    ensures forall k :: 0 <= k < |ws| ==> ws[k] == CsrWrite(Mhpmevent(first + k), first + k - 2)
    decreases 29 - first
  {
    if first == 29 then []
    else [CsrWrite(Mhpmevent(first), first - 2)] + DefaultEventWrites(first + 1)
  }

  /** The default writes from `first` on bind exactly counters `first`..28, counter `i` to `i - 2`. */
  lemma {:induction false} DefaultEventWritesEffect(first: CounterIndex, c: Csr)
    requires first <= 29
    ensures LastWrite(DefaultEventWrites(first), c) ==
      if c.Mhpmevent? && first <= c.counter <= 28 then Some(c.counter - 2) else None
    decreases 29 - first
  {
    if first < 29 {
      LastWriteAppend([CsrWrite(Mhpmevent(first), first - 2)], DefaultEventWrites(first + 1), c);
      DefaultEventWritesEffect(first + 1, c);
    }
  }

  /**
    The writes of `sbi_thead_pmu_init` given the `mideleg` value it reads:
    the delegation bit, then the write-enable mask, then the defaults.
   */
  function InitWrites(mideleg: Word): (ws: seq<CsrWrite>)
    ensures |ws| == 28
    ensures ws[0] == CsrWrite(Mideleg, SetOverflowDelegation(mideleg))
    ensures ws[1] == CsrWrite(Mcounterwen, CounterWriteEnableAll)
    ensures forall k :: 2 <= k < 28 ==> ws[k] == CsrWrite(Mhpmevent(k + 1), k - 1)
  {
    [CsrWrite(Mideleg, SetOverflowDelegation(mideleg)), CsrWrite(Mcounterwen, CounterWriteEnableAll)]
    + DefaultEventWrites(3)
  }

  /** The value every CSR is left holding by the writes of `sbi_thead_pmu_init`. */
  lemma InitWritesEffect(mideleg: Word, c: Csr)
    ensures LastWrite(InitWrites(mideleg), c) ==
      match c
      case Mideleg => Some(SetOverflowDelegation(mideleg))
      case Mcounterwen => Some(CounterWriteEnableAll)
      case Mhpmevent(i) => if i <= 28 then Some(i - 2) else None
      case Other(_) => None
  {
    var first := [CsrWrite(Mideleg, SetOverflowDelegation(mideleg))];
    var second := [CsrWrite(Mcounterwen, CounterWriteEnableAll)];
    assert first[1..] == [] && second[1..] == [];
    LastWriteAppend(first, second, c);
    LastWriteAppend(first + second, DefaultEventWrites(3), c);
    DefaultEventWritesEffect(3, c);
  }

  /** What issuing the writes of `sbi_thead_pmu_init` does to each CSR. */
  lemma PmuInitEffect(rf: RegFile)
    ensures var r := ApplyWrites(rf, InitWrites(rf[Mideleg]));
      && (forall c :: c in r <==> c in rf || c in InitTouched())
      && (forall c :: c in rf && c !in InitTouched() ==> r[c] == rf[c])
      && r[Mideleg] == SetOverflowDelegation(rf[Mideleg])
      && r[Mcounterwen] == CounterWriteEnableAll
      && (forall i: CounterIndex :: i <= 28 ==> Mhpmevent(i) in r && r[Mhpmevent(i)] == i - 2)
      && (forall i: CounterIndex :: i > 28 ==> Mhpmevent(i) !in InitTouched())
  {
    var ws := InitWrites(rf[Mideleg]);
    var r := ApplyWrites(rf, ws);
    forall c
      ensures c in r <==> c in rf || c in InitTouched()
      ensures c in rf && c !in InitTouched() ==> r[c] == rf[c]
      ensures c == Mideleg ==> r[c] == SetOverflowDelegation(rf[Mideleg])
      ensures c == Mcounterwen ==> r[c] == CounterWriteEnableAll
      ensures c.Mhpmevent? && c.counter <= 28 ==> r[c] == c.counter - 2
    {
      ApplyWritesEffect(rf, ws, c);
      InitWritesEffect(rf[Mideleg], c);
      InitTouchedMembers(c);
    }
    forall i: CounterIndex | i <= 28
      ensures Mhpmevent(i) in r && r[Mhpmevent(i)] == i - 2
    {
      InitTouchedMembers(Mhpmevent(i));
    }
    forall i: CounterIndex | i > 28
      ensures Mhpmevent(i) !in InitTouched()
    {
      InitTouchedMembers(Mhpmevent(i));
    }
  }

  /**
    `sbi_thead_pmu_init`: sets the overflow-delegation bit of `mideleg` and
    keeps its other bits, opens `mcounterwen`, gives counters 3..28 event id
    index - 2, and leaves counters 29..31 alone.
   */
  function PmuInit(rf: RegFile): (r: RegFile)
    ensures (r[Mideleg] / OverflowIrqMask) % 2 == 1
    ensures r[Mideleg] % OverflowIrqMask == rf[Mideleg] % OverflowIrqMask
    ensures r[Mideleg] / (2 * OverflowIrqMask) == rf[Mideleg] / (2 * OverflowIrqMask)
    ensures Mcounterwen in r && r[Mcounterwen] == CounterWriteEnableAll
    ensures forall i: CounterIndex :: i <= 28 ==> Mhpmevent(i) in r && r[Mhpmevent(i)] == i - 2
    ensures forall i: CounterIndex :: i > 28 ==>
      (Mhpmevent(i) in r <==> Mhpmevent(i) in rf)
      && (Mhpmevent(i) in rf ==> r[Mhpmevent(i)] == rf[Mhpmevent(i)])
    ensures UnchangedExcept(rf, r, InitTouched())
  {
    var ws := InitWrites(rf[Mideleg]);
    PmuInitEffect(rf);
    ApplyWrites(rf, ws)
  }

  /**
    A second reset reads back the `mideleg` the first one wrote, whose bit 17
    is already set, so it issues the very same writes.
   */
  lemma RereadDelegation(rf: RegFile)
    ensures InitWrites(PmuInit(rf)[Mideleg]) == InitWrites(rf[Mideleg])
  {
    PmuInitEffect(rf);
    var m := SetOverflowDelegation(rf[Mideleg]);
    assert PmuInit(rf)[Mideleg] == m;
    assert SetOverflowDelegation(m) == m;
  }

  /** Resetting the baseline twice leaves the same registers as resetting once. */
  lemma PmuInitIdempotent(rf: RegFile)
    ensures PmuInit(PmuInit(rf)) == PmuInit(rf)
  {
    RereadDelegation(rf);
    ApplyWritesIdempotent(rf, InitWrites(rf[Mideleg]));
  }

  /**
    `sbi_thead_pmu_set`: operation type 2 binds one counter; every other
    type resets the baseline.
   */
  function PmuSet(rf: RegFile, opType: Word, idx: Word, eventId: Word): (r: RegFile)
    ensures opType == PmuTypeMap && 3 <= idx <= 31 ==> r == rf[Mhpmevent(idx) := eventId]
    ensures opType == PmuTypeMap && !(3 <= idx <= 31) ==> r == rf
    ensures opType != PmuTypeMap ==> r == PmuInit(rf)
  {
    if opType == PmuTypeMap then PmuMap(rf, idx, eventId) else PmuInit(rf)
  }

  /**
    Any type other than 2 does the same thing, whatever the index and event
    id: an unknown type cannot be told apart from a reset request.
   */
  lemma PmuSetResetIgnoresOperands(rf: RegFile, t1: Word, i1: Word, e1: Word, t2: Word, i2: Word, e2: Word)
    requires t1 != PmuTypeMap && t2 != PmuTypeMap
    ensures PmuSet(rf, t1, i1, e1) == PmuSet(rf, t2, i2, e2)
  {
  }

  /** The argument registers of an SBI call that the provider reads. */
  datatype TrapRegs = TrapRegs(a0: Word, a1: Word, a2: Word)

  /** A C `long`. */
  type Long = x: int | -0x8000_0000_0000_0000 <= x < 0x8000_0000_0000_0000

  /** The status a vendor call returns, and the register file it leaves. */
  datatype EcallOutcome = EcallOutcome(status: int, csrs: RegFile)

  /**
    `thead_vendor_ext_provider`: forwards `a0`, `a1`, `a2` as operation type,
    counter index and event id, and reports success.
   */
  function VendorExtProvider(funcid: Long, regs: TrapRegs, rf: RegFile): (r: EcallOutcome)
    ensures r.status == 0
    ensures regs.a0 == PmuTypeMap ==> r.csrs == PmuMap(rf, regs.a1, regs.a2)
    ensures regs.a0 != PmuTypeMap ==> r.csrs == PmuInit(rf)
  {
    EcallOutcome(0, PmuSet(rf, regs.a0, regs.a1, regs.a2))
  }

  /** The function id plays no part in the provider's effect. */
  lemma VendorExtProviderIgnoresFuncid(f1: Long, f2: Long, regs: TrapRegs, rf: RegFile)
    ensures VendorExtProvider(f1, regs, rf) == VendorExtProvider(f2, regs, rf)
  {
  }

  /** Binding counter 5 to event 42 changes only `mhpmevent5`, to 42. */
  lemma BindCounterFiveScenario(rf: RegFile)
    ensures var r := VendorExtProvider(0, TrapRegs(2, 5, 42), rf);
      && r.status == 0
      && r.csrs == rf[Mhpmevent(5) := 42]
  {
  }

  /** A call with type 7 resets the baseline and ignores the other two arguments. */
  lemma ResetByUnknownTypeScenario(rf: RegFile, idx: Word, eventId: Word)
    ensures var r := VendorExtProvider(0, TrapRegs(7, idx, eventId), rf);
      && r.status == 0
      && r.csrs[Mhpmevent(3)] == 1
      && r.csrs[Mhpmevent(28)] == 26
      && r.csrs[Mcounterwen] == CounterWriteEnableAll
      && (Mhpmevent(31) in rf ==> r.csrs[Mhpmevent(31)] == rf[Mhpmevent(31)])
      && r.csrs == PmuInit(rf)
  {
    var r := VendorExtProvider(0, TrapRegs(7, idx, eventId), rf);
    assert r.csrs == PmuInit(rf);
  }
}
