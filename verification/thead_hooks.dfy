/**
  The platform lifecycle hooks of `thead-generic.c` and its match table.

  Each hook is a decision over the errata flags of the matched table entry,
  the `cold_boot` flag and the matched compatible string. Calls into the
  surrounding firmware are recorded as `Action`s, in the order issued.
 */
module TheadHooks {

  /** The errata a hardware variant may carry. */
  datatype Erratum =
    | TlbFlush  // needs the T-Head TLB-flush trap handler
    | LightPpu  // has the Light power-control unit as its HSM device

  /** The quirk record a match-table entry points to. */
  datatype Quirks = Quirks(errata: set<Erratum>)

  /** One match-table entry: a device-tree compatible string and its quirks. */
  datatype FdtMatch = FdtMatch(compatible: string, quirks: Quirks)

  /** A call the hooks make into the surrounding firmware. */
  datatype Action =
    | RegisterTlbFlushTrapHandler  // thead_register_tlb_flush_trap_handler()
    | RegisterC9xxPmuDevice        // thead_c9xx_register_pmu_device()
    | SetHsmDeviceLightPpu         // sbi_hsm_set_device(&light_ppu)
    | RegisterEcallLight           // sbi_ecall_register_extension(&ecall_light)

  /** A hook's return status and the calls it made. */
  datatype HookResult = HookResult(status: int, actions: seq<Action>)

  /** The compatible string that selects the `ecall_light` vendor extension. */
  const LightCompatible: string := "thead,light"

  /** The quirks shared by every supported board. */
  const LightQuirks: Quirks := Quirks({TlbFlush, LightPpu})

  /**
    `thead_generic_match`, without its empty terminator: both compatibles are
    listed, once each, and resolve to the same quirks.
   */
  function MatchTable(): (t: seq<FdtMatch>)
    ensures |t| == 2
    ensures forall k :: 0 <= k < |t| ==> t[k].quirks == LightQuirks
    ensures t[0].compatible == "thead,th1520" && t[1].compatible == LightCompatible
    ensures t[0].compatible != t[1].compatible
  {
    assert "thead,th1520"[7] != LightCompatible[7];
    [ FdtMatch("thead,th1520", LightQuirks),
      FdtMatch(LightCompatible, LightQuirks) ]
  }

  /**
    `thead_generic_early_init`: registers the TLB-flush trap handler exactly
    when the TLB-flush erratum is present, on every hart, and succeeds.
   */
  function EarlyInit(coldBoot: bool, m: FdtMatch): (r: HookResult)
    ensures r.status == 0
    ensures |r.actions| <= 1
    ensures RegisterTlbFlushTrapHandler in r.actions <==> TlbFlush in m.quirks.errata
    ensures forall a :: a in r.actions ==> a == RegisterTlbFlushTrapHandler
  {
    if TlbFlush in m.quirks.errata then HookResult(0, [RegisterTlbFlushTrapHandler])
    else HookResult(0, [])
  }

  /** `cold_boot` plays no part in early init. */
  lemma EarlyInitIgnoresColdBoot(m: FdtMatch)
    ensures EarlyInit(true, m) == EarlyInit(false, m)
  {
  }

  /** `thead_generic_extensions_init`: always registers the C9xx PMU device and succeeds. */
  function ExtensionsInit(m: FdtMatch): (r: HookResult)
    ensures r.status == 0
    ensures r.actions == [RegisterC9xxPmuDevice]
  {
    HookResult(0, [RegisterC9xxPmuDevice])
  }

  /**
    `thead_generic_final_init`: nothing off the cold-boot path; on it, the
    Light power-control unit becomes the HSM device exactly when the erratum
    says so, and `ecall_light` is registered exactly when the compatible is
    "thead,light" -- the HSM device first. It always succeeds.
   */
  function FinalInit(coldBoot: bool, m: FdtMatch): (r: HookResult)
    ensures r.status == 0
    ensures !coldBoot ==> r.actions == []
    ensures coldBoot ==>
      && (SetHsmDeviceLightPpu in r.actions <==> LightPpu in m.quirks.errata)
      && (RegisterEcallLight in r.actions <==> m.compatible == LightCompatible)
    ensures forall a :: a in r.actions ==> a == SetHsmDeviceLightPpu || a == RegisterEcallLight
    ensures forall i, j :: 0 <= i < j < |r.actions| ==>
      r.actions[i] == SetHsmDeviceLightPpu && r.actions[j] == RegisterEcallLight
  {
    if !coldBoot then HookResult(0, [])
    else
      var hsm := if LightPpu in m.quirks.errata then [SetHsmDeviceLightPpu] else [];
      var ecall := if m.compatible == LightCompatible then [RegisterEcallLight] else [];
      HookResult(0, hsm + ecall)
  }

  /**
    On the two boards of the match table: both get the TLB-flush handler and
    the Light HSM device, but only "thead,light" registers `ecall_light`.
   */
  lemma BoardsOfMatchTable()
    ensures forall k :: 0 <= k < |MatchTable()| ==>
      EarlyInit(true, MatchTable()[k]).actions == [RegisterTlbFlushTrapHandler]
    ensures FinalInit(true, MatchTable()[0]).actions == [SetHsmDeviceLightPpu]
    ensures FinalInit(true, MatchTable()[1]).actions == [SetHsmDeviceLightPpu, RegisterEcallLight]
  {
    assert LightPpu in LightQuirks.errata;
  }
}
