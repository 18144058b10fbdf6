# T-Head generic platform override: PMU mapper and lifecycle hooks

This project models the T-Head platform override of OpenSBI's generic platform. It covers
`platform/generic/thead/thead-generic.c` and proves properties of the model. The model has
two parts:

- **The performance-counter mapper.** `sbi_thead_pmu_map` binds one counter, 3..31, to an event id.
  `sbi_thead_pmu_init` resets the counter baseline. `sbi_thead_pmu_set` chooses between the two.
  `thead_vendor_ext_provider` forwards the vendor SBI call to them.
- **The lifecycle hooks and the match table.** These are early init, extensions init and final init.
  The match table maps both supported compatibles to one quirk set.

Files:

- `wrappers.dfy` (module `Wrappers`): the `Option` type.
- `registers.dfy` (module `Registers`): the machine-mode CSR file.
  - It is a map from CSR to a 64-bit word, an integer in [0, 2^64).
  - The CSRs the code names are named; every other CSR is `Other(address)`, so "every other CSR is unchanged" covers the whole CSR space.
  - A block of `csr_write`s is a list of `CsrWrite`s.
  - `ApplyWrites` applies such a list in program order.
  - `LastWrite` gives the value the list leaves in a CSR, if it writes it at all.
- `thead_pmu.dfy` (module `TheadPmu`): the mapper and the vendor-call provider.
  - Each C function is first given as the CSR writes it issues.
  - Its effect is then `ApplyWrites` of those writes.
  - The 29-case `switch` is transcribed as a literal selector table.
  - The 26 default bindings are built by a recursive function that emits one write per counter, in increasing order.
  - `mideleg | (1 << 17)` is stated on the bit fields of the word: bits 0..16 and 18..63 are kept, and bit 17 is set.
- `thead_hooks.dfy` (module `TheadHooks`): the hooks as pure decisions.
  - Their inputs are the errata set of the matched entry, `cold_boot` and the compatible string.
  - Their output is a status and the ordered list of firmware calls they make.

Notes on the source:

- `mcounterwen` receives the constant `0xffffffff`. On these RV64 cores that sets the low 32 bits and clears the upper 32.
- The vendor-call provider in this file has no memory-protection path. It ignores the function id and always forwards `a0`, `a1` and `a2` to the PMU selector.
- The match table maps "thead,th1520" to the same quirks as "thead,light", Light-PPU erratum included. A separate TLB-flush-only quirk set for "thead,th1520" is commented out in the source.

## Model

| member | source | states |
|---|---|---|
| `Registers.LastWriteFound` | platform/generic/thead/thead-generic.c:50-80 | a block of writes leaves a value in a CSR exactly when some write in it targets that CSR, and the value left is one the block wrote there |
| `Registers.LastWriteAppend` | platform/generic/thead/thead-generic.c:50-80 | for two blocks issued one after the other, a CSR written by the second holds the second's value, otherwise whatever the first left |
| `Registers.ApplyWrites` | platform/generic/thead/thead-generic.c:50-80 | issuing `csr_write`s in program order keeps every CSR already present, leaves every written CSR present, and leaves the last written CSR holding the last value |
| `Registers.ApplyWritesEffect` | platform/generic/thead/thead-generic.c:50-80 | issuing a block of writes in program order leaves every written CSR holding its last written value and every other CSR as it was |
| `Registers.ApplyWritesIdempotent` | platform/generic/thead/thead-generic.c:50-80 | re-issuing a straight-line block of CSR writes leaves the registers as one issue did |
| `TheadPmu.EventSelectorTable` | platform/generic/thead/thead-generic.c:85-173 | the 29 cases of the switch, in order, write `mhpmevent3` up to `mhpmevent31`: case `k + 3` writes `mhpmevent<k + 3>` |
| `TheadPmu.EventSelector` | platform/generic/thead/thead-generic.c:85-173 | the switch has a case exactly for indices 3..31, and the case for `idx` writes `mhpmevent<idx>`; any other index matches no case |
| `TheadPmu.MapWrites` | platform/generic/thead/thead-generic.c:83-174 | the map issues one write, of the event id to `mhpmevent<idx>`, when 3 <= idx <= 31, and no write otherwise |
| `TheadPmu.PmuMap` | platform/generic/thead/thead-generic.c:83-174 | for 3 <= idx <= 31 the register file becomes the old one with `mhpmevent<idx>` set to the event id, every other CSR unchanged; for any other index it is unchanged |
| `TheadPmu.SetOverflowDelegation` | platform/generic/thead/thead-generic.c:50-51 | OR-ing in 1 << 17 sets bit 17 and keeps bits 0..16 and 18..63; a word with bit 17 already set is returned as it is |
| `TheadPmu.DefaultEventWrites` | platform/generic/thead/thead-generic.c:55-80 | the default writes from counter `first` on are 29 - `first` writes, the k-th binding counter `first + k` to event id `first + k - 2` |
| `TheadPmu.DefaultEventWritesEffect` | platform/generic/thead/thead-generic.c:55-80 | the default writes bind counter i to event id i - 2 for every i in 3..28, and write no other CSR |
| `TheadPmu.InitWrites` | platform/generic/thead/thead-generic.c:50-80 | the init issues 28 writes: `mideleg` with bit 17 OR-ed in, then `mcounterwen` = 0xffffffff, then `mhpmevent3` = 1 up to `mhpmevent28` = 26 |
| `TheadPmu.InitWritesEffect` | platform/generic/thead/thead-generic.c:50-80 | after the init write sequence, `mideleg` holds the value read OR bit 17, `mcounterwen` holds 0xffffffff, counter i of 3..28 holds i - 2, and counters 29..31 are never written |
| `TheadPmu.PmuInitEffect` | platform/generic/thead/thead-generic.c:46-81 | the init leaves exactly the old CSRs plus the ones it writes; those hold the values above, and every CSR it does not write keeps its value |
| `TheadPmu.PmuInit` | platform/generic/thead/thead-generic.c:46-81 | bit 17 of `mideleg` is set and its other 63 bits are kept; `mcounterwen` = 0xffffffff; counter i of 3..28 gets event id i - 2; counters 29..31 and anything else not written keep their values |
| `TheadPmu.RereadDelegation` | platform/generic/thead/thead-generic.c:46-81 | a second init reads back a `mideleg` whose bit 17 is already set, so it issues exactly the writes of the first |
| `TheadPmu.PmuInitIdempotent` | platform/generic/thead/thead-generic.c:46-81 | resetting the baseline twice leaves the same register file as resetting once |
| `TheadPmu.PmuSet` | platform/generic/thead/thead-generic.c:176-186 | type 2 with index 3..31 sets only that counter's selector to the event id; type 2 with any other index changes nothing; every other type performs the reset |
| `TheadPmu.PmuSetResetIgnoresOperands` | platform/generic/thead/thead-generic.c:176-186 | any two non-2 types give the same result whatever index and event id accompany them, so an unknown type is a reset |
| `TheadPmu.VendorExtProvider` | platform/generic/thead/thead-generic.c:188-195 | the call always returns 0; `a0` = 2 maps counter `a1` to event `a2`, any other `a0` resets the baseline |
| `TheadPmu.VendorExtProviderIgnoresFuncid` | platform/generic/thead/thead-generic.c:188-195 | the function id has no effect on the status or on the register file |
| `TheadPmu.BindCounterFiveScenario` | platform/generic/thead/thead-generic.c:176-195 | a call (2, 5, 42) succeeds and changes only `mhpmevent5`, to 42 |
| `TheadPmu.ResetByUnknownTypeScenario` | platform/generic/thead/thead-generic.c:176-195 | a call with type 7 succeeds and is exactly the baseline reset whatever its other arguments: counter 3 gets 1, counter 28 gets 26, `mcounterwen` is opened and counter 31 is left alone |
| `TheadHooks.MatchTable` | platform/generic/thead/thead-generic.c:220-228 | the table lists "thead,th1520" and "thead,light" once each, and both point to the quirks with the TLB-flush and Light-PPU errata |
| `TheadHooks.EarlyInit` | platform/generic/thead/thead-generic.c:27-36 | returns 0; the TLB-flush trap handler is registered, once, exactly when the TLB-flush erratum is present; nothing else is called |
| `TheadHooks.EarlyInitIgnoresColdBoot` | platform/generic/thead/thead-generic.c:27-36 | early init behaves the same on the cold-boot hart and on the others |
| `TheadHooks.ExtensionsInit` | platform/generic/thead/thead-generic.c:38-43 | returns 0 and registers the C9xx PMU device once, whatever the match |
| `TheadHooks.FinalInit` | platform/generic/thead/thead-generic.c:198-214 | returns 0; off the cold-boot path nothing is called; on it the Light PPU becomes the HSM device exactly when that erratum is present, `ecall_light` is registered exactly when the compatible is "thead,light", each at most once, the HSM device first |
| `TheadHooks.BoardsOfMatchTable` | platform/generic/thead/thead-generic.c:198-228 | on both tabled boards early init registers the TLB-flush handler; on cold boot "thead,th1520" sets the HSM device but does not register `ecall_light`, while "thead,light" does both |

## Left out

- CSR instructions are not modelled as hardware effects. `csr_read` and `csr_write` are a read and an update of the abstract register file. The CSRs the code writes are named, not numbered by their 12-bit addresses, because the vendor address of `mcounterwen` is in `thead/c9xx_encoding.h`, which is not part of this model. `Other(address)` stands for every CSR other than those, so it never aliases a named one.
- `Registers.RegFile` always holds `mideleg`. Every hart with supervisor mode implements it, so the read in `sbi_thead_pmu_init` cannot fail. Other CSRs enter the map when first written.
- The errata bit values are defined in `thead/c9xx_errata.h`, which is not part of this model. Errata are therefore a set of named flags, and `errata & FLAG` becomes set membership.
- External collaborators are opaque actions in a trace: `thead_register_tlb_flush_trap_handler`, `thead_c9xx_register_pmu_device`, `sbi_hsm_set_device(&light_ppu)` and `sbi_ecall_register_extension(&ecall_light)`. Their effects and their return values are not modelled. The bodies of `light_ppu` and `ecall_light` are not part of this model.
- The `sbi_printf` diagnostic in final init is left out because it is console output only. So is `current_hartid`, which feeds only that message.
- The commented-out TLB-flush-only quirk set (lines 216-218) is dead code and is left out.
- `sbi_strcmp` is modelled as whole-string equality; C strings have no embedded NUL.
- The `hfeatures` parameter of `thead_generic_extensions_init` is unused by the source and is dropped, as is the `match` parameter of `thead_vendor_ext_provider`.
- The device-tree search that picks a match-table entry is left out. The hooks take the matched entry as input.
- The `out` parameter of `thead_vendor_ext_provider` is never written by the source. The model omits it, along with every trap register other than `a0`, `a1` and `a2`.
- The `thead_generic` override record (lines 231-237) is left out. It only binds the hooks to the firmware's function-pointer slots.
- `platform/generic/include/thead/light/asm.h` is left out. It only emits vendor cache and sync opcodes, whose meaning is not visible.
- The memory-protection (TCM/PMP) region manager, the PMP-aware vendor dispatcher and the cold-boot hart selector are not part of this model. Their source is not in this file.
