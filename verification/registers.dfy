/**
  An abstract machine-mode CSR file for a T-Head C9xx hart.

  The CSRs are identified by name rather than by 12-bit address; each holds a
  64-bit unsigned word (the cores are RV64, so `unsigned long` is 64 bits
  wide), kept as an integer in [0, 2^64). A `csr_write` is a `CsrWrite`
  record, and a sequence of them, applied in program order, is the effect of
  a straight-line block of CSR instructions.
 */
module Registers {
  import opened Wrappers

  /** 2^64: one more than the largest value of a 64-bit unsigned word. */
  const WordLimit: int := 0x1_0000_0000_0000_0000

  /** One XLEN-wide unsigned machine word. */
  type Word = x: int | 0 <= x < WordLimit

  /** The index of a programmable hardware performance counter, `mhpmcounter3`..`mhpmcounter31`. */
  type CounterIndex = n: int | 3 <= n <= 31 witness 3

  /** A 12-bit CSR address. */
  type CsrAddress = a: int | 0 <= a < 0x1000

  /**
    The CSRs the T-Head PMU code names, and every other CSR of the hart, which
    the code never writes, by its address.
   */
  datatype Csr =
    | Mideleg                          // machine interrupt delegation
    | Mcounterwen                      // T-Head vendor counter-write enable mask
    | Mhpmevent(counter: CounterIndex) // event selector of one performance counter
    | Other(address: CsrAddress)       // any CSR not named above

  /**
    The register file. `mideleg` is part of every RISC-V hart with supervisor
    mode, so reading it never fails; other CSRs appear once written.
   */
  type RegFile = m: map<Csr, Word> | Mideleg in m witness map[Mideleg := 0]

  /** One `csr_write(csr, value)`. */
  datatype CsrWrite = CsrWrite(csr: Csr, value: Word)

  /** The value of the last write to `c` in `ws`, or None when `ws` never writes `c`. */
  function LastWrite(ws: seq<CsrWrite>, c: Csr): Option<Word>
  {
    if |ws| == 0 then None
    else if LastWrite(ws[1..], c).Some? then LastWrite(ws[1..], c)
    else if ws[0].csr == c then Some(ws[0].value)
    else None
  }

  /** A block leaves a last write for `c` exactly when one of its writes names `c`, and that write is in the block. */
  lemma {:induction false} LastWriteFound(ws: seq<CsrWrite>, c: Csr)
    ensures LastWrite(ws, c).Some? <==> exists j :: 0 <= j < |ws| && ws[j].csr == c
    ensures LastWrite(ws, c).Some? ==> CsrWrite(c, LastWrite(ws, c).value) in ws
  {
    if |ws| > 0 {
      LastWriteFound(ws[1..], c);
      if exists j :: 0 <= j < |ws| && ws[j].csr == c {
        var j :| 0 <= j < |ws| && ws[j].csr == c;
        if j > 0 {
          assert ws[1..][j - 1].csr == c;
        }
      }
      if LastWrite(ws[1..], c).Some? {
        assert CsrWrite(c, LastWrite(ws, c).value) in ws[1..];
      }
    }
  }

  /** In a concatenation of two write blocks, a write of the second block wins over the first. */
  lemma {:induction false} LastWriteAppend(a: seq<CsrWrite>, b: seq<CsrWrite>, c: Csr)
    ensures LastWrite(a + b, c) == if LastWrite(b, c).Some? then LastWrite(b, c) else LastWrite(a, c)
  {
    if |a| == 0 {
      assert a + b == b;
    } else {
      assert (a + b)[1..] == a[1..] + b;
      assert (a + b)[0] == a[0];
      LastWriteAppend(a[1..], b, c);
    }
  }

  /** The register file after issuing the writes `ws` one after the other. */
  function ApplyWrites(rf: RegFile, ws: seq<CsrWrite>): (r: RegFile)
    ensures forall c :: c in rf ==> c in r
    ensures forall k :: 0 <= k < |ws| ==> ws[k].csr in r
    ensures |ws| > 0 ==> r[ws[|ws| - 1].csr] == ws[|ws| - 1].value
    decreases |ws|
  {
    if |ws| == 0 then rf
    else
      var tail := ws[1..];
      assert forall k :: 0 < k < |ws| ==> ws[k] == tail[k - 1];
      ApplyWrites(rf[ws[0].csr := ws[0].value], tail)
  }

  /**
    Issuing a block of writes leaves each CSR it names holding the last value
    written to it, and every other CSR as it was.
   */
  lemma {:induction false} ApplyWritesEffect(rf: RegFile, ws: seq<CsrWrite>, c: Csr)
    ensures c in ApplyWrites(rf, ws) <==> c in rf || LastWrite(ws, c).Some?
    ensures LastWrite(ws, c).Some? ==> ApplyWrites(rf, ws)[c] == LastWrite(ws, c).value
    ensures LastWrite(ws, c).None? && c in rf ==> ApplyWrites(rf, ws)[c] == rf[c]
    decreases |ws|
  {
    if |ws| > 0 {
      ApplyWritesEffect(rf[ws[0].csr := ws[0].value], ws[1..], c);
    }
  }

  /**
    `after` differs from `before` only on the CSRs of `touched`, and holds
    every one of them.
   */
  ghost predicate UnchangedExcept(before: RegFile, after: RegFile, touched: set<Csr>)
  {
    && (forall c :: c in after <==> c in before || c in touched)
    && (forall c :: c in before && c !in touched ==> after[c] == before[c])
  }

  /** Issuing the same block of writes a second time changes nothing. */
  lemma ApplyWritesIdempotent(rf: RegFile, ws: seq<CsrWrite>)
    ensures ApplyWrites(ApplyWrites(rf, ws), ws) == ApplyWrites(rf, ws)
  {
    var once := ApplyWrites(rf, ws);
    var twice := ApplyWrites(once, ws);
    forall c
      ensures c in twice <==> c in once
      ensures c in once ==> twice[c] == once[c]
    {
      ApplyWritesEffect(rf, ws, c);
      ApplyWritesEffect(once, ws, c);
    }
    assert twice == once;
  }
}
