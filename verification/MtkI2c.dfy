/**
  The polled MediaTek driver: status accumulation over a write-1-to-clear
  register, one sticky retry, and firmware timing that survives every soft reset.
*/
module MtkI2c {
  import opened Machine

  datatype Intr = TransacComp | AckErr | HsNackErr | ArbLost | RsTransfer | Unused(n: nat)

  datatype Timing = Timing(timing: u16, ltiming: u16, hs: u16, extConf: u16, clockDiv: u16, sdaTiming: u16)

  /** The 400 kHz set for the 124.8 MHz parent clock. */
  const FAST_124M8 := Timing(0x0419, 0x0123, 0x0000, 0x5801, 0x0000, 0x100A)
  const OPEN_DRAIN: u16 := 0x0003

  const BUDGET_FLOOR_US := 5000
  const BUDGET_PER_BYTE := 100
  const BUDGET_CAP_US := 250_000
  const POLL_STEP_US := 20
  const MAX_XFER := 4096

  const TPL_HIGH_LEVEL := 31

  // ---------------------------------------------------------------------
  // What the collected status bits mean
  // ---------------------------------------------------------------------

  /** The status bits a transfer listens to; a combined one has no restart bit. */
  function IntrBits(combined: bool): set<Intr> {
    {HsNackErr, AckErr, ArbLost, TransacComp} + (if combined then {} else {RsTransfer})
  }

  predicate Completed(acc: set<Intr>) {
    TransacComp in acc || RsTransfer in acc
  }

  /** A NAK outranks lost arbitration; without completion there is only a timeout. */
  function Outcome(acc: set<Intr>): Status {
    if !Completed(acc) then Timeout
    else if HsNackErr in acc || AckErr in acc then NoResponse
    else if ArbLost in acc then DeviceError
    else Success
  }

  /** Everything that latched before the last of these polls, however it was spread over them. */
  function Union(arrivals: seq<set<Intr>>): set<Intr> {
    if arrivals == [] then {} else Union(arrivals[..|arrivals| - 1]) + arrivals[|arrivals| - 1]
  }

  function Budget(wlen: nat, rlen: nat): nat {
    Min(BUDGET_FLOOR_US + (wlen + rlen) * BUDGET_PER_BYTE, BUDGET_CAP_US)
  }

  /** The polls that fit into a budget, counting the one at its end. */
  function PollLimit(budget: nat): nat {
    (budget + POLL_STEP_US - 1) / POLL_STEP_US + 1
  }

  /**
    `arrivals` is what latched before each poll. The wait stops at the first poll
    that completes the transaction, or with the budget spent.
  */
  predicate WaitEnded(arrivals: seq<set<Intr>>, bits: set<Intr>, budget: nat) {
    && 1 <= |arrivals| <= PollLimit(budget)
    && !Completed(Union(arrivals[..|arrivals| - 1]) * bits)
    && (Completed(Union(arrivals) * bits) || |arrivals| == PollLimit(budget))
  }

  lemma {:induction false} UnionMonotone(arrivals: seq<set<Intr>>, n: nat)
    requires n <= |arrivals|
    ensures Union(arrivals[..n]) <= Union(arrivals)
  {
    if n < |arrivals| {
      assert arrivals[..|arrivals| - 1][..n] == arrivals[..n];
      UnionMonotone(arrivals[..|arrivals| - 1], n);
    } else {
      assert arrivals[..n] == arrivals;
    }
  }

  lemma UnionAppend(arrivals: seq<set<Intr>>, p: set<Intr>)
    ensures Union(arrivals + [p]) == Union(arrivals) + p
  {
    assert (arrivals + [p])[..|arrivals|] == arrivals;
  }

  lemma {:induction false} UnionMember(arrivals: seq<set<Intr>>, b: Intr)
    ensures b in Union(arrivals) <==> exists k :: 0 <= k < |arrivals| && b in arrivals[k]
  {
    if arrivals != [] {
      var rest := arrivals[..|arrivals| - 1];
      UnionMember(rest, b);
      if b in Union(rest) {
        var k :| 0 <= k < |rest| && b in rest[k];
        assert b in arrivals[k];
      }
      if exists k :: 0 <= k < |arrivals| && b in arrivals[k] {
        var k :| 0 <= k < |arrivals| && b in arrivals[k];
        assert k < |rest| ==> b in rest[k];
      }
    }
  }

  // ---------------------------------------------------------------------
  // Only the order against the first completion matters
  // ---------------------------------------------------------------------

  /** `sched` is what would latch before each poll, were the wait to use up its budget. */
  predicate Completing(sched: seq<set<Intr>>, bits: set<Intr>, k: nat)
    requires k < |sched|
  {
    Completed(sched[k] * bits)
  }

  /** The bit latches before some poll with no completion before any earlier one. */
  ghost predicate InTime(sched: seq<set<Intr>>, bits: set<Intr>, x: Intr) {
    x in bits && exists k :: 0 <= k < |sched| && x in sched[k] && forall j :: 0 <= j < k ==> !Completing(sched, bits, j)
  }

  ghost predicate EverCompletes(sched: seq<set<Intr>>, bits: set<Intr>) {
    exists k :: 0 <= k < |sched| && Completing(sched, bits, k)
  }

  /** The outcome by order of arrival alone; nothing is accumulated. */
  ghost function Verdict(sched: seq<set<Intr>>, bits: set<Intr>): Status {
    if !EverCompletes(sched, bits) then Timeout
    else if InTime(sched, bits, HsNackErr) || InTime(sched, bits, AckErr) then NoResponse
    else if InTime(sched, bits, ArbLost) then DeviceError
    else Success
  }

  /** Nothing completed before the poll that ended the wait. */
  lemma NoneBefore(arrivals: seq<set<Intr>>, bits: set<Intr>, budget: nat, j: nat)
    requires WaitEnded(arrivals, bits, budget) && j < |arrivals| - 1
    ensures !Completing(arrivals, bits, j)
  {
    var rest := arrivals[..|arrivals| - 1];
    assert rest[j] == arrivals[j];
    forall x | x in arrivals[j]
      ensures x in Union(rest)
    {
      UnionMember(rest, x);
    }
  }

  /** The wait collects a bit exactly if it latches in time. */
  lemma CollectedInTime(arrivals: seq<set<Intr>>, sched: seq<set<Intr>>, bits: set<Intr>, budget: nat, x: Intr)
    requires WaitEnded(arrivals, bits, budget) && arrivals <= sched && |sched| == PollLimit(budget)
    ensures x in Union(arrivals) * bits <==> InTime(sched, bits, x)
  {
    UnionMember(arrivals, x);
    forall j | 0 <= j < |arrivals| - 1
      ensures !Completing(sched, bits, j)
    {
      NoneBefore(arrivals, bits, budget, j);
      assert sched[j] == arrivals[j];
    }
    if x in Union(arrivals) * bits {
      var k :| 0 <= k < |arrivals| && x in arrivals[k];
      assert x in sched[k] && forall j :: 0 <= j < k ==> !Completing(sched, bits, j);
    }
    if InTime(sched, bits, x) {
      var k :| 0 <= k < |sched| && x in sched[k] && forall j :: 0 <= j < k ==> !Completing(sched, bits, j);
      if |arrivals| < |sched| {
        LastCompletes(arrivals, bits, budget);
        assert Completing(sched, bits, |arrivals| - 1);
      }
      assert sched[k] == arrivals[k];
    }
  }

  /** A wait that did not use up its budget ended on a completion. */
  lemma LastCompletes(arrivals: seq<set<Intr>>, bits: set<Intr>, budget: nat)
    requires WaitEnded(arrivals, bits, budget) && |arrivals| < PollLimit(budget)
    ensures Completing(arrivals, bits, |arrivals| - 1)
  {
    assert Union(arrivals) == Union(arrivals[..|arrivals| - 1]) + arrivals[|arrivals| - 1];
  }

  lemma CompletionDecides(arrivals: seq<set<Intr>>, sched: seq<set<Intr>>, bits: set<Intr>, budget: nat)
    requires WaitEnded(arrivals, bits, budget) && arrivals <= sched && |sched| == PollLimit(budget)
    ensures Completed(Union(arrivals) * bits) <==> EverCompletes(sched, bits)
  {
    if Completed(Union(arrivals) * bits) {
      var x := if TransacComp in Union(arrivals) * bits then TransacComp else RsTransfer;
      CollectedInTime(arrivals, sched, bits, budget, x);
      var k :| 0 <= k < |sched| && x in sched[k];
      assert Completing(sched, bits, k);
    }
    if EverCompletes(sched, bits) && |arrivals| == |sched| {
      var k :| 0 <= k < |sched| && Completing(sched, bits, k);
      var x := if TransacComp in sched[k] * bits then TransacComp else RsTransfer;
      assert arrivals[k] == sched[k];
      UnionMember(arrivals, x);
    }
  }

  /**
    However the bits latch over time, a wait that polls, clears and accumulates ends
    with what their order of arrival says: completion at all, and which errors came
    no later than the poll that first saw it.
  */
  lemma WaitIsVerdict(arrivals: seq<set<Intr>>, sched: seq<set<Intr>>, bits: set<Intr>, budget: nat)
    requires WaitEnded(arrivals, bits, budget) && arrivals <= sched && |sched| == PollLimit(budget)
    ensures Outcome(Union(arrivals) * bits) == Verdict(sched, bits)
  {
    CompletionDecides(arrivals, sched, bits, budget);
    forall x
      ensures x in Union(arrivals) * bits <==> InTime(sched, bits, x)
    {
      CollectedInTime(arrivals, sched, bits, budget, x);
    }
  }

  /** No wait of a schedule goes on past the end of another. */
  lemma NoLongerWait(a: seq<set<Intr>>, b: seq<set<Intr>>, bits: set<Intr>, budget: nat)
    requires WaitEnded(a, bits, budget) && WaitEnded(b, bits, budget) && a <= b
    ensures |a| == |b|
  {
    if |a| < |b| {
      var rest := b[..|b| - 1];
      assert rest[..|a|] == a;
      UnionMonotone(rest, |a|);
    }
  }

  /** A schedule has at most one wait. */
  lemma WaitUnique(sched: seq<set<Intr>>, a: seq<set<Intr>>, b: seq<set<Intr>>, bits: set<Intr>, budget: nat)
    requires a <= sched && b <= sched
    requires WaitEnded(a, bits, budget) && WaitEnded(b, bits, budget)
    ensures a == b
  {
    if |a| <= |b| {
      NoLongerWait(a, b, bits, budget);
    } else {
      NoLongerWait(b, a, bits, budget);
    }
  }

  /** Every schedule has a wait: the polls up to its first completion, or all of them. */
  lemma {:induction false} WaitExists(sched: seq<set<Intr>>, bits: set<Intr>, budget: nat, n: nat)
    returns (arrivals: seq<set<Intr>>)
    requires |sched| == PollLimit(budget) && 1 <= n <= |sched|
    requires !Completed(Union(sched[..n - 1]) * bits)
    ensures arrivals <= sched && WaitEnded(arrivals, bits, budget)
    decreases |sched| - n
  {
    assert sched[..n][..n - 1] == sched[..n - 1];
    if n == |sched| || Completed(Union(sched[..n]) * bits) {
      arrivals := sched[..n];
    } else {
      arrivals := WaitExists(sched, bits, budget, n + 1);
    }
  }

  /**
    Two schedules differ in their outcome only if completion comes in one of them
    alone, or some error bit crosses the poll that first sees completion. Any other
    rearrangement over the polls is invisible.
  */
  lemma ScheduleIndependent(a: seq<set<Intr>>, waitA: seq<set<Intr>>, b: seq<set<Intr>>, waitB: seq<set<Intr>>,
                            bits: set<Intr>, budget: nat)
    requires |a| == |b| == PollLimit(budget) && waitA <= a && waitB <= b
    requires WaitEnded(waitA, bits, budget) && WaitEnded(waitB, bits, budget)
    requires Outcome(Union(waitA) * bits) != Outcome(Union(waitB) * bits)
    ensures EverCompletes(a, bits) != EverCompletes(b, bits)
            || exists x :: x in {HsNackErr, AckErr, ArbLost} && InTime(a, bits, x) != InTime(b, bits, x)
  {
    WaitIsVerdict(waitA, a, bits, budget);
    WaitIsVerdict(waitB, b, bits, budget);
    if forall x :: x in {HsNackErr, AckErr, ArbLost} ==> (InTime(a, bits, x) <==> InTime(b, bits, x)) {
      assert HsNackErr in {HsNackErr, AckErr, ArbLost};
      assert AckErr in {HsNackErr, AckErr, ArbLost};
      assert ArbLost in {HsNackErr, AckErr, ArbLost};
      assert EverCompletes(a, bits) != EverCompletes(b, bits);
    }
  }

  /** Either kind of missing acknowledge is reported even if arbitration was lost as well. */
  lemma NakOutranksArbitration(arrivals: seq<set<Intr>>, bits: set<Intr>, k: nat, nak: Intr)
    requires nak in {HsNackErr, AckErr} && nak in bits
    requires k < |arrivals| && nak in arrivals[k] && Completed(Union(arrivals) * bits)
    ensures Outcome(Union(arrivals) * bits) == NoResponse
  {
    UnionMember(arrivals, nak);
  }

  /** The bit latched before some poll. */
  predicate Latched(arrivals: seq<set<Intr>>, x: Intr) {
    exists k :: 0 <= k < |arrivals| && x in arrivals[k]
  }

  /**
    What a caller may conclude from a status, by what latched before each poll of the
    last wait. The end of the transaction always ends the wait, the end of a message
    only where there is just one; a missing acknowledge of either kind outranks lost
    arbitration; a timeout comes after 5 ms and 100 us a byte, or 250 ms at most, and
    within one polling step of 20 us.
  */
  predicate AnsweredBy(arrivals: seq<set<Intr>>, wlen: nat, rlen: nat, status: Status) {
    var single := wlen == 0 || rlen == 0;
    var ended := Latched(arrivals, TransacComp) || (single && Latched(arrivals, RsTransfer));
    var refused := Latched(arrivals, HsNackErr) || Latched(arrivals, AckErr);
    var allowed := Min(5000 + 100 * (wlen + rlen), 250_000);
    && (status == Timeout <==> !ended)
    && (status == NoResponse <==> ended && refused)
    && (status == DeviceError <==> ended && !refused && Latched(arrivals, ArbLost))
    && (status == Success <==> ended && !refused && !Latched(arrivals, ArbLost))
    && (forall k :: 0 <= k < |arrivals| - 1 ==>
          TransacComp !in arrivals[k] && (single ==> RsTransfer !in arrivals[k]))
    && (|arrivals| - 1) * 20 < allowed + 20
    && (status == Timeout ==> (|arrivals| - 1) * 20 >= allowed)
  }

  lemma WaitAnswers(arrivals: seq<set<Intr>>, wlen: nat, rlen: nat)
    requires wlen + rlen > 0
    requires WaitEnded(arrivals, IntrBits(wlen > 0 && rlen > 0), Budget(wlen, rlen))
    ensures AnsweredBy(arrivals, wlen, rlen, Outcome(Union(arrivals) * IntrBits(wlen > 0 && rlen > 0)))
  {
    var bits := IntrBits(wlen > 0 && rlen > 0);
    forall x
      ensures x in Union(arrivals) <==> Latched(arrivals, x)
    {
      UnionMember(arrivals, x);
    }
    forall k | 0 <= k < |arrivals| - 1
      ensures TransacComp !in arrivals[k] && (wlen == 0 || rlen == 0 ==> RsTransfer !in arrivals[k])
    {
      NoneBefore(arrivals, bits, Budget(wlen, rlen), k);
    }
    hide Union;
  }

  // ---------------------------------------------------------------------
  // The controller
  // ---------------------------------------------------------------------

  /** The CONTROL bits the driver uses; a transfer changes only the first two. */
  datatype Control = Control(dirChange: bool, rs: bool, ackErrDet: bool, clkExt: bool, dmaEn: bool)

  datatype Regs = Regs(t: Timing, ioConfig: u16, slaveAddr: u16, intrMask: set<Intr>, intrStat: set<Intr>,
                       control: Control, transferLen: u16, transferLenAux: u16, transacLen: u16)

  /** The DMA channel; its addresses stand for the pages, which lie below 4 GiB. */
  datatype Dma = Dma(rx: bool, dirChange: bool, txMem: array?<byte>, rxMem: array?<byte>, txLen: nat, rxLen: nat)

  /** What a started transaction does on the bus. */
  datatype Request =
    | Write(addr: nat, bytes: seq<byte>)
    | Read(addr: nat, count: nat)
    | WriteThenRead(addr: nat, bytes: seq<byte>, count: nat)
    | Malformed

  /** What the caller asks for. */
  function Wanted(addr: byte, bytes: seq<byte>, count: nat): Request {
    if count == 0 then Write(addr, bytes)
    else if bytes == [] then Read(addr, count)
    else WriteThenRead(addr, bytes, count)
  }

  /**
    How the controller and its DMA channel read their registers at START. `trigger`
    is the restart trigger that single messages carry. Two transactions with the
    direction changed in between are a combined transfer; lengths and directions that
    disagree between the two register sets move no data that anyone asked for.
  */
  function Launched(r: Regs, d: Dma, trigger: bool): Request
    reads d.txMem
  {
    var addr := r.slaveAddr / 2;
    var readBit := r.slaveAddr % 2 == 1;
    if !r.control.dmaEn || r.control.dirChange != r.control.rs || r.control.dirChange != d.dirChange
       || trigger == d.dirChange then Malformed
    else if d.dirChange then
      if readBit || d.rx || r.transacLen != 2 || d.txMem == null || d.rxMem == null || d.txLen > d.txMem.Length
         || d.txLen != r.transferLen || d.rxLen != r.transferLenAux || d.rxLen > d.rxMem.Length then Malformed
      else WriteThenRead(addr, d.txMem[..d.txLen], d.rxLen)
    else if r.transacLen != 1 || readBit != d.rx then Malformed
    else if readBit then
      if d.rxMem == null || d.rxLen != r.transferLen || d.rxLen > d.rxMem.Length then Malformed
      else Read(addr, d.rxLen)
    else if d.txMem == null || d.txLen != r.transferLen || d.txLen > d.txMem.Length then Malformed
    else Write(addr, d.txMem[..d.txLen])
  }

  /** Registers programmed for a request start that request. */
  lemma StartsAsWanted(r: Regs, d: Dma, addr: byte, tx: array<byte>, rx: array<byte>, wlen: nat, rlen: nat)
    requires 0 < wlen + rlen && wlen <= tx.Length && rlen <= rx.Length
    requires r.control.dmaEn && r.control.dirChange == r.control.rs == d.dirChange == (wlen > 0 && rlen > 0)
    requires r.slaveAddr == addr * 2 + (if wlen == 0 then 1 else 0) && d.rx == (wlen == 0)
    requires r.transferLen == (if wlen > 0 then wlen else rlen)
    requires wlen > 0 && rlen > 0 ==> r.transferLenAux == rlen
    requires r.transacLen == if wlen > 0 && rlen > 0 then 2 else 1
    requires wlen > 0 ==> d.txMem == tx && d.txLen == wlen
    requires rlen > 0 ==> d.rxMem == rx && d.rxLen == rlen
    ensures Launched(r, d, !(wlen > 0 && rlen > 0)) == Wanted(addr, tx[..wlen], rlen)
  {
    assert |tx[..wlen]| == wlen;
  }

  predicate Programmed(t: Timing) {
    t.timing != 0 || t.ltiming != 0
  }

  class MtkI2cController {
    var regs: Regs
    var dma: Dma
    var tpl: nat
    // The driver's instance record.
    var base: nat
    var dmaBase: nat
    var slaveAddr: byte
    var mapped: bool
    var inherited: bool
    var irqMaskOn: bool
    var initialized: bool
    var saved: Timing
    var savedIoConfig: u16
    var txBuf: array?<byte>
    var rxBuf: array?<byte>
    var lastIntrStat: set<Intr>
    // History.
    ghost var firmware: Regs                // registers as they were before the first init
    ghost var launched: Request             // the last transaction started
    ghost var maskedRetries: nat
    ghost var arrivals: seq<set<Intr>>      // bits latched before each poll of the current wait
    ghost var pending: set<Intr>            // bits latched since the last poll

    /** What the timing registers must hold from the first init on. */
    ghost function Kept(): Timing
      reads this
    {
      if Programmed(firmware.t) then firmware.t else FAST_124M8
    }

    ghost function KeptIo(): u16
      reads this
    {
      if Programmed(firmware.t) then firmware.ioConfig else OPEN_DRAIN
    }

    ghost predicate Valid()
      reads this
    {
      Sound() && (!initialized ==> rxBuf == null)
    }

    ghost predicate Sound()
      reads this
    {
      && (!initialized ==> regs.t == firmware.t && regs.ioConfig == firmware.ioConfig && !irqMaskOn)
      && (initialized ==>
            && regs.t == Kept() && regs.ioConfig == KeptIo() && regs.intrMask == {}
            && regs.control.ackErrDet && regs.control.clkExt && regs.control.dmaEn
            && mapped && txBuf != null && rxBuf != null
            && saved == firmware.t && savedIoConfig == firmware.ioConfig && inherited == Programmed(firmware.t))
      && (txBuf != null ==> txBuf.Length == MAX_XFER && txBuf != rxBuf)
      && (rxBuf != null ==> rxBuf.Length == MAX_XFER)
      && maskedRetries == (if irqMaskOn then 1 else 0)
    }

    constructor (initial: Regs, tpl: nat)
      ensures Valid() && firmware == initial && regs == initial && !initialized && this.tpl == tpl
      ensures txBuf == null && rxBuf == null
    {
      regs, firmware, this.tpl := initial, initial, tpl;
      base, dmaBase, slaveAddr, mapped, inherited, irqMaskOn, initialized := 0, 0, 0, false, false, false, false;
      saved, savedIoConfig := Timing(0, 0, 0, 0, 0, 0), 0;
      txBuf, rxBuf, lastIntrStat := null, null, {};
      maskedRetries, arrivals, pending, launched := 0, [], {}, Malformed;
      dma := Dma(false, false, null, null, 0, 0);
    }

    /** The controller may latch any status bits at any time. */
    method HardwareRuns()
      modifies this`regs, this`pending
      ensures regs == old(regs).(intrStat := regs.intrStat)
      ensures old(regs).intrStat <= regs.intrStat <= old(regs).intrStat + pending
      ensures old(pending) <= pending <= old(pending) + regs.intrStat
    {
      var latched: set<Intr> := *;
      regs := regs.(intrStat := regs.intrStat + latched);
      pending := pending + latched;
    }

    /** Writing ones to INTR_STAT clears those bits and no others. */
    method ClearStatus(bits: set<Intr>)
      modifies this`regs, this`pending
      ensures regs == old(regs).(intrStat := regs.intrStat)
      ensures old(regs).intrStat - bits <= regs.intrStat <= old(regs).intrStat + pending
      ensures old(pending) <= pending <= old(pending) + regs.intrStat + bits
      ensures regs.intrStat * bits == {}
    {
      HardwareRuns();
      regs := regs.(intrStat := regs.intrStat - bits);
    }

    method SnapshotTiming()
      modifies this`saved, this`savedIoConfig, this`inherited
      ensures saved == regs.t && savedIoConfig == regs.ioConfig && inherited == Programmed(regs.t)
    {
      saved := regs.t;
      savedIoConfig := regs.ioConfig;
      inherited := saved.timing != 0 || saved.ltiming != 0;
    }

    /** Reset the channel and the controller, then reprogram everything the reset cleared. */
    method InitHw()
      modifies this`regs, this`dma, this`pending, this`initialized
      ensures initialized && regs.intrMask == {}
      ensures regs.control == Control(false, false, true, true, true)
      ensures regs.t == if inherited then saved else FAST_124M8
      ensures regs.ioConfig == if inherited then savedIoConfig else OPEN_DRAIN
    {
      ClearStatus(regs.intrStat);
      // Soft reset: nothing the registers held survives.
      regs, dma := *, *;
      regs := regs.(ioConfig := if inherited then savedIoConfig else OPEN_DRAIN);
      var t := if inherited then saved else FAST_124M8;
      regs := regs.(t := regs.t.(clockDiv := t.clockDiv));
      regs := regs.(t := regs.t.(sdaTiming := t.sdaTiming));
      regs := regs.(t := regs.t.(timing := t.timing));
      regs := regs.(t := regs.t.(hs := t.hs));
      regs := regs.(t := regs.t.(ltiming := t.ltiming));
      regs := regs.(t := regs.t.(extConf := t.extConf));
      regs := regs.(control := Control(false, false, true, true, true));
      regs := regs.(intrMask := {});
      HardwareRuns();
      initialized := true;
    }

    /** Allocate the DMA pages that are still missing. */
    method AllocatePages(pages: (bool, bool)) returns (ok: bool)
      requires Valid() && mapped
      modifies this`txBuf, this`rxBuf
      ensures Sound()
      ensures txBuf != null ==> txBuf.Length == MAX_XFER && txBuf != rxBuf
      ensures ok ==> txBuf != null && rxBuf != null && rxBuf.Length == MAX_XFER
      ensures !ok ==> rxBuf == null && rxBuf == old(rxBuf)
      ensures old(txBuf) != null ==> txBuf == old(txBuf)
      ensures old(rxBuf) != null ==> rxBuf == old(rxBuf)
      ensures txBuf == old(txBuf) || (txBuf != null && fresh(txBuf))
      ensures rxBuf == old(rxBuf) || (rxBuf != null && fresh(rxBuf))
    {
      if txBuf == null {
        if !pages.0 {
          return false;
        }
        txBuf := new byte[MAX_XFER](i => 0);
      }
      if rxBuf == null {
        if !pages.1 {
          return false;
        }
        rxBuf := new byte[MAX_XFER](i => 0);
      }
      return true;
    }

    /** `windows` and `pages` say which of the firmware calls succeed. */
    method Init(base: nat, dmaBase: nat, slaveAddr: byte, windows: (bool, bool), pages: (bool, bool))
      returns (status: Status)
      requires Valid()
      modifies this
      ensures Valid() && firmware == old(firmware) && tpl == old(tpl) && irqMaskOn == old(irqMaskOn)
      ensures status == Success ==> initialized && this.slaveAddr == slaveAddr && this.base == base
      ensures status != Success ==> regs == old(regs) && initialized == old(initialized)
      ensures status == InvalidParameter <==>
              base == 0 || dmaBase == 0 || (old(mapped) && (old(this.base) != base || old(this.dmaBase) != dmaBase))
      ensures status in {Success, InvalidParameter, NoMapping, OutOfResources}
      ensures txBuf == old(txBuf) || (txBuf != null && fresh(txBuf))
      ensures rxBuf == old(rxBuf) || (rxBuf != null && fresh(rxBuf))
    {
      status := Claim(base, dmaBase, slaveAddr, windows);
      if status != Success {
        return;
      }
      var ok := AllocatePages(pages);
      if !ok {
        return OutOfResources;
      }
      BringUp();
      return Success;
    }

    /** Settle on one controller and map its two windows. */
    method Claim(base: nat, dmaBase: nat, slaveAddr: byte, windows: (bool, bool)) returns (status: Status)
      requires Valid()
      modifies this`base, this`dmaBase, this`slaveAddr, this`mapped
      ensures Valid() && (status == Success ==> mapped && this.slaveAddr == slaveAddr && this.base == base)
      ensures status == InvalidParameter <==>
              base == 0 || dmaBase == 0 || (old(mapped) && (old(this.base) != base || old(this.dmaBase) != dmaBase))
      ensures status in {Success, InvalidParameter, NoMapping}
    {
      if base == 0 || dmaBase == 0 {
        return InvalidParameter;
      }
      if mapped && (this.base != base || this.dmaBase != dmaBase) {
        return InvalidParameter;
      }
      this.base, this.dmaBase, this.slaveAddr := base, dmaBase, slaveAddr;
      if !mapped {
        if !windows.0 || !windows.1 {
          return NoMapping;
        }
        mapped := true;
      }
      return Success;
    }

    /** The firmware's timing is recorded before the first reset only. */
    method BringUp()
      requires Sound() && mapped && txBuf != null && rxBuf != null
      modifies this`regs, this`dma, this`pending, this`initialized, this`saved, this`savedIoConfig, this`inherited
      ensures Valid() && initialized
    {
      if !initialized {
        SnapshotTiming();
      }
      InitHw();
    }

    method Reinit() returns (status: Status)
      requires Valid()
      modifies this
      ensures Valid() && firmware == old(firmware) && tpl == old(tpl) && irqMaskOn == old(irqMaskOn)
      ensures slaveAddr == old(slaveAddr) && initialized == old(initialized)
      ensures txBuf == old(txBuf) && rxBuf == old(rxBuf)
      ensures status == if old(initialized) then Success else NotReady
    {
      if !mapped || txBuf == null || rxBuf == null {
        return NotReady;
      }
      InitHw();
      return Success;
    }

    /**
      Collect status bits until the transaction completes or the budget is spent.
      No bit latched before the last poll is lost to a clear, and none from before
      the wait is counted.
    */
    method CollectStatus(bits: set<Intr>, budget: nat) returns (acc: set<Intr>)
      requires regs.intrStat * bits == pending * bits
      modifies this`regs, this`pending, this`arrivals
      ensures regs == old(regs).(intrStat := regs.intrStat)
      ensures WaitEnded(arrivals, bits, budget) && acc == Union(arrivals) * bits
    {
      acc := {};
      arrivals := [];
      var waited := 0;
      while true
        invariant regs == old(regs).(intrStat := regs.intrStat)
        invariant waited == |arrivals| * POLL_STEP_US && |arrivals| < PollLimit(budget)
        invariant acc == Union(arrivals) * bits && !Completed(acc)
        invariant regs.intrStat * bits <= pending
        invariant pending * bits <= acc + regs.intrStat
        decreases PollLimit(budget) - |arrivals|
      {
        ghost var soFar := arrivals;
        var stat := PollOnce(bits, acc);
        acc := acc + stat;
        assert arrivals[..|arrivals| - 1] == soFar;
        if stat != {} && (TransacComp in acc || RsTransfer in acc) {
          break;
        }
        if waited >= budget {
          break;
        }
        waited := waited + POLL_STEP_US;
      }
    }

    /** One read of INTR_STAT; what it shows is cleared again. */
    method PollOnce(bits: set<Intr>, ghost acc: set<Intr>) returns (stat: set<Intr>)
      requires acc == Union(arrivals) * bits
      requires regs.intrStat * bits <= pending && pending * bits <= acc + regs.intrStat
      modifies this`regs, this`pending, this`arrivals
      ensures regs == old(regs).(intrStat := regs.intrStat)
      ensures |arrivals| == |old(arrivals)| + 1 && arrivals[..|arrivals| - 1] == old(arrivals)
      ensures acc + stat == Union(arrivals) * bits && stat <= bits
      ensures regs.intrStat * bits <= pending && pending * bits <= acc + stat + regs.intrStat
    {
      hide Union;
      ghost var before := regs.intrStat;
      HardwareRuns();
      stat := regs.intrStat * bits;
      ghost var p := pending;
      forall b
        ensures b in stat ==> b in p
        ensures b in p * bits ==> b in acc + stat
      {
        assert b in old(pending) * bits ==> b in acc + before;
        assert b in before * bits ==> b in old(pending);
      }
      UnionAppend(arrivals, p);
      arrivals := arrivals + [p];
      assert arrivals[..|arrivals| - 1] == old(arrivals);
      assert Union(arrivals) * bits == acc + p * bits;
      pending := {};
      ghost var shown := regs.intrStat;
      if stat != {} {
        ClearStatus(stat);
      }
      forall b | b in regs.intrStat * bits
        ensures b in pending
      {
        assert b in shown ==> b in stat;
      }
    }

    /**
      Program the registers and start. What starts is exactly the request, whatever
      an earlier transfer left in the registers it does not write itself.
    */
    method Launch(wlen: nat, rlen: nat, maskOn: bool)
      requires 0 < wlen + rlen && wlen <= MAX_XFER && rlen <= MAX_XFER && regs.control.dmaEn
      requires txBuf != null && rxBuf != null && txBuf.Length == MAX_XFER && rxBuf.Length == MAX_XFER
      modifies this`regs, this`dma, this`pending, this`launched
      ensures regs.t == old(regs).t && regs.ioConfig == old(regs).ioConfig
      ensures regs.control == old(regs).control.(dirChange := wlen > 0 && rlen > 0, rs := wlen > 0 && rlen > 0)
      ensures regs.intrStat * IntrBits(wlen > 0 && rlen > 0) == pending * IntrBits(wlen > 0 && rlen > 0)
      ensures launched == Wanted(slaveAddr, txBuf[..wlen], rlen)
    {
      hide IntrBits, Launched, Wanted;
      var combined := wlen > 0 && rlen > 0;
      var read := wlen == 0 && rlen > 0;
      var bits := IntrBits(combined);
      regs := regs.(control := regs.control.(dirChange := false, rs := false));
      if combined {
        regs := regs.(control := regs.control.(dirChange := true, rs := true));
      }
      regs := regs.(slaveAddr := slaveAddr * 2 + (if read then 1 else 0));
      ClearStatus(bits);
      pending := {};
      HardwareRuns();
      regs := regs.(intrMask := if maskOn then bits else {});
      ProgramLengths(wlen, rlen);
      ProgramDma(wlen, rlen);
      HardwareRuns();
      StartsAsWanted(regs, dma, slaveAddr, txBuf, rxBuf, wlen, rlen);
      launched := Launched(regs, dma, !combined);
    }

    method ProgramLengths(wlen: nat, rlen: nat)
      requires wlen <= MAX_XFER && rlen <= MAX_XFER
      modifies this`regs
      ensures regs == old(regs).(transferLen := if wlen > 0 then wlen else rlen,
                                 transferLenAux := if wlen > 0 && rlen > 0 then rlen else old(regs.transferLenAux),
                                 transacLen := if wlen > 0 && rlen > 0 then 2 else 1)
    {
      if wlen > 0 && rlen > 0 {
        regs := regs.(transferLen := wlen);
        regs := regs.(transferLenAux := rlen);
        regs := regs.(transacLen := 2);
      } else {
        regs := regs.(transferLen := if wlen == 0 && rlen > 0 then rlen else wlen);
        regs := regs.(transacLen := 1);
      }
    }

    method ProgramDma(wlen: nat, rlen: nat)
      requires txBuf != null && rxBuf != null
      modifies this`dma
      ensures dma.rx == (wlen == 0 && rlen > 0) && dma.dirChange == (wlen > 0 && rlen > 0)
      ensures wlen > 0 || rlen == 0 ==> dma.txMem == txBuf && dma.txLen == wlen
      ensures rlen > 0 ==> dma.rxMem == rxBuf && dma.rxLen == rlen
    {
      if wlen == 0 && rlen > 0 {
        dma := dma.(rx := true, dirChange := false);
        dma := dma.(rxMem := rxBuf);
        dma := dma.(rxLen := rlen);
      } else if !(wlen > 0 && rlen > 0) {
        dma := dma.(rx := false, dirChange := false);
        dma := dma.(txMem := txBuf);
        dma := dma.(txLen := wlen);
      } else {
        dma := dma.(rx := false, dirChange := true);
        dma := dma.(txMem := txBuf);
        dma := dma.(rxMem := rxBuf);
        dma := dma.(txLen := wlen);
        dma := dma.(rxLen := rlen);
      }
    }

    /** One transaction, from programming the registers to masking interrupts again. */
    method DoTransfer(wlen: nat, rlen: nat, maskOn: bool) returns (status: Status)
      requires 0 < wlen + rlen && wlen <= MAX_XFER && rlen <= MAX_XFER && regs.control.dmaEn
      requires txBuf != null && rxBuf != null && txBuf.Length == MAX_XFER && rxBuf.Length == MAX_XFER
      modifies this`regs, this`dma, this`pending, this`launched, this`arrivals, this`lastIntrStat
      ensures regs.t == old(regs).t && regs.ioConfig == old(regs).ioConfig && regs.intrMask == {}
      ensures regs.control == old(regs).control.(dirChange := wlen > 0 && rlen > 0, rs := wlen > 0 && rlen > 0)
      ensures launched == Wanted(slaveAddr, txBuf[..wlen], rlen)
      ensures WaitEnded(arrivals, IntrBits(wlen > 0 && rlen > 0), Budget(wlen, rlen))
      ensures lastIntrStat == Union(arrivals) * IntrBits(wlen > 0 && rlen > 0)
      ensures status == Outcome(lastIntrStat)
      ensures AnsweredBy(arrivals, wlen, rlen, status)
    {
      Launch(wlen, rlen, maskOn);
      var bits := IntrBits(wlen > 0 && rlen > 0);
      var acc := CollectStatus(bits, Budget(wlen, rlen));
      regs := regs.(intrMask := {});
      HardwareRuns();
      lastIntrStat := acc;
      WaitAnswers(arrivals, wlen, rlen);
      hide AnsweredBy;
      if !(TransacComp in acc || RsTransfer in acc) {
        return Timeout;
      }
      if HsNackErr in acc || AckErr in acc {
        return NoResponse;
      }
      if ArbLost in acc {
        return DeviceError;
      }
      return Success;
    }

    /**
      A transfer. Whatever its outcome, the firmware's timing is back in place, the
      task priority is restored, and the switch to masked polling is made at most once.
    */
    method Xfer(wbuf: array?<byte>, wlen: nat, rbuf: array?<byte>, rlen: nat) returns (status: Status)
      requires Valid()
      requires wbuf != null ==> wlen <= wbuf.Length
      requires rbuf != null ==> rlen <= rbuf.Length && rbuf != rxBuf && rbuf != txBuf
      modifies this, txBuf, rxBuf, rbuf
      ensures Valid() && firmware == old(firmware) && tpl == old(tpl) && initialized == old(initialized)
      ensures txBuf == old(txBuf) && rxBuf == old(rxBuf)
      ensures old(maskedRetries) <= maskedRetries <= 1
      ensures status == NotReady <==> !old(initialized)
      ensures status == InvalidParameter <==> old(initialized) && BadArguments(wbuf, wlen, rbuf, rlen)
      ensures status !in {NotReady, InvalidParameter} ==>
                && WaitEnded(arrivals, IntrBits(wlen > 0 && rlen > 0), Budget(wlen, rlen))
                && status == Outcome(Union(arrivals) * IntrBits(wlen > 0 && rlen > 0))
      ensures status !in {NotReady, InvalidParameter} ==> AnsweredBy(arrivals, wlen, rlen, status)
      ensures status !in {NotReady, InvalidParameter} && rlen == 0 ==>
                launched == Write(slaveAddr, old(wbuf[..wlen]))
      ensures status !in {NotReady, InvalidParameter} && wlen == 0 ==> launched == Read(slaveAddr, rlen)
      ensures status !in {NotReady, InvalidParameter} && wlen > 0 && rlen > 0 ==>
                launched == WriteThenRead(slaveAddr, old(wbuf[..wlen]), rlen)
      ensures status == Success && rlen > 0 ==> rbuf[..rlen] == rxBuf[..rlen]
      ensures rbuf != null ==> rbuf[rlen..] == old(rbuf[rlen..])
      ensures status != Success && rbuf != null ==> rbuf[..] == old(rbuf[..])
    {
      if !initialized || txBuf == null || rxBuf == null {
        return NotReady;
      }
      if (wlen == 0 && rlen == 0) || wlen > MAX_XFER || rlen > MAX_XFER
         || (wlen > 0 && wbuf == null) || (rlen > 0 && rbuf == null) {
        return InvalidParameter;
      }
      if wlen > 0 {
        forall i | 0 <= i < wlen {
          txBuf[i] := wbuf[i];
        }
      }
      assert wlen > 0 ==> txBuf[..wlen] == old(wbuf[..wlen]);
      status := Transact(wlen, rlen);
      WaitAnswers(arrivals, wlen, rlen);
      hide AnsweredBy, WaitEnded, Outcome, Union, IntrBits, Budget;
      if status == Success && rlen > 0 {
        forall i | 0 <= i < rlen {
          rbuf[i] := rxBuf[i];
        }
      }
    }

    /** The part of a transfer that runs at the raised task priority. */
    method Transact(wlen: nat, rlen: nat) returns (status: Status)
      requires Valid() && initialized && 0 < wlen + rlen && wlen <= MAX_XFER && rlen <= MAX_XFER
      modifies this, rxBuf
      ensures slaveAddr == old(slaveAddr) && launched == Wanted(slaveAddr, old(txBuf[..wlen]), rlen)
      ensures Valid() && initialized && firmware == old(firmware) && tpl == old(tpl)
      ensures txBuf == old(txBuf) && rxBuf == old(rxBuf)
      ensures old(maskedRetries) <= maskedRetries <= 1
      ensures WaitEnded(arrivals, IntrBits(wlen > 0 && rlen > 0), Budget(wlen, rlen))
      ensures status == Outcome(Union(arrivals) * IntrBits(wlen > 0 && rlen > 0))
    {
      hide WaitEnded, Outcome, IntrBits, Union, Wanted, Budget;
      var oldTpl := tpl;
      tpl := TPL_HIGH_LEVEL;
      status := TryTwice(wlen, rlen);
      DmaWrites(rlen);
      if status != Success {
        InitHw();
      }
      tpl := oldTpl;
    }

    /** Nothing latched at all with the mask off: switch to masked polling for good and try once more. */
    method TryTwice(wlen: nat, rlen: nat) returns (status: Status)
      requires Valid() && initialized && 0 < wlen + rlen && wlen <= MAX_XFER && rlen <= MAX_XFER
      modifies this`regs, this`dma, this`pending, this`launched, this`arrivals, this`lastIntrStat, this`irqMaskOn,
               this`maskedRetries, this`initialized
      ensures Valid() && initialized
      ensures launched == Wanted(slaveAddr, txBuf[..wlen], rlen)
      ensures old(maskedRetries) <= maskedRetries <= 1
      ensures WaitEnded(arrivals, IntrBits(wlen > 0 && rlen > 0), Budget(wlen, rlen))
      ensures status == Outcome(Union(arrivals) * IntrBits(wlen > 0 && rlen > 0))
    {
      hide WaitEnded, Outcome, IntrBits, Union, Wanted;
      status := DoTransfer(wlen, rlen, irqMaskOn);
      if status == Timeout && !irqMaskOn && lastIntrStat == {} {
        irqMaskOn := true;
        maskedRetries := maskedRetries + 1;
        InitHw();
        status := DoTransfer(wlen, rlen, true);
      }
    }

    /** The DMA engine may have written anything into the receive page. */
    method DmaWrites(rlen: nat)
      requires rxBuf != null && rlen <= rxBuf.Length
      modifies rxBuf
    {
      for i := 0 to rlen {
        var b: byte := *;
        rxBuf[i] := b;
      }
    }

    /** Leave the controller idle for the operating system. */
    method Disable()
      requires Valid()
      modifies this
      ensures Valid() && firmware == old(firmware) && tpl == old(tpl) && initialized == old(initialized)
      ensures txBuf == old(txBuf) && rxBuf == old(rxBuf)
      ensures old(mapped) ==> regs.intrMask == {}
    {
      if !mapped {
        return;
      }
      regs := regs.(intrMask := {});
      ClearStatus(regs.intrStat);
    }
  }

  predicate BadArguments(wbuf: array?<byte>, wlen: nat, rbuf: array?<byte>, rlen: nat) {
    (wlen == 0 && rlen == 0) || wlen > MAX_XFER || rlen > MAX_XFER
    || (wlen > 0 && wbuf == null) || (rlen > 0 && rbuf == null)
  }
}
