/** Whole runs: any sequence of driver calls on one controller, whatever the hardware answers. */
module Sessions {
  import opened Machine
  import Dw = DwI2c
  import DwHardware
  import Mtk = MtkI2c
  import MtkTiming
  import MtkSearch

  datatype DwCall = Init(addr: byte, force: Option<Dw.Timing>) | Xfer(w: seq<byte>, rlen: nat)

  method FromSeq(s: seq<byte>) returns (a: array<byte>)
    ensures fresh(a) && a[..] == s
  {
    a := new byte[|s|](i requires 0 <= i < |s| => s[i]);
  }

  /** What the caller of one call sees; for a transfer, the receive buffer as well. */
  datatype Result = Result(status: Status, received: seq<byte>)

  /**
    One call on a quiet controller. Whatever its status, what the receive buffer
    holds was supplied for this very call; the rest of the buffer is untouched.
  */
  predicate Turn(before: DwHardware.Hw, call: DwCall, r: Result, after: DwHardware.Hw) {
    && (DwHardware.Quiet(after) || !after.wanted)
    && match call
       case Init(addr, force) =>
         && r.status in {Success, DeviceError, Timeout}
         && after.config == (if r.status == DeviceError then before.config
                             else Dw.InitConfig(before.config, addr, force))
         && (r.status == DeviceError <==> !after.wanted)
       case Xfer(w, rlen) =>
         if w == [] && rlen == 0 then r.status == InvalidParameter && after == before
         else Dw.Transferred(before, after, r.status, w, rlen) && Received(r.received, after.log, rlen)
  }

  /** The drained bytes, all of them supplied since the transfer began, and then the untouched rest. */
  predicate Received(buf: seq<byte>, l: DwHardware.Log, rlen: nat) {
    && |buf| == rlen && |l.drained| <= rlen && l.drained <= l.supplied
    && buf == l.drained + seq(rlen - |l.drained|, i => 0)
  }

  /**
    Isolation over a whole session: until a disable is stuck, both FIFOs are empty
    and the bus is free at every return, and every byte received, under any status,
    was supplied by the slave for that call. `states` are the controller's states
    from before the first call to after the last.
  */
  method DwSession(ctl: Dw.DwController, calls: seq<DwCall>)
    returns (results: seq<Result>, ghost states: seq<DwHardware.Hw>)
    requires DwHardware.Valid(ctl.hw) && DwHardware.Quiet(ctl.hw)
    modifies ctl
    ensures |results| <= |calls| && |states| == |results| + 1
    ensures states[0] == old(ctl.hw) && states[|results|] == ctl.hw
    ensures forall k :: 0 <= k < |results| ==>
              DwHardware.Quiet(states[k]) && Turn(states[k], calls[k], results[k], states[k + 1])
    ensures DwHardware.Quiet(ctl.hw) || !ctl.hw.wanted
    ensures DwHardware.Quiet(ctl.hw) ==> |results| == |calls|
  {
    hide Turn, DwHardware.Valid;
    results, states := [], [ctl.hw];
    for i := 0 to |calls|
      invariant |results| == i && |states| == i + 1
      invariant states[0] == old(ctl.hw) && states[i] == ctl.hw
      invariant forall k :: 0 <= k < i ==>
                  DwHardware.Quiet(states[k]) && Turn(states[k], calls[k], results[k], states[k + 1])
      invariant DwHardware.Valid(ctl.hw) && DwHardware.Quiet(ctl.hw)
    {
      var result := DwTurn(ctl, calls[i]);
      results, states := results + [result], states + [ctl.hw];
      if !ctl.hw.wanted {
        return;
      }
    }
  }

  method DwTurn(ctl: Dw.DwController, call: DwCall) returns (r: Result)
    requires DwHardware.Valid(ctl.hw) && DwHardware.Quiet(ctl.hw)
    modifies ctl
    ensures DwHardware.Valid(ctl.hw) && Turn(old(ctl.hw), call, r, ctl.hw)
    ensures DwHardware.Quiet(ctl.hw) || !ctl.hw.wanted
  {
    match call {
      case Init(addr, force) =>
        var status := ctl.Init(addr, force);
        r := Result(status, []);
      case Xfer(w, rlen) =>
        r := DwTransfer(ctl, w, rlen);
    }
  }

  method DwTransfer(ctl: Dw.DwController, w: seq<byte>, rlen: nat) returns (r: Result)
    requires DwHardware.Valid(ctl.hw) && DwHardware.Quiet(ctl.hw)
    modifies ctl
    ensures DwHardware.Valid(ctl.hw) && Turn(old(ctl.hw), Xfer(w, rlen), r, ctl.hw)
  {
    hide DwHardware.Valid, Dw.FromQuiet;
    var wbuf := FromSeq(w);
    var rbuf := new byte[rlen](i => 0);
    ghost var zeros := seq(rlen, i => 0);
    assert wbuf[..|w|] == w && rbuf[..] == zeros;
    var status := ctl.Xfer(wbuf, |w|, rbuf, rlen);
    r := Result(status, rbuf[..]);
    if status != InvalidParameter {
      TransferredBytes(old(ctl.hw), ctl.hw, status, w, rlen);
      ghost var n := |ctl.hw.log.drained|;
      assert rbuf[..] == rbuf[..n] + rbuf[n..] && rbuf[n..] == zeros[n..];
    }
  }

  lemma TransferredBytes(before: DwHardware.Hw, after: DwHardware.Hw, status: Status, w: seq<byte>, rlen: nat)
    requires DwHardware.Quiet(before) && Dw.Transferred(before, after, status, w, rlen)
    ensures after.log.drained <= after.log.supplied && |after.log.drained| <= rlen
    ensures DwHardware.Quiet(after) || !after.wanted
  {
  }

  /** The driver's own timing is what the search computes for 124.8 MHz and 400 kHz. */
  lemma FastTimingIsComputed()
    ensures MtkTiming.Winner(MtkSearch.DEFAULT, 5) && MtkTiming.CheckOf(MtkSearch.DEFAULT, 5).Accepted?
    ensures var f := Mtk.FAST_124M8;
      && MtkTiming.Pack(MtkTiming.CheckOf(MtkSearch.DEFAULT, 5).t)
         == MtkTiming.Regs(f.timing, f.ltiming, f.hs, f.extConf, f.sdaTiming)
      && f.clockDiv == MtkSearch.DEFAULT.interClkDiv
  {
    hide MtkTiming.Winner, MtkTiming.CheckOf, MtkTiming.Pack;
    MtkSearch.DefaultRegisters();
  }

  datatype MtkCall =
    | MtkInit(base: nat, dmaBase: nat, addr: byte, windows: (bool, bool), pages: (bool, bool))
    | MtkReinit
    | MtkXfer(w: seq<byte>, rlen: nat)
    | MtkDisable

  /**
    Over any session, under any transfer outcome: once the controller has been
    initialised it holds the firmware's timing, or the 400 kHz set when the firmware
    left none; the task priority is what it was, and masked polling was tried at most once.
  */
  method MtkSession(initial: Mtk.Regs, tpl: nat, calls: seq<MtkCall>) returns (ctl: Mtk.MtkI2cController)
    ensures ctl.Valid() && ctl.tpl == tpl && ctl.maskedRetries <= 1
    ensures ctl.initialized ==>
              && ctl.regs.t == (if initial.t.timing != 0 || initial.t.ltiming != 0 then initial.t
                                else Mtk.Timing(0x0419, 0x0123, 0x0000, 0x5801, 0x0000, 0x100A))
              && ctl.regs.ioConfig == (if initial.t.timing != 0 || initial.t.ltiming != 0 then initial.ioConfig
                                       else 0x0003)
              && ctl.regs.intrMask == {}
    ensures !ctl.initialized ==> ctl.regs.t == initial.t && ctl.regs.ioConfig == initial.ioConfig
  {
    ctl := new Mtk.MtkI2cController(initial, tpl);
    for i := 0 to |calls|
      invariant fresh(ctl) && (ctl.txBuf != null ==> fresh(ctl.txBuf)) && (ctl.rxBuf != null ==> fresh(ctl.rxBuf))
      invariant ctl.Valid() && ctl.tpl == tpl && ctl.firmware == initial
    {
      match calls[i] {
        case MtkInit(base, dmaBase, addr, windows, pages) =>
          var _ := ctl.Init(base, dmaBase, addr, windows, pages);
        case MtkReinit =>
          var _ := ctl.Reinit();
        case MtkXfer(w, rlen) =>
          var wbuf := FromSeq(w);
          var rbuf := new byte[rlen](i => 0);
          var _ := ctl.Xfer(wbuf, |w|, rbuf, rlen);
        case MtkDisable =>
          ctl.Disable();
      }
    }
  }
}
