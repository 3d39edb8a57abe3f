/**
  The polled DesignWare driver. Between any two register accesses the
  controller may make any number of moves of its own, in any order.
*/
module DwI2c {
  import opened Machine
  import opened DwHardware
  import opened DwProtocol

  const POLL_LIMIT := 200000
  const XFER_SPIN_BUDGET := 4 * POLL_LIMIT

  const SPEED_STD := 1
  const SPEED_FAST := 2

  datatype Timing = Timing(ssHcnt: nat, ssLcnt: nat, fsHcnt: nat, fsLcnt: nat, sdaHold: nat)

  const AMD_FCH_150M := Timing(600, 705, 136, 225, 45)

  /** The register contents a successful initialisation leaves behind. */
  function InitConfig(c: Config, addr: byte, force: Option<Timing>): Config {
    var t := if force.Some? then force.value else AMD_FCH_150M;
    var std := force.None? && c.speed == SPEED_STD;
    var setSs := std && (c.ssHcnt == 0 || c.ssLcnt == 0);
    var setFs := !std && (force.Some? || c.fsHcnt == 0 || c.fsLcnt == 0);
    Config(true, if std then SPEED_STD else SPEED_FAST, true, true, addr,
           if setSs then t.ssHcnt else c.ssHcnt, if setSs then t.ssLcnt else c.ssLcnt,
           if setFs then t.fsHcnt else c.fsHcnt, if setFs then t.fsLcnt else c.fsLcnt,
           if force.Some? then t.sdaHold else c.sdaHold)
  }

  /**
    What an initialisation does to the configuration. The firmware's speed is kept if it
    is standard, its counts if both are set; only a forced timing replaces what is set,
    and it always means fast mode. The counts of the other speed are never touched.
  */
  lemma InitConfigLaw(c: Config, addr: byte, force: Option<Timing>)
    ensures var k := InitConfig(c, addr, force);
      && k.master && k.restartEn && k.slaveDisable && k.tar == addr
      && (k.speed == 1 || k.speed == 2) && (k.speed == 1 <==> force.None? && c.speed == 1)
      && (k.speed == 1 ==> k.fsHcnt == c.fsHcnt && k.fsLcnt == c.fsLcnt)
      && (k.speed == 2 ==> k.ssHcnt == c.ssHcnt && k.ssLcnt == c.ssLcnt)
      && (k.speed == 1 && c.ssHcnt > 0 && c.ssLcnt > 0 ==> k.ssHcnt == c.ssHcnt && k.ssLcnt == c.ssLcnt)
      && (k.speed == 1 && (c.ssHcnt == 0 || c.ssLcnt == 0) ==> k.ssHcnt == 600 && k.ssLcnt == 705)
      && (force.None? ==> k.sdaHold == c.sdaHold)
      && (force.None? && k.speed == 2 && c.fsHcnt > 0 && c.fsLcnt > 0 ==> k.fsHcnt == c.fsHcnt && k.fsLcnt == c.fsLcnt)
      && (force.None? && k.speed == 2 && (c.fsHcnt == 0 || c.fsLcnt == 0) ==> k.fsHcnt == 136 && k.fsLcnt == 225)
      && (force.Some? ==> k.fsHcnt == force.value.fsHcnt && k.fsLcnt == force.value.fsLcnt
                          && k.sdaHold == force.value.sdaHold)
    // Another initialisation without forced timing only retargets.
    ensures forall other: byte :: force.None? ==>
              InitConfig(InitConfig(c, addr, force), other, None) == InitConfig(c, addr, force).(tar := other)
  {
  }

  class DwController {
    var hw: Hw
    ghost var checks: nat    // reads of IC_RAW_INTR_STAT so far

    constructor (initial: Hw)
      ensures hw == initial
    {
      hw, checks := initial, 0;
    }

    /** The hardware makes any number of moves. */
    method HardwareRuns()
      requires Valid(hw)
      modifies this`hw
      ensures Valid(hw) && Later(old(hw), hw)
    {
      var n: nat := *;
      while n > 0
        invariant Valid(hw) && Later(old(hw), hw)
      {
        var m: Move := *;
        MoveKeeps(hw, m);
        MoveIsLater(hw, m);
        LaterTransitive(old(hw), hw, Apply(hw, m));
        hw := Apply(hw, m);
        n := n - 1;
      }
    }

    // -------------------------------------------------------------------
    // Register accesses
    // -------------------------------------------------------------------

    /** IC_RAW_INTR_STAT & TX_ABRT. */
    method ReadAbort() returns (abort: bool)
      requires Valid(hw)
      modifies this`hw, this`checks
      ensures Valid(hw) && Later(old(hw), hw) && Kept(old(hw), hw) && abort == hw.abort
      ensures checks == old(checks) + 1
    {
      HardwareRuns();
      checks := checks + 1;
      abort := hw.abort;
    }

    /** IC_STATUS: TFNF, RFNE and MST_ACTIVITY. */
    method ReadStatus() returns (notFull: bool, notEmpty: bool, active: bool)
      requires Valid(hw)
      modifies this`hw
      ensures Valid(hw) && Later(old(hw), hw) && Kept(old(hw), hw)
      ensures notFull == (|hw.tx| < hw.txDepth) && notEmpty == (hw.rx != []) && active == MasterActive(hw)
    {
      HardwareRuns();
      notFull, notEmpty, active := |hw.tx| < hw.txDepth, hw.rx != [], MasterActive(hw);
    }

    /** IC_TX_ABRT_SOURCE & 7B_ADDR_NOACK. */
    method ReadAbortSource() returns (addrNak: bool)
      requires Valid(hw)
      modifies this`hw
      ensures Valid(hw) && Later(old(hw), hw) && addrNak == hw.addrNak
    {
      HardwareRuns();
      addrNak := hw.addrNak;
    }

    /** IC_ENABLE_STATUS & EN. */
    method ReadEnabled() returns (enabled: bool)
      requires Valid(hw)
      modifies this`hw
      ensures Valid(hw) && Later(old(hw), hw) && enabled == hw.enabled
    {
      HardwareRuns();
      enabled := hw.enabled;
    }

    method WriteDataCmd(c: Command) returns (ghost before: Hw)
      requires Valid(hw)
      modifies this`hw
      ensures Valid(before) && Later(old(hw), before) && Valid(hw) && hw == PutCommand(before, c)
    {
      HardwareRuns();
      before := hw;
      PutKeepsValid(hw, c);
      hw := PutCommand(hw, c);
    }

    /** An empty RX FIFO answers with an arbitrary byte. */
    method ReadDataCmd() returns (b: byte, ghost before: Hw)
      requires Valid(hw)
      modifies this`hw
      ensures Valid(before) && Later(old(hw), before) && Valid(hw) && hw == TakeByte(before)
      ensures before.rx != [] ==> b == before.rx[0]
    {
      HardwareRuns();
      before := hw;
      b := *;
      if hw.rx != [] {
        b := hw.rx[0];
        TakeKeepsValid(hw);
      }
      hw := TakeByte(hw);
    }

    method WriteEnable(on: bool)
      requires Valid(hw)
      modifies this`hw
      ensures Valid(hw) && exists before :: Valid(before) && Later(old(hw), before) && hw == SetEnable(before, on)
    {
      HardwareRuns();
      ghost var before := hw;
      hw := SetEnable(hw, on);
      assert Valid(before) && Later(old(hw), before) && hw == SetEnable(before, on);
    }

    method ClearTxAbort()
      requires Valid(hw)
      modifies this`hw
      ensures Valid(hw) && exists before :: Valid(before) && Later(old(hw), before) && hw == ClearAbort(before)
    {
      HardwareRuns();
      ghost var before := hw;
      hw := ClearAbort(hw);
      assert Valid(before) && Later(old(hw), before) && hw == ClearAbort(before);
    }

    /** STOP_DET is latched but never consulted. */
    method ClearStopDet()
      requires Valid(hw)
      modifies this`hw
      ensures Valid(hw) && Later(old(hw), hw)
    {
      HardwareRuns();
    }

    /** A write to one of the registers that an enabled controller ignores. */
    method WriteConfig(c: Config)
      requires Valid(hw)
      modifies this`hw
      ensures Valid(hw) && hw.wanted == old(hw).wanted
      ensures !old(hw).wanted && !old(hw).enabled ==> !hw.enabled && hw.config == c
    {
      HardwareRuns();
      hw := Configure(hw, c);
    }

    // -------------------------------------------------------------------
    // Disable, initialise, recover
    // -------------------------------------------------------------------

    /** Success means that both FIFOs are flushed; otherwise the disable is still outstanding. */
    method Disable() returns (status: Status)
      requires Valid(hw)
      modifies this`hw
      ensures Valid(hw) && !hw.wanted && hw.config == old(hw).config && Continues(old(hw).log, hw.log)
      ensures status in {Success, Timeout}
      ensures status == Success ==> !hw.enabled && hw.tx == [] && hw.wire == [] && hw.rx == [] && !hw.open
    {
      WriteEnable(false);
      var spin := 0;
      while spin < POLL_LIMIT
        invariant Valid(hw) && !hw.wanted && hw.config == old(hw).config && Continues(old(hw).log, hw.log)
      {
        var enabled := ReadEnabled();
        if !enabled {
          return Success;
        }
        spin := spin + 1;
      }
      return Timeout;
    }

    /** Enable a flushed controller; `seen` tells whether it confirmed within the limit. */
    method EnableAndWait() returns (seen: bool)
      requires Valid(hw) && !hw.wanted && !hw.enabled
      modifies this`hw
      ensures Valid(hw) && Quiet(hw) && hw.config == old(hw).config && Continues(old(hw).log, hw.log)
      ensures seen ==> hw.enabled
    {
      WriteEnable(true);
      var spin := 0;
      while spin < POLL_LIMIT
        invariant Valid(hw) && Quiet(hw) && hw.config == old(hw).config && Continues(old(hw).log, hw.log)
      {
        seen := ReadEnabled();
        if seen {
          return;
        }
        spin := spin + 1;
      }
      return false;
    }

    /**
      A controller that cannot be disabled is never taken for one that was
      retargeted; success leaves it quiet, enabled and programmed.
    */
    method Init(addr: byte, force: Option<Timing>) returns (status: Status)
      requires Valid(hw)
      modifies this`hw
      ensures Valid(hw) && status in {Success, DeviceError, Timeout}
      ensures status == DeviceError ==> !hw.wanted && hw.config == old(hw).config
      ensures status != DeviceError ==> Quiet(hw) && hw.config == InitConfig(old(hw).config, addr, force)
      ensures status == Success ==> hw.enabled
    {
      var timing := if force.Some? then force.value else AMD_FCH_150M;
      var disabled := Disable();
      if disabled != Success {
        return DeviceError;
      }
      var speed := hw.config.speed;
      if force.Some? || speed != SPEED_STD {
        speed := SPEED_FAST;
      }
      WriteConfig(hw.config.(master := true, speed := speed, restartEn := true, slaveDisable := true));
      if speed == SPEED_STD {
        if hw.config.ssHcnt == 0 || hw.config.ssLcnt == 0 {
          WriteConfig(hw.config.(ssHcnt := timing.ssHcnt));
          WriteConfig(hw.config.(ssLcnt := timing.ssLcnt));
        }
      } else {
        if force.Some? || hw.config.fsHcnt == 0 || hw.config.fsLcnt == 0 {
          WriteConfig(hw.config.(fsHcnt := timing.fsHcnt));
          WriteConfig(hw.config.(fsLcnt := timing.fsLcnt));
        }
      }
      if force.Some? {
        WriteConfig(hw.config.(sdaHold := timing.sdaHold));
      }
      WriteConfig(hw.config.(tar := addr));
      var seen := EnableAndWait();
      return if seen then Success else Timeout;
    }

    /** After a failed transfer the controller is quiet again, or the disable is still outstanding. */
    method Recover()
      requires Valid(hw)
      modifies this`hw
      ensures Valid(hw) && hw.config == old(hw).config && Continues(old(hw).log, hw.log)
      ensures Quiet(hw) || !hw.wanted
    {
      var disabled := Disable();
      if disabled != Success {
        return;
      }
      var _ := EnableAndWait();
      ClearTxAbort();
      ClearStopDet();
    }

    /** Classify and clear a latched abort. */
    method ClassifyAbort() returns (status: Status)
      requires Valid(hw) && hw.abort
      modifies this`hw
      ensures Valid(hw) && Kept(old(hw), hw) && Continues(old(hw).log, hw.log)
      ensures status == if old(hw).addrNak then NoResponse else DeviceError
      ensures Quiet(old(hw)) ==> Quiet(hw) && hw.log.supplied == old(hw).log.supplied
    {
      var addrNak := ReadAbortSource();
      ClearTxAbort();
      status := if addrNak then NoResponse else DeviceError;
    }

    // -------------------------------------------------------------------
    // Transfer
    // -------------------------------------------------------------------

    /** The abort exit shared by the main loop and the final wait. */
    method AbortExit() returns (status: Status)
      requires Valid(hw) && hw.abort
      modifies this`hw
      ensures Valid(hw) && hw.config == old(hw).config && Continues(old(hw).log, hw.log)
      ensures status == if old(hw).addrNak then NoResponse else DeviceError
      ensures status == NoResponse ==> Kept(old(hw), hw)
      ensures status == NoResponse && Quiet(old(hw)) ==> Quiet(hw) && hw.log.supplied == old(hw).log.supplied
      ensures status == DeviceError ==> Quiet(hw) || !hw.wanted
    {
      status := ClassifyAbort();
      if status == DeviceError {
        Recover();
      }
    }

    /** First half of a loop iteration: write the next byte or queue the next READ, if there is room. */
    method QueueNext(wbuf: array?<byte>, wlen: nat, rlen: nat, wsent0: nat, rqueued0: nat, rgot: nat,
                     ghost w: seq<byte>, ghost got: seq<byte>, ghost quiet: bool, ghost hot: bool)
      returns (wsent: nat, rqueued: nat, progress: bool)
      requires Tracks(hw, w, rlen, wsent0, rqueued0, got, quiet, hot)
      requires |w| == wlen && |got| == rgot
      requires wsent0 < wlen ==> wbuf != null && wlen <= wbuf.Length && wbuf[..wlen] == w
      modifies this`hw
      ensures Tracks(hw, w, rlen, wsent, rqueued, got, quiet, hot) && Kept(old(hw), hw)
      ensures wsent + rqueued == wsent0 + rqueued0 + (if progress then 1 else 0)
      ensures wsent0 <= wsent <= wlen && rqueued0 <= rqueued <= rlen && (rqueued > 0 ==> wsent == wlen)
    {
      TracksBounds(hw, w, rlen, wsent0, rqueued0, got, quiet, hot);
      hide Tracks, Valid, Later, PutCommand;
      wsent, rqueued, progress := wsent0, rqueued0, false;
      ghost var at := hw;
      var notFull, _, _ := ReadStatus();
      LaterTracks(at, hw, w, rlen, wsent, rqueued, got, quiet, hot);
      if wsent < wlen && notFull {
        var cmd := Command(wbuf[wsent], false, false, false);
        if wsent == wlen - 1 && rlen == 0 {
          cmd := cmd.(stop := true);
        }
        assert wbuf[wsent] == wbuf[..wlen][wsent];
        PutNext(cmd, rlen, wsent, rqueued, w, got, quiet, hot);
        wsent := wsent + 1;
        progress := true;
      } else if wsent == wlen && rqueued < rlen && notFull && rqueued - rgot < RX_INFLIGHT_MAX {
        var cmd := Command(0, true, false, false);
        if rqueued == 0 && wlen > 0 {
          cmd := cmd.(restart := true);
        }
        if rqueued == rlen - 1 {
          cmd := cmd.(stop := true);
        }
        PutNext(cmd, rlen, wsent, rqueued, w, got, quiet, hot);
        rqueued := rqueued + 1;
        progress := true;
      }
    }

    /** Write one command; it must be the next one of the transfer. */
    method PutNext(cmd: Command, rlen: nat, wsent: nat, rqueued: nat,
                   ghost w: seq<byte>, ghost got: seq<byte>, ghost quiet: bool, ghost hot: bool)
      requires Tracks(hw, w, rlen, wsent, rqueued, got, quiet, hot)
      requires |hw.tx| < hw.txDepth && wsent + rqueued < |w| + rlen && rqueued - |got| < RX_INFLIGHT_MAX
      requires cmd == Nth(w, rlen, wsent + rqueued)
      modifies this`hw
      ensures Tracks(hw, w, rlen, if wsent < |w| then wsent + 1 else wsent,
                     if wsent < |w| then rqueued else rqueued + 1, got, quiet, hot)
      ensures Kept(old(hw), hw)
    {
      TracksBounds(hw, w, rlen, wsent, rqueued, got, quiet, hot);
      hide Tracks, Valid;
      ghost var at := hw;
      ghost var before := WriteDataCmd(cmd);
      LaterTracks(at, before, w, rlen, wsent, rqueued, got, quiet, hot);
      LaterHasRoom(at, before);
      PutTracks(before, w, rlen, wsent, rqueued, got, quiet, hot);
    }

    /** Second half: drain one byte if a READ is outstanding and the RX FIFO has one. */
    method DrainOne(rbuf: array<byte>, rlen: nat, wsent: nat, rqueued: nat, rgot0: nat,
                    ghost w: seq<byte>, ghost got0: seq<byte>, ghost quiet: bool, ghost hot: bool)
      returns (rgot: nat, progress: bool, ghost got: seq<byte>)
      requires Tracks(hw, w, rlen, wsent, rqueued, got0, quiet, hot)
      requires |got0| == rgot0 < rqueued && rlen <= rbuf.Length && rbuf[..rgot0] == got0
      modifies this`hw, rbuf
      ensures Tracks(hw, w, rlen, wsent, rqueued, got, quiet, hot) && Kept(old(hw), hw)
      ensures |got| == rgot == rgot0 + (if progress then 1 else 0)
      ensures rbuf[..rgot] == got && rbuf[rgot..] == old(rbuf[rgot..])
    {
      rgot, progress, got := rgot0, false, got0;
      ghost var at := hw;
      var _, notEmpty, _ := ReadStatus();
      LaterTracks(at, hw, w, rlen, wsent, rqueued, got, quiet, hot);
      if notEmpty {
        at := hw;
        var b: byte;
        ghost var before;
        b, before := ReadDataCmd();
        LaterTracks(at, before, w, rlen, wsent, rqueued, got, quiet, hot);
        if quiet {
          TakeUnderway(before, w, rlen, wsent, rqueued, got, hot);
        }
        rbuf[rgot] := b;
        got := got + [b];
        rgot := rgot + 1;
        progress := true;
      }
    }

    /** Clear stale latched conditions; the history of this transfer begins here. */
    method Start(ghost rlen: nat, ghost w: seq<byte>)
      requires Valid(hw)
      modifies this`hw
      ensures Tracks(hw, w, rlen, 0, 0, [], Quiet(old(hw)), old(hw).enabled) && Kept(old(hw), hw)
    {
      ghost var quiet, hot := Quiet(hw), hw.enabled;
      ClearTxAbort();
      ClearStopDet();
      BeginTracks(hw, w, rlen, quiet, hot);
      hw := Begin(hw);
    }

    /**
      The main loop. It either ends with everything written, queued and drained,
      or gives up with a status of its own. Every iteration makes one abort check.
    */
    method Interleave(wbuf: array?<byte>, wlen: nat, rbuf: array?<byte>, rlen: nat,
                      ghost w: seq<byte>, ghost quiet: bool, ghost hot: bool)
      returns (gaveUp: Option<Status>, ghost got: seq<byte>)
      requires Tracks(hw, w, rlen, 0, 0, [], quiet, hot) && |w| == wlen
      requires wlen > 0 ==> wbuf != null && wlen <= wbuf.Length && wbuf[..wlen] == w
      requires rlen > 0 ==> rbuf != null
      requires rbuf != null ==> rlen <= rbuf.Length
      modifies this, rbuf
      ensures hw.config == old(hw).config
      ensures checks <= old(checks) + wlen + 2 * rlen + XFER_SPIN_BUDGET + 1
      ensures |got| <= rlen && (rbuf != null ==> rbuf[..|got|] == got && rbuf[|got|..] == old(rbuf[|got|..]))
      ensures gaveUp == None ==> Tracks(hw, w, rlen, wlen, rlen, got, quiet, hot) && |got| == rlen && Kept(old(hw), hw)
      ensures gaveUp != None ==> Ended(old(hw), hw, gaveUp.value, w, rlen, got, quiet, hot)
      ensures gaveUp != Some(Success)
    {
      hide Tracks, Valid, Later, Quiet, Nth, Ended;
      got := [];
      var wsent, rqueued, rgot, spin, totalSpin := 0, 0, 0, 0, 0;
      while wsent < wlen || rqueued < rlen || rgot < rlen
        invariant Tracks(hw, w, rlen, wsent, rqueued, got, quiet, hot) && Kept(old(hw), hw)
        invariant wsent <= wlen && rqueued <= rlen && |got| == rgot <= rqueued && (rqueued > 0 ==> wsent == wlen)
        invariant totalSpin <= XFER_SPIN_BUDGET
        invariant checks <= old(checks) + wsent + rqueued + rgot + totalSpin
        invariant rbuf != null ==> rbuf[..rgot] == got && rbuf[rgot..] == old(rbuf[rgot..])
        decreases wlen - wsent + rlen - rqueued + rlen - rgot, XFER_SPIN_BUDGET - totalSpin
      {
        ghost var at := hw;
        var aborted := CheckAbort(rlen, wsent, rqueued, w, got, quiet, hot);
        if aborted != None {
          EndedSince(old(hw), at, hw, aborted.value, w, rlen, got, quiet, hot);
          return aborted, got;
        }
        var queuedOne, drainedOne := false, false;
        wsent, rqueued, queuedOne := QueueNext(wbuf, wlen, rlen, wsent, rqueued, rgot, w, got, quiet, hot);
        if rgot < rqueued {
          rgot, drainedOne, got := DrainOne(rbuf, rlen, wsent, rqueued, rgot, w, got, quiet, hot);
        }
        if queuedOne || drainedOne {
          spin := 0;
        } else {
          spin := spin + 1;
          totalSpin := totalSpin + 1;
          if spin > POLL_LIMIT || totalSpin > XFER_SPIN_BUDGET {
            at := hw;
            GiveUp(rlen, wsent, rqueued, w, got, quiet, hot);
            EndedSince(old(hw), at, hw, Timeout, w, rlen, got, quiet, hot);
            return Some(Timeout), got;
          }
        }
      }
      return None, got;
    }

    /** The TX_ABRT check made before every iteration, in both loops. */
    method CheckAbort(ghost rlen: nat, ghost wsent: nat, ghost rqueued: nat,
                      ghost w: seq<byte>, ghost got: seq<byte>, ghost quiet: bool, ghost hot: bool)
      returns (aborted: Option<Status>)
      requires Tracks(hw, w, rlen, wsent, rqueued, got, quiet, hot)
      modifies this`hw, this`checks
      ensures checks == old(checks) + 1
      ensures aborted == None ==> Tracks(hw, w, rlen, wsent, rqueued, got, quiet, hot) && !hw.abort && Kept(old(hw), hw)
      ensures aborted != None ==> Ended(old(hw), hw, aborted.value, w, rlen, got, quiet, hot)
      ensures aborted in {None, Some(NoResponse), Some(DeviceError)}
    {
      hide Tracks, Later;
      TracksBounds(hw, w, rlen, wsent, rqueued, got, quiet, hot);
      ghost var at := hw;
      var abort := ReadAbort();
      LaterTracks(at, hw, w, rlen, wsent, rqueued, got, quiet, hot);
      aborted := None;
      if abort {
        TracksBounds(hw, w, rlen, wsent, rqueued, got, quiet, hot);
        if quiet {
          TracksBytes(hw, w, rlen, wsent, rqueued, got, quiet, hot);
          if hw.addrNak {
            NakTracks(hw, w, rlen, wsent, rqueued, got, quiet, hot);
          }
        }
        var status := AbortExit();
        aborted := Some(status);
      }
    }

    method GiveUp(ghost rlen: nat, ghost wsent: nat, ghost rqueued: nat,
                  ghost w: seq<byte>, ghost got: seq<byte>, ghost quiet: bool, ghost hot: bool)
      requires Tracks(hw, w, rlen, wsent, rqueued, got, quiet, hot)
      modifies this`hw
      ensures Ended(old(hw), hw, Timeout, w, rlen, got, quiet, hot)
    {
      hide Tracks, Later;
      TracksBounds(hw, w, rlen, wsent, rqueued, got, quiet, hot);
      if quiet {
        TracksBytes(hw, w, rlen, wsent, rqueued, got, quiet, hot);
      }
      Recover();
    }

    /** The next transfer must find the bus idle again. */
    method WaitForStop(ghost rlen: nat, ghost w: seq<byte>, ghost got: seq<byte>, ghost quiet: bool, ghost hot: bool)
      returns (status: Status)
      requires Tracks(hw, w, rlen, |w|, rlen, got, quiet, hot) && |got| == rlen
      modifies this`hw, this`checks
      ensures Ended(old(hw), hw, status, w, rlen, got, quiet, hot)
      ensures checks <= old(checks) + POLL_LIMIT
    {
      hide Tracks, Later, Ended;
      var spin := 0;
      while spin < POLL_LIMIT
        invariant 0 <= spin <= POLL_LIMIT && checks == old(checks) + spin
        invariant Tracks(hw, w, rlen, |w|, rlen, got, quiet, hot) && Kept(old(hw), hw)
      {
        ghost var at := hw;
        var aborted := CheckAbort(rlen, |w|, rlen, w, got, quiet, hot);
        if aborted != None {
          EndedSince(old(hw), at, hw, aborted.value, w, rlen, got, quiet, hot);
          return aborted.value;
        }
        TracksBounds(hw, w, rlen, |w|, rlen, got, quiet, hot);
        at := hw;
        var _, _, active := ReadStatus();
        LaterTracks(at, hw, w, rlen, |w|, rlen, got, quiet, hot);
        if !active {
          IdleTracks(at, hw, w, rlen, got, quiet, hot);
          ghost var idle := hw;
          ClearStopDet();
          SucceededIdle(idle, hw, w, rlen, got, quiet, hot);
          EndedSince(old(hw), idle, hw, Success, w, rlen, got, quiet, hot);
          return Success;
        }
        spin := spin + 1;
      }
      ghost var at := hw;
      GiveUp(rlen, |w|, rlen, w, got, quiet, hot);
      EndedSince(old(hw), at, hw, Timeout, w, rlen, got, quiet, hot);
      return Timeout;
    }

    /**
      Write wbuf[..wlen], then read rlen bytes into rbuf. What the controller's own
      history says at return is stated by Transferred. The two buffers may be the same array.
    */
    method Xfer(wbuf: array?<byte>, wlen: nat, rbuf: array?<byte>, rlen: nat) returns (status: Status)
      requires Valid(hw)
      requires wbuf != null ==> wlen <= wbuf.Length
      requires rbuf != null ==> rlen <= rbuf.Length
      modifies this, rbuf
      ensures Valid(hw) && hw.config == old(hw).config
      // Arguments
      ensures status == InvalidParameter <==> BadArguments(wbuf, wlen, rbuf, rlen)
      ensures status == InvalidParameter ==> hw == old(hw) && (rbuf != null ==> rbuf[..] == old(rbuf[..]))
      // Bound, whatever the hardware answers
      ensures checks <= old(checks) + wlen + 2 * rlen + XFER_SPIN_BUDGET + 1 + POLL_LIMIT
      // Trace, exactness and isolation
      ensures status != InvalidParameter ==> Transferred(old(hw), hw, status, old(Message(wbuf, wlen)), rlen)
      // Whatever the status, the receive buffer holds what this transfer drained, and nothing else changed
      ensures status != InvalidParameter && Quiet(old(hw)) && rbuf != null ==>
                var n := |hw.log.drained|;
                n <= rlen && rbuf[..n] == hw.log.drained && rbuf[n..] == old(rbuf[n..])
      ensures rbuf != null ==> rbuf[rlen..] == old(rbuf[rlen..])
    {
      if (wlen == 0 && rlen == 0) || (wlen > 0 && wbuf == null) || (rlen > 0 && rbuf == null) {
        return InvalidParameter;
      }
      ghost var w := Message(wbuf, wlen);
      ghost var quiet, hot := Quiet(hw), hw.enabled;
      Start(rlen, w);
      ghost var begun := hw;

      hide Tracks, Later, Valid, Ended;
      ghost var got: seq<byte>;
      var gaveUp: Option<Status>;
      gaveUp, got := Interleave(wbuf, wlen, rbuf, rlen, w, quiet, hot);
      if gaveUp != None {
        status := gaveUp.value;
      } else {
        ghost var at := hw;
        status := WaitForStop(rlen, w, got, quiet, hot);
        EndedSince(begun, at, hw, status, w, rlen, got, quiet, hot);
      }
      EndedTransferred(old(hw), begun, hw, status, w, rlen, got, quiet, hot);
    }
  }

  /** Target, speed and the enable bit. */
  predicate Kept(h: Hw, k: Hw) {
    k.config == h.config && k.wanted == h.wanted
  }

  /** From one history to a later one, nothing was written or drained; the bus may have moved on. */
  predicate Continues(l: Log, m: Log) {
    && m.issued == l.issued && m.missed == l.missed && m.accepted == l.accepted && m.drained == l.drained
    && l.executed <= m.executed && l.supplied <= m.supplied
  }

  /** What every return from a transfer guarantees, other than one for bad arguments. */
  predicate Ended(before: Hw, h: Hw, status: Status, w: seq<byte>, rlen: nat, got: seq<byte>,
                  quiet: bool, hot: bool) {
    && Valid(h) && h.config == before.config && |got| <= rlen
    && status in {Success, NoResponse, DeviceError, Timeout}
    && h.log.issued <= Expected(w, rlen)
    && (status == Success ==> h.log.issued == Expected(w, rlen))
    && (status in {Success, NoResponse} ==> h.wanted == before.wanted)
    && (status in {DeviceError, Timeout} ==> Quiet(h) || !h.wanted)
    && (quiet ==> h.log.drained == got && FromQuiet(h, status, w, rlen, hot))
  }

  /** What a transfer that began on a quiet controller leaves in the controller's history. */
  predicate FromQuiet(h: Hw, status: Status, w: seq<byte>, rlen: nat, hot: bool) {
    && h.log.drained <= h.log.supplied && |h.log.drained| <= rlen
    && (status == Success ==> Quiet(h) && |h.log.drained| == rlen && Exact(h.log, w, rlen, h.log.drained, hot))
    && (status == NoResponse ==> Quiet(h) && h.log.supplied == [])
  }

  /**
    One transfer, as seen on the controller before and after it. The trace holds
    whatever the hardware did. From a quiet controller every byte drained was supplied
    for this transfer, success is exact, and the controller is quiet again or its
    disable has not taken effect.
  */
  predicate Transferred(before: Hw, after: Hw, status: Status, w: seq<byte>, rlen: nat) {
    && Valid(after) && after.config == before.config
    && status in {Success, NoResponse, DeviceError, Timeout}
    && Combined(after.log.issued, w, rlen) && after.log.issued <= Expected(w, rlen)
    && (status == Success ==> WholeTransfer(after.log.issued, w, rlen) && after.log.issued == Expected(w, rlen))
    && (status in {Success, NoResponse} ==> after.wanted == before.wanted)
    && (status in {DeviceError, Timeout} ==> Quiet(after) || !after.wanted)
    && (Quiet(before) ==> FromQuiet(after, status, w, rlen, before.enabled))
  }

  lemma EndedSince(before: Hw, at: Hw, h: Hw, status: Status, w: seq<byte>, rlen: nat, got: seq<byte>,
                   quiet: bool, hot: bool)
    requires Kept(before, at) && Ended(at, h, status, w, rlen, got, quiet, hot)
    ensures Ended(before, h, status, w, rlen, got, quiet, hot) && h.config == before.config
  {
    hide Valid, Quiet, FromQuiet;
  }

  lemma EndedTransferred(before: Hw, at: Hw, h: Hw, status: Status, w: seq<byte>, rlen: nat, got: seq<byte>,
                         quiet: bool, hot: bool)
    requires Kept(before, at) && Ended(at, h, status, w, rlen, got, quiet, hot)
    requires quiet == Quiet(before) && hot == before.enabled
    ensures Transferred(before, h, status, w, rlen)
    ensures Valid(h) && h.config == before.config && status != InvalidParameter
    ensures quiet ==> h.log.drained == got && |got| <= rlen
  {
    hide Valid, Quiet, FromQuiet, Combined, WholeTransfer;
    var n := |h.log.issued|;
    assert n <= |Expected(w, rlen)| && h.log.issued == Expected(w, rlen)[..n];
    ExpectedIsCombined(w, rlen, n);
  }

  /** The idle master stays idle while its STOP condition is cleared. */
  lemma SucceededIdle(idle: Hw, h: Hw, w: seq<byte>, rlen: nat, got: seq<byte>, quiet: bool, hot: bool)
    requires Valid(h) && Later(idle, h) && |got| == rlen
    requires idle.log.issued == Expected(w, rlen)
    requires quiet ==> Quiet(idle) && idle.log.drained == got && Exact(idle.log, w, rlen, got, hot)
    ensures Ended(idle, h, Success, w, rlen, got, quiet, hot)
  {
    if quiet {
      StaysQuiet(idle, h);
      assert h.log == idle.log;
    }
  }

  predicate BadArguments(wbuf: array?<byte>, wlen: nat, rbuf: array?<byte>, rlen: nat) {
    (wlen == 0 && rlen == 0) || (wlen > 0 && wbuf == null) || (rlen > 0 && rbuf == null)
  }

  /** The bytes to be written. */
  function Message(wbuf: array?<byte>, wlen: nat): seq<byte>
    requires wbuf != null ==> wlen <= wbuf.Length
    reads wbuf
  {
    if wbuf == null then [] else wbuf[..wlen]
  }
}
