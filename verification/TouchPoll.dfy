/**
  The device object between bring-up and exit: the poll timer, Reset and
  GetState, over the DesignWare transport.
*/
module TouchPoll {
  import opened Machine
  import opened DwHardware
  import opened DwProtocol
  import opened DwI2c
  import opened DwLimits
  import opened HidMeaning
  import opened HidExtract
  import opened HidTheorems
  import opened TouchEvents

  const OPCODE_SET_POWER: byte := 0x08
  const POWER_ON: byte := 0x00

  /** [wCommandRegister little-endian][argument][opcode]. */
  function PowerOnCommand(commandRegister: u16): seq<byte> {
    [commandRegister % 0x100, commandRegister / 0x100, POWER_ON, OPCODE_SET_POWER]
  }

  /** The payload of a raw input buffer, if it carries the report the layout is about. */
  function Payload(buf: seq<byte>, l: Layout): Option<seq<byte>>
    requires |buf| >= 3
  {
    var len: nat := (buf[0] as int) + (buf[1] as int) * 0x100;
    if len < 3 || len > |buf| then None
    else if !l.hasReportId then Some(buf[2..len])
    else if buf[2] != l.reportId then None
    else Some(buf[3..len])
  }

  /** The start of an input buffer that carries this payload: length, the report's ID if it has one, the payload. */
  function Frame(l: Layout, payload: seq<byte>): seq<byte> {
    var n := 2 + (if l.hasReportId then 1 else 0) + |payload|;
    [n % 0x100, n / 0x100 % 0x100] + (if l.hasReportId then [l.reportId] else []) + payload
  }

  lemma FrameShape(l: Layout, payload: seq<byte>)
    ensures var f, k := Frame(l, payload), if l.hasReportId then 3 else 2;
      |f| == k + |payload| && f[k..] == payload && (l.hasReportId ==> f[2] == l.reportId)
      && f[0] == |f| % 0x100 && f[1] == |f| / 0x100 % 0x100
  {
  }

  /** Exactly the buffers that begin with a frame of at least three bytes carry a payload, and it is the framed one. */
  lemma PayloadLaw(buf: seq<byte>, l: Layout, payload: seq<byte>)
    requires 3 <= |buf| <= 0xFFFF
    ensures Payload(buf, l) == Some(payload) <==> 3 <= |Frame(l, payload)| && Frame(l, payload) <= buf
  {
    var f, k := Frame(l, payload), if l.hasReportId then 3 else 2;
    FrameShape(l, payload);
    if 3 <= |f| && f <= buf {
      assert buf[0] == f[0] && buf[1] == f[1] && buf[k..|f|] == f[k..];
      assert l.hasReportId ==> buf[2] == f[2];
    }
    if Payload(buf, l) == Some(payload) {
      var len: nat := (buf[0] as int) + (buf[1] as int) * 0x100;
      assert payload == buf[k..len] && |f| == len;
      assert f[..2] == buf[..2];
      assert f == f[..k] + f[k..] && buf[..len] == buf[..k] + buf[k..len];
      assert f[..k] == buf[..k];
    }
  }

  /** Extraction needs no more than this of a layout. */
  predicate Usable(l: Layout) {
    && l.tipOffset < TWO32 && l.xOffset < TWO32 && l.yOffset < TWO32
    && l.xSize < TWO32 && l.ySize < TWO32
    && l.xMax > 0 && l.yMax > 0
  }

  /** Aimed at the panel, and quiet unless a disable is outstanding. */
  predicate Readable(h: Hw, slaveAddr: byte) {
    h.config.tar == slaveAddr && (h.wanted ==> Quiet(h))
  }

  /** The controller did not follow its enable bit, one way or the other. */
  predicate InitFailed(before: Hw, h: Hw, slaveAddr: byte) {
    !h.wanted || (Quiet(h) && h.config == InitConfig(before.config, slaveAddr, None))
  }

  /** The controller after a re-initialisation and the power-on command that follows it. */
  predicate PoweredOn(before: Hw, h: Hw, slaveAddr: byte, commandRegister: u16) {
    && h.config == InitConfig(before.config, slaveAddr, None)
    && h.log.issued <= Expected(PowerOnCommand(commandRegister), 0)
    && Readable(h, slaveAddr)
  }

  /** `at` is the controller when the read of a tick begins, `before` when the tick does. */
  predicate ReadBegins(before: Hw, reinitDue: bool, at: Hw, slaveAddr: byte, commandRegister: u16) {
    if reinitDue then PoweredOn(before, at, slaveAddr, commandRegister) else at == before
  }

  class TouchDev {
    const bus: DwController
    const slaveAddr: byte
    const commandRegister: u16
    const maxInputLength: nat
    const layout: Layout
    const inputBuf: array<byte>
    var ready: bool
    var needReinit: bool
    var view: View

    constructor (bus: DwController, slaveAddr: byte, commandRegister: u16, maxInputLength: nat, layout: Layout,
                 view: View)
      requires Valid(bus.hw) && Readable(bus.hw, slaveAddr) && 3 <= maxInputLength <= 1024 && Usable(layout)
      ensures Sane() && this.bus == bus && ready && !needReinit
    {
      this.bus, this.slaveAddr, this.commandRegister := bus, slaveAddr, commandRegister;
      this.maxInputLength, this.layout, this.view := maxInputLength, layout, view;
      inputBuf := new byte[maxInputLength](i => 0);
      ready, needReinit := true, false;
    }

    /**
      Unless a re-initialisation is due the bus is aimed at the panel, and it is
      quiet if no disable is outstanding.
    */
    ghost predicate Sane()
      reads this, bus
    {
      && Valid(bus.hw) && 3 <= maxInputLength <= 1024 && inputBuf.Length == maxInputLength && Usable(layout)
      && (needReinit || Readable(bus.hw, slaveAddr))
    }

    /** SET_POWER(ON). */
    method PowerOn() returns (status: Status)
      requires Valid(bus.hw) && Quiet(bus.hw)
      modifies bus
      ensures Valid(bus.hw) && Transferred(old(bus.hw), bus.hw, status, PowerOnCommand(commandRegister), 0)
      ensures Written(bus.hw.log.issued) <= [commandRegister % 0x100, commandRegister / 0x100, 0x00, 0x08]
      ensures status == Success ==>
                Written(bus.hw.log.issued) == [commandRegister % 0x100, commandRegister / 0x100, 0x00, 0x08]
    {
      var w := new byte[4];
      w[0], w[1], w[2], w[3] := commandRegister % 0x100, commandRegister / 0x100, POWER_ON, OPCODE_SET_POWER;
      assert w[..4] == PowerOnCommand(commandRegister);
      status := bus.Xfer(w, 4, null, 0);
    }

    /**
      After an error, no read goes out before a complete re-initialisation of the
      controller and a power-on command, whose outcome is ignored. False means that
      the re-initialisation failed and is due again.
    */
    method EnsureBus() returns (ok: bool)
      requires Sane()
      modifies this`needReinit, bus
      ensures Sane()
      ensures ok ==> !needReinit
      ensures !ok ==> needReinit && old(needReinit) && InitFailed(old(bus.hw), bus.hw, slaveAddr)
      ensures !old(needReinit) ==> ok && bus.hw == old(bus.hw)
      ensures ok && old(needReinit) ==> PoweredOn(old(bus.hw), bus.hw, slaveAddr, commandRegister)
    {
      if needReinit {
        var status := bus.Init(slaveAddr, None);
        if status != Success {
          return false;
        }
        var _ := PowerOn();
        needReinit := false;
      }
      return true;
    }

    /** The three fields of a payload, clamped; `from` is where it starts in the buffer. */
    method ReadContact(from: nat, len: nat) returns (c: Contact)
      requires inputBuf.Length <= 1024 && from + len <= inputBuf.Length && Usable(layout)
      ensures c == Decode(inputBuf[from..from + len], layout)
    {
      hide Extracted, Gathered;
      var tip := HidExtractBits(inputBuf, from, len, layout.tipOffset, 1);
      var x := HidExtractBits(inputBuf, from, len, layout.xOffset, layout.xSize);
      var y := HidExtractBits(inputBuf, from, len, layout.yOffset, layout.ySize);
      c := Contact(tip != 0, Min(x, layout.xMax), Min(y, layout.yMax));
    }

    /** Validate the buffer's length and report ID, then apply the report to the pointer state. */
    method Deliver(gop: Option<Gop>) returns (ghost payload: Option<seq<byte>>)
      requires 3 <= inputBuf.Length <= 1024 && Usable(layout)
      modifies this`view
      ensures payload == Payload(inputBuf[..], layout)
      ensures view == if payload == None then old(view)
                      else OnReport(old(view), layout, gop, Decode(payload.value, layout))
    {
      ghost var buf := inputBuf[..];
      var len: nat := (inputBuf[0] as int) + (inputBuf[1] as int) * 0x100;
      if len < 3 || len > inputBuf.Length {
        return None;
      }
      var from := 2;
      if layout.hasReportId {
        if inputBuf[2] != layout.reportId {
          return None;
        }
        from := 3;
      }
      var c := ReadContact(from, len - from);
      payload := Some(inputBuf[from..len]);
      UpdateOrientation(gop);
      var x, y := c.x, c.y;
      if view.rotate {
        var raw := x;
        x := y;
        y := layout.xMax - raw;
      }
      if c.tip || view.lastTip {
        var s := view.state;
        if c.tip {
          s := s.(x := x, y := y);
        }
        view := view.(state := s.(z := 0, active := c.tip), stateChanged := true, lastTip := c.tip);
      }
    }

    method UpdateOrientation(gop: Option<Gop>)
      modifies this`view
      ensures view == old(view).(maxX := Published(layout, gop).0, maxY := Published(layout, gop).1,
                                 rotate := Rotates(layout, gop))
    {
      var rotate := false;
      if layout.xMax < layout.yMax {
        if gop.Some? {
          rotate := gop.value.width > gop.value.height;
        }
      }
      if rotate {
        view := view.(maxX := layout.yMax, maxY := layout.xMax);
      } else {
        view := view.(maxX := layout.xMax, maxY := layout.yMax);
      }
      view := view.(rotate := rotate);
    }

    /**
      One tick of the poll timer. `read` is the outcome of its read, if one was
      issued, and `at` the controller when that read began. The pointer state changes
      only by a report, which consists of the bytes the slave supplied for this read.
      A read finds a disable outstanding only if it already was before the tick, or if
      the power-on command after a re-initialisation left it so; see ReadFindsDisableExactly.
    */
    method Poll(gop: Option<Gop>) returns (read: Option<Status>, ghost at: Hw)
      requires Sane()
      modifies this`view, this`needReinit, bus, inputBuf
      ensures Sane()
      // When a read is issued
      ensures ready && !old(needReinit) ==> read.Some?
      ensures !ready ==> read == None && bus.hw == old(bus.hw)
      ensures ready && read == None ==> old(needReinit) && needReinit && InitFailed(old(bus.hw), bus.hw, slaveAddr)
      // On which bus
      ensures read.Some? ==> ReadBegins(old(bus.hw), old(needReinit), at, slaveAddr, commandRegister)
                             && Readable(at, slaveAddr) && Transferred(at, bus.hw, read.value, [], maxInputLength)
      // What follows from it
      ensures read.Some? ==> needReinit == (read.value !in {Success, NoResponse})
      ensures !ready ==> needReinit == old(needReinit)
      ensures read == Some(Success) && at.wanted ==> inputBuf[..] == bus.hw.log.drained == bus.hw.log.supplied
      ensures view == if read == Some(Success) && Payload(inputBuf[..], layout).Some?
                      then OnReport(old(view), layout, gop, Decode(Payload(inputBuf[..], layout).value, layout))
                      else old(view)
    {
      read, at := None, bus.hw;
      if !ready {
        return;
      }
      var ok := EnsureBus();
      if !ok {
        return;
      }
      at := bus.hw;
      var status := bus.Xfer(null, 0, inputBuf, maxInputLength);
      read := Some(status);
      if status == NoResponse {
        return;
      }
      if status != Success {
        needReinit := true;
        return;
      }
      assert inputBuf[..maxInputLength] == inputBuf[..];
      ghost var _ := Deliver(gop);
    }

    /** TouchReset: a full verification also schedules a re-initialisation. */
    method ResetPointer(extendedVerification: bool)
      requires Sane()
      modifies this`view, this`needReinit
      ensures Sane() && view == OnReset(old(view))
      ensures view.state == PointerState(0, 0, 0, false) && !view.stateChanged && !view.lastTip
      ensures needReinit == (old(needReinit) || (extendedVerification && ready))
    {
      view := view.(state := ZERO_STATE);
      view := view.(stateChanged := false, lastTip := false);
      if extendedVerification && ready {
        needReinit := true;
      }
    }

    /** TouchGetState: NotReady until something changed since it was last asked. */
    method GetPointerState() returns (status: Status, state: PointerState)
      modifies this`view
      ensures status == Success <==> ready && old(view).stateChanged
      ensures status in {Success, NotReady}
      ensures ready ==> view == OnGetState(old(view)).0
      ensures status == Success ==> OnGetState(old(view)).1 == Some(state)
      ensures status == NotReady ==> view == old(view)
    {
      state := ZERO_STATE;
      if !ready || !view.stateChanged {
        return NotReady, state;
      }
      state := view.state;
      view := view.(stateChanged := false);
      status := Success;
    }
  }

  /**
    From every state in which a re-initialisation is due, for every panel: the
    power-on command can leave a disable outstanding, and the read that follows is
    accepted by the controller all the same.
  */
  lemma ReadMayFindDisable(h: Hw, addr: byte, commandRegister: u16, maxInputLength: nat) returns (at: Hw)
    requires Valid(h) && maxInputLength > 0
    ensures at == StuckRecovery(FirstByteRefused(Reinitialised(h, addr), PowerOnCommand(commandRegister)))
    ensures Valid(at) && !at.wanted && at.enabled && PoweredOn(h, at, addr, commandRegister)
    ensures PutCommand(Begin(ClearAbort(at)), Nth([], maxInputLength, 0)).log.accepted == [Nth([], maxInputLength, 0)]
  {
    var w := PowerOnCommand(commandRegister);
    at := DisableMayStick(h, addr, w, maxInputLength);
    assert Expected(w, 0)[..1] == [Nth(w, 0, 0)];
  }

  /**
    The read of a tick can find a disable outstanding if and only if, before the tick, a
    re-initialisation is due or a disable is outstanding already. Where one is due, the
    controller it finds is that of ReadMayFindDisable's run.
  */
  lemma ReadFindsDisableExactly(h: Hw, reinitDue: bool, addr: byte, commandRegister: u16, maxInputLength: nat)
    requires Valid(h) && (reinitDue || Readable(h, addr)) && maxInputLength > 0
    ensures (exists at :: ReadBegins(h, reinitDue, at, addr, commandRegister) && !at.wanted)
            <==> reinitDue || !h.wanted
  {
    if reinitDue {
      var at := ReadMayFindDisable(h, addr, commandRegister, maxInputLength);
      assert ReadBegins(h, reinitDue, at, addr, commandRegister) && !at.wanted;
    } else if !h.wanted {
      assert ReadBegins(h, reinitDue, h, addr, commandRegister) && !h.wanted;
    }
  }

  // ---------------------------------------------------------------------
  // Whole runs of the device
  // ---------------------------------------------------------------------

  datatype Call = Tick(gop: Option<Gop>) | ResetCall(extendedVerification: bool) | GetStateCall

  /** The device as it is published at load, before anything was reported. */
  predicate Untouched(v: View, l: Layout) {
    v == View(ZERO_STATE, false, false, l.xMax, l.yMax, false)
  }

  /**
    Over any sequence of timer ticks and client calls, whatever the bus does: what the
    device holds and hands out is the run of the reports that arrived, the Resets and the
    GetStates, so that all the event stream promises holds of it.
  */
  method ClientSession(dev: TouchDev, calls: seq<Call>) returns (handed: seq<PointerState>, ghost actions: seq<TouchEvents.Action>)
    requires dev.Sane() && dev.ready && Untouched(dev.view, dev.layout)
    modifies dev, dev.bus, dev.inputBuf
    ensures dev.Sane() && (forall a :: a in actions ==> Clamped(dev.layout, a)) && |actions| <= |calls|
    ensures var w := TouchEvents.Run(dev.layout, actions);
      dev.view == w.v && handed == w.results && TouchEvents.Sound(w)
  {
    handed, actions := [], [];
    assert dev.view == TouchEvents.Run(dev.layout, actions).v;
    for i := 0 to |calls|
      invariant dev.Sane() && dev.ready && |actions| <= i
      invariant forall a :: a in actions ==> Clamped(dev.layout, a)
      invariant dev.view == TouchEvents.Run(dev.layout, actions).v
      invariant handed == TouchEvents.Run(dev.layout, actions).results
    {
      hide TouchEvents.Run, TouchEvents.Sound, TouchEvents.Step, Clamped;
      EventStream(dev.layout, actions);
      var result;
      ghost var action;
      result, action := OneCall(dev, calls[i], TouchEvents.Run(dev.layout, actions));
      if action.Some? {
        RunNext(dev.layout, actions, action.value);
        actions := actions + [action.value];
      }
      if result.Some? {
        handed := handed + [result.value];
      }
    }
    EventStream(dev.layout, actions);
  }

  /** One call, and the step of the event stream that it amounts to. */
  method OneCall(dev: TouchDev, call: Call, ghost w: World)
    returns (result: Option<PointerState>, ghost action: Option<TouchEvents.Action>)
    requires dev.Sane() && dev.ready && dev.view == w.v && TouchEvents.Sound(w)
    modifies dev, dev.bus, dev.inputBuf
    ensures dev.Sane() && dev.ready
    ensures action.Some? ==>
              && Clamped(dev.layout, action.value) && dev.view == TouchEvents.Step(w, dev.layout, action.value).v
              && TouchEvents.Step(w, dev.layout, action.value).results
                 == w.results + (if result.Some? then [result.value] else [])
    ensures action == None ==> dev.view == old(dev.view) && result == None
  {
    hide Transferred, Readable, ReadBegins, PoweredOn, InitFailed, TouchEvents.HandedOnce;
    result, action := None, None;
    match call {
      case Tick(gop) =>
        var read, _ := dev.Poll(gop);
        ghost var payload := if read == Some(Success) then Payload(dev.inputBuf[..], dev.layout) else None;
        if payload.Some? {
          action := Some(TouchEvents.Action.Report(Decode(payload.value, dev.layout), gop));
        }
      case ResetCall(extendedVerification) =>
        dev.ResetPointer(extendedVerification);
        action := Some(TouchEvents.Action.Reset);
      case GetStateCall =>
        var status, state := dev.GetPointerState();
        action := Some(TouchEvents.Action.GetState);
        if status == Success {
          result := Some(state);
        }
    }
  }

  lemma RunNext(l: Layout, actions: seq<TouchEvents.Action>, a: TouchEvents.Action)
    requires (forall b :: b in actions ==> Clamped(l, b)) && Clamped(l, a)
    ensures forall b :: b in actions + [a] ==> Clamped(l, b)
    ensures TouchEvents.Run(l, actions + [a]) == TouchEvents.Step(TouchEvents.Run(l, actions), l, a)
  {
    assert (actions + [a])[..|actions|] == actions;
  }
}
