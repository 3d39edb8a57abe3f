/**
  The DesignWare APB I2C master as the driver sees it, and every move the
  controller can make on its own between two register accesses.

  What is assumed of the hardware is exactly what the functions below do:
    - commands wait in the TX FIFO, one at a time is taken onto the wire;
    - a START, a RESTART or a change of direction opens an address phase, and
      only an address phase can be answered with an address NAK;
    - a finished READ appends one byte to the RX FIFO, or loses it when full;
    - an abort flushes TX and drops further commands until IC_CLR_TX_ABRT;
    - an empty TX FIFO holds the bus until a command with STOP has run;
    - a disable that takes effect flushes both FIFOs; it may never take effect.
*/
module DwHardware {
  import opened Machine

  const RX_INFLIGHT_MAX := 8

  /** One IC_DATA_CMD write: bits 7:0, 8, 9 and 10. */
  datatype Command = Command(data: byte, read: bool, stop: bool, restart: bool)

  /** Registers that the controller ignores while it is enabled. */
  datatype Config = Config(master: bool, speed: nat, restartEn: bool, slaveDisable: bool, tar: nat,
                           ssHcnt: nat, ssLcnt: nat, fsHcnt: nat, fsLcnt: nat, sdaHold: nat)

  datatype Hw = Hw(
    config: Config,
    txDepth: nat,
    rxDepth: nat,
    wanted: bool,           // IC_ENABLE as last written
    enabled: bool,          // IC_ENABLE_STATUS
    tx: seq<Command>,
    wire: seq<Command>,     // the command on the bus, at most one
    addressing: bool,       // that command is still in its address phase
    open: bool,             // START sent, STOP not yet
    reading: bool,          // direction of the open transaction
    settling: bool,         // STOP sent, master not yet back to idle
    rx: seq<byte>,
    abort: bool,            // TX_ABRT latched
    addrNak: bool,          // 7B_ADDR_NOACK in IC_TX_ABRT_SOURCE
    log: Log)

  /** History since the current transfer began. */
  datatype Log = Log(
    traced: bool,           // began idle, and no disable has flushed since
    aborted: bool,
    issued: seq<Command>,   // every IC_DATA_CMD write
    missed: nat,            // of those, how many found the controller disabled
    accepted: seq<Command>, // every command that entered the TX FIFO
    executed: seq<Command>, // every command that ran to completion
    supplied: seq<byte>,    // what the slave answered
    drained: seq<byte>,     // what the driver took out of the RX FIFO
    lost: nat               // bytes lost to a full RX FIFO
  )

  function Reads(q: seq<Command>): (n: nat)
    ensures n <= |q|
  {
    if q == [] then 0 else Reads(q[..|q| - 1]) + (if q[|q| - 1].read then 1 else 0)
  }

  lemma {:induction false} ReadsConcat(a: seq<Command>, b: seq<Command>)
    ensures Reads(a + b) == Reads(a) + Reads(b)
  {
    if b == [] {
      assert a + b == a;
    } else {
      ReadsConcat(a, b[..|b| - 1]);
      assert (a + b)[..|a + b| - 1] == a + b[..|b| - 1];
    }
  }

  /** Once a READ is in the stream, only plain READs follow, and no STOP comes before the last. */
  predicate OneReadBurst(q: seq<Command>) {
    forall i {:trigger q[i]} :: 0 < i < |q| && q[i - 1].read ==> q[i].read && !q[i].restart && !q[i - 1].stop
  }

  lemma {:induction false} BurstPrefixWithoutReads(q: seq<Command>, n: nat)
    requires OneReadBurst(q) && n <= |q|
    requires n > 0 ==> !q[n - 1].read
    ensures Reads(q[..n]) == 0
  {
    if n > 0 {
      assert q[..n][..n - 1] == q[..n - 1];
      assert q[n - 1] in q;
      BurstPrefixWithoutReads(q, n - 1);
    }
  }

  /** Reads the controller still owes the driver: queued, on the wire, or waiting in RX. */
  function Outstanding(h: Hw): nat {
    Reads(h.wire) + Reads(h.tx) + |h.rx|
  }

  /** Nothing queued, nothing on the bus, nothing left to drain, and no disable outstanding. */
  predicate Quiet(h: Hw) {
    h.wanted && h.tx == [] && h.wire == [] && h.rx == [] && !h.open
  }

  /** What holds of the controller in every state, whatever the driver did before. */
  predicate Valid(h: Hw) {
    && Shape(h)
    && (h.log.traced ==> Traced(h))
  }

  predicate Shape(h: Hw) {
    && 1 <= h.txDepth && 8 <= h.rxDepth
    && |h.tx| <= h.txDepth && |h.rx| <= h.rxDepth && |h.wire| <= 1
    && (h.wire != [] ==> h.open)
    && (h.wire == [] ==> !h.addressing)
    && (!h.enabled ==> h.tx == [] && h.wire == [] && h.rx == [] && !h.open)
    && (h.abort ==> h.tx == [] && h.wire == [] && !h.open)
  }

  /** The history accounts for every command and every byte. */
  predicate Traced(h: Hw) {
    var l := h.log;
    && l.supplied == l.drained + h.rx
    && |l.supplied| + l.lost == Reads(l.executed)
    && h.abort == l.aborted
    && (!l.aborted ==> l.accepted == l.executed + h.wire + h.tx && OnTheBus(h))
    && (l.aborted ==> CutShort(l, h.addrNak))
  }

  /** An abort left a proper prefix executed; an address NAK left no READ executed. */
  predicate CutShort(l: Log, nak: bool) {
    && |l.executed| < |l.accepted|
    && l.executed == l.accepted[..|l.executed|]
    && (nak && OneReadBurst(l.accepted) ==> Reads(l.executed) == 0)
  }

  predicate OnTheBus(h: Hw) {
    && (h.wire != [] ==> h.reading == h.wire[0].read)
    && (h.wire == [] ==> BetweenCommands(h))
    && (h.addressing && OneReadBurst(h.log.accepted) ==> Reads(h.log.executed) == 0)
  }

  predicate BetweenCommands(h: Hw) {
    if h.log.executed == [] then !h.open
    else
      var last := h.log.executed[|h.log.executed| - 1];
      h.open == !last.stop && (h.open ==> h.reading == last.read)
  }

  // ---------------------------------------------------------------------
  // Moves the hardware makes by itself
  // ---------------------------------------------------------------------

  datatype Move =
    | Fetch                  // take the next command onto the bus
    | AddressAck             // the slave acknowledged its address
    | Complete(answer: byte) // the command on the wire finished
    | Abort(nak: bool)       // the command on the wire failed
    | Settle                 // the master goes idle after a STOP
    | FollowEnable           // IC_ENABLE takes effect

  predicate Possible(h: Hw, m: Move) {
    match m
    case Fetch => h.enabled && h.wire == [] && h.tx != []
    case AddressAck => h.addressing
    case Complete(answer) => h.wire != [] && !h.addressing
    case Abort(nak) => h.wire != [] && (nak ==> h.addressing)
    case Settle => h.settling && !h.open && h.tx == []
    case FollowEnable => h.wanted != h.enabled
  }

  predicate OpensAddressPhase(h: Hw, c: Command) {
    !h.open || c.restart || c.read != h.reading
  }

  function Fetched(h: Hw): Hw
    requires h.tx != []
  {
    var c := h.tx[0];
    h.(wire := [c], tx := h.tx[1..], open := true, reading := c.read, addressing := OpensAddressPhase(h, c))
  }

  function Completed(h: Hw, answer: byte): Hw
    requires h.wire != []
  {
    var c := h.wire[0];
    var full := |h.rx| >= h.rxDepth;
    h.(wire := [], open := !c.stop, settling := h.settling || c.stop,
       rx := if c.read && !full then h.rx + [answer] else h.rx,
       log := h.log.(executed := h.log.executed + [c],
                     supplied := if c.read && !full then h.log.supplied + [answer] else h.log.supplied,
                     lost := if c.read && full then h.log.lost + 1 else h.log.lost))
  }

  function Aborted(h: Hw, nak: bool): Hw {
    h.(wire := [], tx := [], addressing := false, open := false, settling := true,
       abort := true, addrNak := nak, log := h.log.(aborted := true))
  }

  function Flushed(h: Hw): Hw {
    h.(enabled := false, tx := [], wire := [], rx := [], addressing := false, open := false,
       settling := false, log := h.log.(traced := false))
  }

  function Apply(h: Hw, m: Move): Hw {
    if !Possible(h, m) then h
    else
      match m
      case Fetch => Fetched(h)
      case AddressAck => h.(addressing := false)
      case Complete(answer) => Completed(h, answer)
      case Abort(nak) => Aborted(h, nak)
      case Settle => h.(settling := false)
      case FollowEnable => if h.wanted then h.(enabled := true) else Flushed(h)
  }

  /** IC_STATUS.MST_ACTIVITY. */
  predicate MasterActive(h: Hw) {
    h.open || h.wire != [] || h.tx != [] || h.settling
  }

  // ---------------------------------------------------------------------
  // Every move keeps the controller valid
  // ---------------------------------------------------------------------

  /** A command that opens an address phase is fetched before any READ has run. */
  lemma AddressPhaseBeforeReads(h: Hw)
    requires Valid(h) && h.log.traced && !h.log.aborted && h.wire == [] && h.tx != []
    requires OneReadBurst(h.log.accepted) && OpensAddressPhase(h, h.tx[0])
    ensures Reads(h.log.executed) == 0
  {
    var q, n := h.log.accepted, |h.log.executed|;
    assert q[..n] == h.log.executed && q[n] == h.tx[0];
    if n > 0 {
      assert q[n - 1] == h.log.executed[n - 1];
    }
    BurstPrefixWithoutReads(q, n);
  }

  lemma FetchKeeps(h: Hw)
    requires Valid(h) && Possible(h, Fetch)
    ensures Valid(Fetched(h))
  {
    if h.log.traced {
      var k, c, rest := Fetched(h), h.tx[0], h.tx[1..];
      assert h.tx == [c] + rest;
      assert h.log.executed + [] + ([c] + rest) == h.log.executed + [c] + rest;
      if k.addressing && OneReadBurst(k.log.accepted) {
        AddressPhaseBeforeReads(h);
      }
    }
  }

  lemma CompleteKeeps(h: Hw, answer: byte)
    requires Valid(h) && Possible(h, Complete(answer))
    ensures Valid(Completed(h, answer))
  {
    if h.log.traced {
      CompleteTraced(h, answer);
    }
    hide Traced, Reads;
  }

  lemma CompleteTraced(h: Hw, answer: byte)
    requires Valid(h) && Possible(h, Complete(answer)) && h.log.traced
    ensures Traced(Completed(h, answer))
  {
    var k, c := Completed(h, answer), h.wire[0];
    assert h.wire == [c];
    assert k.log.executed[..|h.log.executed|] == h.log.executed;
    assert k.log.executed + [] + k.tx == h.log.executed + [c] + h.tx;
    assert k.log.drained + (h.rx + [answer]) == (k.log.drained + h.rx) + [answer];
    hide OneReadBurst;
  }

  lemma AbortKeeps(h: Hw, nak: bool)
    requires Valid(h) && Possible(h, Abort(nak))
    ensures Valid(Aborted(h, nak))
  {
    if h.log.traced {
      assert h.log.accepted[..|h.log.executed|] == h.log.executed;
    }
  }

  lemma MoveKeeps(h: Hw, m: Move)
    requires Valid(h)
    ensures Valid(Apply(h, m))
  {
    if Possible(h, m) {
      match m
      case Fetch => FetchKeeps(h);
      case Complete(answer) => CompleteKeeps(h, answer);
      case Abort(nak) => AbortKeeps(h, nak);
      case _ =>
    }
  }

  // ---------------------------------------------------------------------
  // What the driver may rely on across any number of moves
  // ---------------------------------------------------------------------

  predicate Later(h: Hw, k: Hw) {
    && k.config == h.config && k.txDepth == h.txDepth && k.rxDepth == h.rxDepth && k.wanted == h.wanted
    && (h.wanted && h.enabled ==> k.enabled)
    && (!h.wanted && !h.enabled ==> !k.enabled)
    && (h.wanted ==> |h.rx| <= |k.rx|)
    && (h.abort ==> k.abort && k.addrNak == h.addrNak)
    && |k.tx| <= |h.tx|
    && (h.wire == [] && h.tx == [] ==>
          k.wire == [] && k.tx == [] && (!h.open ==> !k.open) && k.abort == h.abort)
    && (h.wire == [] && h.tx == [] && h.rx == [] ==> k.rx == [])
    && (h.wanted && h.wire == [] && h.tx == [] ==> k.log == h.log)
    && LaterLog(h, k)
    && KeepsUp(h, k)
  }

  predicate LaterLog(h: Hw, k: Hw) {
    var l, m := h.log, k.log;
    && m.issued == l.issued && m.accepted == l.accepted && m.missed == l.missed && m.drained == l.drained
    && l.executed <= m.executed && l.supplied <= m.supplied
    && (h.wanted ==> m.traced == l.traced)
    && (m.traced ==> l.traced)
    && (l.aborted ==> m.aborted)
    && (!l.aborted && m.aborted ==> k.abort)
  }

  /** No byte is lost while at most RX_INFLIGHT_MAX are owed, and none is conjured up. */
  predicate KeepsUp(h: Hw, k: Hw) {
    h.log.lost == 0 && Outstanding(h) <= RX_INFLIGHT_MAX ==>
      && k.log.lost == 0 && Outstanding(k) <= Outstanding(h)
      && (k.log.traced && !k.log.aborted ==> Outstanding(k) == Outstanding(h))
  }

  lemma MoveKeepsUp(h: Hw, m: Move)
    requires Valid(h)
    ensures KeepsUp(h, Apply(h, m))
  {
    if m.Fetch? && h.tx != [] {
      ReadsConcat([h.tx[0]], h.tx[1..]);
      assert [h.tx[0]] + h.tx[1..] == h.tx;
    }
  }

  lemma MoveIsLater(h: Hw, m: Move)
    requires Valid(h)
    ensures Later(h, Apply(h, m))
  {
    MoveKeepsUp(h, m);
    hide KeepsUp, Traced;
    if Possible(h, m) {
      match m
      case Fetch =>
      case Complete(answer) =>
      case Abort(nak) =>
      case _ =>
    }
  }

  lemma LaterTransitive(h: Hw, k: Hw, l: Hw)
    requires Later(h, k) && Later(k, l)
    ensures Later(h, l)
  {
  }
}
