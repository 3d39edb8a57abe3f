/**
  Finding the panel. Firmware calls, register reads and panels may answer
  anything; what is proved is which hardware is ever written, on which machine,
  and what transport is left selected.
*/
module TouchDetect {
  import opened Machine

  datatype Platform = AmdFch | IntelLpss | MtkI2c

  /** I2cBase 0 on AMD marks a sweep profile; on Intel the base comes from PCI. */
  datatype Profile = Profile(product: Option<string>, boards: seq<string>, i2cBase: nat, slaveAddr: byte,
                             descReg: u16, aoacDev: nat, resetGpio: nat, platform: Platform, dmaBase: nat)

  const FCH_BASES: seq<nat> := [0xFEDC2000, 0xFEDC3000, 0xFEDC4000, 0xFEDC5000, 0xFEDC6000]
  const AOAC_I2C0 := 5
  const AOAC_SWEEP := 0xFF

  function GpioReg(pin: nat): nat {
    0xFED81500 + 4 * pin
  }

  const CANDIDATE_ADDRS: seq<byte> := [0x01, 0x38, 0x14, 0x5D, 0x10]
  const CANDIDATE_REGS: seq<u16> := [0x0000, 0x0001, 0x0020]

  const PROFILES: seq<Profile> := [
    Profile(None, ["RC73XA", "RC73YA"], 0xFEDC2000, 0x01, 0x0000, 5, 0, AmdFch, 0),
    Profile(Some("G1618-05"), [], 0xFEDC3000, 0x01, 0x0000, 6, 0, AmdFch, 0),
    Profile(Some("Galileo"), [], 0xFEDC3000, 0x38, 0x0000, 6, GpioReg(85), AmdFch, 0),
    Profile(Some("Jupiter"), [], 0xFEDC3000, 0x38, 0x0000, 6, GpioReg(69), AmdFch, 0),
    Profile(None, ["UX8402VV"], 0, 0x10, 0x0001, 0, 0, IntelLpss, 0),
    Profile(None, ["H7607BA"], 0x16BA0000, 0x10, 0x0001, 0, 0, MtkI2c, 0x16AA0000),
    Profile(None, ["RC71L"], 0, 0, 0x0000, AOAC_SWEEP, 0, AmdFch, 0),
    Profile(None, ["RC72LA"], 0, 0, 0x0000, AOAC_SWEEP, 0, AmdFch, 0),
    Profile(Some("83E1"), [], 0, 0, 0x0000, AOAC_SWEEP, 0, AmdFch, 0)
  ]

  /** A product name must match exactly, a board name only by prefix; an empty name matches nothing. */
  predicate Matches(p: Profile, product: string, board: string) {
    if p.product.Some? then product != "" && p.product.value == product
    else board != "" && exists k :: 0 <= k < |p.boards| && p.boards[k] <= board
  }

  /** A board name may go on after the profile's; a product name may not; an unknown machine matches nothing. */
  lemma MatchesLaw(p: Profile, product: string, board: string, rest: string)
    ensures p.product.Some? ==> (Matches(p, product, board) <==> product == p.product.value && product != [])
    ensures p.product == None && (exists k :: 0 <= k < |p.boards| && p.boards[k] + rest == board) && board != [] ==>
              Matches(p, product, board)
    ensures p.product == None && Matches(p, product, board) ==>
              board != [] && exists k :: 0 <= k < |p.boards| && p.boards[k] == board[..Shorter(|p.boards[k]|, |board|)]
    ensures !Matches(p, [], [])
  {
    if p.product == None && exists k :: 0 <= k < |p.boards| && p.boards[k] + rest == board {
      var k :| 0 <= k < |p.boards| && p.boards[k] + rest == board;
      assert p.boards[k] <= board;
    }
    if p.product == None && Matches(p, product, board) {
      var k :| 0 <= k < |p.boards| && p.boards[k] <= board;
      assert p.boards[k] == board[..|p.boards[k]|];
    }
  }

  function Shorter(a: nat, b: nat): nat {
    if a <= b then a else b
  }

  datatype Kind = DesignWare | MediaTek | Firmware

  /** A write to hardware. */
  datatype Write = Aoac(dev: nat) | Gpio(reg: nat) | Controller(base: nat) | Dma(base: nat)

  /** What one attempt learned, per pass (0 each profile's own constants, 1 the sweep), profile and controller. */
  datatype Fact =
    | Asked(pass: nat, p: nat, unit: nat, addr: byte, reg: u16)
    | Unavailable(pass: nat, p: nat, unit: nat)
    | Uninitialised(pass: nat, p: nat, unit: nat, addr: byte)
    | Silent(p: nat)                // nothing acknowledged the profile's own address
    | Tile(pass: nat, p: nat, dev: nat, on: bool, woken: bool)  // whether it is on now, and was only switched on for this
    | Prepared(pass: nat, p: nat, woken: bool)                  // the same of a PCI controller

  /**
    A controller is initialised only once it has power, and its timing is replaced exactly
    if it got that power just now, so that no firmware can have left any. The sweep of a
    controller with constants of its own comes after the first pass has seen to its power.
  */
  predicate Powered(facts: set<Fact>, pass: nat, p: nat, unit: nat, force: bool)
    requires p < |PROFILES|
  {
    match PROFILES[p].platform
    case IntelLpss => Prepared(pass, p, force) in facts
    case MtkI2c => false
    case AmdFch =>
      if PROFILES[p].i2cBase != 0 then
        if pass == 0 then Tile(0, p, PROFILES[p].aoacDev, true, force) in facts else !force
      else if unit < 4 then
        if force then Tile(pass, p, AOAC_I2C0 + unit, true, true) in facts
        else Tile(pass, p, AOAC_I2C0 + unit, true, false) in facts || Tile(pass, p, AOAC_I2C0 + unit, false, false) in facts
      else !force
  }

  /** Only profile p, if any, fell silent in between. */
  predicate OnlySilent(before: set<Fact>, after: set<Fact>, p: nat) {
    forall q: nat {:trigger Silent(q)} :: q < |PROFILES| && q != p ==> (Silent(q) in after <==> Silent(q) in before)
  }

  predicate SameSilence(before: set<Fact>, after: set<Fact>) {
    forall q: nat {:trigger Silent(q)} :: q < |PROFILES| ==> (Silent(q) in after <==> Silent(q) in before)
  }

  /** Which lines are kicked: those that were, and those whose panel fell silent. */
  predicate KickedExactly(before: seq<bool>, after: seq<bool>, facts: set<Fact>) {
    && |before| == |after| == |PROFILES|
    && forall q: nat {:trigger after[q]} :: q < |PROFILES| ==>
         (after[q] <==> before[q] || (Silent(q) in facts && PROFILES[q].resetGpio != 0))
  }

  /** The same for profile p alone. */
  predicate KickedFor(before: seq<bool>, after: seq<bool>, facts: set<Fact>, p: nat)
    requires p < |PROFILES|
  {
    && |before| == |after| == |PROFILES|
    && after == before[p := before[p] || (Silent(p) in facts && PROFILES[p].resetGpio != 0)]
  }

  lemma OnlyFchHasResetLines(p: nat)
    requires p < |PROFILES| && PROFILES[p].resetGpio != 0
    ensures PROFILES[p].platform == AmdFch && PROFILES[p].i2cBase != 0
  {
  }

  lemma PoweredGrows(before: set<Fact>, after: set<Fact>, pass: nat, p: nat, unit: nat, force: bool)
    requires before <= after && p < |PROFILES| && Powered(before, pass, p, unit, force)
    ensures Powered(after, pass, p, unit, force)
  {
    hide PROFILES;
  }

  /** The panel was asked for its descriptor there, or the controller would not let it be asked. */
  predicate Settled(facts: set<Fact>, pass: nat, p: nat, unit: nat, addr: byte, reg: u16) {
    || Asked(pass, p, unit, addr, reg) in facts
    || Unavailable(pass, p, unit) in facts
    || Uninitialised(pass, p, unit, addr) in facts
  }

  /** A profile without constants of its own, on the fixed FCH bases. */
  predicate Sweeping(p: Profile) {
    p.platform == AmdFch && p.i2cBase == 0
  }

  function Units(p: Profile): nat {
    if Sweeping(p) then |FCH_BASES| else 1
  }

  predicate OwnSettled(facts: set<Fact>, p: nat)
    requires p < |PROFILES|
  {
    Sweeping(PROFILES[p]) || Settled(facts, 0, p, 0, PROFILES[p].slaveAddr, PROFILES[p].descReg)
  }

  /** Every candidate address and register on one controller; a MediaTek sweep leaves its own pair to the first pass. */
  predicate UnitSwept(facts: set<Fact>, p: nat, unit: nat)
    requires p < |PROFILES|
  {
    forall a, r :: a in CANDIDATE_ADDRS && r in CANDIDATE_REGS ==>
      Settled(facts, 1, p, unit, a, r)
      || (PROFILES[p].platform == MtkI2c && a == PROFILES[p].slaveAddr && r == PROFILES[p].descReg)
  }

  ghost predicate Swept(facts: set<Fact>, p: nat)
    requires p < |PROFILES|
  {
    forall unit: nat :: unit < Units(PROFILES[p]) ==> UnitSwept(facts, p, unit)
  }

  predicate MtkSettled(facts: set<Fact>, p: nat, addr: byte, reg: u16)
    requires p < |PROFILES|
  {
    Settled(facts, 1, p, 0, addr, reg) || (addr == PROFILES[p].slaveAddr && reg == PROFILES[p].descReg)
  }

  lemma UnitGrow(before: set<Fact>, after: set<Fact>, p: nat, unit: nat)
    requires before <= after && p < |PROFILES| && UnitSwept(before, p, unit)
    ensures UnitSwept(after, p, unit)
  {
    hide PROFILES;
    forall a, r | a in CANDIDATE_ADDRS && r in CANDIDATE_REGS
      ensures Settled(after, 1, p, unit, a, r)
              || (PROFILES[p].platform == MtkI2c && a == PROFILES[p].slaveAddr && r == PROFILES[p].descReg)
    {
      assert Settled(before, 1, p, unit, a, r) ==> Settled(after, 1, p, unit, a, r);
    }
  }

  lemma FactsGrow(before: set<Fact>, after: set<Fact>, p: nat)
    requires before <= after && p < |PROFILES|
    ensures OwnSettled(before, p) ==> OwnSettled(after, p)
    ensures forall unit: nat :: UnitSwept(before, p, unit) ==> UnitSwept(after, p, unit)
    ensures Swept(before, p) ==> Swept(after, p)
  {
    hide PROFILES, UnitSwept;
    forall unit: nat | UnitSwept(before, p, unit)
      ensures UnitSwept(after, p, unit)
    {
      UnitGrow(before, after, p, unit);
    }
  }

  /** What one profile allows; `bars` are the bases its PCI function has reported. */
  predicate AllowedBy(w: Write, p: Profile, bars: set<nat>) {
    match p.platform
    case IntelLpss => w.Controller? && w.base in bars
    case MtkI2c => w == Controller(p.i2cBase) || w == Dma(p.dmaBase)
    case AmdFch =>
      if p.i2cBase != 0 then
        w == Aoac(p.aoacDev) || w == Controller(p.i2cBase) || (p.resetGpio != 0 && w == Gpio(p.resetGpio))
      else
        (w.Aoac? && AOAC_I2C0 <= w.dev < AOAC_I2C0 + 4) || (w.Controller? && w.base in FCH_BASES)
  }

  /** A write to a reset pin was a kick for some profile, and is remembered. */
  ghost predicate Accounted(kicked: seq<bool>, w: Write) {
    w.Gpio? ==> exists p :: 0 <= p < |PROFILES| && p < |kicked| && kicked[p]
                            && PROFILES[p].resetGpio != 0 && w.reg == PROFILES[p].resetGpio
  }

  /** A kick is one entry, whatever its number of register writes. */
  predicate OncePerPin(writes: seq<Write>) {
    forall j, k {:trigger writes[j], writes[k]} :: 0 <= j < k < |writes| && writes[j].Gpio? ==> writes[j] != writes[k]
  }

  /** Kicking each profile's line once kicks each pin once. */
  lemma ResetPinsDiffer(j: nat, k: nat)
    requires j < k < |PROFILES| && PROFILES[j].resetGpio != 0
    ensures PROFILES[j].resetGpio != PROFILES[k].resetGpio
  {
    assert GpioReg(85) != GpioReg(69);
  }

  /** The line of a profile that was not kicked is not among the pins written. */
  lemma NewPin(writes: seq<Write>, kicked: seq<bool>, p: nat)
    requires p < |PROFILES| == |kicked| && PROFILES[p].resetGpio != 0 && !kicked[p]
    requires OncePerPin(writes) && forall k :: 0 <= k < |writes| ==> Accounted(kicked, writes[k])
    ensures var w := Gpio(PROFILES[p].resetGpio);
      && OncePerPin(writes + [w])
      && forall k :: 0 <= k < |writes + [w]| ==> Accounted(kicked[p := true], (writes + [w])[k])
  {
    hide PROFILES;
    var w, after := Gpio(PROFILES[p].resetGpio), kicked[p := true];
    assert after[p];
    assert Accounted(after, w);
    forall k | 0 <= k < |writes|
      ensures writes[k] != w && Accounted(after, writes[k])
    {
      if writes[k].Gpio? {
        var q :| 0 <= q < |PROFILES| && q < |kicked| && kicked[q] && PROFILES[q].resetGpio != 0
                 && writes[k].reg == PROFILES[q].resetGpio;
        if q < p {
          ResetPinsDiffer(q, p);
        } else {
          ResetPinsDiffer(p, q);
        }
        assert after[q];
      }
    }
  }

  class Detector {
    const product: string
    const board: string
    // The transport selection, and what each transport is aimed at.
    var kind: Kind
    var dwTarget: map<nat, byte>
    var mtkBase: nat
    var mtkDma: nat
    var mtkTarget: byte
    var fwTarget: byte
    // The device object.
    var fwBusSearched: bool
    var fwBusFound: bool
    var kicked: seq<bool>
    var i2cBase: nat
    var slaveAddr: byte
    var profile: nat
    // History over the whole run.
    ghost var writes: seq<Write>
    ghost var bars: set<nat>
    // History of the current attempt.
    ghost var pass: nat
    ghost var facts: set<Fact>
    ghost var answered: Option<byte> // the address that returned a valid descriptor

    constructor (product: string, board: string)
      ensures Valid() && writes == []
      ensures this.product == product && this.board == board
    {
      this.product, this.board := product, board;
      kind, dwTarget, mtkBase, mtkDma, mtkTarget, fwTarget := DesignWare, map[], 0, 0, 0, 0;
      fwBusSearched, fwBusFound, kicked := false, false, seq(|PROFILES|, i => false);
      i2cBase, slaveAddr, profile := 0, 0, 0;
      writes, bars := [], {};
      pass, facts, answered := 0, {}, None;
    }

    ghost predicate Allowed(w: Write)
      reads this
    {
      exists k :: 0 <= k < |PROFILES| && Matches(PROFILES[k], product, board) && AllowedBy(w, PROFILES[k], bars)
    }

    /** Every write is allowed by a profile that matches this machine, and no reset pin was written twice. */
    ghost predicate Valid()
      reads this
    {
      && |kicked| == |PROFILES|
      && (forall k {:trigger writes[k]} :: 0 <= k < |writes| ==> Allowed(writes[k]) && Accounted(kicked, writes[k]))
      && OncePerPin(writes)
    }

    /** The address the selected transport is aimed at. */
    ghost function AimedAt(): Option<byte>
      reads this
    {
      TargetOf(i2cBase)
    }

    ghost function TargetOf(base: nat): Option<byte>
      reads this
    {
      match kind
      case DesignWare => if base in dwTarget then Some(dwTarget[base]) else None
      case MediaTek => Some(mtkTarget)
      case Firmware => Some(fwTarget)
    }

    /** The state between probes. */
    ghost predicate Searching()
      reads this
    {
      kind == DesignWare && answered == None
    }

    /** A detected panel: a matching profile, a transport that fits its platform, aimed at the panel. */
    ghost predicate Found()
      reads this
    {
      && profile < |PROFILES| && Matches(PROFILES[profile], product, board)
      && AimedAt() == Some(slaveAddr) && answered == Some(slaveAddr)
      && if PROFILES[profile].platform == MtkI2c then
           kind != DesignWare && i2cBase == PROFILES[profile].i2cBase
           && (kind == MediaTek ==> mtkBase == PROFILES[profile].i2cBase && mtkDma == PROFILES[profile].dmaBase)
         else
           kind == DesignWare && AllowedBy(Controller(i2cBase), PROFILES[profile], bars)
    }

    // -------------------------------------------------------------------
    // Hardware accesses, each recorded against the profile it is made for
    // -------------------------------------------------------------------

    method Record(p: nat, w: Write)
      requires Valid() && p < |PROFILES| && Matches(PROFILES[p], product, board)
      requires AllowedBy(w, PROFILES[p], bars) && !w.Gpio?
      modifies this`writes
      ensures Valid() && writes == old(writes) + [w]
    {
      writes := writes + [w];
      assert Allowed(w);
    }

    /** FchAoacPowerOnI2c: a tile that is already on is not written. */
    method PowerOn(p: nat, dev: nat) returns (ok: bool, fresh_: bool)
      requires Valid() && p < |PROFILES| && Matches(PROFILES[p], product, board)
      requires AllowedBy(Aoac(dev), PROFILES[p], bars)
      modifies this`writes, this`facts
      ensures Valid() && old(writes) <= writes && (fresh_ ==> ok)
      ensures facts == old(facts) + {Tile(pass, p, dev, ok, fresh_)}
      ensures fresh_ || !ok ==> writes == old(writes) + [Aoac(dev)]
    {
      var on: bool := *;
      ok, fresh_ := true, false;
      if !on {
        Record(p, Aoac(dev));
        ok := *;
        fresh_ := ok;
      }
      facts := facts + {Tile(pass, p, dev, ok, fresh_)};
    }

    /** DwI2cInit: aims the controller at the address when it succeeds. */
    method DwInit(p: nat, base: nat, addr: byte, fresh_: bool, ghost unit: nat) returns (status: Status)
      requires Valid() && p < |PROFILES| && Matches(PROFILES[p], product, board)
      requires AllowedBy(Controller(base), PROFILES[p], bars) && Powered(facts, pass, p, unit, fresh_)
      modifies this`writes, this`dwTarget, this`facts
      ensures Valid() && old(writes) <= writes
      ensures status == Success ==> base in dwTarget && dwTarget[base] == addr && facts == old(facts)
      ensures status != Success ==>
                facts == old(facts) + {Uninitialised(pass, p, unit, addr)} + Silence(status, p)
    {
      Record(p, Controller(base));
      status := *;
      if status != Success {
        facts := facts + {Uninitialised(pass, p, unit, addr)} + Silence(status, p);
      }
      if status == Success {
        dwTarget := dwTarget[base := addr];
      }
    }

    /** I2cHidReadDescriptor through whichever transport is selected. */
    method ReadDescriptor(p: nat, base: nat, reg: u16, addr: byte, ghost unit: nat) returns (status: Status)
      requires Valid() && p < |PROFILES| && Matches(PROFILES[p], product, board)
      requires kind == DesignWare ==> AllowedBy(Controller(base), PROFILES[p], bars)
      requires kind == MediaTek ==> AllowedBy(Controller(mtkBase), PROFILES[p], bars)
                                    && AllowedBy(Dma(mtkDma), PROFILES[p], bars)
      requires TargetOf(base) == Some(addr)
      modifies this`writes, this`facts, this`answered
      ensures Valid() && old(writes) <= writes
      ensures facts == old(facts) + {Asked(pass, p, unit, addr, reg)} + Silence(status, p)
      ensures answered == if status == Success then Some(addr) else old(answered)
    {
      match kind {
        case DesignWare => Record(p, Controller(base));
        case MediaTek =>
          Record(p, Controller(mtkBase));
          Record(p, Dma(mtkDma));
        case Firmware =>
      }
      status := *;
      facts := facts + {Asked(pass, p, unit, addr, reg)} + Silence(status, p);
      if status == Success {
        answered := Some(addr);
      }
    }

    /** A missing acknowledge in the first pass, where a profile is asked at its own address only. */
    ghost function Silence(status: Status, p: nat): set<Fact>
      reads this`pass
    {
      if pass == 0 && status == NoResponse then {Silent(p)} else {}
    }

    /** DwI2cControllerPresent: does the component type register read as expected? */
    method Present(p: nat, base: nat, ghost unit: nat) returns (present: bool)
      modifies this`facts
      ensures facts == if present then old(facts) else old(facts) + {Unavailable(pass, p, unit)}
    {
      present := *;
      if !present {
        facts := facts + {Unavailable(pass, p, unit)};
      }
    }

    /** IntelLpssPrepareI2c: finds and powers the profile's PCI function. */
    method PrepareIntel(p: nat) returns (ok: bool, base: nat, fresh_: bool)
      requires Valid() && p < |PROFILES| && Matches(PROFILES[p], product, board)
      requires PROFILES[p].platform == IntelLpss
      modifies this`writes, this`bars, this`facts
      ensures facts == old(facts) + {if ok then Prepared(pass, p, fresh_) else Unavailable(pass, p, 0)}
      ensures Valid() && (ok ==> AllowedBy(Controller(base), PROFILES[p], bars)) && old(bars) <= bars
      ensures old(writes) <= writes
    {
      ok, base, fresh_ := *, *, *;
      if ok {
        facts := facts + {Prepared(pass, p, fresh_)};
        bars := bars + {base};
        BarsGrow(old(bars));
        if fresh_ {
          Record(p, Controller(base));
        }
      } else {
        facts := facts + {Unavailable(pass, p, 0)};
      }
    }

    lemma BarsGrow(before: set<nat>)
      requires before <= bars && |kicked| == |PROFILES|
      requires forall k {:trigger writes[k]} :: 0 <= k < |writes| ==>
                 exists j :: 0 <= j < |PROFILES| && Matches(PROFILES[j], product, board)
                             && AllowedBy(writes[k], PROFILES[j], before)
      ensures forall k {:trigger writes[k]} :: 0 <= k < |writes| ==> Allowed(writes[k])
    {
      forall k {:trigger writes[k]} | 0 <= k < |writes|
        ensures Allowed(writes[k])
      {
        var j :| 0 <= j < |PROFILES| && Matches(PROFILES[j], product, board)
                 && AllowedBy(writes[k], PROFILES[j], before);
        assert AllowedBy(writes[k], PROFILES[j], bars);
      }
    }

    /** TouchResetKick, at most once per reset line over the whole run. */
    method KickOnce(p: nat, status: Status)
      requires Valid() && p < |PROFILES| && Matches(PROFILES[p], product, board)
      requires PROFILES[p].platform == AmdFch && PROFILES[p].i2cBase != 0
      modifies this`writes, this`kicked
      ensures Valid()
      ensures var due := PROFILES[p].resetGpio != 0 && !old(kicked)[p] && status == NoResponse;
        && kicked == (if due then old(kicked)[p := true] else old(kicked))
        && writes == (if due then old(writes) + [Gpio(PROFILES[p].resetGpio)] else old(writes))
    {
      if PROFILES[p].resetGpio != 0 && !kicked[p] && status == NoResponse {
        assert AllowedBy(Gpio(PROFILES[p].resetGpio), PROFILES[p], bars);
        hide AllowedBy, Matches, PROFILES;
        ghost var w := Gpio(PROFILES[p].resetGpio);
        assert Allowed(w);
        NewPin(writes, kicked, p);
        writes := writes + [w];
        kicked := kicked[p := true];
      }
    }

    // -------------------------------------------------------------------
    // MediaTek probe
    // -------------------------------------------------------------------

    /** On failure the DesignWare selection is restored; on success the transport is aimed at the panel. */
    method MtkProbe(p: nat, addr: byte, reg: u16) returns (status: Status)
      requires Valid() && p < |PROFILES| && Matches(PROFILES[p], product, board)
      requires PROFILES[p].platform == MtkI2c && Searching()
      modifies this`writes, this`kind, this`mtkBase, this`mtkDma, this`mtkTarget, this`fwTarget,
               this`fwBusSearched, this`fwBusFound, this`facts, this`answered
      ensures Valid() && old(facts) <= facts && old(writes) <= writes && Settled(facts, pass, p, 0, addr, reg)
      ensures OnlySilent(old(facts), facts, p) && (pass == 1 ==> SameSilence(old(facts), facts))
      ensures status != Success ==> Searching()
      ensures status == Success ==> answered == Some(addr) && MtkSelected(p, addr)
    {
      hide Matches, AllowedBy, PROFILES;
      if !fwBusSearched {
        fwBusSearched := true;
        fwBusFound := *;
      }
      if fwBusFound {
        fwTarget, kind := addr, Firmware;
        status := ReadDescriptor(p, 0, reg, addr, 0);
        if status != Success {
          kind := DesignWare;
        }
        return;
      }
      status := MtkDirect(p, addr, reg);
    }

    ghost predicate MtkSelected(p: nat, addr: byte)
      requires p < |PROFILES|
      reads this
    {
      || (kind == Firmware && fwTarget == addr)
      || (kind == MediaTek && mtkTarget == addr
          && mtkBase == PROFILES[p].i2cBase && mtkDma == PROFILES[p].dmaBase)
    }

    /** MtkI2cInit: a failure comes before any register is written. */
    method MtkInit(p: nat, addr: byte) returns (status: Status)
      requires Valid() && p < |PROFILES| && Matches(PROFILES[p], product, board)
      requires PROFILES[p].platform == MtkI2c
      modifies this`writes, this`mtkBase, this`mtkDma, this`mtkTarget, this`facts
      ensures Valid() && old(writes) <= writes
      ensures if status == Success then
                mtkBase == PROFILES[p].i2cBase && mtkDma == PROFILES[p].dmaBase && mtkTarget == addr
                && facts == old(facts)
              else facts == old(facts) + {Uninitialised(pass, p, 0, addr)}
    {
      hide Matches, PROFILES;
      status := *;
      if status != Success {
        facts := facts + {Uninitialised(pass, p, 0, addr)};
        return;
      }
      mtkBase, mtkDma, mtkTarget := PROFILES[p].i2cBase, PROFILES[p].dmaBase, addr;
      Record(p, Controller(mtkBase));
      Record(p, Dma(mtkDma));
    }

    /** Drive the controller and its DMA channel underneath the firmware, which has no driver of its own for it. */
    method MtkDirect(p: nat, addr: byte, reg: u16) returns (status: Status)
      requires Valid() && p < |PROFILES| && Matches(PROFILES[p], product, board)
      requires PROFILES[p].platform == MtkI2c && Searching()
      modifies this`writes, this`kind, this`mtkBase, this`mtkDma, this`mtkTarget, this`facts, this`answered
      ensures Valid() && old(facts) <= facts && old(writes) <= writes && Settled(facts, pass, p, 0, addr, reg)
      ensures OnlySilent(old(facts), facts, p) && (pass == 1 ==> SameSilence(old(facts), facts))
      ensures status != Success ==> Searching()
      ensures status == Success ==> answered == Some(addr) && MtkSelected(p, addr)
    {
      hide Matches, PROFILES;
      status := MtkInit(p, addr);
      if status != Success {
        return;
      }
      kind := MediaTek;
      status := ReadDescriptor(p, 0, reg, addr, 0);
      if status != Success {
        kind := DesignWare;
      }
    }

    // -------------------------------------------------------------------
    // Detection
    // -------------------------------------------------------------------

    method Accept(p: nat, base: nat, addr: byte)
      requires Valid() && p < |PROFILES| && Matches(PROFILES[p], product, board)
      modifies this`i2cBase, this`slaveAddr, this`profile
      ensures Valid() && i2cBase == base && slaveAddr == addr && profile == p
    {
      i2cBase, slaveAddr, profile := base, addr, p;
    }

    /** One profile's own tile, base, address and register. */
    method ProbeProfile(p: nat) returns (found: bool)
      requires Valid() && p < |PROFILES| && Matches(PROFILES[p], product, board) && Searching() && pass == 0
      requires Silent(p) !in facts
      modifies this
      ensures Valid() && pass == 0 && old(facts) <= facts && old(writes) <= writes
      ensures if found then Found() else Searching() && OwnSettled(facts, p)
      ensures OnlySilent(old(facts), facts, p) && KickedFor(old(kicked), kicked, facts, p)
    {
      if PROFILES[p].resetGpio != 0 {
        OnlyFchHasResetLines(p);
      }
      hide Matches, AllowedBy, Settled, PROFILES;
      found := false;
      if PROFILES[p].platform == IntelLpss {
        found := ProbeIntel(p);
      } else if PROFILES[p].platform == MtkI2c {
        var status := MtkProbe(p, PROFILES[p].slaveAddr, PROFILES[p].descReg);
        if status == Success {
          Accept(p, PROFILES[p].i2cBase, PROFILES[p].slaveAddr);
          return true;
        }
      } else if PROFILES[p].i2cBase != 0 {
        found := ProbeFch(p);
      }
    }

    method ProbeIntel(p: nat) returns (found: bool)
      requires Valid() && p < |PROFILES| && Matches(PROFILES[p], product, board) && Searching() && pass == 0
      requires PROFILES[p].platform == IntelLpss
      requires Silent(p) !in facts
      modifies this
      ensures Valid() && pass == 0 && old(facts) <= facts && old(writes) <= writes
      ensures if found then Found() else Searching() && OwnSettled(facts, p)
      ensures OnlySilent(old(facts), facts, p) && KickedFor(old(kicked), kicked, facts, p)
    {
      if PROFILES[p].resetGpio != 0 {
        OnlyFchHasResetLines(p);
      }
      hide Matches, AllowedBy, PROFILES;
      found := false;
      var ok, base, fresh_ := PrepareIntel(p);
      if !ok {
        return;
      }
      var present := Present(p, base, 0);
      if !present {
        return;
      }
      found := ProbeOwn(p, base, fresh_);
    }

    method ProbeFch(p: nat) returns (found: bool)
      requires Valid() && p < |PROFILES| && Matches(PROFILES[p], product, board) && Searching() && pass == 0
      requires PROFILES[p].platform == AmdFch && PROFILES[p].i2cBase != 0
      requires Silent(p) !in facts
      modifies this
      ensures Valid() && pass == 0 && old(facts) <= facts && old(writes) <= writes
      ensures if found then Found() else Searching() && OwnSettled(facts, p)
      ensures OnlySilent(old(facts), facts, p) && KickedFor(old(kicked), kicked, facts, p)
    {
      assert AllowedBy(Aoac(PROFILES[p].aoacDev), PROFILES[p], bars);
      assert AllowedBy(Controller(PROFILES[p].i2cBase), PROFILES[p], bars);
      hide Matches, AllowedBy, PROFILES;
      found := false;
      var ok, fresh_ := PowerOn(p, PROFILES[p].aoacDev);
      if !ok {
        facts := facts + {Unavailable(pass, p, 0)};
        return;
      }
      var present := Present(p, PROFILES[p].i2cBase, 0);
      if !present {
        return;
      }
      found := ProbeOwn(p, PROFILES[p].i2cBase, fresh_);
    }

    /** Ask at the profile's own address; an FCH controller whose panel is silent may get its reset line kicked. */
    method ProbeOwn(p: nat, base: nat, fresh_: bool) returns (found: bool)
      requires Valid() && p < |PROFILES| && Matches(PROFILES[p], product, board) && Searching() && pass == 0
      requires PROFILES[p].platform != MtkI2c && !Sweeping(PROFILES[p])
      requires AllowedBy(Controller(base), PROFILES[p], bars) && Powered(facts, pass, p, 0, fresh_)
      requires Silent(p) !in facts
      modifies this
      ensures Valid() && pass == 0 && old(facts) <= facts && old(writes) <= writes
      ensures if found then Found() else Searching() && OwnSettled(facts, p)
      ensures OnlySilent(old(facts), facts, p) && KickedFor(old(kicked), kicked, facts, p)
    {
      hide Matches, AllowedBy, PROFILES;
      found := false;
      var status := DwInit(p, base, PROFILES[p].slaveAddr, fresh_, 0);
      if status == Success {
        status := ReadDescriptor(p, base, PROFILES[p].descReg, PROFILES[p].slaveAddr, 0);
      }
      if status == Success {
        Accept(p, base, PROFILES[p].slaveAddr);
        return true;
      }
      if PROFILES[p].resetGpio != 0 {
        OnlyFchHasResetLines(p);
      }
      if PROFILES[p].platform == AmdFch {
        KickOnce(p, status);
      }
    }

    /** Alternate addresses and registers on a MediaTek profile's own controller. */
    method SweepMtk(p: nat) returns (found: bool)
      requires Valid() && p < |PROFILES| && Matches(PROFILES[p], product, board) && Searching() && pass == 1
      requires PROFILES[p].platform == MtkI2c
      modifies this
      ensures Valid() && pass == 1 && old(facts) <= facts && old(writes) <= writes
      ensures kicked == old(kicked) && SameSilence(old(facts), facts)
      ensures if found then Found() else Searching() && UnitSwept(facts, p, 0)
    {
      for a := 0 to |CANDIDATE_ADDRS|
        invariant Valid() && Searching() && pass == 1 && old(facts) <= facts && old(writes) <= writes
        invariant kicked == old(kicked) && SameSilence(old(facts), facts)
        invariant forall i, j :: 0 <= i < a && 0 <= j < |CANDIDATE_REGS| ==>
                    MtkSettled(facts, p, CANDIDATE_ADDRS[i], CANDIDATE_REGS[j])
      {
        for r := 0 to |CANDIDATE_REGS|
          invariant Valid() && Searching() && pass == 1 && old(facts) <= facts && old(writes) <= writes
          invariant kicked == old(kicked) && SameSilence(old(facts), facts)
          invariant forall i, j :: 0 <= i < a && 0 <= j < |CANDIDATE_REGS| ==>
                      MtkSettled(facts, p, CANDIDATE_ADDRS[i], CANDIDATE_REGS[j])
          invariant forall j :: 0 <= j < r ==> MtkSettled(facts, p, CANDIDATE_ADDRS[a], CANDIDATE_REGS[j])
        {
          if CANDIDATE_ADDRS[a] != PROFILES[p].slaveAddr || CANDIDATE_REGS[r] != PROFILES[p].descReg {
            var status := MtkProbe(p, CANDIDATE_ADDRS[a], CANDIDATE_REGS[r]);
            if status == Success {
              Accept(p, PROFILES[p].i2cBase, CANDIDATE_ADDRS[a]);
              return true;
            }
          }
        }
      }
      return false;
    }

    /** All candidate addresses and registers on one DesignWare controller. */
    method SweepBase(p: nat, base: nat, fresh_: bool, ghost unit: nat) returns (found: bool)
      requires Valid() && p < |PROFILES| && Matches(PROFILES[p], product, board) && Searching() && pass == 1
      requires PROFILES[p].platform != MtkI2c && AllowedBy(Controller(base), PROFILES[p], bars)
      requires Powered(facts, 1, p, unit, fresh_)
      modifies this
      ensures Valid() && bars == old(bars) && pass == 1 && old(facts) <= facts && old(writes) <= writes
      ensures kicked == old(kicked) && SameSilence(old(facts), facts)
      ensures if found then Found() else Searching() && UnitSwept(facts, p, unit)
    {
      var present := Present(p, base, unit);
      if !present {
        return false;
      }
      for a := 0 to |CANDIDATE_ADDRS|
        invariant Valid() && Searching() && pass == 1 && bars == old(bars) && old(facts) <= facts && old(writes) <= writes
        invariant kicked == old(kicked) && SameSilence(old(facts), facts)
        invariant forall i, j :: 0 <= i < a && 0 <= j < |CANDIDATE_REGS| ==>
                    Settled(facts, 1, p, unit, CANDIDATE_ADDRS[i], CANDIDATE_REGS[j])
      {
        PoweredGrows(old(facts), facts, 1, p, unit, fresh_);
        var status := DwInit(p, base, CANDIDATE_ADDRS[a], fresh_, unit);
        if status == Success {
          found := AskAll(p, base, CANDIDATE_ADDRS[a], unit);
          if found {
            return;
          }
          // Disable the controller before trying the next address.
          Record(p, Controller(base));
        }
      }
      return false;
    }

    /** Every descriptor register at one address of an initialised controller. */
    method AskAll(p: nat, base: nat, addr: byte, ghost unit: nat) returns (found: bool)
      requires Valid() && p < |PROFILES| && Matches(PROFILES[p], product, board) && Searching() && pass == 1
      requires PROFILES[p].platform != MtkI2c && AllowedBy(Controller(base), PROFILES[p], bars)
      requires TargetOf(base) == Some(addr)
      modifies this`writes, this`facts, this`answered, this`i2cBase, this`slaveAddr, this`profile
      ensures Valid() && old(facts) <= facts && old(writes) <= writes
      ensures SameSilence(old(facts), facts)
      ensures if found then Found()
              else Searching() && forall j :: 0 <= j < |CANDIDATE_REGS| ==>
                     Settled(facts, 1, p, unit, addr, CANDIDATE_REGS[j])
    {
      for r := 0 to |CANDIDATE_REGS|
        invariant Valid() && Searching() && old(facts) <= facts && old(writes) <= writes
        invariant SameSilence(old(facts), facts)
        invariant forall j :: 0 <= j < r ==> Settled(facts, 1, p, unit, addr, CANDIDATE_REGS[j])
      {
        var status := ReadDescriptor(p, base, CANDIDATE_REGS[r], addr, unit);
        if status == Success {
          Accept(p, base, addr);
          return true;
        }
      }
      return false;
    }

    /** The fallback for one profile: its own controller, or all FCH bases for a sweep profile. */
    method SweepProfile(p: nat) returns (found: bool)
      requires Valid() && p < |PROFILES| && Matches(PROFILES[p], product, board) && Searching() && pass == 1
      modifies this
      ensures Valid() && pass == 1 && old(facts) <= facts && old(writes) <= writes
      ensures kicked == old(kicked) && SameSilence(old(facts), facts)
      ensures if found then Found() else Searching() && Swept(facts, p)
    {
      var prof := PROFILES[p];
      if prof.platform == MtkI2c {
        found := SweepMtk(p);
      } else if prof.platform == IntelLpss {
        var ok, base, fresh_ := PrepareIntel(p);
        if !ok {
          return false;
        }
        found := SweepBase(p, base, fresh_, 0);
      } else if prof.i2cBase != 0 {
        found := SweepBase(p, prof.i2cBase, false, 0);
      } else {
        found := SweepFch(p);
      }
    }

    /** Un-gate the four fixed tiles, then go through all fixed bases. */
    method SweepFch(p: nat) returns (found: bool)
      requires Valid() && p < |PROFILES| && Matches(PROFILES[p], product, board) && Searching() && pass == 1
      requires Sweeping(PROFILES[p])
      modifies this
      ensures Valid() && pass == 1 && old(facts) <= facts && old(writes) <= writes
      ensures kicked == old(kicked) && SameSilence(old(facts), facts)
      ensures if found then Found() else Searching() && Swept(facts, p)
    {
      var freshByTile := [false, false, false, false];
      for b := 0 to 4
        invariant Valid() && Searching() && pass == 1 && old(facts) <= facts && old(writes) <= writes && |freshByTile| == 4
        invariant kicked == old(kicked) && SameSilence(old(facts), facts)
        invariant forall u: nat :: u < b ==> Powered(facts, 1, p, u, freshByTile[u])
      {
        ghost var before := facts;
        var ok, fresh_ := PowerOn(p, AOAC_I2C0 + b);
        freshByTile := freshByTile[b := ok && fresh_];
        forall u: nat | u < b
          ensures Powered(facts, 1, p, u, freshByTile[u])
        {
          PoweredGrows(before, facts, 1, p, u, freshByTile[u]);
        }
      }
      for b := 0 to |FCH_BASES|
        invariant Valid() && Searching() && pass == 1 && old(facts) <= facts && old(writes) <= writes
        invariant kicked == old(kicked) && SameSilence(old(facts), facts)
        invariant forall u: nat :: u < b ==> UnitSwept(facts, p, u)
        invariant forall u: nat :: u < 4 ==> Powered(facts, 1, p, u, freshByTile[u])
      {
        ghost var before := facts;
        found := SweepBase(p, FCH_BASES[b], if b < 4 then freshByTile[b] else false, b);
        if found {
          return;
        }
        FactsGrow(before, facts, p);
        forall u: nat | u < 4
          ensures Powered(facts, 1, p, u, freshByTile[u])
        {
          PoweredGrows(before, facts, 1, p, u, freshByTile[u]);
        }
      }
      found := false;
    }

    /**
      One detection. Whatever the hardware answers, only what a profile matching this
      machine allows is written, over all attempts together; failure leaves the
      DesignWare transport selected, success one that fits and is aimed at the panel.
    */
    method Detect() returns (status: Status)
      requires Valid()
      modifies this
      ensures Valid() && status in {Success, NotFound, Unsupported}
      ensures old(writes) <= writes
      ensures if status == Success then Found() else Searching()
      ensures KickedExactly(old(kicked), kicked, facts)
      ensures status == NotFound ==>
                forall p: nat :: p < |PROFILES| && Matches(PROFILES[p], product, board) ==>
                  OwnSettled(facts, p) && Swept(facts, p)
      ensures status == Unsupported <==> forall k :: 0 <= k < |PROFILES| ==> !Matches(PROFILES[k], product, board)
      ensures status == Unsupported ==> writes == old(writes)
    {
      kind := DesignWare;
      fwBusSearched := false;
      pass, facts, answered := 0, {}, None;
      var matched, found := ProbeAll();
      if found {
        return Success;
      }
      if !matched {
        return Unsupported;
      }
      pass := 1;
      for p := 0 to |PROFILES|
        invariant Valid() && Searching() && pass == 1 && old(writes) <= writes
        invariant KickedExactly(old(kicked), kicked, facts)
        invariant forall k: nat :: k < |PROFILES| && Matches(PROFILES[k], product, board) ==> OwnSettled(facts, k)
        invariant forall k: nat :: k < p && Matches(PROFILES[k], product, board) ==> Swept(facts, k)
      {
        if Matches(PROFILES[p], product, board) {
          ghost var before := facts;
          found := SweepProfile(p);
          if found {
            return Success;
          }
          AllGrow(before, facts);
        }
      }
      return NotFound;
    }

    /** The profile pass: the constants of each matching profile, in order. */
    method ProbeAll() returns (matched: bool, found: bool)
      requires Valid() && Searching() && pass == 0 && facts == {}
      modifies this
      ensures Valid() && pass == 0 && old(writes) <= writes
      ensures if found then Found()
              else Searching() && forall k: nat :: k < |PROFILES| && Matches(PROFILES[k], product, board) ==>
                     OwnSettled(facts, k)
      ensures !matched ==> writes == old(writes) && !found
      ensures KickedExactly(old(kicked), kicked, facts)
      ensures matched <==> exists k :: 0 <= k < |PROFILES| && Matches(PROFILES[k], product, board)
    {
      matched, found := false, false;
      for p := 0 to |PROFILES|
        invariant Valid() && Searching() && pass == 0 && !found && old(writes) <= writes
        invariant !matched ==> writes == old(writes)
        invariant KickedExactly(old(kicked), kicked, facts)
        invariant forall q: nat {:trigger Silent(q)} :: p <= q < |PROFILES| ==> Silent(q) !in facts
        invariant matched <==> exists k :: 0 <= k < p && Matches(PROFILES[k], product, board)
        invariant forall k: nat :: k < p && Matches(PROFILES[k], product, board) ==> OwnSettled(facts, k)
      {
        if Matches(PROFILES[p], product, board) {
          matched := true;
          ghost var before := facts;
          found := ProbeProfile(p);
          if found {
            return;
          }
          AllGrow(before, facts);
        }
      }
    }
  }

  lemma AllGrow(before: set<Fact>, after: set<Fact>)
    requires before <= after
    ensures forall k: nat :: k < |PROFILES| && OwnSettled(before, k) ==> OwnSettled(after, k)
    ensures forall k: nat :: k < |PROFILES| && Swept(before, k) ==> Swept(after, k)
  {
    forall k: nat | k < |PROFILES|
      ensures (OwnSettled(before, k) ==> OwnSettled(after, k)) && (Swept(before, k) ==> Swept(after, k))
    {
      FactsGrow(before, after, k);
    }
  }
}
