/**
  What the success of a transfer promises, and where it promises less than it
  seems to; and how a disable comes to be left outstanding.
*/
module DwLimits {
  import opened Machine
  import opened DwHardware
  import opened DwProtocol
  import opened DwI2c
  import opened DwProgress

  // ---------------------------------------------------------------------
  // Transfers that begin before the enable has taken effect
  // ---------------------------------------------------------------------

  lemma EntrySound(h: Hw, w: seq<byte>, rlen: nat)
    requires Valid(h) && Quiet(h) && !h.abort
    ensures Sound(Entry(h), w, rlen, h.enabled) && Entry(h).h.log.missed == 0
    ensures Entry(h).h.enabled == h.enabled && !Entry(h).h.abort
  {
    BeginUnderway(h, w, rlen, h.enabled);
  }

  /** After i iterations on a controller that is not enabled yet, i commands are lost. */
  lemma {:induction false} WritesAreMissed(h: Hw, w: seq<byte>, rlen: nat, i: nat) returns (actions: seq<Action>)
    requires Valid(h) && Quiet(h) && !h.abort && !h.enabled && i <= |w| + 1 && i <= |w| + rlen
    ensures var k := Play(Entry(h), actions, w, rlen);
      && Sound(k, w, rlen, false) && !k.h.abort && !k.h.enabled && k.h.tx == [] && k.got == []
      && k.sent == (if i <= |w| then i else |w|) && k.queued == i - k.sent && k.h.log.missed == i
  {
    EntrySound(h, w, rlen);
    if i == 0 {
      actions := [];
    } else {
      var before := WritesAreMissed(h, w, rlen, i - 1);
      var k := Play(Entry(h), before, w, rlen);
      actions := before + [Driver];
      PlayConcat(Entry(h), before, [Driver], w, rlen);
      assert [Driver][1..] == [];
      MissOne(k, w, rlen);
    }
  }

  lemma MissOne(s: Loop, w: seq<byte>, rlen: nat)
    requires Sound(s, w, rlen, false) && !s.h.abort && !s.h.enabled && s.got == []
    requires s.sent < |w| || (s.sent == |w| && s.queued < rlen && s.queued == 0)
    ensures var k := Act(s, Driver, w, rlen);
      && Sound(k, w, rlen, false) && !k.h.abort && !k.h.enabled && k.h.tx == [] && k.got == []
      && k.h.log.missed == s.h.log.missed + 1
      && k.sent == (if s.sent < |w| then s.sent + 1 else s.sent)
      && k.queued == (if s.sent < |w| then s.queued else s.queued + 1)
  {
    ActKeeps(s, Driver, w, rlen, false);
    hide Underway;
  }

  /**
    Where a transfer can be starved at all: exactly where it reads and begins on a
    controller whose enable has not taken effect.
  */
  lemma StarvesExactly(h: Hw, w: seq<byte>, rlen: nat)
    requires Valid(h) && Quiet(h) && !h.abort
    ensures (exists actions ::
               var s := Play(Entry(h), actions, w, rlen);
               s.h.enabled && !s.h.abort && s.h.log.missed > |w|)
            <==> !h.enabled && rlen > 0
  {
    EntrySound(h, w, rlen);
    if !h.enabled && rlen > 0 {
      var writes := WritesAreMissed(h, w, rlen, |w| + 1);
      var k := Play(Entry(h), writes, w, rlen);
      Enables(k, w, rlen, false);
      var actions := writes + [Hardware(FollowEnable)];
      PlayConcat(Entry(h), writes, [Hardware(FollowEnable)], w, rlen);
      assert [Hardware(FollowEnable)][1..] == [];
      var s := Play(Entry(h), actions, w, rlen);
      assert s.h.enabled && !s.h.abort && s.h.log.missed > |w|;
    } else {
      forall actions
        ensures Play(Entry(h), actions, w, rlen).h.log.missed <= |w|
      {
        PlayKeeps(Entry(h), actions, w, rlen, h.enabled);
        MissedWithin(Play(Entry(h), actions, w, rlen), w, rlen, h.enabled);
      }
    }
  }

  lemma MissedWithin(s: Loop, w: seq<byte>, rlen: nat, hot: bool)
    requires Sound(s, w, rlen, hot)
    ensures s.h.log.missed <= |w| + rlen && (hot ==> s.h.log.missed == 0)
  {
  }

  lemma LastReadCounts(a: seq<Command>, b: seq<Command>)
    requires b != [] && (a + b)[|a + b| - 1].read
    ensures Reads(b) >= 1
  {
    assert (a + b)[|a + b| - 1] == b[|b| - 1];
  }

  /** When the loop of a reading transfer has ended, only the STOP may still be settling. */
  lemma FinishedIsDone(s: Loop, w: seq<byte>, rlen: nat, hot: bool)
    requires Sound(s, w, rlen, hot) && Finished(s, w, rlen) && rlen > 0
    ensures s.h.wire == [] && s.h.tx == [] && !s.h.open && s.h.log.executed == s.h.log.accepted
    ensures s.h.log.accepted == Expected(w, rlen)[s.h.log.missed..]
  {
    var h, l, e := s.h, s.h.log, Expected(w, rlen);
    OwedReads(h, w, rlen, s.sent, s.queued, s.got, hot);
    assert l.accepted == e[l.missed..|e|] == e[l.missed..];
    var last := l.accepted[|l.accepted| - 1];
    assert last == e[|e| - 1] && last.read && last.stop;
    if h.tx != [] {
      LastReadCounts(l.executed + h.wire, h.tx);
    }
    assert l.accepted == l.executed + h.wire;
    if h.wire != [] {
      LastReadCounts(l.executed, h.wire);
    }
    assert l.accepted == l.executed;
  }

  // ---------------------------------------------------------------------
  // Success and delivery
  // ---------------------------------------------------------------------

  /** s is the state at the last abort check; after some moves of the controller the driver finds it idle. */
  predicate Reported(s: Loop, moves: seq<Move>, w: seq<byte>, rlen: nat) {
    Finished(s, w, rlen) && !MasterActive(Run(s.h, moves))
  }

  /** The STOP settles, and a reading transfer that has ended reports success. */
  lemma Settles(s: Loop, w: seq<byte>, rlen: nat, hot: bool)
    requires Sound(s, w, rlen, hot) && Finished(s, w, rlen) && rlen > 0
    ensures Reported(s, [Settle], w, rlen) && Run(s.h, [Settle]).log == s.h.log
  {
    FinishedIsDone(s, w, rlen, hot);
    RunOne(s.h, Settle);
    hide Sound;
  }

  lemma WholeMessage(h: Hw, w: seq<byte>, rlen: nat, actions: seq<Action>, moves: seq<Move>)
    requires Valid(h) && Quiet(h) && !h.abort && rlen > 0 && (h.enabled || w == [])
    requires Finished(Play(Entry(h), actions, w, rlen), w, rlen)
    ensures Run(Play(Entry(h), actions, w, rlen).h, moves).log.executed == Expected(w, rlen)
  {
    EntrySound(h, w, rlen);
    PlayKeeps(Entry(h), actions, w, rlen, h.enabled);
    var s := Play(Entry(h), actions, w, rlen);
    FinishedIsDone(s, w, rlen, h.enabled);
    MissedWithin(s, w, rlen, h.enabled);
    RunIsLater(s.h, moves);
    if s.h.log.missed > |w| {
      MissedReadBlocks(s, w, rlen, h.enabled);
    }
  }

  /** A read transfer that begins before the enable takes effect can succeed without its first byte. */
  lemma DropsFirstByte(h: Hw, w: seq<byte>, rlen: nat) returns (actions: seq<Action>)
    requires Valid(h) && Quiet(h) && !h.abort && !h.enabled && w != [] && rlen > 0
    ensures var s := Play(Entry(h), actions, w, rlen);
      Reported(s, [Settle], w, rlen) && Run(s.h, [Settle]).log.executed == Expected(w, rlen)[1..]
  {
    hide Sound, Act, Reported, Finished;
    EntrySound(h, w, rlen);
    var first := WritesAreMissed(h, w, rlen, 1);
    var k := Play(Entry(h), first, w, rlen);
    var rest := Completes(k, w, rlen, false);
    PlayConcat(Entry(h), first, rest, w, rlen);
    actions := first + rest;
    var done := Play(k, rest, w, rlen);
    PlayKeeps(k, rest, w, rlen, false);
    FinishedIsDone(done, w, rlen, false);
    Settles(done, w, rlen, false);
  }

  /** A pure write that begins before the enable takes effect can succeed with nothing sent at all. */
  lemma NothingSent(h: Hw, w: seq<byte>) returns (actions: seq<Action>)
    requires Valid(h) && Quiet(h) && !h.abort && !h.enabled && w != []
    ensures var s, l := Play(Entry(h), actions, w, 0), Run(Play(Entry(h), actions, w, 0).h, [Settle]).log;
      && Reported(s, [Settle], w, 0)
      && l.accepted == [] && l.executed == [] && l.missed == |w| && !l.aborted
  {
    actions := WritesAreMissed(h, w, 0, |w|);
    var s := Play(Entry(h), actions, w, 0);
    RunOne(s.h, Settle);
  }

  /** While bytes are left, the loop can be brought to write the next one. */
  lemma {:induction false} LastWriteQueued(s: Loop, w: seq<byte>, hot: bool) returns (actions: seq<Action>)
    requires Sound(s, w, 0, hot) && s.h.enabled && !s.h.abort && s.h.log.missed == 0 && s.sent < |w|
    ensures var k := Play(s, actions, w, 0);
      && Sound(k, w, 0, hot) && Finished(k, w, 0) && k.h.enabled && k.h.log.missed == 0 && k.h.tx != []
    decreases |w| - s.sent
  {
    AbortIsLogged(s, w, 0, hot);
    NothingQueuedYet(s, w, 0, hot);
    var moves := NoDeadlock(s.h, w, 0, s.sent, s.queued, s.got, hot);
    var k := s.(h := Run(s.h, moves));
    PlayMoves(s, moves, w, 0);
    RunUnaborted(s.h, moves);
    PlayKeeps(s, Moves(moves), w, 0, hot);
    StaysEnabled(s, Moves(moves), w, 0, hot);
    ActKeeps(k, Driver, w, 0, hot);
    WritesOne(k, w);
    hide Sound, Act, Run, DriverCanAct;
    var next := Act(k, Driver, w, 0);
    var round := Moves(moves) + [Driver];
    PlayConcat(s, Moves(moves), [Driver], w, 0);
    assert [Driver][1..] == [];
    if next.sent == |w| {
      actions := round;
    } else {
      var rest := LastWriteQueued(next, w, hot);
      actions := round + rest;
      PlayConcat(s, round, rest, w, 0);
    }
  }

  lemma WritesOne(k: Loop, w: seq<byte>)
    requires k.sent < |w| && k.queued == 0 && k.got == [] && !k.h.abort && k.h.enabled
    requires DriverCanAct(k.h, w, 0, k.sent, k.queued, |k.got|)
    ensures var n := Act(k, Driver, w, 0);
      n.sent == k.sent + 1 && n.queued == 0 && n.got == [] && n.h.tx != [] && !n.h.abort && n.h.enabled
  {
  }

  /** The controller works until the last queued command is the one on the wire. */
  lemma {:induction false} LastOnWire(h: Hw) returns (moves: seq<Move>)
    requires Valid(h) && h.enabled && h.tx != []
    ensures var k := Run(h, moves); k.tx == [] && k.wire != [] && k.abort == h.abort
    decreases Worklist(h)
  {
    if h.wire == [] && |h.tx| == 1 {
      moves := [Fetch];
      RunOne(h, Fetch);
    } else {
      var m := Useful(h);
      UsefulMove(h);
      MoveKeeps(h, m);
      var rest := LastOnWire(Apply(h, m));
      moves := [m] + rest;
      assert moves[1..] == rest;
    }
  }

  /**
    Every pure write, on every quiet and enabled controller, can be reported successful
    although its last byte was refused: an abort latched after the final abort check ends
    the master activity that the idle check is waiting for.
  */
  lemma PureWriteMayBeLost(h: Hw, w: seq<byte>) returns (actions: seq<Action>, moves: seq<Move>)
    requires Valid(h) && Quiet(h) && !h.abort && h.enabled && w != []
    ensures var s, l := Play(Entry(h), actions, w, 0), Run(Play(Entry(h), actions, w, 0).h, moves).log;
      && Reported(s, moves, w, 0)
      && l.accepted == Expected(w, 0) && l.executed == Expected(w, 0)[..|w| - 1] && l.aborted
  {
    EntrySound(h, w, 0);
    hide Valid, Later, Underway, Act, Run, MasterActive, Entry;
    actions := LastWriteQueued(Entry(h), w, true);
    var s := Play(Entry(h), actions, w, 0);
    var work := LastOnWire(s.h);
    var k := Run(s.h, work);
    RunIsLater(s.h, work);
    LaterUnderway(s.h, k, w, 0, s.sent, s.queued, s.got, true);
    moves := work + [Abort(false), Settle];
    RunConcat(s.h, work, [Abort(false), Settle]);
    RefusedThenIdle(k);
    LastIsLeft(k, w, s.sent, s.queued, s.got);
  }

  lemma RefusedThenIdle(k: Hw)
    requires k.tx == [] && k.wire != []
    ensures var z := Run(k, [Abort(false), Settle]);
      && !MasterActive(z) && z.log.aborted
      && z.log.accepted == k.log.accepted && z.log.executed == k.log.executed
  {
    RunTwo(k, Abort(false), Settle);
  }

  lemma LastIsLeft(k: Hw, w: seq<byte>, sent: nat, queued: nat, got: seq<byte>)
    requires Valid(k) && Underway(k, w, 0, sent, queued, got, true) && sent == |w| != 0
    requires k.tx == [] && k.wire != [] && !k.abort
    ensures k.log.accepted == Expected(w, 0) && k.log.executed == Expected(w, 0)[..|w| - 1]
  {
    var e, l := Expected(w, 0), k.log;
    assert l.accepted == e[0..|w|] == e;
    assert l.accepted == l.executed + k.wire;
  }

  /**
    Success means that the whole message ran, however the controller moves, if and
    only if bytes are read and either the controller reported itself enabled when the
    transfer began or there was nothing to write. A pure write is never certain.
  */
  lemma DeliversExactly(h: Hw, w: seq<byte>, rlen: nat)
    requires Valid(h) && Quiet(h) && !h.abort && |w| + rlen > 0
    ensures (forall actions, moves :: Reported(Play(Entry(h), actions, w, rlen), moves, w, rlen) ==>
               Run(Play(Entry(h), actions, w, rlen).h, moves).log.executed == Expected(w, rlen))
            <==> rlen > 0 && (h.enabled || w == [])
  {
    hide Play, Run;
    if rlen > 0 && (h.enabled || w == []) {
      forall actions, moves | Reported(Play(Entry(h), actions, w, rlen), moves, w, rlen)
        ensures Run(Play(Entry(h), actions, w, rlen).h, moves).log.executed == Expected(w, rlen)
      {
        WholeMessage(h, w, rlen, actions, moves);
      }
    } else {
      var actions: seq<Action>, moves: seq<Move> := [], [Settle];
      if rlen > 0 {
        actions := DropsFirstByte(h, w, rlen);
      } else if !h.enabled {
        actions := NothingSent(h, w);
      } else {
        actions, moves := PureWriteMayBeLost(h, w);
      }
      assert Reported(Play(Entry(h), actions, w, rlen), moves, w, rlen);
      assert Run(Play(Entry(h), actions, w, rlen).h, moves).log.executed != Expected(w, rlen);
    }
  }

  // ---------------------------------------------------------------------
  // A read on a stuck controller
  // ---------------------------------------------------------------------

  /** A re-initialisation during which the controller follows its enable bit both times. */
  function Reinitialised(h: Hw, addr: byte): Hw {
    var off := Run(SetEnable(h, false), [FollowEnable]);
    Run(SetEnable(Configure(off, InitConfig(h.config, addr, None)), true), [FollowEnable])
  }

  /** A write whose first byte is refused after its address was acknowledged. */
  function FirstByteRefused(h: Hw, w: seq<byte>): Hw
    requires w != []
  {
    Run(PutCommand(Begin(ClearAbort(h)), Nth(w, 0, 0)), [Fetch, AddressAck, Abort(false)])
  }

  /** The recovery from it, with a disable that does not take effect while it is waited for. */
  function StuckRecovery(h: Hw): Hw {
    SetEnable(ClearAbort(h), false)
  }

  /**
    Whatever the controller was doing: a re-initialisation succeeds, the write that
    follows is refused after its address was acknowledged, its recovery leaves a
    disable outstanding, and a read queued next is accepted all the same.
  */
  lemma DisableMayStick(h: Hw, addr: byte, w: seq<byte>, rlen: nat) returns (at: Hw)
    requires Valid(h) && w != [] && rlen > 0
    ensures var started := Reinitialised(h, addr);
      && Quiet(started) && started.enabled && started.config == InitConfig(h.config, addr, None)
      && FirstByteRefused(started, w).abort && !FirstByteRefused(started, w).addrNak
      && at == StuckRecovery(FirstByteRefused(started, w))
    ensures Valid(at) && !at.wanted && at.enabled && at.config == InitConfig(h.config, addr, None)
    ensures at.log.issued == [Nth(w, 0, 0)]
    ensures PutCommand(Begin(ClearAbort(at)), Nth([], rlen, 0)).log.accepted == [Nth([], rlen, 0)]
  {
    RestartedFacts(h, addr);
    var started := Reinitialised(h, addr);
    RefusedFacts(started, w);
    at := StuckRecovery(FirstByteRefused(started, w));
  }

  lemma RestartedFacts(h: Hw, addr: byte)
    requires Valid(h)
    ensures var k := Reinitialised(h, addr);
      Valid(k) && Quiet(k) && k.enabled && k.config == InitConfig(h.config, addr, None)
  {
    var off := Run(SetEnable(h, false), [FollowEnable]);
    SwitchedOff(h);
    var programmed := Configure(off, InitConfig(h.config, addr, None));
    RunOne(SetEnable(programmed, true), FollowEnable);
    MoveKeeps(SetEnable(programmed, true), FollowEnable);
  }

  lemma SwitchedOff(h: Hw)
    requires Valid(h)
    ensures var off := Run(SetEnable(h, false), [FollowEnable]);
      Valid(off) && !off.enabled && !off.wanted && off.config == h.config
  {
    RunOne(SetEnable(h, false), FollowEnable);
    MoveKeeps(SetEnable(h, false), FollowEnable);
  }

  lemma RefusedFacts(h: Hw, w: seq<byte>)
    requires Valid(h) && Quiet(h) && h.enabled && w != []
    ensures var k := FirstByteRefused(h, w);
      Valid(k) && k.abort && !k.addrNak && k.enabled && k.wanted && k.config == h.config && k.tx == [] && k.wire == []
  {
    var begun := Begin(ClearAbort(h));
    PutKeepsValid(begun, Nth(w, 0, 0));
    var put := PutCommand(begun, Nth(w, 0, 0));
    RunThree(put, Fetch, AddressAck, Abort(false));
    MoveKeeps(put, Fetch);
    MoveKeeps(Apply(put, Fetch), AddressAck);
    MoveKeeps(Apply(Apply(put, Fetch), AddressAck), Abort(false));
  }
}
