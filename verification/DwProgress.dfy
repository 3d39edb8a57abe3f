/**
  Whether a transfer can get to its end. The main loop is played against the
  controller, iteration by iteration, with any moves of the controller in between.
*/
module DwProgress {
  import opened Machine
  import opened DwHardware
  import opened DwProtocol

  // ---------------------------------------------------------------------
  // What the controller owes
  // ---------------------------------------------------------------------

  /** READs written before the enable took effect; the FIFO never saw them. */
  function MissedReads(l: Log, w: seq<byte>): nat {
    if l.missed <= |w| then 0 else l.missed - |w|
  }

  /** Queued but undrained reads are all in the controller, but for the missed ones. */
  lemma OwedReads(h: Hw, w: seq<byte>, rlen: nat, sent: nat, queued: nat, got: seq<byte>, hot: bool)
    requires Valid(h) && Underway(h, w, rlen, sent, queued, got, hot) && !h.log.aborted
    ensures Outstanding(h) + MissedReads(h.log, w) == queued - |got|
  {
    var l := h.log;
    ReadsConcat(l.executed + h.wire, h.tx);
    ReadsConcat(l.executed, h.wire);
    SliceReads(w, rlen, l.missed, l.missed + |l.accepted|);
  }

  /** The next loop iteration writes a command or drains a byte. */
  predicate DriverCanAct(h: Hw, w: seq<byte>, rlen: nat, sent: nat, queued: nat, got: nat) {
    || (sent < |w| && |h.tx| < h.txDepth)
    || (sent == |w| && queued < rlen && |h.tx| < h.txDepth && queued - got < RX_INFLIGHT_MAX)
    || (got < queued && h.rx != [])
  }

  /** The controller keeps working through what it has been given. */
  function Worklist(h: Hw): nat {
    3 * |h.tx| + (if h.wire == [] then 0 else if h.addressing then 2 else 1)
  }

  /** Some move of the controller, other than an abort, brings it closer to completion. */
  function Useful(h: Hw): Move {
    if h.wire == [] then Fetch else if h.addressing then AddressAck else Complete(0)
  }

  lemma UsefulMove(h: Hw)
    requires Valid(h) && (h.wire != [] || (h.enabled && h.tx != []))
    ensures !Useful(h).Abort? && Possible(h, Useful(h))
    ensures Worklist(Apply(h, Useful(h))) < Worklist(h)
    ensures Apply(h, Useful(h)).abort == h.abort && Apply(h, Useful(h)).enabled == h.enabled
    ensures Apply(h, Useful(h)).log.aborted == h.log.aborted
  {
  }

  /** While the driver cannot act, the controller has something to work on. */
  lemma ControllerBusy(h: Hw, w: seq<byte>, rlen: nat, sent: nat, queued: nat, got: seq<byte>, hot: bool)
    requires Valid(h) && Underway(h, w, rlen, sent, queued, got, hot)
    requires h.log.missed <= |w| && !h.log.aborted
    requires sent < |w| || queued < rlen || |got| < rlen
    requires !DriverCanAct(h, w, rlen, sent, queued, |got|)
    ensures h.wire != [] || (h.enabled && h.tx != [])
  {
    OwedReads(h, w, rlen, sent, queued, got, hot);
  }

  /**
    From every state of an unaborted transfer that began on a quiet controller, with
    work left and no READ missed, either the driver's next iteration acts, or the controller can, by moves of its
    own and without an abort, reach a state where it does.
  */
  lemma {:induction false} NoDeadlock(h: Hw, w: seq<byte>, rlen: nat, sent: nat, queued: nat, got: seq<byte>,
                                      hot: bool) returns (moves: seq<Move>)
    requires Valid(h) && Underway(h, w, rlen, sent, queued, got, hot)
    requires h.log.missed <= |w| && !h.log.aborted
    requires sent < |w| || queued < rlen || |got| < rlen
    ensures forall m :: m in moves ==> !m.Abort?
    ensures |moves| <= Worklist(h)
    ensures DriverCanAct(Run(h, moves), w, rlen, sent, queued, |got|)
    decreases Worklist(h)
  {
    if DriverCanAct(h, w, rlen, sent, queued, |got|) {
      moves := [];
    } else {
      ControllerBusy(h, w, rlen, sent, queued, got, hot);
      var m := Useful(h);
      var k := Apply(h, m);
      UsefulMove(h);
      MoveKeeps(h, m);
      MoveIsLater(h, m);
      LaterUnderway(h, k, w, rlen, sent, queued, got, hot);
      var rest := NoDeadlock(k, w, rlen, sent, queued, got, hot);
      moves := [m] + rest;
      assert moves[1..] == rest;
    }
  }

  // ---------------------------------------------------------------------
  // The loop against the controller
  // ---------------------------------------------------------------------

  datatype Loop = Loop(h: Hw, sent: nat, queued: nat, got: seq<byte>)

  datatype Action = Hardware(m: Move) | Driver

  /** First half of an iteration. */
  function QueueOne(s: Loop, w: seq<byte>, rlen: nat): Loop {
    if s.sent < |w| && |s.h.tx| < s.h.txDepth then
      s.(h := PutCommand(s.h, Nth(w, rlen, s.sent)), sent := s.sent + 1)
    else if MayQueueRead(s, w, rlen) then
      s.(h := PutCommand(s.h, Nth(w, rlen, |w| + s.queued)), queued := s.queued + 1)
    else s
  }

  /** Second half. */
  function DrainOne(s: Loop): Loop {
    if |s.got| < s.queued && s.h.rx != [] then s.(h := TakeByte(s.h), got := s.got + [s.h.rx[0]]) else s
  }

  /** An iteration; once an abort has latched the driver leaves the loop. */
  function Act(s: Loop, a: Action, w: seq<byte>, rlen: nat): Loop {
    match a
    case Hardware(m) => s.(h := Apply(s.h, m))
    case Driver => if s.h.abort then s else DrainOne(QueueOne(s, w, rlen))
  }

  function Play(s: Loop, actions: seq<Action>, w: seq<byte>, rlen: nat): Loop
    decreases |actions|
  {
    if actions == [] then s else Play(Act(s, actions[0], w, rlen), actions[1..], w, rlen)
  }

  predicate Sound(s: Loop, w: seq<byte>, rlen: nat, hot: bool) {
    Valid(s.h) && Underway(s.h, w, rlen, s.sent, s.queued, s.got, hot)
  }

  /** The loop has ended by itself. */
  predicate Finished(s: Loop, w: seq<byte>, rlen: nat) {
    s.sent == |w| && s.queued == rlen && |s.got| == rlen && !s.h.abort
  }

  /** Where the loop begins. */
  function Entry(h: Hw): Loop {
    Loop(Begin(h), 0, 0, [])
  }

  function Work(s: Loop, w: seq<byte>, rlen: nat): int {
    |w| - s.sent + rlen - s.queued + rlen - |s.got|
  }

  lemma PutFacts(h: Hw, c: Command)
    ensures PutCommand(h, c).abort == h.abort && PutCommand(h, c).enabled == h.enabled
    ensures PutCommand(h, c).rx == h.rx
    ensures h.log.missed <= PutCommand(h, c).log.missed
    ensures h.enabled ==> PutCommand(h, c).log.missed == h.log.missed
  {
    if !h.enabled {
    } else if h.abort || |h.tx| >= h.txDepth {
    }
  }

  predicate MayQueueRead(s: Loop, w: seq<byte>, rlen: nat) {
    s.sent == |w| && s.queued < rlen && |s.h.tx| < s.h.txDepth && s.queued - |s.got| < RX_INFLIGHT_MAX
  }

  /** What the first half of an iteration leaves alone. */
  predicate Queued(s: Loop, k: Loop) {
    && k.h.abort == s.h.abort && k.h.enabled == s.h.enabled && k.h.rx == s.h.rx && k.got == s.got
    && s.h.log.missed <= k.h.log.missed && (s.h.enabled ==> k.h.log.missed == s.h.log.missed)
    && s.queued <= k.queued
  }

  lemma QueueWriteKeeps(s: Loop, w: seq<byte>, rlen: nat, hot: bool)
    requires Sound(s, w, rlen, hot) && s.sent < |w| && |s.h.tx| < s.h.txDepth
    ensures var k := QueueOne(s, w, rlen);
      Sound(k, w, rlen, hot) && Queued(s, k) && Work(k, w, rlen) < Work(s, w, rlen)
  {
    NothingQueuedYet(s, w, rlen, hot);
    hide Valid, Underway, PutCommand, Nth;
    PutFacts(s.h, Nth(w, rlen, s.sent));
    PutWriteUnderway(s.h, w, rlen, s.sent, s.got, hot);
    PutKeepsValid(s.h, Nth(w, rlen, s.sent));
  }

  lemma QueueReadKeeps(s: Loop, w: seq<byte>, rlen: nat, hot: bool)
    requires Sound(s, w, rlen, hot) && MayQueueRead(s, w, rlen)
    ensures var k := QueueOne(s, w, rlen);
      Sound(k, w, rlen, hot) && Queued(s, k) && Work(k, w, rlen) < Work(s, w, rlen)
  {
    hide Valid, Underway, PutCommand, Nth;
    PutFacts(s.h, Nth(w, rlen, |w| + s.queued));
    PutReadUnderway(s.h, w, rlen, s.queued, s.got, hot);
    PutKeepsValid(s.h, Nth(w, rlen, |w| + s.queued));
  }

  lemma QueueKeeps(s: Loop, w: seq<byte>, rlen: nat, hot: bool)
    requires Sound(s, w, rlen, hot)
    ensures var k := QueueOne(s, w, rlen);
      && Sound(k, w, rlen, hot) && Queued(s, k) && Work(k, w, rlen) <= Work(s, w, rlen)
      && (DriverCanAct(s.h, w, rlen, s.sent, s.queued, |s.got|) ==>
            Work(k, w, rlen) < Work(s, w, rlen) || (|s.got| < s.queued && s.h.rx != []))
  {
    hide Sound, PutCommand, Nth;
    if s.sent < |w| && |s.h.tx| < s.h.txDepth {
      QueueWriteKeeps(s, w, rlen, hot);
    } else if MayQueueRead(s, w, rlen) {
      QueueReadKeeps(s, w, rlen, hot);
    }
  }

  lemma NothingQueuedYet(s: Loop, w: seq<byte>, rlen: nat, hot: bool)
    requires Sound(s, w, rlen, hot)
    ensures s.sent < |w| ==> s.queued == 0
    ensures |s.got| <= s.queued <= rlen && s.sent <= |w|
  {
  }

  lemma DrainKeeps(s: Loop, w: seq<byte>, rlen: nat, hot: bool)
    requires Sound(s, w, rlen, hot)
    ensures var k := DrainOne(s);
      && Sound(k, w, rlen, hot) && k.h.abort == s.h.abort && k.h.enabled == s.h.enabled
      && k.h.log.missed == s.h.log.missed && Work(k, w, rlen) <= Work(s, w, rlen)
      && (|s.got| < s.queued && s.h.rx != [] ==> Work(k, w, rlen) < Work(s, w, rlen))
  {
    if |s.got| < s.queued && s.h.rx != [] {
      TakeUnderway(s.h, w, rlen, s.sent, s.queued, s.got, hot);
    }
    hide Valid, Underway;
  }

  lemma ActKeeps(s: Loop, a: Action, w: seq<byte>, rlen: nat, hot: bool)
    requires Sound(s, w, rlen, hot)
    ensures Sound(Act(s, a, w, rlen), w, rlen, hot)
    ensures s.h.log.missed <= Act(s, a, w, rlen).h.log.missed
    ensures s.h.enabled ==> Act(s, a, w, rlen).h.enabled && Act(s, a, w, rlen).h.log.missed == s.h.log.missed
  {
    match a
    case Hardware(m) =>
      MoveKeeps(s.h, m);
      MoveIsLater(s.h, m);
      LaterUnderway(s.h, Apply(s.h, m), w, rlen, s.sent, s.queued, s.got, hot);
    case Driver =>
      hide Valid, Underway, QueueOne, DrainOne;
      QueueKeeps(s, w, rlen, hot);
      DrainKeeps(QueueOne(s, w, rlen), w, rlen, hot);
  }

  lemma DriverWorks(s: Loop, w: seq<byte>, rlen: nat, hot: bool)
    requires Sound(s, w, rlen, hot) && !s.h.abort && DriverCanAct(s.h, w, rlen, s.sent, s.queued, |s.got|)
    ensures Work(Act(s, Driver, w, rlen), w, rlen) < Work(s, w, rlen) && !Act(s, Driver, w, rlen).h.abort
  {
    hide Valid, Underway, QueueOne, DrainOne, DriverCanAct;
    QueueKeeps(s, w, rlen, hot);
    DrainKeeps(QueueOne(s, w, rlen), w, rlen, hot);
  }

  /** Over every run of the loop, whatever the controller does. */
  lemma {:induction false} PlayKeeps(s: Loop, actions: seq<Action>, w: seq<byte>, rlen: nat, hot: bool)
    requires Sound(s, w, rlen, hot)
    ensures Sound(Play(s, actions, w, rlen), w, rlen, hot)
    ensures s.h.log.missed <= Play(s, actions, w, rlen).h.log.missed
    ensures s.h.enabled ==> Play(s, actions, w, rlen).h.log.missed == s.h.log.missed
    decreases |actions|
  {
    hide Sound, Act;
    if actions != [] {
      ActKeeps(s, actions[0], w, rlen, hot);
      PlayKeeps(Act(s, actions[0], w, rlen), actions[1..], w, rlen, hot);
    }
  }

  lemma {:induction false} PlayConcat(s: Loop, a: seq<Action>, b: seq<Action>, w: seq<byte>, rlen: nat)
    ensures Play(s, a + b, w, rlen) == Play(Play(s, a, w, rlen), b, w, rlen)
    decreases |a|
  {
    hide Act;
    if a == [] {
      assert a + b == b;
    } else {
      assert (a + b)[0] == a[0] && (a + b)[1..] == a[1..] + b;
      PlayConcat(Act(s, a[0], w, rlen), a[1..], b, w, rlen);
    }
  }

  function Moves(moves: seq<Move>): (a: seq<Action>)
    ensures |a| == |moves|
  {
    seq(|moves|, i requires 0 <= i < |moves| => Hardware(moves[i]))
  }

  lemma {:induction false} PlayMoves(s: Loop, moves: seq<Move>, w: seq<byte>, rlen: nat)
    ensures Play(s, Moves(moves), w, rlen) == s.(h := Run(s.h, moves))
    decreases |moves|
  {
    hide Apply;
    if moves != [] {
      assert Moves(moves)[1..] == Moves(moves[1..]);
      PlayMoves(s.(h := Apply(s.h, moves[0])), moves[1..], w, rlen);
    }
  }

  lemma MoveUnaborted(h: Hw, m: Move)
    requires !m.Abort?
    ensures Apply(h, m).abort == h.abort
  {
  }

  lemma {:induction false} RunUnaborted(h: Hw, moves: seq<Move>)
    requires forall m :: m in moves ==> !m.Abort?
    ensures Run(h, moves).abort == h.abort
    decreases |moves|
  {
    hide Apply;
    if moves != [] {
      assert moves[0] in moves;
      MoveUnaborted(h, moves[0]);
      assert forall m :: m in moves[1..] ==> m in moves;
      RunUnaborted(Apply(h, moves[0]), moves[1..]);
    }
  }

  // ---------------------------------------------------------------------
  // A transfer can end exactly if no READ was missed
  // ---------------------------------------------------------------------

  lemma AbortIsLogged(s: Loop, w: seq<byte>, rlen: nat, hot: bool)
    requires Sound(s, w, rlen, hot)
    ensures s.h.abort == s.h.log.aborted
  {
  }

  /** One round of moves and one iteration that brings an enabled loop closer to its end. */
  lemma OneRound(s: Loop, w: seq<byte>, rlen: nat, hot: bool) returns (actions: seq<Action>)
    requires Sound(s, w, rlen, hot) && !s.h.abort && s.h.log.missed <= |w| && !Finished(s, w, rlen)
    ensures var k := Play(s, actions, w, rlen); !k.h.abort && Work(k, w, rlen) < Work(s, w, rlen)
  {
    AbortIsLogged(s, w, rlen, hot);
    assert s.sent <= |w| && s.queued <= rlen && |s.got| <= s.queued;
    var moves := NoDeadlock(s.h, w, rlen, s.sent, s.queued, s.got, hot);
    hide Sound, Act, Run, DriverCanAct;
    RunUnaborted(s.h, moves);
    PlayMoves(s, moves, w, rlen);
    PlayKeeps(s, Moves(moves), w, rlen, hot);
    var k := Play(s, Moves(moves), w, rlen);
    DriverWorks(k, w, rlen, hot);
    actions := Moves(moves) + [Driver];
    PlayConcat(s, Moves(moves), [Driver], w, rlen);
    assert [Driver][1..] == [];
  }

  lemma WorkNatural(s: Loop, w: seq<byte>, rlen: nat, hot: bool)
    requires Sound(s, w, rlen, hot)
    ensures Work(s, w, rlen) >= 0
  {
  }

  lemma {:induction false} CompletesEnabled(s: Loop, w: seq<byte>, rlen: nat, hot: bool)
    returns (actions: seq<Action>)
    requires Sound(s, w, rlen, hot) && s.h.enabled && !s.h.abort && s.h.log.missed <= |w|
    ensures Finished(Play(s, actions, w, rlen), w, rlen)
    ensures Play(s, actions, w, rlen).h.log.missed == s.h.log.missed
    decreases Work(s, w, rlen)
  {
    hide Sound, Act, Finished;
    if Finished(s, w, rlen) {
      actions := [];
    } else {
      var round := OneRound(s, w, rlen, hot);
      var k := Play(s, round, w, rlen);
      PlayKeeps(s, round, w, rlen, hot);
      StaysEnabled(s, round, w, rlen, hot);
      WorkNatural(k, w, rlen, hot);
      var rest := CompletesEnabled(k, w, rlen, hot);
      actions := round + rest;
      PlayConcat(s, round, rest, w, rlen);
    }
  }

  lemma {:induction false} StaysEnabled(s: Loop, actions: seq<Action>, w: seq<byte>, rlen: nat, hot: bool)
    requires Sound(s, w, rlen, hot) && s.h.enabled
    ensures Play(s, actions, w, rlen).h.enabled
    decreases |actions|
  {
    hide Sound, Act;
    if actions != [] {
      ActKeeps(s, actions[0], w, rlen, hot);
      StaysEnabled(Act(s, actions[0], w, rlen), actions[1..], w, rlen, hot);
    }
  }

  /** The enable takes effect. */
  lemma Enables(s: Loop, w: seq<byte>, rlen: nat, hot: bool)
    requires Sound(s, w, rlen, hot)
    ensures var k := Act(s, Hardware(FollowEnable), w, rlen);
      k.h.enabled && k.h.abort == s.h.abort && k.h.log.missed == s.h.log.missed
  {
  }

  lemma Completes(s: Loop, w: seq<byte>, rlen: nat, hot: bool) returns (actions: seq<Action>)
    requires Sound(s, w, rlen, hot) && !s.h.abort && s.h.log.missed <= |w|
    ensures Finished(Play(s, actions, w, rlen), w, rlen)
    ensures Play(s, actions, w, rlen).h.log.missed == s.h.log.missed
  {
    hide Sound, Act, Finished;
    var k := Act(s, Hardware(FollowEnable), w, rlen);
    ActKeeps(s, Hardware(FollowEnable), w, rlen, hot);
    Enables(s, w, rlen, hot);
    var rest := CompletesEnabled(k, w, rlen, hot);
    actions := [Hardware(FollowEnable)] + rest;
    assert actions[1..] == rest;
  }

  lemma MissedReadBlocks(s: Loop, w: seq<byte>, rlen: nat, hot: bool)
    requires Sound(s, w, rlen, hot) && s.h.log.missed > |w|
    ensures !Finished(s, w, rlen)
  {
    if Finished(s, w, rlen) {
      OwedReads(s.h, w, rlen, s.sent, s.queued, s.got, hot);
    }
  }

  /**
    From every unaborted state of a transfer that began on a quiet controller: there is
    a way on to its end if and only if no READ was written before the enable took effect.
    Otherwise no run, however long, gets there, and the loop ends in a timeout or an abort.
  */
  lemma CompletesExactly(s: Loop, w: seq<byte>, rlen: nat, hot: bool)
    requires Sound(s, w, rlen, hot) && !s.h.abort
    ensures (exists actions :: Finished(Play(s, actions, w, rlen), w, rlen)) <==> s.h.log.missed <= |w|
  {
    hide Sound, Play, Finished;
    if s.h.log.missed <= |w| {
      var actions := Completes(s, w, rlen, hot);
      assert Finished(Play(s, actions, w, rlen), w, rlen);
    } else {
      forall actions
        ensures !Finished(Play(s, actions, w, rlen), w, rlen)
      {
        PlayKeeps(s, actions, w, rlen, hot);
        MissedReadBlocks(Play(s, actions, w, rlen), w, rlen, hot);
      }
    }
  }

  // ---------------------------------------------------------------------
  // Transfers that begin while a disable is outstanding
  // ---------------------------------------------------------------------

  /**
    All that is left of the invariant then. The FIFOs may hold commands and bytes of
    earlier transfers; until the disable takes effect they only add to what is owed.
  */
  predicate Overdue(s: Loop, w: seq<byte>, rlen: nat) {
    && Valid(s.h) && !s.h.wanted
    && s.sent <= |w| && s.queued <= rlen && |s.got| <= s.queued && (s.queued > 0 ==> s.sent == |w|)
    && s.queued - |s.got| <= RX_INFLIGHT_MAX
    && (s.h.enabled && !s.h.abort ==> Outstanding(s.h) >= s.queued - |s.got|)
  }

  lemma EntryOverdue(h: Hw, w: seq<byte>, rlen: nat)
    requires Valid(h) && !h.wanted
    ensures Overdue(Entry(h), w, rlen)
  {
  }

  /** A byte is only ever lost where eight more are waiting. */
  lemma StillOwed(h: Hw, m: Move, owed: nat)
    requires Valid(h) && owed <= RX_INFLIGHT_MAX && Outstanding(h) >= owed
    requires Apply(h, m).enabled && !Apply(h, m).abort
    ensures Outstanding(Apply(h, m)) >= owed
  {
    if m.Fetch? && h.tx != [] {
      ReadsConcat([h.tx[0]], h.tx[1..]);
      assert [h.tx[0]] + h.tx[1..] == h.tx;
    }
  }

  lemma MoveOverdue(s: Loop, m: Move, w: seq<byte>, rlen: nat)
    requires Overdue(s, w, rlen)
    ensures Overdue(Act(s, Hardware(m), w, rlen), w, rlen)
    ensures Act(s, Hardware(m), w, rlen).h.enabled ==> s.h.enabled
  {
    MoveKeeps(s.h, m);
    MoveIsLater(s.h, m);
    hide Valid, Apply, Outstanding;
    var k := Apply(s.h, m);
    if k.enabled && !k.abort {
      StillOwed(s.h, m, s.queued - |s.got|);
    }
  }

  lemma OneMoreOwed(h: Hw, c: Command)
    requires h.enabled && !h.abort && |h.tx| < h.txDepth
    ensures Outstanding(PutCommand(h, c)) == Outstanding(h) + (if c.read then 1 else 0)
    ensures PutCommand(h, c).enabled && !PutCommand(h, c).abort
  {
    assert (h.tx + [c])[..|h.tx|] == h.tx;
  }

  lemma QueueOverdue(s: Loop, w: seq<byte>, rlen: nat)
    requires Overdue(s, w, rlen) && !s.h.abort
    ensures var k := QueueOne(s, w, rlen);
      && Overdue(k, w, rlen) && Queued(s, k)
      && (k == s || Work(k, w, rlen) < Work(s, w, rlen))
  {
    hide Valid, PutCommand, Nth, Outstanding;
    var n := if s.sent < |w| then s.sent else |w| + s.queued;
    if (s.sent < |w| && |s.h.tx| < s.h.txDepth) || MayQueueRead(s, w, rlen) {
      assert Nth(w, rlen, n).read == (s.sent == |w|) by { WhichRead(w, rlen, n); }
      PutFacts(s.h, Nth(w, rlen, n));
      PutKeepsValid(s.h, Nth(w, rlen, n));
      PutStays(s.h, Nth(w, rlen, n));
      if s.h.enabled {
        OneMoreOwed(s.h, Nth(w, rlen, n));
      }
    }
  }

  lemma WhichRead(w: seq<byte>, rlen: nat, n: nat)
    requires n < |w| + rlen
    ensures Nth(w, rlen, n).read == (n >= |w|)
  {
  }

  lemma PutStays(h: Hw, c: Command)
    ensures PutCommand(h, c).wanted == h.wanted
  {
  }

  lemma DrainOverdue(s: Loop, w: seq<byte>, rlen: nat)
    requires Overdue(s, w, rlen)
    ensures var k := DrainOne(s);
      && Overdue(k, w, rlen) && k.h.abort == s.h.abort && k.h.enabled == s.h.enabled
      && (k == s || Work(k, w, rlen) < Work(s, w, rlen))
  {
    if s.h.rx != [] {
      TakeKeepsValid(s.h);
    }
    hide Valid;
  }

  lemma DriverOverdue(s: Loop, w: seq<byte>, rlen: nat)
    requires Overdue(s, w, rlen) && !s.h.abort
    ensures var k := Act(s, Driver, w, rlen);
      && Overdue(k, w, rlen) && !k.h.abort && k.h.enabled == s.h.enabled
      && (DriverCanAct(s.h, w, rlen, s.sent, s.queued, |s.got|) ==> Work(k, w, rlen) < Work(s, w, rlen))
  {
    QueueOverdue(s, w, rlen);
    DrainOverdue(QueueOne(s, w, rlen), w, rlen);
    hide Overdue, PutCommand, TakeByte, Nth;
  }

  /** As long as the disable has not taken effect, there is a way on. */
  lemma {:induction false} OverdueCompletes(s: Loop, w: seq<byte>, rlen: nat) returns (actions: seq<Action>)
    requires Overdue(s, w, rlen) && s.h.enabled && !s.h.abort
    ensures Finished(Play(s, actions, w, rlen), w, rlen)
    decreases Work(s, w, rlen), Worklist(s.h)
  {
    if Finished(s, w, rlen) {
      return [];
    }
    var a: Action;
    if DriverCanAct(s.h, w, rlen, s.sent, s.queued, |s.got|) {
      a := Driver;
      DriverOverdue(s, w, rlen);
    } else {
      a := Hardware(Useful(s.h));
      UsefulMove(s.h);
      MoveOverdue(s, Useful(s.h), w, rlen);
    }
    hide Act, Overdue, DriverCanAct;
    WorkOverdue(Act(s, a, w, rlen), w, rlen);
    var rest := OverdueCompletes(Act(s, a, w, rlen), w, rlen);
    actions := [a] + rest;
    assert actions[1..] == rest;
  }

  lemma WorkOverdue(s: Loop, w: seq<byte>, rlen: nat)
    requires Overdue(s, w, rlen)
    ensures Work(s, w, rlen) >= 0
  {
  }

  /** Once it has, nothing arrives any more. */
  lemma {:induction false} NothingArrives(s: Loop, actions: seq<Action>, w: seq<byte>, rlen: nat)
    requires Overdue(s, w, rlen) && !s.h.enabled
    ensures Play(s, actions, w, rlen).got == s.got
    decreases |actions|
  {
    if actions != [] {
      var k := Act(s, actions[0], w, rlen);
      if actions[0].Hardware? {
        MoveOverdue(s, actions[0].m, w, rlen);
      } else if !s.h.abort {
        DriverOverdue(s, w, rlen);
      }
      assert s.h.rx == [];
      assert k.got == s.got;
      hide Act, Overdue;
      NothingArrives(k, actions[1..], w, rlen);
    }
  }

  /** On a disabled controller the remaining writes go through at once, into nothing. */
  lemma {:induction false} OverdueWrites(s: Loop, w: seq<byte>, rlen: nat) returns (actions: seq<Action>)
    requires Overdue(s, w, rlen) && !s.h.enabled && !s.h.abort && |s.got| == rlen
    ensures Finished(Play(s, actions, w, rlen), w, rlen)
    decreases Work(s, w, rlen)
  {
    if Finished(s, w, rlen) {
      return [];
    }
    DriverOverdue(s, w, rlen);
    var k := Act(s, Driver, w, rlen);
    assert k.got == s.got;
    WorkOverdue(k, w, rlen);
    var rest := OverdueWrites(k, w, rlen);
    actions := [Driver] + rest;
    assert actions[1..] == rest;
  }

  /**
    From every unaborted state of a transfer that began while a disable was outstanding,
    whatever the FIFOs held: there is a way on to its end if and only if the disable has
    not taken effect yet, or nothing is left to be read.
  */
  lemma OverdueCompletesExactly(s: Loop, w: seq<byte>, rlen: nat)
    requires Overdue(s, w, rlen) && !s.h.abort
    ensures (exists actions :: Finished(Play(s, actions, w, rlen), w, rlen)) <==> s.h.enabled || |s.got| == rlen
  {
    hide Play;
    if s.h.enabled {
      var actions := OverdueCompletes(s, w, rlen);
      assert Finished(Play(s, actions, w, rlen), w, rlen);
    } else if |s.got| == rlen {
      var actions := OverdueWrites(s, w, rlen);
      assert Finished(Play(s, actions, w, rlen), w, rlen);
    } else {
      forall actions
        ensures !Finished(Play(s, actions, w, rlen), w, rlen)
      {
        NothingArrives(s, actions, w, rlen);
      }
    }
  }
}
