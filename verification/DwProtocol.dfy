/**
  What a combined transfer puts on the bus, and the invariant that ties the
  driver's three counters to the state of the controller.
*/
module DwProtocol {
  import opened Machine
  import opened DwHardware

  // ---------------------------------------------------------------------
  // Effect of the driver's register accesses on the controller
  // ---------------------------------------------------------------------

  /** A write to IC_DATA_CMD. */
  function PutCommand(h: Hw, c: Command): Hw {
    var l := h.log.(issued := h.log.issued + [c]);
    if !h.enabled then h.(log := l.(missed := l.missed + 1))
    else if h.abort || |h.tx| >= h.txDepth then h.(log := l)
    else h.(tx := h.tx + [c], log := l.(accepted := l.accepted + [c]))
  }

  /** A read of IC_DATA_CMD. */
  function TakeByte(h: Hw): Hw {
    if h.rx == [] then h
    else h.(rx := h.rx[1..], log := h.log.(drained := h.log.drained + [h.rx[0]]))
  }

  /** A read of IC_CLR_TX_ABRT. */
  function ClearAbort(h: Hw): Hw {
    h.(abort := false, addrNak := false, log := h.log.(traced := h.log.traced && !h.log.aborted))
  }

  /** A write to IC_ENABLE. */
  function SetEnable(h: Hw, on: bool): Hw {
    h.(wanted := on)
  }

  /** A write to a register that is ignored while the controller is enabled. */
  function Configure(h: Hw, c: Config): Hw {
    if h.enabled then h else h.(config := c)
  }

  /** Forget the history; it is complete from here on if the controller is quiet. */
  function Begin(h: Hw): Hw {
    h.(log := Log(Quiet(h) && !h.abort, false, [], 0, [], [], [], [], 0))
  }

  lemma TakeKeepsValid(h: Hw)
    requires Valid(h) && h.rx != []
    ensures Valid(TakeByte(h))
  {
    if h.log.traced {
      var b, rest := h.rx[0], h.rx[1..];
      assert h.rx == [b] + rest;
      assert h.log.drained + ([b] + rest) == h.log.drained + [b] + rest;
    }
  }

  lemma PutKeepsValid(h: Hw, c: Command)
    requires Valid(h)
    ensures Valid(PutCommand(h, c))
  {
    if h.log.traced && h.enabled && !h.abort && |h.tx| < h.txDepth {
      var k := PutCommand(h, c);
      Regroup(h.log.executed, h.wire, h.tx, c);
      BurstPrefix(h.log.accepted, c);
      assert OnTheBus(k);
    }
  }

  lemma Regroup(a: seq<Command>, b: seq<Command>, t: seq<Command>, c: Command)
    ensures a + b + t + [c] == a + b + (t + [c])
  {
  }

  lemma BurstPrefix(q: seq<Command>, c: Command)
    ensures OneReadBurst(q + [c]) ==> OneReadBurst(q)
  {
    if OneReadBurst(q + [c]) {
      forall i {:trigger q[i]} | 0 < i < |q| && q[i - 1].read
        ensures q[i].read && !q[i].restart && !q[i - 1].stop
      {
        assert (q + [c])[i] == q[i] && (q + [c])[i - 1] == q[i - 1];
      }
    }
  }

  // ---------------------------------------------------------------------
  // The combined format: WBuf, repeated START, RLen reads, STOP
  // ---------------------------------------------------------------------

  /** The i-th command of a transfer: a lone STOP at the very end, RESTART where writing turns into reading. */
  function Nth(w: seq<byte>, rlen: nat, i: nat): Command
    requires i < |w| + rlen
  {
    Command(if i < |w| then w[i] else 0, i >= |w|, i == |w| + rlen - 1, 0 < |w| == i)
  }

  function Expected(w: seq<byte>, rlen: nat): (e: seq<Command>)
    ensures |e| == |w| + rlen
    ensures forall i {:trigger e[i]} :: 0 <= i < |e| ==> e[i] == Nth(w, rlen, i)
  {
    seq(|w| + rlen, i requires 0 <= i < |w| + rlen => Nth(w, rlen, i))
  }

  /** The data bytes of the writes among q, in order. */
  function Written(q: seq<Command>): seq<byte> {
    if q == [] then []
    else
      var c := q[|q| - 1];
      Written(q[..|q| - 1]) + (if c.read then [] else [c.data])
  }

  /**
    q is the beginning of a combined transfer (section 3.1.10 of UM10204): the bytes of w
    in order, then READs, a RESTART on the first READ after a write and nowhere else, a
    STOP on the last command of all and nowhere else.
  */
  predicate Combined(q: seq<Command>, w: seq<byte>, rlen: nat) {
    && Written(q) <= w && Reads(q) <= rlen && |q| == |Written(q)| + Reads(q)
    && (Reads(q) > 0 ==> Written(q) == w)
    && (forall i {:trigger q[i].read} :: 0 < i < |q| && q[i - 1].read ==> q[i].read)
    && (forall i {:trigger q[i].restart} :: 0 <= i < |q| ==> (q[i].restart <==> i > 0 && q[i].read && !q[i - 1].read))
    && (forall i {:trigger q[i].stop} :: 0 <= i < |q| ==> (q[i].stop <==> i == |w| + rlen - 1))
    && (forall i {:trigger q[i].data} :: 0 <= i < |q| && q[i].read ==> q[i].data == 0)
  }

  /** All of it: every byte and every READ. */
  predicate WholeTransfer(q: seq<Command>, w: seq<byte>, rlen: nat) {
    Combined(q, w, rlen) && Written(q) == w && Reads(q) == rlen
  }

  lemma {:induction false} WrittenPrefix(w: seq<byte>, rlen: nat, n: nat)
    requires n <= |w| + rlen
    ensures Written(Expected(w, rlen)[..n]) == w[..Min(n, |w|)]
    ensures Reads(Expected(w, rlen)[..n]) == n - Min(n, |w|)
  {
    var e := Expected(w, rlen);
    if n > 0 {
      assert e[..n][..n - 1] == e[..n - 1] && e[..n][n - 1] == e[n - 1];
      WrittenPrefix(w, rlen, n - 1);
      assert n <= |w| ==> w[..n - 1] + [w[n - 1]] == w[..n];
    }
  }

  /** What the driver issues is a combined transfer, cut off anywhere. */
  lemma ExpectedIsCombined(w: seq<byte>, rlen: nat, n: nat)
    requires n <= |w| + rlen
    ensures Combined(Expected(w, rlen)[..n], w, rlen)
    ensures n == |w| + rlen ==> WholeTransfer(Expected(w, rlen)[..n], w, rlen)
  {
    WrittenPrefix(w, rlen, n);
    var e, q := Expected(w, rlen), Expected(w, rlen)[..n];
    assert forall i {:trigger q[i]} :: 0 <= i < n ==> q[i] == e[i] == Nth(w, rlen, i);
    hide Written, Reads, Expected;
  }

  lemma SliceIsBurst(w: seq<byte>, rlen: nat, lo: nat, hi: nat)
    requires lo <= hi <= |w| + rlen
    ensures OneReadBurst(Expected(w, rlen)[lo..hi])
  {
    var e := Expected(w, rlen);
    var q := e[lo..hi];
    forall i {:trigger q[i]} | 0 < i < |q| && q[i - 1].read
      ensures q[i].read && !q[i].restart && !q[i - 1].stop
    {
      assert q[i] == e[lo + i] && q[i - 1] == e[lo + i - 1];
    }
  }

  lemma {:induction false} SliceReads(w: seq<byte>, rlen: nat, lo: nat, hi: nat)
    requires lo <= hi <= |w| + rlen
    ensures Reads(Expected(w, rlen)[lo..hi]) ==
            (if hi <= |w| then 0 else if lo <= |w| then hi - |w| else hi - lo)
  {
    var q := Expected(w, rlen)[lo..hi];
    if lo < hi {
      assert q[..|q| - 1] == Expected(w, rlen)[lo..hi - 1];
      assert q[|q| - 1] == Expected(w, rlen)[hi - 1];
      SliceReads(w, rlen, lo, hi - 1);
    }
  }

  lemma {:induction false} ReadsMonotone(q: seq<Command>, n: nat)
    requires n <= |q|
    ensures Reads(q[..n]) <= Reads(q)
    ensures n < |q| && q[|q| - 1].read ==> Reads(q[..n]) < Reads(q)
  {
    if n < |q| {
      ReadsMonotone(q[..|q| - 1], n);
      assert q[..|q| - 1][..n] == q[..n];
    } else {
      assert q[..n] == q;
    }
  }

  // ---------------------------------------------------------------------
  // The invariant of a transfer that began on a quiet controller
  // ---------------------------------------------------------------------

  /**
    `sent` bytes written, `queued` READs issued, `got` is what RBuf holds so far.
    `hot` says that the controller reported itself enabled when the transfer began.
  */
  predicate Underway(h: Hw, w: seq<byte>, rlen: nat, sent: nat, queued: nat, got: seq<byte>, hot: bool) {
    && h.wanted && h.log.traced
    && sent <= |w| && queued <= rlen && |got| <= queued && (queued > 0 ==> sent == |w|)
    && queued - |got| <= RX_INFLIGHT_MAX
    && h.log.drained == got
    && h.log.issued == Expected(w, rlen)[..sent + queued]
    && Conserved(h, queued, |got|)
    && Delivered(h, Expected(w, rlen), sent + queued, hot)
  }

  /** FIFO conservation: reads queued but not drained are in TX, on the wire or in RX. */
  predicate Conserved(h: Hw, queued: nat, got: nat) {
    && got <= queued
    && h.log.lost == 0
    && Outstanding(h) <= queued - got
    && (!h.log.aborted && h.log.missed == 0 ==> Outstanding(h) == queued - got)
  }

  /** The TX FIFO took the commands in order, all but those written before the enable took effect. */
  predicate Delivered(h: Hw, e: seq<Command>, count: nat, hot: bool) {
    var l := h.log;
    && l.missed + |l.accepted| <= count <= |e|
    && l.accepted == e[l.missed..l.missed + |l.accepted|]
    && (!l.aborted ==> l.missed + |l.accepted| == count)
    && (!h.enabled ==> l.accepted == [])
    && (hot ==> h.enabled && l.missed == 0)
  }

  lemma BeginUnderway(h: Hw, w: seq<byte>, rlen: nat, hot: bool)
    requires Valid(h) && Quiet(h) && !h.abort && (hot ==> h.enabled)
    ensures Underway(Begin(h), w, rlen, 0, 0, [], hot)
  {
  }

  lemma LaterUnderway(h: Hw, k: Hw, w: seq<byte>, rlen: nat, sent: nat, queued: nat, got: seq<byte>, hot: bool)
    requires Valid(h) && Valid(k) && Later(h, k)
    requires Underway(h, w, rlen, sent, queued, got, hot)
    ensures Underway(k, w, rlen, sent, queued, got, hot)
  {
  }

  lemma PutConserved(h: Hw, c: Command, queued: nat, got: nat)
    requires Valid(h) && h.log.traced && Conserved(h, queued, got) && |h.tx| < h.txDepth
    ensures Conserved(PutCommand(h, c), if c.read then queued + 1 else queued, got)
  {
    assert (h.tx + [c])[..|h.tx|] == h.tx;
  }

  lemma PutDelivered(h: Hw, e: seq<Command>, count: nat, hot: bool)
    requires Valid(h) && h.log.traced && Delivered(h, e, count, hot) && |h.tx| < h.txDepth
    requires count < |e|
    ensures Delivered(PutCommand(h, e[count]), e, count + 1, hot)
  {
    if h.enabled && !h.abort {
      assert e[h.log.missed..count] + [e[count]] == e[h.log.missed..count + 1];
    }
  }

  lemma PutIssued(h: Hw, w: seq<byte>, rlen: nat, n: nat)
    requires n < |w| + rlen && h.log.issued == Expected(w, rlen)[..n]
    ensures PutCommand(h, Nth(w, rlen, n)).log.issued == Expected(w, rlen)[..n + 1]
  {
    assert Expected(w, rlen)[..n] + [Expected(w, rlen)[n]] == Expected(w, rlen)[..n + 1];
  }

  lemma LaterHasRoom(h: Hw, k: Hw)
    requires Later(h, k) && |h.tx| < h.txDepth
    ensures |k.tx| < k.txDepth
  {
  }

  /** Writing the next byte of the transfer. */
  lemma PutWriteUnderway(h: Hw, w: seq<byte>, rlen: nat, sent: nat, got: seq<byte>, hot: bool)
    requires Valid(h) && Underway(h, w, rlen, sent, 0, got, hot)
    requires |h.tx| < h.txDepth && sent < |w|
    ensures Underway(PutCommand(h, Nth(w, rlen, sent)), w, rlen, sent + 1, 0, got, hot)
  {
    PutIssued(h, w, rlen, sent);
    PutConserved(h, Nth(w, rlen, sent), 0, |got|);
    PutDelivered(h, Expected(w, rlen), sent, hot);
  }

  /** Queueing the next READ of the transfer. */
  lemma PutReadUnderway(h: Hw, w: seq<byte>, rlen: nat, queued: nat, got: seq<byte>, hot: bool)
    requires Valid(h) && Underway(h, w, rlen, |w|, queued, got, hot)
    requires |h.tx| < h.txDepth && queued < rlen && queued - |got| < RX_INFLIGHT_MAX
    ensures Underway(PutCommand(h, Nth(w, rlen, |w| + queued)), w, rlen, |w|, queued + 1, got, hot)
  {
    PutIssued(h, w, rlen, |w| + queued);
    PutConserved(h, Nth(w, rlen, |w| + queued), queued, |got|);
    PutDelivered(h, Expected(w, rlen), |w| + queued, hot);
  }

  /** Draining one byte. */
  lemma TakeUnderway(h: Hw, w: seq<byte>, rlen: nat, sent: nat, queued: nat, got: seq<byte>, hot: bool)
    requires Valid(h) && Underway(h, w, rlen, sent, queued, got, hot)
    requires h.rx != []
    ensures Valid(TakeByte(h))
    ensures |got| < queued && Underway(TakeByte(h), w, rlen, sent, queued, got + [h.rx[0]], hot)
  {
    TakeKeepsValid(h);
  }

  /** The driver's bookkeeping, and the invariant above if the transfer began on a quiet controller. */
  predicate Tracks(h: Hw, w: seq<byte>, rlen: nat, sent: nat, queued: nat, got: seq<byte>, quiet: bool, hot: bool) {
    && Valid(h)
    && sent <= |w| && queued <= rlen && |got| <= queued && (queued > 0 ==> sent == |w|)
    && h.log.issued == Expected(w, rlen)[..sent + queued]
    && (quiet ==> Underway(h, w, rlen, sent, queued, got, hot))
  }

  lemma TracksBounds(h: Hw, w: seq<byte>, rlen: nat, sent: nat, queued: nat, got: seq<byte>, quiet: bool, hot: bool)
    requires Tracks(h, w, rlen, sent, queued, got, quiet, hot)
    ensures Valid(h) && sent <= |w| && queued <= rlen && |got| <= queued && (queued > 0 ==> sent == |w|)
    ensures h.log.issued == Expected(w, rlen)[..sent + queued]
  {
  }

  /** What was drained so far, and that the slave supplied it. */
  lemma TracksBytes(h: Hw, w: seq<byte>, rlen: nat, sent: nat, queued: nat, got: seq<byte>, quiet: bool, hot: bool)
    requires Tracks(h, w, rlen, sent, queued, got, quiet, hot) && quiet
    ensures h.log.drained == got && got <= h.log.supplied
  {
  }

  lemma BeginTracks(h: Hw, w: seq<byte>, rlen: nat, quiet: bool, hot: bool)
    requires Valid(h)
    requires quiet ==> Quiet(h) && !h.abort && (hot ==> h.enabled)
    ensures Tracks(Begin(h), w, rlen, 0, 0, [], quiet, hot)
  {
    if quiet {
      BeginUnderway(h, w, rlen, hot);
    }
  }

  lemma LaterTracks(h: Hw, k: Hw, w: seq<byte>, rlen: nat, sent: nat, queued: nat, got: seq<byte>,
                    quiet: bool, hot: bool)
    requires Tracks(h, w, rlen, sent, queued, got, quiet, hot) && Valid(k) && Later(h, k)
    ensures Tracks(k, w, rlen, sent, queued, got, quiet, hot)
  {
    if quiet {
      LaterUnderway(h, k, w, rlen, sent, queued, got, hot);
    }
  }

  lemma PutTracks(h: Hw, w: seq<byte>, rlen: nat, sent: nat, queued: nat, got: seq<byte>, quiet: bool, hot: bool)
    requires Tracks(h, w, rlen, sent, queued, got, quiet, hot)
    requires |h.tx| < h.txDepth
    requires sent + queued < |w| + rlen && queued - |got| < RX_INFLIGHT_MAX
    requires Valid(PutCommand(h, Nth(w, rlen, sent + queued)))
    ensures Tracks(PutCommand(h, Nth(w, rlen, sent + queued)), w, rlen, if sent < |w| then sent + 1 else sent,
                   if sent < |w| then queued else queued + 1, got, quiet, hot)
  {
    PutIssued(h, w, rlen, sent + queued);
    if quiet {
      if sent < |w| {
        PutWriteUnderway(h, w, rlen, sent, got, hot);
      } else {
        PutReadUnderway(h, w, rlen, queued, got, hot);
      }
    }
  }

  // ---------------------------------------------------------------------
  // What the driver knows when it returns
  // ---------------------------------------------------------------------

  /** An address NAK, in either address phase, finds nothing received and leaves nothing behind. */
  lemma NakLeavesQuiet(h: Hw, w: seq<byte>, rlen: nat, sent: nat, queued: nat, got: seq<byte>, hot: bool)
    requires Valid(h) && Underway(h, w, rlen, sent, queued, got, hot)
    requires h.abort && h.addrNak
    ensures Quiet(h) && got == [] && h.log.supplied == []
  {
    var l := h.log;
    SliceIsBurst(w, rlen, l.missed, l.missed + |l.accepted|);
  }

  lemma NakTracks(h: Hw, w: seq<byte>, rlen: nat, sent: nat, queued: nat, got: seq<byte>, quiet: bool, hot: bool)
    requires Tracks(h, w, rlen, sent, queued, got, quiet, hot)
    requires h.abort && h.addrNak && quiet
    ensures Quiet(h) && got == [] && h.log.supplied == []
  {
    NakLeavesQuiet(h, w, rlen, sent, queued, got, hot);
  }

  /** Everything went out, no abort was latched, and every requested byte was drained. */
  predicate AllOut(h: Hw, w: seq<byte>, rlen: nat, got: seq<byte>, hot: bool) {
    Underway(h, w, rlen, |w|, rlen, got, hot) && |got| == rlen && !h.abort
  }

  /** The outcome of a successful transfer that began on a quiet controller. */
  predicate Exact(l: Log, w: seq<byte>, rlen: nat, got: seq<byte>, hot: bool) {
    && l.supplied == got
    && l.issued == Expected(w, rlen)
    && l.missed <= |w| + rlen && l.accepted == Expected(w, rlen)[l.missed..]
    && (l.executed == l.accepted <==> !l.aborted)
    && (l.executed == Expected(w, rlen) <==> l.missed == 0 && !l.aborted)
    && (rlen > 0 ==> !l.aborted && l.missed <= |w|)
    && (hot ==> l.missed == 0)
  }

  /**
    h is the controller at the last abort check, k at the idle check that follows it.
    The FIFO took all but the missed commands, in order; when bytes were read, all it
    took also ran. So the message ran in full exactly if nothing was missed and no abort
    latched. DwLimits.DeliversExactly says when that is certain.
  */
  lemma IdleAfterAllOut(h: Hw, k: Hw, w: seq<byte>, rlen: nat, got: seq<byte>, hot: bool)
    requires Valid(h) && AllOut(h, w, rlen, got, hot)
    requires Valid(k) && Later(h, k) && !MasterActive(k)
    ensures Quiet(k) && Exact(k.log, w, rlen, got, hot)
  {
    var e, l := Expected(w, rlen), k.log;
    LaterUnderway(h, k, w, rlen, |w|, rlen, got, hot);
    assert l.missed + |l.accepted| == |e| && e[..|e|] == e;
    assert e[l.missed..|e|] == e[l.missed..];
    assert l.accepted == e[l.missed..];
    if !l.aborted {
      assert l.executed + [] + [] == l.executed;
    }
    assert |l.accepted| == |e| - l.missed && |l.executed| <= |l.accepted|;
    assert l.missed == 0 ==> e[l.missed..] == e;
    if rlen > 0 {
      SliceReads(w, rlen, l.missed, |e|);
      assert Reads(l.executed) == rlen;
      ReadsMonotone(l.accepted, |l.executed|);
    }
  }

  lemma IdleTracks(h: Hw, k: Hw, w: seq<byte>, rlen: nat, got: seq<byte>, quiet: bool, hot: bool)
    requires Tracks(h, w, rlen, |w|, rlen, got, quiet, hot) && |got| == rlen && !h.abort
    requires Valid(k) && Later(h, k) && !MasterActive(k)
    ensures k.log.issued == Expected(w, rlen)
    ensures quiet ==> Quiet(k) && k.log.drained == got && Exact(k.log, w, rlen, got, hot)
  {
    if quiet {
      IdleAfterAllOut(h, k, w, rlen, got, hot);
    } else {
      assert Expected(w, rlen)[..|w| + rlen] == Expected(w, rlen);
    }
  }

  lemma StaysQuiet(h: Hw, k: Hw)
    requires Later(h, k) && Quiet(h)
    ensures Quiet(k)
  {
  }

  /** Moves of the controller, one after another. */
  function Run(h: Hw, moves: seq<Move>): Hw
    decreases |moves|
  {
    if moves == [] then h else Run(Apply(h, moves[0]), moves[1..])
  }

  lemma RunOne(h: Hw, a: Move)
    ensures Run(h, [a]) == Apply(h, a)
  {
    assert [a][1..] == [];
  }

  lemma RunTwo(h: Hw, a: Move, b: Move)
    ensures Run(h, [a, b]) == Apply(Apply(h, a), b)
  {
    assert [a, b][1..] == [b];
    RunOne(Apply(h, a), b);
  }

  lemma RunThree(h: Hw, a: Move, b: Move, c: Move)
    ensures Run(h, [a, b, c]) == Apply(Apply(Apply(h, a), b), c)
  {
    assert [a, b, c][1..] == [b, c];
    RunTwo(Apply(h, a), b, c);
  }

  lemma {:induction false} RunConcat(h: Hw, a: seq<Move>, b: seq<Move>)
    ensures Run(h, a + b) == Run(Run(h, a), b)
    decreases |a|
  {
    hide Apply;
    if a == [] {
      assert a + b == b;
    } else {
      assert (a + b)[0] == a[0] && (a + b)[1..] == a[1..] + b;
      RunConcat(Apply(h, a[0]), a[1..], b);
    }
  }

  lemma {:induction false} RunIsLater(h: Hw, moves: seq<Move>)
    requires Valid(h)
    ensures Valid(Run(h, moves)) && Later(h, Run(h, moves))
    decreases |moves|
  {
    if moves == [] {
      hide Valid;
    } else {
      hide Valid, Later, Apply;
      var k := Apply(h, moves[0]);
      MoveKeeps(h, moves[0]);
      MoveIsLater(h, moves[0]);
      RunIsLater(k, moves[1..]);
      LaterTransitive(h, k, Run(k, moves[1..]));
    }
  }
}
