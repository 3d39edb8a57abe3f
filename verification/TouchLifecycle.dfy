/**
  Load, bring-up, background retries and ExitBootServices. The exit notification
  runs at a higher priority and may interrupt the driver between any two steps.
*/
module TouchLifecycle {
  import opened Machine
  import opened HidMeaning
  import opened HidTheorems
  import opened HidParse
  import TouchPoll

  const RETRY_MAX := 60
  const GOODIX := 0x27C6

  /** What detection reads from the panel, within the bounds the descriptor check enforces. */
  datatype HidDescriptor = HidDescriptor(reportDescLength: nat, maxInputLength: nat, vendor: u16)

  predicate Checked(d: HidDescriptor) {
    0 < d.reportDescLength <= 4096 && 3 <= d.maxInputLength <= 1024
  }

  /** A layout a client may scale by: the parsed one, with a zero maximum replaced. */
  function NonZeroMaxima(l: Layout): Layout {
    l.(xMax := if l.xMax == 0 then 0xFFFF else l.xMax, yMax := if l.yMax == 0 then 0xFFFF else l.yMax)
  }

  predicate GoodLayout(l: Layout, maxInputLength: nat) {
    3 <= maxInputLength && TouchPoll.Usable(l) && Separated(l, PayloadBits(l.hasReportId, (maxInputLength - 2) * 8))
  }

  /** What the driver parses: the panel's bytes, but for one vendor's wrong tag (Minimum for Maximum) at byte 607. */
  predicate Corrected(sent: seq<byte>, read: seq<byte>, vendor: u16) {
    && |read| == |sent|
    && (forall i :: 0 <= i < |sent| && i != 607 ==> read[i] == sent[i])
    && (|sent| > 607 ==>
          if vendor == 0x27C6 && |sent| > 608 && sent[607] == 0x15 then read[607] == 0x25 else read[607] == sent[607])
  }

  /** The parsed layout, with a zero maximum made usable and nothing else touched. */
  predicate Adopted(parsed: Layout, l: Layout) {
    && (l.hasReportId <==> parsed.hasReportId) && l.reportId == parsed.reportId && l.tipOffset == parsed.tipOffset
    && l.xOffset == parsed.xOffset && l.xSize == parsed.xSize
    && l.yOffset == parsed.yOffset && l.ySize == parsed.ySize
    && (parsed.xMax > 0 ==> l.xMax == parsed.xMax) && (parsed.xMax == 0 ==> l.xMax == 0xFFFF)
    && (parsed.yMax > 0 ==> l.yMax == parsed.yMax) && (parsed.yMax == 0 ==> l.yMax == 0xFFFF)
  }

  /** The layout is what these bytes of the panel mean. */
  ghost predicate Describes(sent: seq<byte>, d: HidDescriptor, l: Layout) {
    exists read ::
      && Corrected(sent, read, d.vendor) && |read| == d.reportDescLength && d.maxInputLength >= 2
      && Meaning(read, (d.maxInputLength - 2) * 8).Some?
      && Adopted(Meaning(read, (d.maxInputLength - 2) * 8).value, l)
  }

  lemma ParsedLayoutIsGood(d: seq<byte>, maxInputLength: nat)
    requires 3 <= maxInputLength <= 1024 && Meaning(d, (maxInputLength - 2) * 8).Some?
    ensures GoodLayout(NonZeroMaxima(Meaning(d, (maxInputLength - 2) * 8).value), maxInputLength)
  {
    FieldSeparation(d, (maxInputLength - 2) * 8);
    hide Meaning;
  }

  /** Which of the entry point's firmware calls succeed, and whether the exit notification runs during its cleanup. */
  datatype Entry = Entry(waitEvent: bool, pollEvent: bool, exitEvent: bool, install: bool, exitInCleanup: bool)

  lemma CheckedSize(d: HidDescriptor)
    requires Checked(d)
    ensures 3 <= d.maxInputLength <= 1024
  {
  }

  class Driver {
    var live: set<nat>             // events created and not yet closed
    var armed: set<nat>            // events with a running timer
    var created: nat               // events created so far
    var waitEvent: Option<nat>
    var pollEvent: Option<nat>
    var retryEvent: Option<nat>
    var exitBootEvent: Option<nat>
    var ready: bool
    var attemptCount: nat
    var hidDesc: HidDescriptor
    var layout: Layout
    var inputBuf: array?<byte>
    var busDisabled: bool
    ghost var sent: seq<byte>      // the report descriptor that the panel sent last
    // History: how often the exit notification has run, by now and when each timer was started.
    ghost var exits: nat
    ghost var pollStart: nat
    ghost var retryStart: nat

    /** The exit notification only ever finds open events behind the fields it reads. */
    ghost predicate ExitSafe()
      reads this`pollEvent, this`retryEvent, this`live
    {
      (pollEvent.Some? ==> pollEvent.value in live) && (retryEvent.Some? ==> retryEvent.value in live)
    }

    /** Ready means a buffer of exactly the declared size and a layout that can be used. */
    ghost predicate ReadyIsComplete()
      reads this`ready, this`hidDesc, this`inputBuf, this`layout, this`sent
    {
      ready ==> Checked(hidDesc) && inputBuf != null && inputBuf.Length == hidDesc.maxInputLength
                && GoodLayout(layout, hidDesc.maxInputLength) && Describes(sent, hidDesc, layout)
    }

    ghost predicate EventsKnown()
      reads this`armed, this`live, this`created
    {
      armed <= live && forall e :: e in live ==> e < created
    }

    /** A timer that was started runs exactly until the next exit notification. */
    ghost predicate Timers()
      reads this`pollEvent, this`retryEvent, this`armed, this`ready, this`exits, this`pollStart, this`retryStart
    {
      && pollStart <= exits && retryStart <= exits
      && (pollEvent.Some? ==> (pollEvent.value in armed <==> ready && exits == pollStart))
      && (retryEvent.Some? ==> (retryEvent.value in armed <==> exits == retryStart))
    }

    ghost predicate Valid()
      reads this
    {
      && ExitSafe() && ReadyIsComplete() && EventsKnown() && Timers()
      && pollEvent.Some? && retryEvent != pollEvent
      && attemptCount <= RETRY_MAX
    }

    /** A device object filled with zeros. */
    constructor ()
      ensures live == armed == {} && created == 0 && !ready && attemptCount == 0
      ensures waitEvent == pollEvent == retryEvent == exitBootEvent == None
      ensures Timers()
    {
      live, armed, created := {}, {}, 0;
      exits, pollStart, retryStart, sent := 0, 0, 0, [];
      waitEvent, pollEvent, retryEvent, exitBootEvent := None, None, None, None;
      ready, attemptCount, busDisabled := false, 0, false;
      hidDesc := HidDescriptor(0, 0, 0);
      layout := Layout(false, 0, 0, 0, 0, 0, 0, 0, 0);
      inputBuf := null;
    }

    // -------------------------------------------------------------------
    // Boot services
    // -------------------------------------------------------------------

    method SetTimer(e: nat, periodic: bool) returns (ok: bool)
      requires e in live
      modifies this`armed
      ensures !periodic ==> ok
      ensures armed == if !periodic then old(armed) - {e} else if ok then old(armed) + {e} else old(armed)
    {
      ok := *;
      if !periodic {
        ok := true;
        armed := armed - {e};
      } else if ok {
        armed := armed + {e};
      }
    }

    method CloseEvent(e: nat)
      requires e in live
      modifies this`live, this`armed
      ensures live == old(live) - {e} && armed == old(armed) - {e}
    {
      live, armed := live - {e}, armed - {e};
    }

    method CreateEvent(ok: bool) returns (e: Option<nat>)
      requires EventsKnown()
      modifies this`live, this`created
      ensures EventsKnown() && e.Some? == ok
      ensures if ok then e.value !in old(live) && live == old(live) + {e.value} else live == old(live)
    {
      if !ok {
        return None;
      }
      e := Some(created);
      live, created := live + {created}, created + 1;
    }

    /**
      TouchExitBootServices: both timers stop, and a ready device leaves its bus disabled.
      `misused` tells whether a closed event was passed to a boot service.
    */
    method ExitBootServices() returns (misused: bool)
      requires EventsKnown()
      modifies this`armed, this`busDisabled, this`exits
      ensures EventsKnown() && exits == old(exits) + 1
      ensures misused <==> !ExitSafe()
      ensures armed == old(armed) - Named(pollEvent) - Named(retryEvent)
      ensures busDisabled == (old(busDisabled) || ready)
    {
      misused := false;
      exits := exits + 1;
      if pollEvent.Some? {
        misused := Cancel(pollEvent.value, misused);
      }
      if retryEvent.Some? {
        misused := Cancel(retryEvent.value, misused);
      }
      if ready {
        busDisabled := true;
      }
    }

    /** SetTimer with TimerCancel, on an event that may have been closed. */
    method Cancel(e: nat, before: bool) returns (misused: bool)
      requires EventsKnown()
      modifies this`armed
      ensures EventsKnown() && armed == old(armed) - {e}
      ensures misused <==> before || e !in live
    {
      misused := before;
      if e in live {
        var _ := SetTimer(e, false);
      } else {
        misused := true;
      }
    }

    /** The exit notification may run here; it finds open events and, if ready, a complete device. */
    method MayBePreempted()
      requires ExitSafe() && ReadyIsComplete() && EventsKnown()
      modifies this`armed, this`busDisabled, this`exits
      ensures EventsKnown() && exits >= old(exits) && (old(Timers()) ==> Timers())
      ensures if exits == old(exits) then armed == old(armed) && busDisabled == old(busDisabled)
              else armed == old(armed) - Named(pollEvent) - Named(retryEvent)
    {
      var now := *;
      if now {
        var misused := ExitBootServices();
        assert !misused;
      }
    }

    function Named(e: Option<nat>): set<nat> {
      if e == None then {} else {e.value}
    }

    // -------------------------------------------------------------------
    // One bring-up attempt
    // -------------------------------------------------------------------

    /** Detection and its transport: any outcome the descriptor check lets through. */
    method Detect() returns (ok: bool)
      requires ExitSafe() && !ready && EventsKnown() && Timers()
      modifies this`hidDesc, this`armed, this`busDisabled, this`exits
      ensures EventsKnown() && Timers()
      ensures ok ==> Checked(hidDesc)
    {
      MayBePreempted();
      var d: HidDescriptor := *;
      hidDesc := d;
      MayBePreempted();
      ok := Checked(hidDesc);
    }

    /** Whatever the panel sends. */
    method PanelBytes(n: nat) returns (a: array<byte>)
      ensures fresh(a) && a.Length == n
    {
      a := new byte[n](i => 0);
      for i := 0 to n {
        var b: byte := *;
        a[i] := b;
      }
    }

    /** Read the report descriptor; the panel may send any bytes, or none. One vendor's known defect is patched. */
    method FetchDescriptor() returns (desc: array?<byte>)
      requires ExitSafe() && Checked(hidDesc) && !ready && EventsKnown() && Timers()
      modifies this`armed, this`busDisabled, this`exits, this`sent
      ensures EventsKnown() && Timers()
      ensures desc != null ==> desc.Length == hidDesc.reportDescLength && Corrected(sent, desc[..], hidDesc.vendor)
    {
      hide Timers;
      var granted, answered := *, *;
      if !granted {
        return null;
      }
      desc := PanelBytes(hidDesc.reportDescLength);
      MayBePreempted();
      if !answered {
        return null;
      }
      sent := desc[..];
      if hidDesc.vendor == GOODIX && hidDesc.reportDescLength > 608 && desc[607] == 0x15 {
        desc[607] := 0x25;
      }
    }

    /** Read the report descriptor and parse it. */
    method ReadLayout() returns (ok: bool)
      requires ExitSafe() && Checked(hidDesc) && !ready && EventsKnown() && Timers()
      modifies this`layout, this`armed, this`busDisabled, this`exits, this`sent
      ensures EventsKnown() && Timers()
      ensures ok ==> GoodLayout(layout, hidDesc.maxInputLength) && Describes(sent, hidDesc, layout)
    {
      hide Timers, EventsKnown, ExitSafe, GoodLayout, Corrected, Meaning;
      var desc := FetchDescriptor();
      if desc == null {
        return false;
      }
      var status, parsed, _ := HidParseTouchLayout(desc, hidDesc.reportDescLength, hidDesc.maxInputLength);
      MayBePreempted();
      if status != Success {
        return false;
      }
      assert desc[..hidDesc.reportDescLength] == desc[..];
      ParsedLayoutIsGood(desc[..], hidDesc.maxInputLength);
      Adopt(parsed.value);
      assert Describes(sent, hidDesc, layout);
      return true;
    }

    /** A layout with a zero maximum gets a usable one. */
    method Adopt(l: Layout)
      modifies this`layout
      ensures layout == NonZeroMaxima(l) && Adopted(l, layout)
    {
      layout := l;
      if layout.xMax == 0 {
        layout := layout.(xMax := 0xFFFF);
      }
      if layout.yMax == 0 {
        layout := layout.(yMax := 0xFFFF);
      }
    }

    /**
      TouchTryBringUp: never entered while ready, so no buffer is replaced under a running
      poll. An exit notification does not stop the attempt: if it succeeds, the poll timer
      runs at return, whatever was cancelled before.
    */
    method TryBringUp() returns (ok: bool)
      requires Valid() && !ready && attemptCount < RETRY_MAX
      modifies this`attemptCount, this`hidDesc, this`layout, this`inputBuf, this`ready, this`armed, this`busDisabled,
               this`exits, this`pollStart, this`sent
      ensures Valid() && attemptCount == old(attemptCount) + 1
      ensures ok ==> Describes(sent, hidDesc, layout)
      ensures ok == ready == (pollEvent.value in armed)
    {
      attemptCount := attemptCount + 1;
      var prepared := Prepare();
      if !prepared {
        return false;
      }
      ok := GoLive();
    }

    /** Everything up to the input buffer. */
    method Prepare() returns (ok: bool)
      requires Valid() && !ready
      modifies this`hidDesc, this`layout, this`inputBuf, this`armed, this`busDisabled, this`exits, this`sent
      ensures Valid()
      ensures ok ==> Checked(hidDesc) && inputBuf != null && inputBuf.Length == hidDesc.maxInputLength
                     && GoodLayout(layout, hidDesc.maxInputLength) && Describes(sent, hidDesc, layout)
    {
      hide Checked, GoodLayout, Timers, Describes;
      MayBePreempted();
      var detected := Detect();
      if !detected {
        return false;
      }
      var parsed := ReadLayout();
      if !parsed {
        return false;
      }
      inputBuf := null;
      MayBePreempted();
      var granted := *;
      if !granted {
        return false;
      }
      CheckedSize(hidDesc);
      inputBuf := new byte[hidDesc.maxInputLength](i => 0);
      MayBePreempted();
      return true;
    }

    /** The device is ready before its timer runs, and no longer if the timer cannot be started. */
    method GoLive() returns (ok: bool)
      requires Valid() && !ready
      requires Checked(hidDesc) && inputBuf != null && inputBuf.Length == hidDesc.maxInputLength
      requires GoodLayout(layout, hidDesc.maxInputLength) && Describes(sent, hidDesc, layout)
      modifies this`ready, this`armed, this`busDisabled, this`exits, this`pollStart
      ensures Valid()
      ensures ok == ready == (pollEvent.value in armed)
    {
      hide Checked, GoodLayout, Describes;
      ready := true;
      MayBePreempted();
      ok := SetTimer(pollEvent.value, true);
      if ok {
        pollStart := exits;
      } else {
        ready := false;
      }
    }

    // -------------------------------------------------------------------
    // Retry and entry
    // -------------------------------------------------------------------

    /**
      TouchRetry. The field is cleared before the event is closed; the other order
      would leave a moment in which the exit notification uses a closed event.
    */
    method Retry(event: nat)
      requires Valid() && !ready && attemptCount < RETRY_MAX && retryEvent == Some(event)
      modifies this
      ensures Valid() && attemptCount == old(attemptCount) + 1
      ensures waitEvent == old(waitEvent) && pollEvent == old(pollEvent) && exitBootEvent == old(exitBootEvent)
      ensures if retryEvent == None then live == old(live) - {event} && (ready || attemptCount == RETRY_MAX)
              else retryEvent == Some(event) && live == old(live) && !ready && attemptCount < RETRY_MAX
    {
      hide ReadyIsComplete;
      var ok := TryBringUp();
      MayBePreempted();
      if !ok && attemptCount < RETRY_MAX {
        return;
      }
      StopRetries(event);
    }

    method StopRetries(event: nat)
      requires Valid() && retryEvent == Some(event)
      modifies this`retryEvent, this`live, this`armed, this`busDisabled, this`exits
      ensures Valid() && retryEvent == None && live == old(live) - {event}
    {
      hide ReadyIsComplete;
      var _ := SetTimer(event, false);
      MayBePreempted();
      retryEvent := None;
      MayBePreempted();
      CloseEvent(event);
      MayBePreempted();
    }

    /** Create the retry event and start its timer; a timer that cannot be started takes the event with it. */
    method StartRetries()
      requires Valid() && !ready && retryEvent == None
      modifies this`live, this`created, this`retryEvent, this`armed, this`busDisabled, this`exits, this`retryStart
      ensures Valid()
      ensures if retryEvent == None then live == old(live)
              else retryEvent.value !in old(live) && live == old(live) + {retryEvent.value}
    {
      hide ReadyIsComplete;
      MayBePreempted();
      var granted := *;
      var event := CreateEvent(granted);
      if event == None {
        return;
      }
      var e := event.value;
      retryEvent := event;
      MayBePreempted();
      ArmRetry(e);
    }

    method ArmRetry(e: nat)
      requires ExitSafe() && ReadyIsComplete() && EventsKnown() && pollEvent.Some? && attemptCount <= RETRY_MAX
      requires retryEvent == Some(e) && e != pollEvent.value && !ready
      requires pollEvent.value !in armed && pollStart <= exits && retryStart <= exits
      modifies this`live, this`retryEvent, this`armed, this`busDisabled, this`exits, this`retryStart
      ensures Valid()
      ensures if retryEvent == None then live == old(live) - {e} else retryEvent == Some(e) && live == old(live)
    {
      hide ReadyIsComplete;
      var running := SetTimer(e, true);
      if !running {
        retryEvent := None;
        MayBePreempted();
        CloseEvent(e);
        return;
      }
      retryStart := exits;
    }

    /**
      From the first attempt until the retries stop, with the timer firing as long as it
      likes: at most RETRY_MAX attempts are made, and no timer call meets a closed event.
    */
    method Life()
      requires Valid() && !ready && attemptCount == 0 && retryEvent == None
      modifies this
      ensures Valid() && 1 <= attemptCount <= RETRY_MAX
      ensures ready ==> Describes(sent, hidDesc, layout)
      ensures waitEvent == old(waitEvent) && pollEvent == old(pollEvent) && exitBootEvent == old(exitBootEvent)
      ensures if retryEvent == None then live == old(live)
              else live == old(live) + {retryEvent.value} && !ready && attemptCount < RETRY_MAX
    {
      var ok := TryBringUp();
      if ok {
        return;
      }
      StartRetries();
      if retryEvent == None {
        return;
      }
      var e := retryEvent.value;
      var fires := *;
      while fires && retryEvent.Some?
        invariant Valid() && 1 <= attemptCount <= RETRY_MAX
        invariant e !in old(live)
        invariant waitEvent == old(waitEvent) && pollEvent == old(pollEvent) && exitBootEvent == old(exitBootEvent)
        invariant if retryEvent == None then live == old(live)
                  else retryEvent == Some(e) && live == old(live) + {e} && !ready && attemptCount < RETRY_MAX
        decreases RETRY_MAX - attemptCount
      {
        Retry(e);
        fires := *;
      }
    }

    // -------------------------------------------------------------------
    // Entry
    // -------------------------------------------------------------------

    /**
      TouchI2cDxeEntry, once the device object is allocated. Only if all three events
      exist and the protocol is installed do attempts begin. In the cleanup of any other
      load the exit notification can meet a closed event, which happens exactly when the
      protocol was refused after all events had been created and the notification comes
      between the two closes. Either way no event leaks.
    */
    method Load(fw: Entry) returns (installed: bool, misused: bool)
      requires live == armed == {} && created == 0 && !ready && attemptCount == 0 && Timers()
      requires waitEvent == pollEvent == retryEvent == exitBootEvent == None
      modifies this
      ensures installed <==> fw.waitEvent && fw.pollEvent && fw.exitEvent && fw.install
      ensures misused <==> fw.waitEvent && fw.pollEvent && fw.exitEvent && !fw.install && fw.exitInCleanup
      ensures installed ==>
                && Valid() && 1 <= attemptCount <= RETRY_MAX
                && waitEvent.Some? && exitBootEvent.Some?
                && if retryEvent == None then live == {waitEvent.value, pollEvent.value, exitBootEvent.value}
                   else live == {waitEvent.value, pollEvent.value, exitBootEvent.value, retryEvent.value}
                        && !ready && attemptCount < RETRY_MAX
      ensures !installed ==> live == {} && attemptCount == 0 && !ready
    {
      misused := false;
      installed := CreateEvents(fw);
      if installed && fw.install {
        Life();
        return true, false;
      }
      installed := false;
      misused := Inert(fw.exitInCleanup);
    }

    /** The three events of the entry point, up to the first refusal. */
    method CreateEvents(fw: Entry) returns (all: bool)
      requires live == armed == {} && created == 0 && !ready && Timers()
      requires waitEvent == pollEvent == retryEvent == exitBootEvent == None
      modifies this`live, this`created, this`waitEvent, this`pollEvent, this`exitBootEvent
      ensures EventsKnown() && ExitSafe() && OnlyTheirs() && Timers()
      ensures all <==> fw.waitEvent && fw.pollEvent && fw.exitEvent
      ensures all <==> exitBootEvent.Some?
      ensures all ==> waitEvent.Some? && pollEvent.Some?
    {
      waitEvent := CreateEvent(fw.waitEvent);
      if waitEvent == None {
        return false;
      }
      pollEvent := CreateEvent(fw.pollEvent);
      if pollEvent == None {
        return false;
      }
      exitBootEvent := CreateEvent(fw.exitEvent);
      all := exitBootEvent.Some?;
    }

    /** The open events are those of the entry point, all different. */
    ghost predicate OnlyTheirs()
      reads this
    {
      && live == Named(waitEvent) + Named(pollEvent) + Named(exitBootEvent)
      && (waitEvent.Some? ==> waitEvent != pollEvent && waitEvent != exitBootEvent)
      && (pollEvent.Some? ==> pollEvent != exitBootEvent)
    }

    /**
      The cleanup of a load that gives up. Unlike the retry path it closes the poll event
      while its field still names it, with the exit notification still registered.
    */
    method Inert(exitNow: bool) returns (misused: bool)
      requires EventsKnown() && ExitSafe() && OnlyTheirs() && retryEvent == None && !ready
      modifies this`live, this`armed, this`busDisabled, this`exits
      ensures live == {}
      ensures misused <==> exitNow && pollEvent.Some? && exitBootEvent.Some?
    {
      misused := false;
      if pollEvent.Some? {
        var _ := SetTimer(pollEvent.value, false);
        CloseEvent(pollEvent.value);
      }
      misused := Notified(exitNow, misused);
      if waitEvent.Some? {
        CloseEvent(waitEvent.value);
      }
      misused := Notified(exitNow, misused);
      if exitBootEvent.Some? {
        CloseEvent(exitBootEvent.value);
      }
      misused := Notified(exitNow, misused);
    }

    /** The notification runs, as long as its event is open. */
    method Notified(now: bool, before: bool) returns (misused: bool)
      requires EventsKnown()
      modifies this`armed, this`busDisabled, this`exits
      ensures EventsKnown()
      ensures misused <==> before || (now && exitBootEvent.Some? && exitBootEvent.value in live && !ExitSafe())
    {
      misused := before;
      if now && exitBootEvent.Some? && exitBootEvent.value in live {
        var met := ExitBootServices();
        misused := misused || met;
      }
    }
  }

  /** Everything from an empty device object, so that nothing above is assumed of the entry. */
  method Loaded(fw: Entry) returns (d: Driver, installed: bool, misused: bool)
    ensures installed <==> fw.waitEvent && fw.pollEvent && fw.exitEvent && fw.install
    ensures misused <==> fw == Entry(true, true, true, false, true)
    ensures installed ==> d.Valid() && 1 <= d.attemptCount <= 60
    ensures installed && d.ready ==>
              && Describes(d.sent, d.hidDesc, d.layout) && d.layout.xMax > 0 && d.layout.yMax > 0
              && d.inputBuf != null && d.inputBuf.Length == d.hidDesc.maxInputLength
    ensures !installed ==> d.live == {} && d.attemptCount == 0 && !d.ready
  {
    d := new Driver();
    installed, misused := d.Load(fw);
  }
}
