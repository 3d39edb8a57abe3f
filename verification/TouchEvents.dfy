/**
  The pointer state behind the protocol: what one report, one Reset and one
  GetState do to it, and what holds over every sequence of them.
*/
module TouchEvents {
  import opened Machine
  import opened HidMeaning
  import opened HidExtract

  datatype PointerState = PointerState(x: nat, y: nat, z: nat, active: bool)

  const ZERO_STATE := PointerState(0, 0, 0, false)

  /** The current graphics mode, when there is one. */
  datatype Gop = Gop(width: nat, height: nat)

  datatype View = View(state: PointerState, stateChanged: bool, lastTip: bool,
                       maxX: nat, maxY: nat, rotate: bool)

  // ---------------------------------------------------------------------
  // Orientation
  // ---------------------------------------------------------------------

  /** A portrait touch matrix on a landscape mode is rotated; nothing else is. */
  predicate Rotates(l: Layout, gop: Option<Gop>) {
    l.xMax < l.yMax && gop.Some? && gop.value.width > gop.value.height
  }

  function Published(l: Layout, gop: Option<Gop>): (nat, nat) {
    if Rotates(l, gop) then (l.yMax, l.xMax) else (l.xMax, l.yMax)
  }

  /** Screen coordinates of a clamped contact. */
  function ToScreen(l: Layout, rotate: bool, x: nat, y: nat): (nat, nat)
    requires x <= l.xMax
  {
    if rotate then (y, l.xMax - x) else (x, y)
  }

  function FromScreen(l: Layout, rotate: bool, sx: nat, sy: nat): (nat, nat)
    requires rotate ==> sy <= l.xMax
  {
    if rotate then (l.xMax - sy, sx) else (sx, sy)
  }

  /** The rotation maps the panel's range one to one onto the published range. */
  lemma RotationIsBijective(l: Layout, gop: Option<Gop>)
    ensures var r, p := Rotates(l, gop), Published(l, gop);
      && (forall x: nat, y: nat {:trigger ToScreen(l, r, x, y)} :: x <= l.xMax && y <= l.yMax ==>
            var s := ToScreen(l, r, x, y);
            s.0 <= p.0 && s.1 <= p.1 && FromScreen(l, r, s.0, s.1) == (x, y))
      && (forall sx: nat, sy: nat {:trigger FromScreen(l, r, sx, sy)} :: sx <= p.0 && sy <= p.1 ==>
            var c := FromScreen(l, r, sx, sy);
            c.0 <= l.xMax && c.1 <= l.yMax && ToScreen(l, r, c.0, c.1) == (sx, sy))
  {
  }

  /** Twice the signed area of a triangle: its sign is the sense in which the corners are passed. */
  function Area(a: (nat, nat), b: (nat, nat), c: (nat, nat)): int {
    (b.0 - a.0) * (c.1 - a.1) - (b.1 - a.1) * (c.0 - a.0)
  }

  /**
    The picture is turned and not mirrored: the panel's origin comes to lie at the bottom
    left, its X axis runs up and its Y axis to the right, and triangles keep their sense.
    Screen Y counts downwards, as panel Y does.
  */
  lemma TurnedNotMirrored(l: Layout, a: (nat, nat), b: (nat, nat), c: (nat, nat))
    requires a.0 <= l.xMax && b.0 <= l.xMax && c.0 <= l.xMax
    ensures ToScreen(l, false, a.0, a.1) == a
    ensures ToScreen(l, true, 0, 0) == (0, l.xMax) && ToScreen(l, true, l.xMax, 0) == (0, 0)
    ensures ToScreen(l, true, 0, l.yMax) == (l.yMax, l.xMax)
    ensures Area(ToScreen(l, true, a.0, a.1), ToScreen(l, true, b.0, b.1), ToScreen(l, true, c.0, c.1)) == Area(a, b, c)
    ensures ToScreen(l, true, a.0, a.1).0 - ToScreen(l, true, b.0, b.1).0 == a.1 - b.1
    ensures ToScreen(l, true, a.0, a.1).1 - ToScreen(l, true, b.0, b.1).1 == b.0 - a.0
  {
  }

  /** The published range is the panel's own, turned exactly when a portrait panel meets a landscape picture. */
  lemma PublishedLaw(l: Layout, gop: Option<Gop>)
    ensures var p := Published(l, gop);
      && (p == (l.xMax, l.yMax) || p == (l.yMax, l.xMax))
      && (gop == None ==> p == (l.xMax, l.yMax))
      && (gop.Some? && gop.value.width <= gop.value.height ==> p == (l.xMax, l.yMax))
      && (gop.Some? && gop.value.width > gop.value.height ==>
            p.0 >= p.1 && (l.xMax >= l.yMax ==> p == (l.xMax, l.yMax)))
  {
  }

  // ---------------------------------------------------------------------
  // One step
  // ---------------------------------------------------------------------

  datatype Action = Report(c: Contact, gop: Option<Gop>) | Reset | GetState

  /** Publish the range for the current mode, then record the contact or its lift-off. */
  function OnReport(v: View, l: Layout, gop: Option<Gop>, c: Contact): View
    requires c.x <= l.xMax
  {
    var (maxX, maxY) := Published(l, gop);
    var (x, y) := ToScreen(l, Rotates(l, gop), c.x, c.y);
    var w := v.(maxX := maxX, maxY := maxY, rotate := Rotates(l, gop));
    if c.tip || v.lastTip then
      w.(state := PointerState(if c.tip then x else v.state.x, if c.tip then y else v.state.y, 0, c.tip),
         stateChanged := true, lastTip := c.tip)
    else w
  }

  /** A touch is recorded where it is on the screen, and can be traced back to the panel. */
  lemma TouchIsRecorded(v: View, l: Layout, gop: Option<Gop>, c: Contact)
    requires c.x <= l.xMax && c.y <= l.yMax
    ensures var k := OnReport(v, l, gop, c);
      && (k.maxX, k.maxY) == Published(l, gop)
      && (c.tip ==> k.stateChanged && k.lastTip && k.state.active && k.state.z == 0
                    && k.state.x <= k.maxX && k.state.y <= k.maxY
                    && (k.rotate ==> k.state.y <= l.xMax)
                    && (if k.rotate then (l.xMax - k.state.y, k.state.x) else (k.state.x, k.state.y)) == (c.x, c.y))
      && (!c.tip && v.lastTip ==> k.stateChanged && !k.lastTip
                                  && k.state == PointerState(v.state.x, v.state.y, 0, false))
      && (!c.tip && !v.lastTip ==> k.state == v.state && k.stateChanged == v.stateChanged && !k.lastTip)
  {
  }

  function OnReset(v: View): View {
    v.(state := ZERO_STATE, stateChanged := false, lastTip := false)
  }

  function OnGetState(v: View): (View, Option<PointerState>) {
    if v.stateChanged then (v.(stateChanged := false), Some(v.state)) else (v, None)
  }

  // ---------------------------------------------------------------------
  // Runs
  // ---------------------------------------------------------------------

  /** One change of the pointer state, with the range published in the same poll. */
  datatype Update = Update(state: PointerState, maxX: nat, maxY: nat)

  /** `updates` since the start, `reset` how many of them precede the last Reset, `handed` which GetState returned. */
  datatype World = World(v: View, updates: seq<Update>, reset: nat, handed: seq<nat>, results: seq<PointerState>)

  /** Contacts come clamped to the layout's maxima. */
  predicate Clamped(l: Layout, a: Action) {
    a.Report? ==> a.c.x <= l.xMax && a.c.y <= l.yMax
  }

  function Step(w: World, l: Layout, a: Action): World
    requires Clamped(l, a)
  {
    match a
    case Report(c, gop) =>
      var v := OnReport(w.v, l, gop, c);
      if c.tip || w.v.lastTip then w.(v := v, updates := w.updates + [Update(v.state, v.maxX, v.maxY)])
      else w.(v := v)
    case Reset => w.(v := OnReset(w.v), reset := |w.updates|)
    case GetState =>
      var (v, r) := OnGetState(w.v);
      if r.Some? && w.updates != [] then
        w.(v := v, handed := w.handed + [|w.updates| - 1], results := w.results + [r.value])
      else w.(v := v)
  }

  function Run(l: Layout, actions: seq<Action>): World
    requires forall a :: a in actions ==> Clamped(l, a)
  {
    if actions == [] then World(View(ZERO_STATE, false, false, l.xMax, l.yMax, false), [], 0, [], [])
    else Step(Run(l, actions[..|actions| - 1]), l, actions[|actions| - 1])
  }

  predicate InRange(u: Update) {
    u.state.x <= u.maxX && u.state.y <= u.maxY
  }

  /** A lift-off repeats the coordinates of the touching update right before it. */
  predicate LiftsOff(before: Update, u: Update) {
    before.state.active && u.state == before.state.(active := false)
  }

  predicate Sound(w: World) {
    && w.reset <= |w.updates|
    && w.v.lastTip == w.v.state.active && w.v.state.z == 0
    && (w.v.lastTip ==> |w.updates| > w.reset)
    && (w.v.stateChanged ==> |w.updates| > w.reset)
    && (|w.updates| > w.reset ==> w.updates[|w.updates| - 1].state == w.v.state)
    && (forall k {:trigger w.updates[k]} :: 0 <= k < |w.updates| ==>
          if w.updates[k].state.active then InRange(w.updates[k])
          else k > 0 && LiftsOff(w.updates[k - 1], w.updates[k]))
    && (w.reset < |w.updates| ==> w.updates[w.reset].state.active)
    && HandedOnce(w)
  }

  /** Every result is an update, in order, and no update is handed out twice. */
  predicate HandedOnce(w: World) {
    && |w.results| == |w.handed|
    && (forall k {:trigger w.handed[k]} :: 0 <= k < |w.handed| ==>
          w.handed[k] < |w.updates| && w.results[k] == w.updates[w.handed[k]].state)
    && (forall j, k {:trigger w.handed[j], w.handed[k]} :: 0 <= j < k < |w.handed| ==> w.handed[j] < w.handed[k])
    && (w.handed != [] && w.v.stateChanged ==> w.handed[|w.handed| - 1] < |w.updates| - 1)
  }

  lemma ReportSound(w: World, l: Layout, a: Action)
    requires Sound(w) && a.Report? && Clamped(l, a)
    ensures Sound(Step(w, l, a))
  {
    var v := OnReport(w.v, l, a.gop, a.c);
    var k := Step(w, l, a);
    if a.c.tip || w.v.lastTip {
      var u := Update(v.state, v.maxX, v.maxY);
      assert k.updates == w.updates + [u];
      if a.c.tip {
        assert InRange(u);
      } else {
        assert LiftsOff(w.updates[|w.updates| - 1], u);
      }
    }
  }

  lemma OtherSound(w: World, l: Layout, a: Action)
    requires Sound(w) && !a.Report?
    ensures Sound(Step(w, l, a))
  {
  }

  /** Over every run: the event stream a client sees is sound. */
  lemma {:induction false} EventStream(l: Layout, actions: seq<Action>)
    requires forall a :: a in actions ==> Clamped(l, a)
    ensures Sound(Run(l, actions))
  {
    if actions != [] {
      var n := |actions| - 1;
      EventStream(l, actions[..n]);
      if actions[n].Report? {
        ReportSound(Run(l, actions[..n]), l, actions[n]);
      } else {
        OtherSound(Run(l, actions[..n]), l, actions[n]);
      }
    }
  }

  // ---------------------------------------------------------------------
  // A lift-off keeps old coordinates under a possibly new range
  // ---------------------------------------------------------------------

  predicate WithinMode(v: View) {
    v.state.x <= v.maxX && v.state.y <= v.maxY
  }

  /** The view after touching at (x, y) in one mode and lifting off in another. */
  function TouchAndLift(v: View, l: Layout, before: Option<Gop>, after: Option<Gop>, x: nat, y: nat): View
    requires x <= l.xMax
  {
    OnReport(OnReport(v, l, before, Contact(true, x, y)), l, after, Contact(false, 0, 0))
  }

  /**
    Touching updates are always within the published range; a lift-off is for
    every touch position exactly when the mode switch in between did not turn the picture.
  */
  lemma LiftOffRange(v: View, l: Layout, before: Option<Gop>, after: Option<Gop>)
    ensures (forall x: nat, y: nat :: x <= l.xMax && y <= l.yMax ==> WithinMode(TouchAndLift(v, l, before, after, x, y)))
            <==> Rotates(l, before) == Rotates(l, after)
  {
    if Rotates(l, before) != Rotates(l, after) {
      // The far corner of the panel lands outside the turned range.
      var x: nat, y: nat := 0, l.yMax;
      assert !WithinMode(TouchAndLift(v, l, before, after, x, y));
    }
  }
}
