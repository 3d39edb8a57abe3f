/**
  What a report descriptor means, in two stages: the items are run through the
  global, local and Push/Pop state to a list of Input declarations, and each
  report ID's declarations are laid out one after another as bit fields.
  USB HID 1.11, sections 6.2.2.5, 6.2.2.7 and 6.2.2.8, with the driver's caps.
*/
module HidMeaning {
  import opened Machine
  import opened HidItems

  const USAGE_TIP_SWITCH: u32 := 0x000D_0042
  const USAGE_X: u32 := 0x0001_0030
  const USAGE_Y: u32 := 0x0001_0031

  const MAX_REPORT_IDS := 16
  const MAX_LOCAL_USAGES := 32
  const GLOBAL_STACK_MAX := 4

  // ---------------------------------------------------------------------
  // Stage one: from items to Input declarations
  // ---------------------------------------------------------------------

  datatype Globals = Globals(usagePage: u32, logicalMin: i32, logicalMaxSigned: i32, logicalMaxRaw: u32,
                             reportSize: u32, reportCount: u32, reportId: byte)

  datatype Locals = Locals(usages: seq<u32>, min: Option<u32>, max: Option<u32>)

  datatype Env = Env(g: Globals, stack: seq<Globals>, l: Locals, anyId: bool)

  const NO_LOCALS := Locals([], None, None)
  const NO_GLOBALS := Globals(0, 0, 0, 0, 0, 0, 0)
  const START := Env(NO_GLOBALS, [], NO_LOCALS, false)

  function SignedValue(it: Item): i32 {
    if it.size == 1 && it.value % 0x100 >= 0x80 then it.value % 0x100 - 0x100
    else if it.size == 2 && it.value % 0x1_0000 >= 0x8000 then it.value % 0x1_0000 - 0x1_0000
    else if it.value >= 0x8000_0000 then it.value - 0x1_0000_0000
    else it.value
  }

  /** A four-byte usage carries its page; a shorter one takes the page in force at the Usage item. */
  function FullUsage(g: Globals, it: Item): u32 {
    if it.size == 4 then it.value
    else g.usagePage % 0x1_0000 * 0x1_0000 + it.value % 0x1_0000
  }

  function GlobalItem(e: Env, it: Item): Env {
    var g := e.g;
    match it.tag
    case 0x0 => e.(g := g.(usagePage := it.value))
    case 0x1 => e.(g := g.(logicalMin := SignedValue(it)))
    case 0x2 => e.(g := g.(logicalMaxSigned := SignedValue(it), logicalMaxRaw := it.value))
    case 0x7 => e.(g := g.(reportSize := it.value))
    case 0x8 => e.(g := g.(reportId := it.value % 0x100), anyId := true)
    case 0x9 => e.(g := g.(reportCount := it.value))
    case 0xA => if |e.stack| < GLOBAL_STACK_MAX then e.(stack := e.stack + [g]) else e
    case 0xB => if e.stack == [] then e else e.(g := e.stack[|e.stack| - 1], stack := e.stack[..|e.stack| - 1])
    case _ => e
  }

  function LocalItem(e: Env, it: Item): Env {
    var l, usage := e.l, FullUsage(e.g, it);
    match it.tag
    case 0x0 => if |l.usages| < MAX_LOCAL_USAGES then e.(l := l.(usages := l.usages + [usage])) else e
    case 0x1 => e.(l := l.(min := Some(usage)))
    case 0x2 => e.(l := l.(max := Some(usage)))
    case _ => e
  }

  function Step(e: Env, it: Item): Env {
    match it.kind
    case 0 => e.(l := NO_LOCALS)
    case 1 => GlobalItem(e, it)
    case 2 => LocalItem(e, it)
    case _ => e
  }

  predicate IsInput(it: Item) {
    it.kind == 0 && it.tag == 8
  }

  /** One Input item together with the state that governs it. */
  datatype Input = Input(id: byte, size: u32, count: u32, l: Locals, max: u32)

  /** The maximum is signed unless the minimum is not negative and the raw value would read as negative. */
  function LogicalMax(g: Globals): u32 {
    if g.logicalMaxSigned < 0 && g.logicalMin >= 0 then g.logicalMaxRaw
    else if g.logicalMaxSigned > 0 then g.logicalMaxSigned else 0
  }

  function InputOf(e: Env): Input {
    Input(e.g.reportId, e.g.reportSize, e.g.reportCount, e.l, LogicalMax(e.g))
  }

  datatype Scan = Scan(env: Env, inputs: seq<Input>)

  function ScanStep(s: Scan, it: Item): Scan {
    Scan(Step(s.env, it), if IsInput(it) then s.inputs + [InputOf(s.env)] else s.inputs)
  }

  function ScanOf(items: seq<Item>): Scan {
    if items == [] then Scan(START, [])
    else ScanStep(ScanOf(items[..|items| - 1]), items[|items| - 1])
  }

  /** The usage of the k-th field of a declaration; None is constant padding. */
  function UsageOf(l: Locals, k: nat): Option<u32> {
    if l.min.Some? && l.max.Some? then
      Some(Min((l.min.value + k) % 0x1_0000_0000, l.max.value))
    else if l.usages != [] then Some(l.usages[Min(k, |l.usages| - 1)])
    else None
  }

  // ---------------------------------------------------------------------
  // Stage two: from Input declarations to fields and the chosen layout
  // ---------------------------------------------------------------------

  datatype Field = Field(offset: nat, size: nat, usage: Option<u32>, max: u32)

  datatype Report = Report(bits: nat, skipped: bool, fields: seq<Field>)

  function FieldAt(inp: Input, base: nat, k: nat): Field {
    Field(base + k * inp.size, inp.size, UsageOf(inp.l, k), inp.max)
  }

  function FieldsOf(inp: Input, base: nat): (fs: seq<Field>)
    ensures |fs| == inp.count
    ensures forall k {:trigger fs[k]} :: 0 <= k < |fs| ==> fs[k] == FieldAt(inp, base, k)
  {
    seq(inp.count, k requires 0 <= k < inp.count => FieldAt(inp, base, k))
  }

  /** The declaration is not degenerate and still fits below `cap` bits. */
  predicate Fits(inp: Input, bits: nat, cap: nat) {
    inp.size > 0 && inp.count > 0 && bits + inp.size * inp.count <= cap
  }

  function AddInput(r: Report, inp: Input, cap: nat): Report {
    if Fits(inp, r.bits, cap) then
      Report(r.bits + inp.size * inp.count, r.skipped, r.fields + FieldsOf(inp, r.bits))
    else r.(skipped := true)
  }

  /** The report that the declarations for `id` make up. */
  function ReportOf(inputs: seq<Input>, id: byte, cap: nat): Report {
    if inputs == [] then Report(0, false, [])
    else
      var r, last := ReportOf(inputs[..|inputs| - 1], id, cap), inputs[|inputs| - 1];
      if last.id == id then AddInput(r, last, cap) else r
  }

  /** Report IDs in the order of their first Input item. */
  function Ids(inputs: seq<Input>): seq<byte> {
    if inputs == [] then []
    else
      var ids, id := Ids(inputs[..|inputs| - 1]), inputs[|inputs| - 1].id;
      if id in ids then ids else ids + [id]
  }

  function KnownIds(inputs: seq<Input>): seq<byte> {
    Ids(inputs)[..Min(|Ids(inputs)|, MAX_REPORT_IDS)]
  }

  function FirstField(fields: seq<Field>, usage: u32): (f: Option<Field>)
    ensures f.Some? ==> f.value in fields && f.value.usage == Some(usage)
  {
    if fields == [] then None
    else
      var earlier, last := FirstField(fields[..|fields| - 1], usage), fields[|fields| - 1];
      if earlier.Some? then earlier else if last.usage == Some(usage) then Some(last) else None
  }

  datatype Layout = Layout(hasReportId: bool, reportId: byte, tipOffset: nat,
                           xOffset: nat, xSize: nat, xMax: u32, yOffset: nat, ySize: nat, yMax: u32)

  function PayloadBits(anyId: bool, cap: nat): int {
    if anyId then cap - 8 else cap
  }

  /** All three fields are there, nothing was skipped, and the report fits in what the device may send. */
  predicate Qualifies(r: Report, anyId: bool, cap: nat) {
    && !r.skipped && r.bits <= PayloadBits(anyId, cap)
    && FirstField(r.fields, USAGE_TIP_SWITCH).Some?
    && FirstField(r.fields, USAGE_X).Some?
    && FirstField(r.fields, USAGE_Y).Some?
  }

  function LayoutOf(r: Report, id: byte, anyId: bool, cap: nat): Layout
    requires Qualifies(r, anyId, cap)
  {
    var x, y := FirstField(r.fields, USAGE_X).value, FirstField(r.fields, USAGE_Y).value;
    Layout(anyId, id, FirstField(r.fields, USAGE_TIP_SWITCH).value.offset,
           x.offset, x.size, x.max, y.offset, y.size, y.max)
  }

  /** The first of the given IDs whose report qualifies. */
  function Choose(ids: seq<byte>, s: Scan, cap: nat): Option<Layout> {
    if ids == [] then None
    else
      var r := ReportOf(s.inputs, ids[0], cap);
      if Qualifies(r, s.env.anyId, cap) then Some(LayoutOf(r, ids[0], s.env.anyId, cap))
      else Choose(ids[1..], s, cap)
  }

  /** The touch layout a descriptor declares, for input reports of at most `cap` payload bits. */
  function Meaning(d: seq<byte>, cap: nat): Option<Layout> {
    var s := ScanOf(Items(d, 0));
    Choose(KnownIds(s.inputs), s, cap)
  }

  // ---------------------------------------------------------------------
  // What the parser's signed offsets make of it
  // ---------------------------------------------------------------------

  /** Offsets from here on turn negative in an INT32. */
  const CAST_LIMIT := 0x8000_0000

  /** The three fields of a qualifying report start where an INT32 can say so. */
  predicate Castable(r: Report) {
    && (var t := FirstField(r.fields, USAGE_TIP_SWITCH); t.Some? ==> t.value.offset < CAST_LIMIT)
    && (var x := FirstField(r.fields, USAGE_X); x.Some? ==> x.value.offset < CAST_LIMIT)
    && (var y := FirstField(r.fields, USAGE_Y); y.Some? ==> y.value.offset < CAST_LIMIT)
  }

  /** As Choose, but overlooking reports with a field beyond the limit. */
  function ChooseCastable(ids: seq<byte>, s: Scan, cap: nat): Option<Layout> {
    if ids == [] then None
    else
      var r := ReportOf(s.inputs, ids[0], cap);
      if Qualifies(r, s.env.anyId, cap) && Castable(r) then Some(LayoutOf(r, ids[0], s.env.anyId, cap))
      else ChooseCastable(ids[1..], s, cap)
  }

  function CastMeaning(d: seq<byte>, cap: nat): Option<Layout> {
    var s := ScanOf(Items(d, 0));
    ChooseCastable(KnownIds(s.inputs), s, cap)
  }
}
