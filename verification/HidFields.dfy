/** Facts about reports and their fields, and how the parser's per-report slots record them. */
module HidFields {
  import opened Machine
  import opened HidMeaning

  // ---------------------------------------------------------------------
  // The first field of a usage
  // ---------------------------------------------------------------------

  lemma {:induction false} FirstFieldIsFirst(fields: seq<Field>, usage: u32)
    ensures FirstField(fields, usage) == None <==> forall k :: 0 <= k < |fields| ==> fields[k].usage != Some(usage)
    ensures FirstField(fields, usage).Some? ==>
              exists n :: 0 <= n < |fields| && fields[n] == FirstField(fields, usage).value
                          && forall k :: 0 <= k < n ==> fields[k].usage != Some(usage)
  {
    if fields != [] {
      var rest, n := fields[..|fields| - 1], |fields| - 1;
      FirstFieldIsFirst(rest, usage);
      if FirstField(rest, usage).Some? {
        var m :| 0 <= m < |rest| && rest[m] == FirstField(rest, usage).value
                 && forall k :: 0 <= k < m ==> rest[k].usage != Some(usage);
        assert fields[m] == rest[m];
      } else if fields[n].usage == Some(usage) {
        assert forall k :: 0 <= k < n ==> fields[k] == rest[k];
        assert fields[n] == FirstField(fields, usage).value;
      } else {
        assert forall k :: 0 <= k < n ==> fields[k] == rest[k];
      }
    }
  }

  // ---------------------------------------------------------------------
  // Fields of a report are consecutive, disjoint and inside the report
  // ---------------------------------------------------------------------

  /** The fields occupy consecutive stretches of [lo, hi), none of them empty. */
  predicate Laid(fs: seq<Field>, lo: nat, hi: nat) {
    && lo <= hi
    && (forall k {:trigger fs[k]} :: 0 <= k < |fs| ==>
          fs[k].size >= 1 && lo <= fs[k].offset && fs[k].offset + fs[k].size <= hi)
    && (forall j, k {:trigger fs[j], fs[k]} :: 0 <= j < k < |fs| ==> fs[j].offset + fs[j].size <= fs[k].offset)
  }

  predicate WellLaid(r: Report) {
    Laid(r.fields, 0, r.bits)
  }

  lemma StrideLess(j: nat, k: nat, size: nat)
    requires j < k
    ensures j * size + size <= k * size
  {
    MulMono(j + 1, k, size);
    assert (j + 1) * size == j * size + size;
  }

  lemma FieldOrder(inp: Input, base: nat, j: nat, k: nat)
    requires j < k
    ensures base <= FieldAt(inp, base, j).offset
    ensures FieldAt(inp, base, j).offset + inp.size <= FieldAt(inp, base, k).offset
  {
    StrideLess(j, k, inp.size);
  }

  lemma FieldsOfLaid(inp: Input, base: nat)
    requires inp.size > 0
    ensures Laid(FieldsOf(inp, base), base, base + inp.size * inp.count)
  {
    var fs := FieldsOf(inp, base);
    assert FieldAt(inp, base, inp.count).offset == base + inp.size * inp.count;
    forall k {:trigger fs[k]} | 0 <= k < |fs|
      ensures base <= fs[k].offset && fs[k].offset + fs[k].size <= base + inp.size * inp.count
    {
      FieldOrder(inp, base, k, inp.count);
    }
    forall j, k {:trigger fs[j], fs[k]} | 0 <= j < k < |fs|
      ensures fs[j].offset + fs[j].size <= fs[k].offset
    {
      FieldOrder(inp, base, j, k);
    }
  }

  lemma LaidConcat(a: seq<Field>, b: seq<Field>, lo: nat, mid: nat, hi: nat)
    requires Laid(a, lo, mid) && Laid(b, mid, hi)
    ensures Laid(a + b, lo, hi)
  {
  }

  lemma AddInputWellLaid(r: Report, inp: Input, cap: nat)
    requires WellLaid(r) && r.bits <= cap
    ensures WellLaid(AddInput(r, inp, cap)) && r.bits <= AddInput(r, inp, cap).bits <= cap
  {
    if Fits(inp, r.bits, cap) {
      FieldsOfLaid(inp, r.bits);
      LaidConcat(r.fields, FieldsOf(inp, r.bits), 0, r.bits, r.bits + inp.size * inp.count);
    }
  }

  lemma FieldInside(r: Report, f: Field)
    requires WellLaid(r) && f in r.fields
    ensures f.size >= 1 && f.offset + f.size <= r.bits
  {
  }

  lemma {:induction false} ReportWellLaid(inputs: seq<Input>, id: byte, cap: nat)
    ensures WellLaid(ReportOf(inputs, id, cap)) && ReportOf(inputs, id, cap).bits <= cap
  {
    if inputs != [] {
      ReportWellLaid(inputs[..|inputs| - 1], id, cap);
      AddInputWellLaid(ReportOf(inputs[..|inputs| - 1], id, cap), inputs[|inputs| - 1], cap);
    }
  }

  // ---------------------------------------------------------------------
  // The parser's slot for one report ID
  // ---------------------------------------------------------------------

  datatype RidState = RidState(id: byte, used: bool, bitPos: u32, tipOff: i32, xOff: i32, yOff: i32,
                               xBits: u32, yBits: u32, xMax: u32, yMax: u32, overflowed: bool)

  /** The C cast (INT32)x. */
  function AsInt32(x: u32): i32 {
    if x < 0x8000_0000 then x else x - 0x1_0000_0000
  }

  /** What the field loop does with one field that has a usage. */
  function Record(s: RidState, usage: u32, off: u32, size: u32, max: u32): RidState {
    if usage == USAGE_TIP_SWITCH && s.tipOff < 0 then s.(tipOff := AsInt32(off))
    else if usage == USAGE_X && s.xOff < 0 then s.(xOff := AsInt32(off), xBits := size, xMax := max)
    else if usage == USAGE_Y && s.yOff < 0 then s.(yOff := AsInt32(off), yBits := size, yMax := max)
    else s
  }

  /** The first field of the usage that starts below the limit of an INT32. */
  function FirstNear(fields: seq<Field>, usage: u32): (f: Option<Field>)
    ensures f.Some? ==> f.value.offset < CAST_LIMIT
  {
    if fields == [] then None
    else
      var earlier, last := FirstNear(fields[..|fields| - 1], usage), fields[|fields| - 1];
      if earlier.Some? then earlier
      else if last.usage == Some(usage) && last.offset < CAST_LIMIT then Some(last) else None
  }

  predicate TipIs(off: int, f: Option<Field>) {
    if f == None then off < 0 else off == f.value.offset
  }

  predicate AxisIs(off: int, bits: int, max: int, f: Option<Field>) {
    TipIs(off, f) && (f.Some? ==> bits == f.value.size && max == f.value.max)
  }

  /** The slot holds the first tip, X and Y field among `fields` that it can hold at all. */
  predicate Holds(s: RidState, fields: seq<Field>) {
    && TipIs(s.tipOff, FirstNear(fields, USAGE_TIP_SWITCH))
    && AxisIs(s.xOff, s.xBits, s.xMax, FirstNear(fields, USAGE_X))
    && AxisIs(s.yOff, s.yBits, s.yMax, FirstNear(fields, USAGE_Y))
  }

  predicate Mirrors(s: RidState, r: Report) {
    s.bitPos == r.bits && s.overflowed == r.skipped && Holds(s, r.fields)
  }

  /** The same, for padding as well. */
  function RecordField(s: RidState, f: Field): RidState
    requires f.offset < 0x1_0000_0000 && f.size < 0x1_0000_0000
  {
    if f.usage.Some? then Record(s, f.usage.value, f.offset, f.size, f.max) else s
  }

  lemma RecordKeeps(s: RidState, f: Field)
    requires f.offset < 0x1_0000_0000 && f.size < 0x1_0000_0000
    ensures var t := RecordField(s, f);
      t.bitPos == s.bitPos && t.used == s.used && t.id == s.id && t.overflowed == s.overflowed
  {
  }

  lemma RecordHolds(s: RidState, fields: seq<Field>, f: Field)
    requires Holds(s, fields)
    requires f.offset < 0x1_0000_0000 && f.size < 0x1_0000_0000
    ensures Holds(RecordField(s, f), fields + [f])
  {
    assert (fields + [f])[..|fields|] == fields;
  }

  lemma RecordNext(s: RidState, fields: seq<Field>, fs: seq<Field>, k: nat)
    requires k < |fs| && Holds(s, fields + fs[..k])
    requires fs[k].offset < 0x1_0000_0000 && fs[k].size < 0x1_0000_0000
    ensures var t := RecordField(s, fs[k]);
      && Holds(t, fields + fs[..k + 1])
      && t.bitPos == s.bitPos && t.used == s.used && t.id == s.id && t.overflowed == s.overflowed
  {
    assert fields + fs[..k] + [fs[k]] == fields + fs[..k + 1];
    RecordKeeps(s, fs[k]);
    RecordHolds(s, fields + fs[..k], fs[k]);
  }

  /** In order of their offsets, the first field is overlooked only together with all that follow. */
  lemma {:induction false} NearIsFirst(fields: seq<Field>, usage: u32)
    requires forall j, k {:trigger fields[j], fields[k]} :: 0 <= j < k < |fields| ==> fields[j].offset <= fields[k].offset
    ensures var f := FirstField(fields, usage);
      FirstNear(fields, usage) == if f.Some? && f.value.offset < CAST_LIMIT then f else None
  {
    if fields != [] {
      var rest := fields[..|fields| - 1];
      NearIsFirst(rest, usage);
      if FirstField(rest, usage).Some? {
        var j :| 0 <= j < |rest| && rest[j] == FirstField(rest, usage).value;
        assert fields[j] == rest[j];
      }
    }
  }

  /** The run-time test at the end of the parser decides exactly whether the report qualifies. */
  predicate AcceptedByCode(s: RidState, anyId: bool, cap: u32)
    requires cap >= 8
  {
    var payload := cap - (if anyId then 8 else 0);
    && s.used && !s.overflowed && s.tipOff >= 0 && s.xOff >= 0 && s.yOff >= 0
    && s.bitPos <= payload
    && s.tipOff < payload
    && s.xBits <= payload && s.yBits <= payload
    && s.xOff <= payload - s.xBits && s.yOff <= payload - s.yBits
  }

  lemma AcceptanceIsQualification(s: RidState, r: Report, anyId: bool, cap: u32)
    requires cap >= 8 && s.used && Mirrors(s, r) && WellLaid(r)
    ensures AcceptedByCode(s, anyId, cap) <==> Qualifies(r, anyId, cap) && Castable(r)
    ensures AcceptedByCode(s, anyId, cap) ==>
              LayoutOf(r, s.id, anyId, cap) == Layout(anyId, s.id, s.tipOff, s.xOff, s.xBits, s.xMax, s.yOff, s.yBits, s.yMax)
  {
    hide FirstField, FirstNear, WellLaid;
    FirstOf(r, USAGE_TIP_SWITCH);
    FirstOf(r, USAGE_X);
    FirstOf(r, USAGE_Y);
  }

  lemma FirstOf(r: Report, usage: u32)
    requires WellLaid(r)
    ensures var f := FirstField(r.fields, usage);
      && FirstNear(r.fields, usage) == (if f.Some? && f.value.offset < CAST_LIMIT then f else None)
      && (f.Some? ==> f.value.size >= 1 && f.value.offset + f.value.size <= r.bits)
  {
    var fs := r.fields;
    forall j, k {:trigger fs[j], fs[k]} | 0 <= j < k < |fs|
      ensures fs[j].offset <= fs[k].offset
    {
      assert fs[j].size >= 1 && fs[j].offset + fs[j].size <= fs[k].offset;
    }
    NearIsFirst(fs, usage);
    FirstInside(r, usage);
  }

  lemma FirstInside(r: Report, usage: u32)
    requires WellLaid(r)
    ensures var f := FirstField(r.fields, usage);
      f.Some? ==> f.value.size >= 1 && f.value.offset + f.value.size <= r.bits
  {
    if FirstField(r.fields, usage).Some? {
      FieldInside(r, FirstField(r.fields, usage).value);
    }
  }

  /** In reports of at most 2^31 bits every field is within reach. */
  lemma {:induction false} CastNeverMatters(ids: seq<byte>, s: Scan, cap: nat)
    requires cap <= CAST_LIMIT
    ensures ChooseCastable(ids, s, cap) == Choose(ids, s, cap)
  {
    if ids != [] {
      var r := ReportOf(s.inputs, ids[0], cap);
      ReportWellLaid(s.inputs, ids[0], cap);
      FirstInside(r, USAGE_TIP_SWITCH);
      FirstInside(r, USAGE_X);
      FirstInside(r, USAGE_Y);
      CastNeverMatters(ids[1..], s, cap);
    }
  }

  // ---------------------------------------------------------------------
  // Report IDs
  // ---------------------------------------------------------------------

  predicate Distinct(ids: seq<byte>) {
    forall j, k :: 0 <= j < k < |ids| ==> ids[j] != ids[k]
  }

  lemma {:induction false} IdsDistinct(inputs: seq<Input>)
    ensures Distinct(Ids(inputs))
    ensures forall k :: 0 <= k < |inputs| ==> inputs[k].id in Ids(inputs)
    ensures forall id :: id in Ids(inputs) ==> exists k :: 0 <= k < |inputs| && inputs[k].id == id
  {
    if inputs != [] {
      var rest := inputs[..|inputs| - 1];
      IdsDistinct(rest);
      forall id | id in Ids(inputs)
        ensures exists k :: 0 <= k < |inputs| && inputs[k].id == id
      {
        if id in Ids(rest) {
          var k :| 0 <= k < |rest| && rest[k].id == id;
          assert inputs[k].id == id;
        } else {
          assert inputs[|inputs| - 1].id == id;
        }
      }
    }
  }

  /** An ID that no declaration carries has an empty report. */
  lemma {:induction false} AbsentIdIsEmpty(inputs: seq<Input>, id: byte, cap: nat)
    requires id !in Ids(inputs)
    ensures ReportOf(inputs, id, cap) == Report(0, false, [])
  {
    if inputs != [] {
      AbsentIdIsEmpty(inputs[..|inputs| - 1], id, cap);
    }
  }

  lemma KnownIdsGrow(inputs: seq<Input>, inp: Input)
    ensures var known, after := KnownIds(inputs), KnownIds(inputs + [inp]);
      if inp.id in known || |known| == MAX_REPORT_IDS then after == known else after == known + [inp.id]
    ensures inp.id !in KnownIds(inputs) && |KnownIds(inputs)| < MAX_REPORT_IDS ==> inp.id !in Ids(inputs)
  {
    assert (inputs + [inp])[..|inputs|] == inputs;
    var ids := Ids(inputs);
    if |ids| < MAX_REPORT_IDS {
      assert ids[..|ids|] == ids;
    }
  }
}
