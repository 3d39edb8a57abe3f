/**
  The one-pass report-descriptor parser. Its working state is a set of variables
  and three small fixed arrays, updated item by item.
*/
module HidParse {
  import opened Machine
  import opened LittleEndian
  import opened HidItems
  import opened HidMeaning
  import opened HidFields

  const EMPTY_SLOT := RidState(0, false, 0, 0, 0, 0, 0, 0, 0, 0, false)

  /** Total bit positions over all slots: what the field loops have been charged for. */
  function TotalBits(s: seq<RidState>): nat {
    if s == [] then 0 else TotalBits(s[..|s| - 1]) + s[|s| - 1].bitPos
  }

  lemma {:induction false} TotalBitsUpdate(s: seq<RidState>, k: nat, v: RidState)
    requires k < |s|
    ensures TotalBits(s[k := v]) == TotalBits(s) - s[k].bitPos + v.bitPos
  {
    var n := |s| - 1;
    if k == n {
      assert s[k := v][..n] == s[..n];
    } else {
      assert s[k := v][..n] == s[..n][k := v];
      TotalBitsUpdate(s[..n], k, v);
    }
  }

  lemma {:induction false} TotalBitsBound(s: seq<RidState>, cap: nat)
    requires forall k :: 0 <= k < |s| ==> s[k].bitPos <= cap
    ensures TotalBits(s) <= |s| * cap
  {
    if s != [] {
      TotalBitsBound(s[..|s| - 1], cap);
    }
  }

  /** The slots mirror the reports of the known IDs, in order; the others are unused. */
  predicate Mirrored(slots: seq<RidState>, inputs: seq<Input>, cap: u32) {
    var ids := KnownIds(inputs);
    && |slots| == MAX_REPORT_IDS
    && (forall k {:trigger slots[k]} :: 0 <= k < |slots| ==>
          slots[k].used == (k < |ids|) && slots[k].bitPos <= cap && (!slots[k].used ==> slots[k].bitPos == 0))
    && (forall k {:trigger slots[k]} :: 0 <= k < |ids| ==> slots[k].id == ids[k])
    && (forall k {:trigger slots[k]} :: 0 <= k < |ids| ==> Mirrors(slots[k], ReportOf(inputs, ids[k], cap)))
  }

  /** A declaration under one ID leaves the reports of all other IDs alone. */
  lemma OtherReportsUnchanged(inputs: seq<Input>, inp: Input, id: byte, cap: nat)
    ensures ReportOf(inputs + [inp], id, cap) ==
            if id == inp.id then AddInput(ReportOf(inputs, id, cap), inp, cap) else ReportOf(inputs, id, cap)
  {
    assert (inputs + [inp])[..|inputs|] == inputs;
  }

  lemma MirrorNone(slots: seq<RidState>, inputs: seq<Input>, inp: Input, cap: u32)
    requires Mirrored(slots, inputs, cap)
    requires inp.id !in KnownIds(inputs) && |KnownIds(inputs)| == MAX_REPORT_IDS
    ensures Mirrored(slots, inputs + [inp], cap)
  {
    KnownIdsGrow(inputs, inp);
    var ids := KnownIds(inputs);
    forall k {:trigger slots[k]} | 0 <= k < |ids|
      ensures ReportOf(inputs + [inp], ids[k], cap) == ReportOf(inputs, ids[k], cap)
    {
      OtherReportsUnchanged(inputs, inp, ids[k], cap);
    }
  }

  /** Slot r belongs to the ID of the new declaration: its own, or the next free one. */
  predicate SlotFor(inputs: seq<Input>, id: byte, r: nat) {
    var ids := KnownIds(inputs);
    if id in ids then r < |ids| && ids[r] == id else r == |ids| && |ids| < MAX_REPORT_IDS
  }

  lemma MirrorReports(slots: seq<RidState>, inputs: seq<Input>, inp: Input, cap: u32, r: nat, t: RidState, k: nat)
    requires Mirrored(slots, inputs, cap) && SlotFor(inputs, inp.id, r)
    requires Mirrors(t, AddInput(ReportOf(inputs, inp.id, cap), inp, cap))
    requires k < |KnownIds(inputs + [inp])|
    ensures Mirrors(slots[r := t][k], ReportOf(inputs + [inp], KnownIds(inputs + [inp])[k], cap))
  {
    var ids, after := KnownIds(inputs), KnownIds(inputs + [inp]);
    KnownIdsGrow(inputs, inp);
    IdsDistinct(inputs);
    OtherReportsUnchanged(inputs, inp, after[k], cap);
    if k != r {
      assert slots[r := t][k] == slots[k] && after[k] == ids[k] && ids[k] != inp.id;
    }
  }

  lemma MirrorOne(slots: seq<RidState>, inputs: seq<Input>, inp: Input, cap: u32, r: nat, t: RidState)
    requires Mirrored(slots, inputs, cap) && SlotFor(inputs, inp.id, r)
    requires t.used && t.id == inp.id && t.bitPos <= cap
    requires Mirrors(t, AddInput(ReportOf(inputs, inp.id, cap), inp, cap))
    ensures Mirrored(slots[r := t], inputs + [inp], cap)
  {
    hide Mirrors;
    var after := KnownIds(inputs + [inp]);
    KnownIdsGrow(inputs, inp);
    forall k {:trigger slots[r := t][k]} | 0 <= k < |after|
      ensures Mirrors(slots[r := t][k], ReportOf(inputs + [inp], after[k], cap))
    {
      MirrorReports(slots, inputs, inp, cap, r, t, k);
    }
  }

  lemma SlotIsMirror(slots: seq<RidState>, inputs: seq<Input>, id: byte, cap: u32, r: nat)
    requires Mirrored(slots, inputs, cap) && SlotFor(inputs, id, r)
    ensures id in KnownIds(inputs) ==> Mirrors(slots[r], ReportOf(inputs, id, cap))
    ensures id !in KnownIds(inputs) ==> ReportOf(inputs, id, cap) == Report(0, false, [])
  {
    if id !in KnownIds(inputs) {
      KnownIdsGrow(inputs, Input(id, 0, 0, NO_LOCALS, 0));
      AbsentIdIsEmpty(inputs, id, cap);
    }
  }

  lemma QuotientTest(size: u32, count: u32, cap: u32)
    requires size > 0
    ensures count > cap / size <==> size * count > cap
  {
    var q := cap / size;
    DivideFacts(cap, size);
    if count > q {
      MulMono(q + 1, count, size);
      assert (q + 1) * size == q * size + size;
    } else {
      MulMono(count, q, size);
    }
    assert count * size == size * count;
  }

  lemma ScanOne(items: seq<Item>, it: Item)
    ensures ScanOf(items + [it]) == ScanStep(ScanOf(items), it)
  {
    assert (items + [it])[..|items|] == items;
  }

  lemma TooBig(inp: Input, bits: nat, cap: u32)
    requires inp.size == 0 || inp.count == 0 || inp.size > cap || inp.size * inp.count > cap
    ensures !Fits(inp, bits, cap)
  {
    if inp.size > 0 && inp.count > 0 {
      MulMono(1, inp.count, inp.size);
    }
  }

  lemma PaidFor(size: nat, count: nat)
    requires size > 0
    ensures count <= size * count
  {
    MulMono(1, size, count);
  }

  lemma FieldInRange(inp: Input, bits: nat, cap: u32, k: nat)
    requires Fits(inp, bits, cap) && k < inp.count
    ensures 0 <= k * inp.size && bits + k * inp.size + inp.size <= cap
  {
    StrideLess(k, inp.count, inp.size);
  }

  class Parser {
    var g: Globals
    const stack: array<Globals>
    var sp: nat
    const rids: array<RidState>
    var reportId: byte
    var anyReportId: bool
    const usages: array<u32>
    var numUsages: nat
    var usageMin: u32
    var usageMax: u32
    var haveUsageMin: bool
    var haveUsageMax: bool

    ghost predicate Valid()
      reads this
    {
      && stack.Length == GLOBAL_STACK_MAX && rids.Length == MAX_REPORT_IDS && usages.Length == MAX_LOCAL_USAGES
      && sp <= GLOBAL_STACK_MAX && numUsages <= MAX_LOCAL_USAGES
      && reportId == g.reportId
      && stack as object != usages && stack as object != rids && usages as object != rids
    }

    ghost function CurrentLocals(): Locals
      requires Valid()
      reads this, usages
    {
      Locals(usages[..numUsages], if haveUsageMin then Some(usageMin) else None,
             if haveUsageMax then Some(usageMax) else None)
    }

    ghost function Current(): Env
      requires Valid()
      reads this, stack, usages
    {
      Env(g, stack[..sp], CurrentLocals(), anyReportId)
    }

    constructor ()
      ensures Valid() && Current() == START
      ensures forall k :: 0 <= k < rids.Length ==> rids[k] == EMPTY_SLOT
      ensures fresh(stack) && fresh(rids) && fresh(usages)
    {
      g, sp, reportId, anyReportId := NO_GLOBALS, 0, 0, false;
      numUsages, usageMin, usageMax, haveUsageMin, haveUsageMax := 0, 0, 0, false, false;
      stack := new Globals[GLOBAL_STACK_MAX](i => NO_GLOBALS);
      rids := new RidState[MAX_REPORT_IDS](i => EMPTY_SLOT);
      usages := new u32[MAX_LOCAL_USAGES](i => 0);
    }

    method GlobalItemSeen(it: Item)
      requires Valid()
      modifies this, stack
      ensures Valid() && Current() == GlobalItem(old(Current()), it)
    {
      match it.tag {
        case 0x0 => g := g.(usagePage := it.value);
        case 0x1 => g := g.(logicalMin := SignedValue(it));
        case 0x2 => g := g.(logicalMaxSigned := SignedValue(it), logicalMaxRaw := it.value);
        case 0x7 => g := g.(reportSize := it.value);
        case 0x8 =>
          reportId := it.value % 0x100;
          g := g.(reportId := it.value % 0x100);
          anyReportId := true;
        case 0x9 => g := g.(reportCount := it.value);
        case 0xA =>
          if sp < GLOBAL_STACK_MAX {
            stack[sp] := g;
            sp := sp + 1;
          }
        case 0xB =>
          if sp > 0 {
            sp := sp - 1;
            g := stack[sp];
            reportId := g.reportId;
          }
        case _ =>
      }
    }

    method LocalItemSeen(it: Item)
      requires Valid()
      modifies this, usages
      ensures Valid() && Current() == LocalItem(old(Current()), it)
    {
      var usage := if it.size == 4 then it.value
                   else g.usagePage % 0x1_0000 * 0x1_0000 + it.value % 0x1_0000;
      match it.tag {
        case 0x0 =>
          if numUsages < MAX_LOCAL_USAGES {
            usages[numUsages] := usage;
            numUsages := numUsages + 1;
          }
        case 0x1 => usageMin, haveUsageMin := usage, true;
        case 0x2 => usageMax, haveUsageMax := usage, true;
        case _ =>
      }
    }

    /** The slot of an ID, taken into use if it is new; -1 when all slots belong to other IDs. */
    method GetRidState(id: byte, ghost inputs: seq<Input>, cap: u32) returns (r: int)
      requires Valid() && Mirrored(rids[..], inputs, cap)
      modifies rids
      ensures -1 <= r < MAX_REPORT_IDS
      ensures r == -1 <==> id !in KnownIds(inputs) && |KnownIds(inputs)| == MAX_REPORT_IDS
      ensures r == -1 ==> rids[..] == old(rids[..])
      ensures r >= 0 && id in KnownIds(inputs) ==> r < |KnownIds(inputs)| && KnownIds(inputs)[r] == id
                                                   && rids[..] == old(rids[..])
      ensures r >= 0 && id !in KnownIds(inputs) ==>
                r == |KnownIds(inputs)| && rids[..] == old(rids[..])[r := old(rids[r]).(
                  used := true, id := id, bitPos := 0, overflowed := false, tipOff := -1, xOff := -1, yOff := -1)]
    {
      ghost var ids := KnownIds(inputs);
      var i := 0;
      while i < MAX_REPORT_IDS
        invariant 0 <= i <= MAX_REPORT_IDS
        invariant forall k :: 0 <= k < i && k < |ids| ==> ids[k] != id
      {
        assert rids[..][i] == rids[i];
        if rids[i].used && rids[i].id == id {
          return i;
        }
        i := i + 1;
      }
      assert id !in ids;
      i := 0;
      while i < MAX_REPORT_IDS
        invariant 0 <= i <= MAX_REPORT_IDS && i <= |ids|
      {
        assert rids[..][i] == rids[i];
        if !rids[i].used {
          rids[i] := rids[i].(used := true, id := id, bitPos := 0, overflowed := false,
                              tipOff := -1, xOff := -1, yOff := -1);
          return i;
        }
        i := i + 1;
      }
      return -1;
    }

    /** The usage of the k-th field of the current declaration; None is padding. */
    method FieldUsage(k: nat) returns (usage: Option<u32>)
      requires Valid()
      ensures usage == UsageOf(CurrentLocals(), k)
    {
      if haveUsageMin && haveUsageMax {
        var u := (usageMin + k) % 0x1_0000_0000;
        if u > usageMax {
          u := usageMax;
        }
        usage := Some(u);
      } else if numUsages > 0 {
        usage := Some(usages[if k < numUsages then k else numUsages - 1]);
      } else {
        usage := None;
      }
    }

    /** One iteration of the field loop: no product, sum or offset leaves 32 bits. */
    method RecordOne(r: nat, k: u32, cap: u32)
      requires Valid() && r < MAX_REPORT_IDS && k < g.reportCount
      requires Fits(InputOf(Current()), rids[r].bitPos, cap)
      modifies rids
      ensures var f := FieldAt(InputOf(Current()), old(rids[r]).bitPos, k);
        f.offset < cap && rids[..] == old(rids[..])[r := RecordField(old(rids[r]), f)]
    {
      FieldInRange(InputOf(Current()), rids[r].bitPos, cap, k);
      hide Fits, Record;
      var off: u32 := rids[r].bitPos + k * g.reportSize;
      var usage := FieldUsage(k);
      if usage.Some? {
        rids[r] := Record(rids[r], usage.value, off, g.reportSize, LogicalMax(g));
      }
    }

    /** The field loop over one accepted declaration; `steps` counts its iterations. */
    method RecordFields(r: nat, cap: u32, ghost fields: seq<Field>) returns (ghost steps: nat)
      requires Valid() && r < MAX_REPORT_IDS
      requires Fits(InputOf(Current()), rids[r].bitPos, cap)
      requires Holds(rids[r], fields)
      modifies rids
      ensures rids[..] == old(rids[..])[r := rids[r]]
      ensures rids[r].bitPos == old(rids[r]).bitPos && rids[r].used == old(rids[r]).used
      ensures rids[r].id == old(rids[r]).id && rids[r].overflowed == old(rids[r]).overflowed
      ensures Holds(rids[r], fields + FieldsOf(InputOf(Current()), rids[r].bitPos))
      ensures steps == g.reportCount
    {
      ghost var inp, base := InputOf(Current()), rids[r].bitPos;
      ghost var fs := FieldsOf(inp, base);
      assert |fs| == g.reportCount;
      hide Holds, Fits, InputOf, RecordField, Current;
      steps := 0;
      var k: u32 := 0;
      assert fields + fs[..0] == fields;
      while k < g.reportCount
        invariant k <= g.reportCount == |fs| && steps == k
        invariant rids[..] == old(rids[..])[r := rids[r]]
        invariant rids[r].bitPos == base && rids[r].used == old(rids[r]).used
        invariant rids[r].id == old(rids[r]).id && rids[r].overflowed == old(rids[r]).overflowed
        invariant Holds(rids[r], fields + fs[..k])
      {
        ghost var s := rids[r];
        RecordOne(r, k, cap);
        assert rids[r] == rids[..][r] == RecordField(s, fs[k]);
        RecordNext(s, fields, fs, k);
        k := k + 1;
        steps := steps + 1;
      }
      assert fs[..k] == fs;
    }

    /** Lay the current declaration out in slot r, or mark the slot's report unusable. */
    method AddToSlot(r: nat, cap: u32, ghost report: Report) returns (ghost steps: nat)
      requires Valid() && r < MAX_REPORT_IDS && rids[r].bitPos <= cap
      requires Mirrors(rids[r], report)
      modifies rids
      ensures rids[..] == old(rids[..])[r := rids[r]]
      ensures rids[r].used == old(rids[r]).used && rids[r].id == old(rids[r]).id && rids[r].bitPos <= cap
      ensures Mirrors(rids[r], AddInput(report, InputOf(Current()), cap))
      ensures old(rids[r]).bitPos + steps <= rids[r].bitPos
    {
      steps := 0;
      ghost var inp := InputOf(Current());
      if g.reportSize > 0 {
        QuotientTest(g.reportSize, g.reportCount, cap);
      }
      if g.reportSize == 0 || g.reportCount == 0 || g.reportSize > cap || g.reportCount > cap / g.reportSize {
        TooBig(inp, rids[r].bitPos, cap);
        rids[r] := rids[r].(overflowed := true);
        return;
      }
      var itemBits: u32 := g.reportSize * g.reportCount;
      if rids[r].bitPos > cap - itemBits {
        rids[r] := rids[r].(overflowed := true);
        return;
      }
      steps := RecordFields(r, cap, report.fields);
      rids[r] := rids[r].(bitPos := rids[r].bitPos + itemBits);
      PaidFor(g.reportSize, g.reportCount);
    }

    /**
      An Input item: its fields are recorded in its report's slot, or the report is
      marked unusable. `steps` is paid for by the bits the report grows by.
    */
    method InputItemSeen(cap: u32, ghost inputs: seq<Input>) returns (ghost steps: nat)
      requires Valid() && Mirrored(rids[..], inputs, cap)
      modifies rids
      ensures Mirrored(rids[..], inputs + [InputOf(Current())], cap)
      ensures steps + TotalBits(old(rids[..])) <= TotalBits(rids[..])
    {
      steps := 0;
      ghost var inp, slots := InputOf(Current()), rids[..];
      var r := GetRidState(reportId, inputs, cap);
      if r == -1 {
        MirrorNone(slots, inputs, inp, cap);
        return;
      }
      SlotIsMirror(slots, inputs, inp.id, cap, r);
      ghost var taken := rids[..];
      assert rids[r] == taken[r] && taken == slots[r := taken[r]] && taken[r].bitPos == slots[r].bitPos;
      steps := AddToSlot(r, cap, ReportOf(inputs, inp.id, cap));
      hide Mirrored, TotalBits, ReportOf, AddInput;
      assert rids[..] == slots[r := rids[r]];
      TotalBitsUpdate(slots, r, rids[r]);
      MirrorOne(slots, inputs, inp, cap, r, rids[r]);
    }

    /** An item has been decoded; the slots keep up with the declarations seen. */
    method ItemSeen(it: Item, cap: u32, ghost items: seq<Item>) returns (ghost steps: nat)
      requires Valid() && Current() == ScanOf(items).env && Mirrored(rids[..], ScanOf(items).inputs, cap)
      modifies this, stack, rids, usages
      ensures Valid() && Current() == ScanOf(items + [it]).env
      ensures Mirrored(rids[..], ScanOf(items + [it]).inputs, cap)
      ensures steps + TotalBits(old(rids[..])) <= TotalBits(rids[..])
    {
      ScanOne(items, it);
      hide Mirrored, ScanOf, GlobalItem, LocalItem, InputOf, TotalBits;
      steps := 0;
      if it.kind == 1 {
        GlobalItemSeen(it);
      } else if it.kind == 2 {
        LocalItemSeen(it);
      } else if it.kind == 0 {
        if it.tag == 8 {
          steps := InputItemSeen(cap, ScanOf(items).inputs);
        }
        ClearLocals();
      }
    }

    /** Any main item clears the locals. */
    method ClearLocals()
      requires Valid()
      modifies this
      ensures Valid() && Current() == old(Current()).(l := NO_LOCALS)
    {
      numUsages, haveUsageMin, haveUsageMax := 0, false, false;
    }

    /** The first slot, in order, whose report passes the final test. */
    method ChooseLayout(cap: u32, ghost s: Scan) returns (layout: Option<Layout>)
      requires Valid() && cap >= 8 && Mirrored(rids[..], s.inputs, cap) && anyReportId == s.env.anyId
      ensures layout == ChooseCastable(KnownIds(s.inputs), s, cap)
    {
      ghost var ids := KnownIds(s.inputs);
      var k := 0;
      while k < MAX_REPORT_IDS
        invariant 0 <= k <= MAX_REPORT_IDS
        invariant k <= |ids| ==> ChooseCastable(ids, s, cap) == ChooseCastable(ids[k..], s, cap)
        invariant k > |ids| ==> ChooseCastable(ids, s, cap) == None
      {
        var payload := cap - (if anyReportId then 8 else 0);
        var slot := rids[k];
        assert slot == rids[..][k];
        if k < |ids| {
          ReportWellLaid(s.inputs, ids[k], cap);
          AcceptanceIsQualification(slot, ReportOf(s.inputs, ids[k], cap), anyReportId, cap);
          assert ids[k..][0] == ids[k] && ids[k..][1..] == ids[k + 1..];
        }
        if slot.used && !slot.overflowed && slot.tipOff >= 0 && slot.xOff >= 0 && slot.yOff >= 0
           && slot.bitPos <= payload && slot.tipOff < payload
           && slot.xBits <= payload && slot.yBits <= payload
           && slot.xOff <= payload - slot.xBits && slot.yOff <= payload - slot.yBits {
          return Some(Layout(anyReportId, slot.id, slot.tipOff, slot.xOff, slot.xBits, slot.xMax,
                             slot.yOff, slot.yBits, slot.yMax));
        }
        k := k + 1;
      }
      return None;
    }
  }

  lemma ScanStart(slots: seq<RidState>, cap: u32)
    requires |slots| == MAX_REPORT_IDS && forall k :: 0 <= k < |slots| ==> slots[k] == EMPTY_SLOT
    ensures ScanOf([]) == Scan(START, []) && Mirrored(slots, [], cap) && TotalBits(slots) == 0
  {
    TotalBitsBound(slots, 0);
  }

  lemma SlotsBounded(slots: seq<RidState>, inputs: seq<Input>, cap: u32)
    requires Mirrored(slots, inputs, cap)
    ensures TotalBits(slots) <= MAX_REPORT_IDS * cap
  {
    TotalBitsBound(slots, cap);
  }

  lemma SliceOfPrefix(s: seq<byte>, n: nat, lo: nat, hi: nat)
    requires lo <= hi <= n <= |s|
    ensures s[..n][lo..hi] == s[lo..hi]
  {
  }

  lemma LittleNext(s: seq<byte>, at: nat, b: nat)
    requires at + b < |s| && b < 4
    ensures Little(s[at..at + b + 1]) == Little(s[at..at + b]) + s[at + b] * Pow256(b) < 0x1_0000_0000
  {
    assert s[at..at + b + 1][..b] == s[at..at + b];
    LittleFitsU32(s[at..at + b + 1]);
  }

  /** The little-endian data of a short item. */
  method ReadValue(desc: array<byte>, at: nat, size: nat) returns (v: u32)
    requires at + size <= desc.Length && size <= 4
    ensures v == Little(desc[..][at..at + size])
  {
    v := 0;
    var b := 0;
    while b < size
      invariant 0 <= b <= size && v == Little(desc[..][at..at + b])
    {
      LittleNext(desc[..], at, b);
      v := v + desc[at + b] * Pow256(b);
      b := b + 1;
    }
  }

  /** The item at offset i of the descriptor. */
  method DecodeItem(desc: array<byte>, descLen: nat, i: nat) returns (decoded: Decoded)
    requires i < descLen <= desc.Length
    ensures decoded == DecodeAt(desc[..descLen], i) && (decoded != End ==> decoded.next > i)
  {
    var prefix := desc[i];
    ghost var d := desc[..descLen];
    assert d[i] == prefix;
    if prefix == LONG_ITEM {
      return if i + 2 >= descLen then End else Long(i + 3 + desc[i + 1]);
    }
    var size := prefix % 4;
    if size == 3 {
      size := 4;
    }
    if i + 1 + size > descLen {
      return End;
    }
    var value := ReadValue(desc, i + 1, size);
    SliceOfPrefix(desc[..], descLen, i + 1, i + 1 + size);
    return Short(Item(prefix / 4 % 4, prefix / 16, size, value), i + 1 + size);
  }

  lemma ItemsNext(d: seq<byte>, i: nat, seen: seq<Item>)
    requires i < |d|
    ensures match DecodeAt(d, i)
      case End => seen + Items(d, i) == seen
      case Long(next) => Items(d, i) == Items(d, next)
      case Short(item, next) => seen + Items(d, i) == seen + [item] + Items(d, next)
  {
    ItemsUnfold(d, i);
  }

  lemma ItemsEnd(d: seq<byte>, i: nat, seen: seq<Item>)
    requires i >= |d|
    ensures seen + Items(d, i) == seen
  {
  }

  /** The pass over the descriptor. */
  method ScanDescriptor(desc: array<byte>, descLen: nat, cap: u32) returns (p: Parser, ghost steps: nat)
    requires descLen <= desc.Length
    ensures fresh(p) && p.Valid()
    ensures var s := ScanOf(Items(desc[..descLen], 0));
              p.Current() == s.env && Mirrored(p.rids[..], s.inputs, cap)
    ensures steps <= TotalBits(p.rids[..])
  {
    ghost var d := desc[..descLen];
    steps := 0;
    p := new Parser();
    ghost var items: seq<Item> := [];
    var i := 0;
    ScanStart(p.rids[..], cap);
    assert items + Items(d, 0) == Items(d, 0);
    hide DecodeAt, Mirrored, ScanOf, TotalBits, Parser.Current, Items;
    while i < descLen
      invariant fresh(p) && fresh(p.stack) && fresh(p.rids) && fresh(p.usages)
      invariant p.Valid() && p.Current() == ScanOf(items).env && Mirrored(p.rids[..], ScanOf(items).inputs, cap)
      invariant Items(d, 0) == items + Items(d, i)
      invariant steps <= TotalBits(p.rids[..])
      decreases descLen - i
    {
      var decoded := DecodeItem(desc, descLen, i);
      ItemsNext(d, i, items);
      if decoded.End? {
        break;
      }
      if decoded.Short? {
        ghost var n := p.ItemSeen(decoded.item, cap, items);
        items := items + [decoded.item];
        steps := steps + n;
      }
      i := decoded.next;
    }
    if i >= |d| {
      ItemsEnd(d, i, items);
    }
  }

  /**
    The parser. For every descriptor the outcome is the two-stage meaning, except that
    reports with a field beyond the reach of an INT32 are overlooked. Up to a declared
    maximum of 2^28 bytes there are none; the driver passes at most 1024.
    `steps` counts the iterations of the field loop over the whole descriptor.
  */
  method HidParseTouchLayout(desc: array?<byte>, descLen: nat, maxInputLength: nat)
    returns (status: Status, layout: Option<Layout>, ghost steps: nat)
    requires desc != null ==> descLen <= desc.Length
    ensures status == InvalidParameter <==>
            desc == null || descLen == 0 || maxInputLength < 3 || maxInputLength - 2 > 0xFFFF_FFFF / 8
    ensures status in {Success, NotFound, InvalidParameter}
    ensures status == Success <==> layout.Some?
    ensures status != InvalidParameter ==> layout == CastMeaning(desc[..descLen], (maxInputLength - 2) * 8)
    ensures status != InvalidParameter && (maxInputLength - 2) * 8 <= CAST_LIMIT ==>
              layout == Meaning(desc[..descLen], (maxInputLength - 2) * 8)
    ensures maxInputLength >= 2 ==> steps <= MAX_REPORT_IDS * ((maxInputLength - 2) * 8)
  {
    steps, layout := 0, None;
    if desc == null || descLen == 0 || maxInputLength < 3 || maxInputLength - 2 > 0xFFFF_FFFF / 8 {
      return InvalidParameter, None, 0;
    }
    var cap: u32 := (maxInputLength - 2) * 8;
    var p: Parser;
    p, steps := ScanDescriptor(desc, descLen, cap);
    ghost var s := ScanOf(Items(desc[..descLen], 0));
    SlotsBounded(p.rids[..], s.inputs, cap);
    layout := p.ChooseLayout(cap, s);
    if cap <= CAST_LIMIT {
      CastNeverMatters(KnownIds(s.inputs), s, cap);
    }
    status := if layout.Some? then Success else NotFound;
  }
}
