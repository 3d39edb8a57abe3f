/**
  What the pieces of a descriptor's meaning come to, said without them: which item
  a global comes from, what a logical maximum is, how usages are dealt out, where
  fields lie, and which report wins.
*/
module HidLaws {
  import opened Machine
  import opened LittleEndian
  import opened HidItems
  import opened HidMeaning
  import opened HidFields
  import opened HidTheorems

  // ---------------------------------------------------------------------
  // Items
  // ---------------------------------------------------------------------

  /** A long item, whatever its tag and data, is as if it were not there (section 6.2.2.3). */
  lemma LongItemIsSkipped(tag: byte, data: seq<byte>, rest: seq<byte>)
    requires |data| < 0x100
    ensures Items([0xFE, |data|, tag] + data + rest, 0) == Items(rest, 0)
  {
    var d: seq<byte> := [0xFE, |data|, tag] + data;
    assert DecodeAt(d, 0) == Long(|d|);
    assert Items(d, |d|) == [];
    ItemsUnfold(d, 0);
    assert WholeItems(d, 0);
    ItemsConcat(d, rest, 0);
  }

  /** The two's complement reading of an item's data. */
  predicate Signed(it: Item, v: int) {
    if it.size == 1 then -0x80 <= v < 0x80 && v % 0x100 == it.value
    else if it.size == 2 then -0x8000 <= v < 0x8000 && v % 0x1_0000 == it.value
    else -0x8000_0000 <= v < 0x8000_0000 && v % 0x1_0000_0000 == it.value
  }

  lemma SignedIs(it: Item, v: int)
    requires Signed(it, v)
    ensures SignedValue(it) == v
  {
  }

  // ---------------------------------------------------------------------
  // Globals
  // ---------------------------------------------------------------------

  function Steps(e: Env, items: seq<Item>): Env
    decreases |items|
  {
    if items == [] then e else Steps(Step(e, items[0]), items[1..])
  }

  /** The running state of a scan is that of its items, one after another. */
  lemma {:induction false} ScanIsSteps(items: seq<Item>)
    ensures ScanOf(items).env == Steps(START, items)
  {
    if items != [] {
      var rest, last := items[..|items| - 1], items[|items| - 1];
      ScanIsSteps(rest);
      assert rest + [last] == items;
      StepsAppend(START, rest, last);
    }
  }

  lemma {:induction false} StepsAppend(e: Env, items: seq<Item>, it: Item)
    ensures Steps(e, items + [it]) == Step(Steps(e, items), it)
    decreases |items|
  {
    hide Step;
    if items == [] {
      assert ([it])[1..] == [];
      assert items + [it] == [it];
    } else {
      assert (items + [it])[0] == items[0] && (items + [it])[1..] == items[1..] + [it];
      StepsAppend(Step(e, items[0]), items[1..], it);
    }
  }

  predicate IsGlobal(it: Item, tag: nat) {
    it.kind == 1 && it.tag == tag
  }

  /** A global keeps the value of its last item, until a Pop. */
  lemma {:induction false} LastWins(e: Env, tag: nat, later: seq<Item>)
    requires tag in {0x0, 0x1, 0x2, 0x7, 0x8, 0x9}
    requires forall it :: it in later ==> !IsGlobal(it, tag) && !IsGlobal(it, 0xB)
    ensures Slot(Steps(e, later).g, tag) == Slot(e.g, tag)
    decreases |later|
  {
    if later != [] {
      var it := later[0];
      assert it in later;
      OtherItem(e, tag, it);
      assert forall x :: x in later[1..] ==> x in later;
      hide Step, Slot;
      LastWins(Step(e, it), tag, later[1..]);
    }
  }

  /** The fields that belong to a global tag (section 6.2.2.7). */
  function Slot(g: Globals, tag: nat): (int, int) {
    match tag
    case 0x0 => (g.usagePage, 0)
    case 0x1 => (g.logicalMin, 0)
    case 0x2 => (g.logicalMaxSigned, g.logicalMaxRaw)
    case 0x7 => (g.reportSize, 0)
    case 0x8 => (g.reportId, 0)
    case _ => (g.reportCount, 0)
  }

  lemma OtherItem(e: Env, tag: nat, it: Item)
    requires tag in {0x0, 0x1, 0x2, 0x7, 0x8, 0x9} && !IsGlobal(it, tag) && !IsGlobal(it, 0xB)
    ensures Slot(Step(e, it).g, tag) == Slot(e.g, tag)
  {
  }

  /** Size, count and ID of an Input item are those of the last items that said so. */
  lemma InputTakesLast(e: Env, it: Item, later: seq<Item>)
    requires it.kind == 1 && it.tag in {0x7, 0x8, 0x9}
    requires forall x :: x in later ==> !IsGlobal(x, it.tag) && !IsGlobal(x, 0xB)
    ensures var inp := InputOf(Steps(e, [it] + later));
      && (it.tag == 0x7 ==> inp.size == it.value)
      && (it.tag == 0x8 ==> inp.id == it.value % 0x100)
      && (it.tag == 0x9 ==> inp.count == it.value)
      && inp.l == Steps(e, [it] + later).l
    ensures it.tag == 0x8 ==> Steps(e, [it] + later).anyId
  {
    assert ([it] + later)[1..] == later;
    LastWins(Step(e, it), it.tag, later);
    IdIsSticky(Step(e, it), later);
  }

  /** That a report ID was ever declared is not forgotten, not even by Pop. */
  lemma {:induction false} IdIsSticky(e: Env, later: seq<Item>)
    ensures e.anyId ==> Steps(e, later).anyId
    decreases |later|
  {
    if later != [] {
      IdIsSticky(Step(e, later[0]), later[1..]);
    }
  }

  /**
    A logical maximum is the unsigned value of its item as long as the minimum is not
    negative, and otherwise its signed value, or zero if that is negative. `min` and `max` may come in
    either order and with any other items around them, but for another of theirs or a Pop.
  */
  lemma LogicalMaxLaw(e: Env, min: Item, max: Item, between: seq<Item>, later: seq<Item>, lo: int, hi: int)
    requires IsGlobal(min, 0x1) && IsGlobal(max, 0x2) && Signed(min, lo) && Signed(max, hi)
    requires forall x :: x in between + later ==> !IsGlobal(x, 0x1) && !IsGlobal(x, 0x2) && !IsGlobal(x, 0xB)
    ensures
      var one := InputOf(Steps(e, [min] + between + [max] + later)).max;
      var other := InputOf(Steps(e, [max] + between + [min] + later)).max;
      one == other == if lo >= 0 then (if hi >= 0 then hi else max.value) else if hi > 0 then hi else 0
  {
    SignedIs(min, lo);
    SignedIs(max, hi);
    TwoGlobals(e, min, max, between, later);
    TwoGlobals(e, max, min, between, later);
    hide Steps;
  }

  lemma SignedValueIs(it: Item)
    requires (it.size == 1 && it.value < 0x100) || (it.size == 2 && it.value < 0x1_0000) || it.size == 4
    ensures Signed(it, SignedValue(it)) && (SignedValue(it) >= 0 ==> SignedValue(it) == it.value)
  {
  }

  /** Every item of one, two or four bytes has such a reading, and only one; unless negative it is the value itself. */
  lemma SignedExists(it: Item) returns (v: int)
    requires (it.size == 1 && it.value < 0x100) || (it.size == 2 && it.value < 0x1_0000) || it.size == 4
    ensures Signed(it, v) && (v >= 0 ==> v == it.value)
    ensures forall u :: Signed(it, u) ==> u == v
  {
    SignedValueIs(it);
    hide Signed, SignedValue;
    v := SignedValue(it);
    forall u | Signed(it, u)
      ensures u == v
    {
      SignedIs(it, u);
    }
  }

  lemma TwoGlobals(e: Env, a: Item, b: Item, between: seq<Item>, later: seq<Item>)
    requires a.kind == 1 && b.kind == 1 && a.tag != b.tag && a.tag in {0x1, 0x2} && b.tag in {0x1, 0x2}
    requires forall x :: x in between + later ==> !IsGlobal(x, 0x1) && !IsGlobal(x, 0x2) && !IsGlobal(x, 0xB)
    ensures var k := Steps(e, [a] + between + [b] + later);
      Slot(k.g, a.tag) == Slot(Step(e, a).g, a.tag) && Slot(k.g, b.tag) == Slot(Step(START, b).g, b.tag)
  {
    var e1 := Step(e, a);
    var e2 := Steps(e1, between);
    var e3 := Step(e2, b);
    assert forall x :: x in between ==> x in between + later;
    assert forall x :: x in later ==> x in between + later;
    assert [a] + between + [b] + later == [a] + between + ([b] + later);
    StepsConcat(e, [a] + between, [b] + later);
    assert ([a] + between)[1..] == between && ([b] + later)[1..] == later;
    LastWins(e1, a.tag, between);
    LastWins(e3, a.tag, later);
    LastWins(e3, b.tag, later);
    OtherItem(e2, a.tag, b);
  }

  lemma {:induction false} StepsConcat(e: Env, a: seq<Item>, b: seq<Item>)
    ensures Steps(e, a + b) == Steps(Steps(e, a), b)
    decreases |a|
  {
    hide Step;
    if a == [] {
      assert a + b == b;
    } else {
      assert (a + b)[0] == a[0] && (a + b)[1..] == a[1..] + b;
      StepsConcat(Step(e, a[0]), a[1..], b);
    }
  }

  predicate Stacks(it: Item) {
    IsGlobal(it, 0xA) || IsGlobal(it, 0xB)
  }

  lemma {:induction false} StackStays(e: Env, items: seq<Item>)
    requires forall it :: it in items ==> !Stacks(it)
    ensures Steps(e, items).stack == e.stack
    decreases |items|
  {
    if items != [] {
      assert items[0] in items;
      assert forall x :: x in items[1..] ==> x in items;
      StackStays(Step(e, items[0]), items[1..]);
    }
  }

  /** Pop brings back every global as it was at the matching Push, the report ID among them. */
  lemma PopRestores(e: Env, push: Item, items: seq<Item>, pop: Item)
    requires IsGlobal(push, 0xA) && IsGlobal(pop, 0xB) && |e.stack| < 4
    requires forall it :: it in items ==> !Stacks(it)
    ensures var k := Steps(e, [push] + items + [pop]);
      k.g == e.g && k.g.reportId == e.g.reportId && k.stack == e.stack
  {
    assert ([push] + items)[1..] == items;
    StepsAppend(e, [push] + items, pop);
    StackStays(Step(e, push), items);
    assert (e.stack + [e.g])[..|e.stack|] == e.stack;
  }

  /** A fifth Push and a Pop without a Push change nothing. */
  lemma StackLimits(e: Env, push: Item, pop: Item)
    requires IsGlobal(push, 0xA) && IsGlobal(pop, 0xB)
    ensures |e.stack| >= 4 ==> Step(e, push) == e
    ensures e.stack == [] ==> Step(e, pop) == e
  {
  }

  // ---------------------------------------------------------------------
  // Usages
  // ---------------------------------------------------------------------

  predicate IsLocal(it: Item, tag: nat) {
    it.kind == 2 && it.tag == tag
  }

  /**
    A Usage item names its page only in four bytes; in fewer it takes the page in force
    at that item, whatever page follows. The first 32 count, and any main item ends them.
  */
  lemma UsageLaw(e: Env, usage: Item, page: Item, main: Item)
    requires IsLocal(usage, 0x0) && IsGlobal(page, 0x0) && main.kind == 0
    requires usage.size in {0, 1, 2, 4} && (usage.size < 4 ==> usage.value < 0x1_0000)
    ensures var k := Steps(e, [usage, page]);
      && (|e.l.usages| < 32 ==> |k.l.usages| == |e.l.usages| + 1 && k.l.usages[..|e.l.usages|] == e.l.usages)
      && (|e.l.usages| >= 32 ==> k.l.usages == e.l.usages)
      && (|e.l.usages| < 32 ==>
            var u := k.l.usages[|e.l.usages|];
            if usage.size == 4 then u == usage.value
            else u % 0x1_0000 == usage.value && u / 0x1_0000 == e.g.usagePage % 0x1_0000)
      && k.l.min == e.l.min && k.l.max == e.l.max
    ensures Steps(e, [usage, main]).l == Locals([], None, None)
  {
    TwoSteps(e, usage, page);
    TwoSteps(e, usage, main);
  }

  lemma TwoSteps(e: Env, a: Item, b: Item)
    ensures Steps(e, [a, b]) == Step(Step(e, a), b)
  {
    assert [a, b][1..] == [b] && [b][1..] == [];
    assert Steps(Step(Step(e, a), b), []) == Step(Step(e, a), b);
    hide Step;
  }

  /** A usage range outranks a list. It is dealt out in order, and its end is repeated. */
  lemma UsageRangeLaw(l: Locals, lo: u32, hi: u32, k: nat)
    requires l.min == Some(lo) && l.max == Some(hi) && lo + k < 0x1_0000_0000
    ensures lo + k <= hi ==> UsageOf(l, k) == Some(lo + k)
    ensures lo + k > hi ==> UsageOf(l, k) == Some(hi)
  {
  }

  /** A list is dealt out in order, and its last usage is repeated; with neither there is only padding. */
  lemma UsageListLaw(l: Locals, k: nat)
    requires l.min == None || l.max == None
    ensures k < |l.usages| ==> UsageOf(l, k) == Some(l.usages[k])
    ensures k >= |l.usages| > 0 ==> UsageOf(l, k) == Some(l.usages[|l.usages| - 1])
    ensures l.usages == [] ==> UsageOf(l, k) == None
  {
  }

  /** The ends of a range take their page as a usage does, and the list stays. */
  lemma UsageEndsLaw(e: Env, it: Item)
    requires it.kind == 2 && it.tag in {0x1, 0x2} && it.size in {0, 1, 2, 4} && (it.size < 4 ==> it.value < 0x1_0000)
    ensures var k := Step(e, it);
      && k.g == e.g && k.l.usages == e.l.usages
      && (it.tag == 0x1 ==> k.l.max == e.l.max && k.l.min.Some?)
      && (it.tag == 0x2 ==> k.l.min == e.l.min && k.l.max.Some?)
      && (k.l.min.Some? && k.l.max.Some? ==>
            var u := if it.tag == 0x1 then k.l.min.value else k.l.max.value;
            if it.size == 4 then u == it.value
            else u % 0x1_0000 == it.value && u / 0x1_0000 == e.g.usagePage % 0x1_0000)
  {
  }

  // ---------------------------------------------------------------------
  // Fields
  // ---------------------------------------------------------------------

  /** End to end from lo to hi. */
  predicate Tiles(fs: seq<Field>, lo: nat, hi: nat) {
    && fs != [] && fs[0].offset == lo
    && (forall i {:trigger fs[i]} :: 0 < i < |fs| ==> fs[i].offset == fs[i - 1].offset + fs[i - 1].size)
    && fs[|fs| - 1].offset + fs[|fs| - 1].size == hi
  }

  /** As many as declared, of the size declared, each with its own usage. */
  predicate Dealt(fs: seq<Field>, inp: Input) {
    && |fs| == inp.count
    && (forall i {:trigger fs[i]} :: 0 <= i < |fs| ==>
          fs[i].size == inp.size && fs[i].max == inp.max && fs[i].usage == UsageOf(inp.l, i))
  }

  /** An accepted declaration adds its fields after the others, from the old end of the report to its new one. */
  lemma FieldsTile(r: Report, inp: Input, cap: nat)
    requires Fits(inp, r.bits, cap)
    ensures var k, n := AddInput(r, inp, cap), |r.fields|;
      && n <= |k.fields| && k.fields[..n] == r.fields && k.skipped == r.skipped
      && Tiles(k.fields[n..], r.bits, k.bits) && Dealt(k.fields[n..], inp)
  {
    var k, fs := AddInput(r, inp, cap), FieldsOf(inp, r.bits);
    EndToEnd(inp, r.bits);
    hide FieldsOf, Tiles, Dealt;
    assert k.fields == r.fields + fs;
    assert k.fields[|r.fields|..] == fs;
  }

  lemma EndToEnd(inp: Input, base: nat)
    requires inp.count > 0
    ensures Tiles(FieldsOf(inp, base), base, base + inp.size * inp.count) && Dealt(FieldsOf(inp, base), inp)
  {
    hide UsageOf, Product, FieldAt, FieldsOf;
    var fs := FieldsOf(inp, base);
    Offsets(inp, base);
    Products(0, inp.size);
    Products(inp.count - 1, inp.size);
    Commutes(inp.size, inp.count);
    forall i {:trigger fs[i]} | 0 < i < |fs|
      ensures fs[i].offset == fs[i - 1].offset + fs[i - 1].size
    {
      Products(i - 1, inp.size);
    }
  }

  lemma Offsets(inp: Input, base: nat)
    ensures Dealt(FieldsOf(inp, base), inp)
    ensures forall i :: 0 <= i < inp.count ==> FieldsOf(inp, base)[i].offset == base + Product(i, inp.size)
  {
    hide UsageOf;
    var fs := FieldsOf(inp, base);
    forall i | 0 <= i < |fs|
      ensures fs[i].offset == base + Product(i, inp.size)
    {
      assert fs[i] == FieldAt(inp, base, i);
    }
  }

  lemma Products(k: nat, size: nat)
    ensures Product(0, size) == 0 && Product(k + 1, size) == Product(k, size) + size
  {
    assert (k + 1) * size == k * size + size;
  }

  lemma Commutes(a: nat, b: nat)
    ensures Product(b, a) == a * b
  {
  }

  /** The bits that all declarations for an ID ask for together. */
  function Asked(inputs: seq<Input>, id: byte): nat {
    if inputs == [] then 0
    else
      var last := inputs[|inputs| - 1];
      Asked(inputs[..|inputs| - 1], id) + (if last.id == id then Product(last.size, last.count) else 0)
  }

  function Product(a: nat, b: nat): nat {
    MulMono(0, a, b);
    a * b
  }

  predicate Degenerate(inputs: seq<Input>, id: byte) {
    exists k :: 0 <= k < |inputs| && inputs[k].id == id && (inputs[k].size == 0 || inputs[k].count == 0)
  }

  /** A report is usable exactly if none of its declarations is degenerate and all of them fit together. */
  lemma {:induction false} SkippedExactly(inputs: seq<Input>, id: byte, cap: nat)
    ensures var r := ReportOf(inputs, id, cap);
      && (r.skipped <==> Degenerate(inputs, id) || Asked(inputs, id) > cap)
      && (!r.skipped ==> r.bits == Asked(inputs, id))
      && r.bits <= Asked(inputs, id)
  {
    if inputs != [] {
      var rest, last := inputs[..|inputs| - 1], inputs[|inputs| - 1];
      SkippedExactly(rest, id, cap);
      assert Degenerate(inputs, id) <==>
             Degenerate(rest, id) || (last.id == id && (last.size == 0 || last.count == 0)) by {
        DegenerateNext(inputs, id);
      }
      hide Degenerate;
      assert Product(last.size, last.count) == last.size * last.count;
    }
  }

  lemma DegenerateNext(inputs: seq<Input>, id: byte)
    requires inputs != []
    ensures var rest, last := inputs[..|inputs| - 1], inputs[|inputs| - 1];
      Degenerate(inputs, id) <==> Degenerate(rest, id) || (last.id == id && (last.size == 0 || last.count == 0))
  {
    var rest, last := inputs[..|inputs| - 1], inputs[|inputs| - 1];
    if Degenerate(inputs, id) {
      var k :| 0 <= k < |inputs| && inputs[k].id == id && (inputs[k].size == 0 || inputs[k].count == 0);
      assert k < |rest| ==> rest[k] == inputs[k];
    }
    if Degenerate(rest, id) {
      var k :| 0 <= k < |rest| && rest[k].id == id && (rest[k].size == 0 || rest[k].count == 0);
      assert inputs[k] == rest[k];
    }
  }

  // ---------------------------------------------------------------------
  // The layout
  // ---------------------------------------------------------------------

  /** f is the first field of the usage. */
  predicate IsFirst(fields: seq<Field>, f: Field, usage: u32) {
    exists n :: 0 <= n < |fields| && fields[n] == f && f.usage == Some(usage)
                && forall k :: 0 <= k < n ==> fields[k].usage != Some(usage)
  }

  lemma FirstExactly(fields: seq<Field>, usage: u32)
    ensures forall f :: IsFirst(fields, f, usage) <==> FirstField(fields, usage) == Some(f)
  {
    FirstFieldIsFirst(fields, usage);
    forall f
      ensures IsFirst(fields, f, usage) <==> FirstField(fields, usage) == Some(f)
    {
      hide FirstField;
    }
  }

  /**
    A report has a layout exactly if it is usable, leaves room for its ID, and has a tip
    switch, an X and a Y; and then the layout is that of the first of each.
  */
  lemma LayoutLaw(r: Report, id: byte, anyId: bool, cap: nat, tip: Field, x: Field, y: Field)
    requires IsFirst(r.fields, tip, 0x000D_0042) && IsFirst(r.fields, x, 0x0001_0030) && IsFirst(r.fields, y, 0x0001_0031)
    ensures Qualifies(r, anyId, cap) <==> !r.skipped && r.bits + (if anyId then 8 else 0) <= cap
    ensures Qualifies(r, anyId, cap) ==>
              LayoutOf(r, id, anyId, cap)
              == Layout(anyId, id, tip.offset, x.offset, x.size, x.max, y.offset, y.size, y.max)
  {
    FirstExactly(r.fields, USAGE_TIP_SWITCH);
    FirstExactly(r.fields, USAGE_X);
    FirstExactly(r.fields, USAGE_Y);
    hide IsFirst, FirstField;
  }

  lemma NoLayoutWithout(r: Report, anyId: bool, cap: nat, usage: u32)
    requires usage in {0x000D_0042, 0x0001_0030, 0x0001_0031}
    requires forall k :: 0 <= k < |r.fields| ==> r.fields[k].usage != Some(usage)
    ensures !Qualifies(r, anyId, cap)
  {
    FirstFieldIsFirst(r.fields, usage);
    hide FirstField;
  }

  // ---------------------------------------------------------------------
  // The order of report IDs
  // ---------------------------------------------------------------------

  /** An ID comes before another exactly if its first Input item does. */
  lemma {:induction false} IdsInOrder(inputs: seq<Input>, j: nat, k: nat)
    requires j < k < |Ids(inputs)|
    ensures exists n :: 0 <= n < |inputs| && inputs[n].id == Ids(inputs)[j]
                        && forall m :: 0 <= m <= n ==> inputs[m].id != Ids(inputs)[k]
  {
    var rest, last := inputs[..|inputs| - 1], inputs[|inputs| - 1];
    var ids := Ids(rest);
    IdsDistinct(rest);
    assert forall m :: 0 <= m < |rest| ==> inputs[m] == rest[m];
    if k < |ids| {
      IdsInOrder(rest, j, k);
      var n :| 0 <= n < |rest| && rest[n].id == ids[j] && forall m :: 0 <= m <= n ==> rest[m].id != ids[k];
      assert inputs[n].id == ids[j];
    } else {
      assert ids[j] in ids;
      var n :| 0 <= n < |rest| && rest[n].id == ids[j];
      assert inputs[n].id == ids[j];
      assert forall m :: 0 <= m <= n ==> rest[m].id in ids;
    }
  }

  /** Only the first sixteen are looked at. */
  lemma SixteenIds(inputs: seq<Input>)
    ensures KnownIds(inputs) <= Ids(inputs) && |KnownIds(inputs)| <= 16
    ensures |Ids(inputs)| <= 16 ==> KnownIds(inputs) == Ids(inputs)
    ensures |Ids(inputs)| >= 16 ==> |KnownIds(inputs)| == 16
  {
  }
}
