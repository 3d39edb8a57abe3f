/**
  Encoding items into a descriptor, and the one respect in which the parser reads
  a descriptor differently from what it means.
*/
module HidLimits {
  import opened Machine
  import Bits
  import opened LittleEndian
  import opened HidItems
  import opened HidMeaning
  import opened HidFields

  // ---------------------------------------------------------------------
  // Descriptors made of short items
  // ---------------------------------------------------------------------

  /** Kind 3 is reserved; with it a prefix could be mistaken for a long item. */
  predicate Encodable(it: Item) {
    it.kind < 3 && it.tag < 16 && it.size in {0, 1, 2, 4} && it.value < Bits.Pow2(8 * it.size)
  }

  predicate AllEncodable(items: seq<Item>) {
    forall k :: 0 <= k < |items| ==> Encodable(items[k])
  }

  function EncodeItem(it: Item): seq<byte>
    requires Encodable(it)
  {
    [16 * it.tag + 4 * it.kind + (if it.size == 4 then 3 else it.size)] + Bits.ToBytes(it.value, it.size)
  }

  function EncodeItems(items: seq<Item>): seq<byte>
    requires AllEncodable(items)
  {
    if items == [] then [] else EncodeItem(items[0]) + EncodeItems(items[1..])
  }

  lemma OneDecoded(it: Item)
    requires Encodable(it)
    ensures EncodeItem(it) != [] && DecodeAt(EncodeItem(it), 0) == Short(it, |EncodeItem(it)|)
  {
    hide Bits.Pow2, Little;
    Bits.BytesRoundTrip(it.value, it.size);
    assert EncodeItem(it)[1..1 + it.size] == Bits.ToBytes(it.value, it.size);
  }

  lemma OneItem(it: Item)
    requires Encodable(it)
    ensures WholeItems(EncodeItem(it), 0) && Items(EncodeItem(it), 0) == [it]
  {
    var d := EncodeItem(it);
    OneDecoded(it);
    hide EncodeItem, DecodeAt, Encodable;
    assert Items(d, |d|) == [];
    ItemsUnfold(d, 0);
  }

  /** Encoding and decoding are inverse, for every list of short items. */
  lemma {:induction false} ItemsRoundTrip(items: seq<Item>)
    requires AllEncodable(items)
    ensures Items(EncodeItems(items), 0) == items
  {
    hide Items, WholeItems, EncodeItem, Encodable;
    if items == [] {
      NoItems();
    } else {
      OneItem(items[0]);
      ItemsConcat(EncodeItem(items[0]), EncodeItems(items[1..]), 0);
      assert forall k :: 0 <= k < |items[1..]| ==> items[1..][k] == items[k + 1];
      ItemsRoundTrip(items[1..]);
      assert [items[0]] + items[1..] == items;
    }
  }

  lemma NoItems()
    ensures Items([], 0) == []
  {
  }

  // ---------------------------------------------------------------------
  // A report that is overlooked
  // ---------------------------------------------------------------------

  const HALF: u32 := 0x4000_0000

  /** X and Y of 2^30 bits each, and then a tip switch at bit 2^31. */
  function FarTip(): seq<Item> {
    [
      Item(2, 0x0, 4, USAGE_X),
      Item(2, 0x0, 4, USAGE_Y),
      Item(1, 0x7, 4, HALF),
      Item(1, 0x9, 1, 2),
      Item(0, 0x8, 1, 2),
      Item(2, 0x0, 4, USAGE_TIP_SWITCH),
      Item(1, 0x7, 1, 1),
      Item(1, 0x9, 1, 1),
      Item(0, 0x8, 1, 2)
    ]
  }

  function FarTipInputs(): seq<Input> {
    [Input(0, HALF, 2, Locals([USAGE_X, USAGE_Y], None, None), 0),
     Input(0, 1, 1, Locals([USAGE_TIP_SWITCH], None, None), 0)]
  }

  lemma ScanNext(items: seq<Item>, it: Item, s: Scan)
    requires ScanOf(items) == s
    ensures ScanOf(items + [it]) == ScanStep(s, it)
  {
    assert (items + [it])[..|items|] == items;
  }

  lemma {:induction false} ScanSlice(items: seq<Item>, n: nat)
    requires n < |items|
    ensures ScanOf(items[..n + 1]) == ScanStep(ScanOf(items[..n]), items[n])
  {
    assert items[..n + 1] == items[..n] + [items[n]];
    ScanNext(items[..n], items[n], ScanOf(items[..n]));
  }

  lemma FarTipScan()
    ensures ScanOf(FarTip()).inputs == FarTipInputs() && !ScanOf(FarTip()).env.anyId
  {
    var d := FarTip();
    hide ScanOf;
    assert ScanOf(d[..0]) == Scan(START, []) by { EmptyScan(d[..0]); }
    ScanSlice(d, 0);
    ScanSlice(d, 1);
    ScanSlice(d, 2);
    ScanSlice(d, 3);
    ScanSlice(d, 4);
    var first, empty: seq<Input>, none: seq<u32> := FarTipInputs()[0], [], [];
    assert none + [USAGE_X] == [USAGE_X] && [USAGE_X] + [USAGE_Y] == [USAGE_X, USAGE_Y];
    assert none + [USAGE_TIP_SWITCH] == [USAGE_TIP_SWITCH];
    assert empty + [first] == [first] && [first] + [FarTipInputs()[1]] == FarTipInputs();
    assert ScanOf(d[..5]) == Scan(Env(NO_GLOBALS.(reportSize := HALF, reportCount := 2), [], NO_LOCALS, false), [first]);
    ScanSlice(d, 5);
    ScanSlice(d, 6);
    ScanSlice(d, 7);
    ScanSlice(d, 8);
    assert d[..9] == d;
  }

  lemma EmptyScan(items: seq<Item>)
    requires items == []
    ensures ScanOf(items) == Scan(START, [])
  {
  }

  const X_FIELD := Field(0, HALF, Some(USAGE_X), 0)
  const Y_FIELD := Field(HALF, HALF, Some(USAGE_Y), 0)
  const TIP_FIELD := Field(CAST_LIMIT, 1, Some(USAGE_TIP_SWITCH), 0)

  lemma FarTipFields(cap: nat)
    requires cap > CAST_LIMIT
    ensures ReportOf(FarTipInputs(), 0, cap) == Report(CAST_LIMIT + 1, false, [X_FIELD, Y_FIELD, TIP_FIELD])
  {
    var a, b := FarTipInputs()[0], FarTipInputs()[1];
    assert FarTipInputs()[..1] == [a] && [a][..0] == [];
    assert FieldsOf(a, 0) == [X_FIELD, Y_FIELD] && FieldsOf(b, CAST_LIMIT) == [TIP_FIELD];
    var none: seq<Field> := [];
    assert none + [X_FIELD, Y_FIELD] == [X_FIELD, Y_FIELD];
    assert ReportOf([a], 0, cap) == Report(CAST_LIMIT, false, [X_FIELD, Y_FIELD]);
    assert [X_FIELD, Y_FIELD] + [TIP_FIELD] == [X_FIELD, Y_FIELD, TIP_FIELD];
  }

  /** A field is found in a longer list where it was found before, or else at its end. */
  lemma FindNext(fields: seq<Field>, f: Field, usage: u32)
    ensures FirstField(fields + [f], usage) ==
            if FirstField(fields, usage).Some? then FirstField(fields, usage)
            else if f.usage == Some(usage) then Some(f) else None
  {
    assert (fields + [f])[..|fields|] == fields;
  }

  lemma FindAmong(usage: u32)
    requires usage in {USAGE_X, USAGE_Y, USAGE_TIP_SWITCH}
    ensures FirstField([X_FIELD, Y_FIELD, TIP_FIELD], usage) ==
            Some(if usage == USAGE_X then X_FIELD else if usage == USAGE_Y then Y_FIELD else TIP_FIELD)
  {
    FindNext([], X_FIELD, usage);
    FindNext([X_FIELD], Y_FIELD, usage);
    FindNext([X_FIELD, Y_FIELD], TIP_FIELD, usage);
    assert [] + [X_FIELD] == [X_FIELD] && [X_FIELD] + [Y_FIELD] == [X_FIELD, Y_FIELD];
    assert [X_FIELD, Y_FIELD] + [TIP_FIELD] == [X_FIELD, Y_FIELD, TIP_FIELD];
  }

  lemma FarTipReport(cap: nat)
    requires cap > CAST_LIMIT
    ensures var r := ReportOf(FarTipInputs(), 0, cap);
      Qualifies(r, false, cap) && FirstField(r.fields, USAGE_TIP_SWITCH).value.offset == CAST_LIMIT
  {
    hide FirstField, ReportOf;
    FarTipFields(cap);
    FindAmong(USAGE_X);
    FindAmong(USAGE_Y);
    FindAmong(USAGE_TIP_SWITCH);
  }

  /**
    For a maximum beyond 2^31 bits the parser overlooks the report that this descriptor
    declares; up to there it overlooks none, whatever the descriptor.
  */
  lemma RefinesExactly(cap: u32)
    requires cap >= 8
    ensures (forall d :: CastMeaning(d, cap) == Meaning(d, cap)) <==> cap <= CAST_LIMIT
  {
    if cap <= CAST_LIMIT {
      forall d
        ensures CastMeaning(d, cap) == Meaning(d, cap)
      {
        var s := ScanOf(Items(d, 0));
        CastNeverMatters(KnownIds(s.inputs), s, cap);
      }
    } else {
      var d := FarTipDescriptor(cap);
      assert CastMeaning(d, cap) != Meaning(d, cap);
    }
  }

  lemma FarTipDescriptor(cap: u32) returns (d: seq<byte>)
    requires cap > CAST_LIMIT
    ensures CastMeaning(d, cap) == None && Meaning(d, cap).Some?
  {
    FarTipEncodable();
    d := EncodeItems(FarTip());
    ItemsRoundTrip(FarTip());
    FarTipScan();
    FarTipIds();
    FarTipReport(cap);
    var s := ScanOf(Items(d, 0));
    hide ScanOf, ReportOf, Qualifies, KnownIds, FarTip, FarTipInputs;
    OnlyId(s, cap);
  }

  lemma FarTipEncodable()
    ensures AllEncodable(FarTip())
  {
    assert Bits.Pow2(8) == 256 && Bits.Pow2(16) == 0x1_0000 && Bits.Pow2(24) == 0x100_0000
           && Bits.Pow2(32) == 0x1_0000_0000;
  }

  lemma FarTipIds()
    ensures KnownIds(FarTipInputs()) == [0]
  {
    var a := FarTipInputs()[0];
    assert FarTipInputs()[..1] == [a] && [a][..0] == [];
    assert Ids([]) == [];
    assert Ids([a]) == [] + [0] == [0];
    assert Ids(FarTipInputs()) == [0];
    assert [0][..1] == [0];
  }

  lemma OnlyId(s: Scan, cap: nat)
    requires KnownIds(s.inputs) == [0]
    requires var r := ReportOf(s.inputs, 0, cap);
      Qualifies(r, s.env.anyId, cap) && !Castable(r)
    ensures Choose(KnownIds(s.inputs), s, cap).Some? && ChooseCastable(KnownIds(s.inputs), s, cap) == None
  {
    hide Qualifies, Castable, ReportOf, KnownIds;
    assert [0][1..] == [];
  }
}
