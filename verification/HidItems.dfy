/** Decoding a HID report descriptor into items: USB HID 1.11, sections 6.2.2.2 and 6.2.2.3. */
module HidItems {
  import opened Machine
  import opened LittleEndian

  const LONG_ITEM := 0xFE

  datatype Item = Item(kind: nat, tag: nat, size: nat, value: u32)

  datatype Decoded = End | Long(next: nat) | Short(item: Item, next: nat)

  function DataSize(prefix: byte): nat {
    if prefix % 4 == 3 then 4 else prefix % 4
  }

  /** The item that starts at offset i; End when it is cut short. */
  function DecodeAt(d: seq<byte>, i: nat): (r: Decoded)
    requires i < |d|
    ensures r != End ==> r.next > i
  {
    if d[i] == LONG_ITEM then
      if i + 2 >= |d| then End else Long(i + 3 + d[i + 1])
    else
      var size := DataSize(d[i]);
      if i + 1 + size > |d| then End
      else
        LittleFitsU32(d[i + 1..i + 1 + size]);
        Short(Item(d[i] / 4 % 4, d[i] / 16, size, Little(d[i + 1..i + 1 + size])), i + 1 + size)
  }

  /** The short items from offset i on; long items are skipped, a truncated item ends the descriptor. */
  function Items(d: seq<byte>, i: nat): seq<Item>
    decreases |d| - i
  {
    if i >= |d| then []
    else
      match DecodeAt(d, i)
      case End => []
      case Long(next) => Items(d, next)
      case Short(item, next) => [item] + Items(d, next)
  }

  /** From offset i on, d is a whole number of items. */
  predicate WholeItems(d: seq<byte>, i: nat)
    decreases |d| - i
  {
    if i >= |d| then i == |d|
    else
      match DecodeAt(d, i)
      case End => false
      case Long(next) => WholeItems(d, next)
      case Short(_, next) => WholeItems(d, next)
  }

  function Shifted(x: Decoded, n: nat): Decoded {
    match x
    case End => End
    case Long(next) => Long(n + next)
    case Short(item, next) => Short(item, n + next)
  }

  lemma DecodeSuffix(d: seq<byte>, e: seq<byte>, j: nat)
    requires j < |e|
    ensures DecodeAt(d + e, |d| + j) == Shifted(DecodeAt(e, j), |d|)
  {
    var de, n, size := d + e, |d|, DataSize(e[j]);
    assert de[n + j] == e[j];
    if e[j] != LONG_ITEM && j + 1 + size <= |e| {
      assert de[n + j + 1..n + j + 1 + size] == e[j + 1..j + 1 + size];
    }
  }

  lemma DecodePrefix(d: seq<byte>, e: seq<byte>, i: nat)
    requires i < |d| && DecodeAt(d, i) != End
    ensures DecodeAt(d + e, i) == DecodeAt(d, i)
  {
    var de, size := d + e, DataSize(d[i]);
    assert de[i] == d[i];
    if d[i] != LONG_ITEM {
      assert de[i + 1..i + 1 + size] == d[i + 1..i + 1 + size];
    }
  }

  lemma ItemsUnfold(d: seq<byte>, i: nat)
    ensures Items(d, i) ==
            if i >= |d| then []
            else
              match DecodeAt(d, i)
              case End => []
              case Long(next) => Items(d, next)
              case Short(item, next) => [item] + Items(d, next)
  {
  }

  /** Two descriptors that decode alike from some point on have the same items from there. */
  lemma {:induction false} ItemsShifted(de: seq<byte>, e: seq<byte>, n: nat, j: nat)
    requires |de| == n + |e|
    requires forall i {:trigger DecodeAt(e, i)} :: 0 <= i < |e| ==>
               DecodeAt(de, n + i) == Shifted(DecodeAt(e, i), n)
    ensures Items(de, n + j) == Items(e, j)
    decreases |e| - j
  {
    hide DecodeAt;
    if j < |e| {
      var x := DecodeAt(e, j);
      if x != End {
        ItemsShifted(de, e, n, x.next);
      }
    }
  }

  lemma ItemsSuffix(d: seq<byte>, e: seq<byte>)
    ensures Items(d + e, |d|) == Items(e, 0)
  {
    forall i {:trigger DecodeAt(e, i)} | 0 <= i < |e|
      ensures DecodeAt(d + e, |d| + i) == Shifted(DecodeAt(e, i), |d|)
    {
      DecodeSuffix(d, e, i);
    }
    hide Items, DecodeAt;
    ItemsShifted(d + e, e, |d|, 0);
  }

  /** Appending to a whole descriptor appends to its items. */
  lemma {:induction false} ItemsConcat(d: seq<byte>, e: seq<byte>, i: nat)
    requires WholeItems(d, i)
    ensures Items(d + e, i) == Items(d, i) + Items(e, 0)
    decreases |d| - i
  {
    if i == |d| {
      ItemsSuffix(d, e);
    } else {
      DecodePrefix(d, e, i);
      hide DecodeAt;
      match DecodeAt(d, i)
      case Long(next) => ItemsConcat(d, e, next);
      case Short(_, next) => ItemsConcat(d, e, next);
    }
  }
}
