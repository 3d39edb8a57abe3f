/** Reading bit fields out of an input report, and packing them into one. */
module HidExtract {
  import opened Machine
  import opened LittleEndian
  import opened HidItems
  import opened Bits
  import opened HidMeaning
  import opened HidTheorems

  const TWO32 := 0x1_0000_0000

  /** Bits b.. of the extracted value, as the loop gathers them: the bit index is a UINT32. */
  function Gathered(s: seq<byte>, off: u32, n: nat, b: nat): nat
    decreases n - b
  {
    if b >= n then 0
    else
      var bit := (off + b) % TWO32;
      if bit / 8 >= |s| then 0
      else Times(Bit(s, bit), Pow2(b)) + Gathered(s, off, n, b + 1)
  }

  /** The field of n bits at `off` in a report of any length, absent bytes reading as zero. */
  function Extracted(s: seq<byte>, off: nat, n: nat): nat {
    Get(Little(s), off, n)
  }

  /** The indices the loop computes do not wrap before it runs out of buffer. */
  predicate NoWrap(len: nat, off: u32, n: nat) {
    off + n <= TWO32 || len < TWO32 / 8
  }

  lemma BeyondTheEnd(s: seq<byte>, off: nat, n: nat)
    requires off >= 8 * |s|
    ensures Extracted(s, off, n) == 0
  {
    hide Times, Quot, Rem, Pow2;
    var top, rest := Pow2(8 * |s|), Pow2(off - 8 * |s|);
    LittleBound(s);
    Pow256IsPow2(|s|);
    Pow2Sum(8 * |s|, off - 8 * |s|);
    TimesMono(1, rest, top);
    TimesUnits(top);
    TimesLaws(top, rest, 0);
    TimesUnits(Pow2(off));
    DivUnique(Little(s), Pow2(off), 0, Little(s));
    TimesUnits(Pow2(n));
    DivUnique(0, Pow2(n), 0, 0);
  }

  lemma {:induction false} GatherIsExtract(s: seq<byte>, off: u32, n: nat, b: nat)
    requires b <= n && NoWrap(|s|, off, n)
    requires b < n ==> off + b < TWO32
    ensures Extracted(s, off, b) + Gathered(s, off, n, b) == Extracted(s, off, n)
    decreases n - b
  {
    hide Times, Quot, Rem, Pow2, Little, Bit;
    if b < n {
      assert (off + b) % TWO32 == off + b;
      if (off + b) / 8 >= |s| {
        StopsEarly(s, off, n, b);
      } else {
        BitIsGet(s, off + b);
        GetMore(Little(s), off, b);
        GatherIsExtract(s, off, n, b + 1);
      }
    }
  }

  lemma StopsEarly(s: seq<byte>, off: u32, n: nat, b: nat)
    requires b < n && off + b < TWO32 && (off + b) / 8 >= |s|
    ensures Extracted(s, off, b) == Extracted(s, off, n)
  {
    hide Times, Quot, Rem, Pow2, Little;
    var l, q := Little(s), Quot(Little(s), Pow2(off));
    BeyondTheEnd(s, off + b, n - b);
    SplitAt(l, off, b);
    SplitAt(q, b, n - b);
    assert Get(q, b, n - b) == Get(l, off + b, n - b);
    TimesUnits(Pow2(b));
  }

  lemma ExtractNothing(s: seq<byte>, off: nat)
    ensures Extracted(s, off, 0) == 0
  {
    hide Times, Quot, Rem;
    var q := Quot(Little(s), Pow2(off));
    TimesUnits(q);
    assert Pow2(0) == 1;
    DivUnique(q, 1, q, 0);
  }

  /** The loop reads the field, for every buffer of this length, exactly when no index wraps. */
  lemma ExtractionIsExact(len: nat, off: u32, n: nat)
    requires n <= 32
    ensures NoWrap(len, off, n) <==>
            forall s: seq<byte> :: |s| == len ==> Gathered(s, off, n, 0) == Extracted(s, off, n)
  {
    if NoWrap(len, off, n) {
      forall s: seq<byte> | |s| == len
        ensures Gathered(s, off, n, 0) == Extracted(s, off, n)
      {
        ExtractNothing(s, off);
        GatherIsExtract(s, off, n, 0);
      }
    } else {
      var s: seq<byte> := seq(len, i => if i == 0 then 1 else 0);
      WrappedBitIsSeen(s, off, n, 0);
      SingleBitIsMissed(s, off, n);
    }
  }

  lemma FirstBit(s: seq<byte>)
    requires s != []
    ensures Bit(s, 0) == s[0] % 2
  {
    assert Pow2(0) == 1;
  }

  lemma {:induction false} GatheredBound(s: seq<byte>, off: u32, n: nat, b: nat)
    requires b <= n
    ensures Gathered(s, off, n, b) + Pow2(b) <= Pow2(n)
    decreases n - b
  {
    hide Times, Quot;
    if b < n {
      GatheredBound(s, off, n, b + 1);
      assert Pow2(b + 1) == 2 * Pow2(b);
      var bit := Bit(s, (off + b) % TWO32);
      TimesUnits(Pow2(b));
      assert bit in {0, 1};
    }
  }

  /** Once the index wraps, the loop reads the first bit of the buffer again. */
  lemma {:induction false} WrappedBitIsSeen(s: seq<byte>, off: u32, n: nat, b: nat)
    requires |s| >= TWO32 / 8 && s[0] == 1 && off + n > TWO32 && off + b <= TWO32
    ensures Gathered(s, off, n, b) >= 1
    decreases n - b
  {
    hide Times, Quot, Rem, Pow2;
    if off + b < TWO32 {
      WrappedBitIsSeen(s, off, n, b + 1);
    } else {
      assert (off + b) % TWO32 == 0;
      FirstBit(s);
      TimesUnits(Pow2(b));
    }
  }

  lemma {:induction false} LittleOfOne(s: seq<byte>)
    requires s != [] && s[0] == 1 && forall i :: 1 <= i < |s| ==> s[i] == 0
    ensures Little(s) == 1
  {
    if |s| > 1 {
      LittleOfOne(s[..|s| - 1]);
    } else {
      assert s[..0] == [] && Pow256(0) == 1;
    }
  }

  lemma SingleBitIsMissed(s: seq<byte>, off: u32, n: nat)
    requires s != [] && s[0] == 1 && forall i :: 1 <= i < |s| ==> s[i] == 0
    requires off > 0
    ensures Extracted(s, off, n) == 0
  {
    hide Times, Quot, Rem;
    LittleOfOne(s);
    TimesUnits(Pow2(off));
    DivUnique(1, Pow2(off), 0, 1);
    TimesUnits(Pow2(n));
    DivUnique(0, Pow2(n), 0, 0);
  }

  lemma ExtractFacts(s: seq<byte>, off: u32, n: nat)
    requires n <= 32
    ensures Gathered(s, off, n, 0) < TWO32
    ensures NoWrap(|s|, off, n) ==> Gathered(s, off, n, 0) == Extracted(s, off, n)
  {
    hide Times, Quot, Rem, Pow2, Extracted, NoWrap, Gathered;
    ExtractionIsExact(|s|, off, n);
    GatheredBound(s, off, n, 0);
    FitsWord(n);
  }

  lemma FitsWord(n: nat)
    requires n <= 32
    ensures Pow2(n) <= TWO32 && Pow2(0) >= 1
  {
    hide Times;
    Pow2Sum(n, 32 - n);
    TimesMono(1, Pow2(32 - n), Pow2(n));
    TimesUnits(Pow2(n));
    TimesLaws(Pow2(n), Pow2(32 - n), 0);
    WordSize();
  }

  lemma WordSize()
    ensures Pow2(32) == TWO32
  {
    assert Pow2(4) == 16;
    Pow2Sum(4, 4);
    Pow2Sum(8, 8);
    Pow2Sum(16, 16);
  }

  lemma GatherStep(s: seq<byte>, off: u32, n: nat, b: nat)
    ensures Gathered(s, off, n, b) ==
            if b >= n then 0
            else
              var bit := (off + b) % TWO32;
              if bit / 8 >= |s| then 0
              else Times(Bit(s, bit), Pow2(b)) + Gathered(s, off, n, b + 1)
  {
  }

  /** One bit of the buffer; None past its end. */
  method ReadBit(buf: array<byte>, start: nat, len: nat, bit: u32) returns (v: Option<nat>)
    requires start + len <= buf.Length
    ensures v == if bit / 8 >= len then None else Some(Bit(buf[start..start + len], bit))
  {
    var at := bit / 8;
    if at >= len {
      return None;
    }
    assert buf[start..start + len][at] == buf[start + at];
    return Some(Quot(buf[start + at], Pow2(bit % 8)) % 2);
  }

  /** The bit-field reader, on the bytes buf[start..start + len]. */
  method HidExtractBits(buf: array<byte>, start: nat, len: nat, off: u32, count: u32) returns (val: u32)
    requires start + len <= buf.Length
    ensures val == Gathered(buf[start..start + len], off, Min(count, 32), 0)
    ensures NoWrap(len, off, Min(count, 32)) ==>
              val == Extracted(buf[start..start + len], off, Min(count, 32))
  {
    ghost var s := buf[start..start + len];
    ExtractFacts(s, off, Min(count, 32));
    hide Times, Quot, Rem, Pow2, Extracted, NoWrap, Gathered, Bit;
    var n := if count > 32 then 32 else count;
    var v: nat := 0;
    var b := 0;
    while b < n
      invariant 0 <= b <= n
      invariant v + Gathered(s, off, n, b) == Gathered(s, off, n, 0)
    {
      GatherStep(s, off, n, b);
      var bit := ReadBit(buf, start, len, (off + b) % TWO32);
      if bit == None {
        break;
      }
      v := v + Times(bit.value, Pow2(b));
      b := b + 1;
    }
    GatherStep(s, off, n, b);
    val := v;
  }

  // ---------------------------------------------------------------------
  // Packing a report
  // ---------------------------------------------------------------------

  datatype Contact = Contact(tip: bool, x: nat, y: nat)

  /** What the poll reads out of a payload, before rotation. */
  function Decode(payload: seq<byte>, l: Layout): Contact {
    Contact(Extracted(payload, l.tipOffset, 1) != 0,
            Min(Extracted(payload, l.xOffset, Min(l.xSize, 32)), l.xMax),
            Min(Extracted(payload, l.yOffset, Min(l.ySize, 32)), l.yMax))
  }

  /** v is the number whose n bits, least significant first, are those of s from off on. */
  predicate ReadsBits(v: nat, s: seq<byte>, off: nat, n: nat) {
    v < Pow2(n) && forall i :: 0 <= i < n ==> Get(v, i, 1) == Bit(s, off + i)
  }

  lemma {:induction false} SameBits(v: nat, p: nat, off: nat, n: nat)
    requires forall i :: 0 <= i < n ==> Get(v, i, 1) == Get(p, off + i, 1)
    ensures Get(v, 0, n) == Get(p, off, n)
  {
    hide Times, Quot, Rem, Pow2, Get;
    if n == 0 {
      NoBits(v, 0);
      NoBits(p, off);
    } else {
      SameBits(v, p, off, n - 1);
      GetMore(v, 0, n - 1);
      GetMore(p, off, n - 1);
    }
  }

  lemma NoBits(p: nat, off: nat)
    ensures Get(p, off, 0) == 0
  {
    var q := Quot(p, Pow2(off));
    assert Pow2(0) == 1;
    TimesUnits(q);
    DivUnique(q, 1, q, 0);
  }

  lemma ReadsBitsIs(v: nat, s: seq<byte>, off: nat, n: nat)
    requires ReadsBits(v, s, off, n)
    ensures Extracted(s, off, n) == v
  {
    forall i | 0 <= i < n
      ensures Get(v, i, 1) == Get(Little(s), off + i, 1)
    {
      BitIsGet(s, off + i);
    }
    SameBits(v, Little(s), off, n);
    assert Extracted(s, off, n) == Get(Little(s), off, n);
    assert Pow2(0) == 1;
    TimesUnits(v);
    DivUnique(v, 1, v, 0);
    TimesUnits(Pow2(n));
    DivUnique(v, Pow2(n), 0, v);
  }

  /** The contact is read off the payload bit by bit: the tip, and up to 32 bits of X and of Y, each clamped. */
  lemma DecodeLaw(payload: seq<byte>, l: Layout, x: nat, y: nat)
    requires ReadsBits(x, payload, l.xOffset, Min(l.xSize, 32)) && ReadsBits(y, payload, l.yOffset, Min(l.ySize, 32))
    ensures var c := Decode(payload, l);
      && (c.tip <==> Bit(payload, l.tipOffset) == 1)
      && c.x == Min(x, l.xMax) && c.y == Min(y, l.yMax)
  {
    ReadsBitsIs(x, payload, l.xOffset, Min(l.xSize, 32));
    ReadsBitsIs(y, payload, l.yOffset, Min(l.ySize, 32));
    BitIsGet(payload, l.tipOffset);
    assert Extracted(payload, l.tipOffset, 1) == Get(Little(payload), l.tipOffset, 1);
    BitIsBinary(payload, l.tipOffset);
    hide Extracted, Get, Bit, ReadsBits;
  }

  lemma BitIsBinary(s: seq<byte>, i: nat)
    ensures Bit(s, i) == 0 || Bit(s, i) == 1
  {
  }

  /** A payload with the three fields replaced and every other bit kept. */
  function Pack(payload: seq<byte>, l: Layout, c: Contact): (s: seq<byte>)
    ensures |s| == |payload|
  {
    var p := Put(Little(payload), l.tipOffset, 1, if c.tip then 1 else 0);
    ToBytes(Put(Put(p, l.xOffset, l.xSize, c.x), l.yOffset, l.ySize, c.y), |payload|)
  }

  /** Packing a contact into any payload at a separated layout and decoding it gives the contact, clamped. */
  lemma PackThenDecode(payload: seq<byte>, l: Layout, c: Contact)
    requires Separated(l, 8 * |payload|) && l.xSize <= 32 && l.ySize <= 32
    requires c.x < Pow2(l.xSize) && c.y < Pow2(l.ySize)
    ensures Decode(Pack(payload, l, c), l) == Contact(c.tip, Min(c.x, l.xMax), Min(c.y, l.yMax))
  {
    var top, t := 8 * |payload|, if c.tip then 1 else 0;
    assert Pow2(1) == 2;
    LittleBound(payload);
    Pow256IsPow2(|payload|);
    hide Times, Quot, Rem, Pow2, Put, Get, Little;
    var p0 := Little(payload);
    var p1 := Put(p0, l.tipOffset, 1, t);
    var p2 := Put(p1, l.xOffset, l.xSize, c.x);
    var p3 := Put(p2, l.yOffset, l.ySize, c.y);
    PutBound(p0, l.tipOffset, 1, t, top);
    PutBound(p1, l.xOffset, l.xSize, c.x, top);
    PutBound(p2, l.yOffset, l.ySize, c.y, top);
    BytesRoundTrip(p3, |payload|);
    PutThenGet(p0, l.tipOffset, 1, t);
    PutElsewhere(p1, l.xOffset, l.xSize, c.x, l.tipOffset, 1);
    PutElsewhere(p2, l.yOffset, l.ySize, c.y, l.tipOffset, 1);
    PutThenGet(p1, l.xOffset, l.xSize, c.x);
    PutElsewhere(p2, l.yOffset, l.ySize, c.y, l.xOffset, l.xSize);
    PutThenGet(p2, l.yOffset, l.ySize, c.y);
  }

  /**
    The same for every layout the parser can produce: a full-length report of a
    device with at most 32-bit axes reads back what was packed into it.
  */
  lemma ReportRoundTrip(d: seq<byte>, maxInputLength: nat, payload: seq<byte>, c: Contact)
    requires 3 <= maxInputLength
    requires Meaning(d, (maxInputLength - 2) * 8).Some?
    requires var l := Meaning(d, (maxInputLength - 2) * 8).value;
      && l.xSize <= 32 && l.ySize <= 32 && c.x < Pow2(l.xSize) && c.y < Pow2(l.ySize)
      && |payload| == maxInputLength - 2 - (if l.hasReportId then 1 else 0)
    ensures var l := Meaning(d, (maxInputLength - 2) * 8).value;
      Decode(Pack(payload, l, c), l) == Contact(c.tip, Min(c.x, l.xMax), Min(c.y, l.yMax))
  {
    FieldSeparation(d, (maxInputLength - 2) * 8);
    hide Meaning, Pack, Decode, Pow2;
    PackThenDecode(payload, Meaning(d, (maxInputLength - 2) * 8).value, c);
  }
}
