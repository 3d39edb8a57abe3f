/**
  Reading the machine's identity from the SMBIOS structure table: any bytes at
  all are walked safely, and a well-formed table (section 6.1.3 of DSP0134) is
  read as its structures say.
*/
module Smbios {
  import opened Machine

  const TYPE_SYSTEM: byte := 1
  const TYPE_BASEBOARD: byte := 2
  const TYPE_END: byte := 127
  const HEADER := 4
  const PRODUCT_NAME := 5      // offset of the product string number in Types 1 and 2
  const NAME_MAX := 31         // a 32-byte buffer less its terminator

  datatype Identity = Identity(product: seq<byte>, board: seq<byte>)

  predicate Complete(id: Identity) {
    id.product != [] && id.board != []
  }

  // ---------------------------------------------------------------------
  // What the walk computes, on the bytes from the current position to the end
  // ---------------------------------------------------------------------

  /** Length of the text at the start of t. */
  function TextLength(t: seq<byte>): (n: nat)
    ensures n <= |t| && (n < |t| ==> t[n] == 0)
    ensures forall i :: 0 <= i < n ==> t[i] != 0
  {
    if t == [] || t[0] == 0 then 0 else 1 + TextLength(t[1..])
  }

  function Cut(s: seq<byte>): seq<byte> {
    s[..Min(|s|, NAME_MAX)]
  }

  /** A name keeps as much of its beginning as a buffer of 32 bytes holds with its terminator. */
  lemma CutLaw(s: seq<byte>)
    ensures Cut(s) <= s && |Cut(s)| + 1 <= 32
    ensures Cut(s) == s || |Cut(s)| + 1 == 32
  {
  }

  /** The wanted string of a string set; the running number is a UINT8. */
  function FindString(t: seq<byte>, number: byte, wanted: byte): Option<seq<byte>>
    decreases |t|
  {
    var n := TextLength(t);
    if n == 0 then None
    else if number == wanted then Some(Cut(t[..n]))
    else if n == |t| then None
    else FindString(t[n + 1..], (number + 1) % 0x100, wanted)
  }

  function NamedString(t: seq<byte>, length: nat, number: byte): Option<seq<byte>> {
    if number == 0 || length > |t| then None else FindString(t[length..], 1, number)
  }

  /** Where the first two zero bytes in a row start. */
  function DoubleNul(t: seq<byte>): (n: Option<nat>)
    ensures n.Some? ==> n.value + 1 < |t| && t[n.value] == 0 && t[n.value + 1] == 0
  {
    if |t| < 2 then None
    else if t[0] == 0 && t[1] == 0 then Some(0)
    else
      var n := DoubleNul(t[1..]);
      if n == None then None else Some(n.value + 1)
  }

  /** The identity after the structure at the start of t. */
  function AfterStructure(t: seq<byte>, id: Identity): Identity
    requires |t| >= HEADER && t[1] as int <= |t|
  {
    var length := t[1];
    if length <= PRODUCT_NAME then id
    else
      var name := NamedString(t, length, t[PRODUCT_NAME]);
      if name == None then id
      else if t[0] == TYPE_SYSTEM then id.(product := name.value)
      else if t[0] == TYPE_BASEBOARD then id.(board := name.value)
      else id
  }

  /** No further structure can be read. */
  predicate Stops(t: seq<byte>) {
    |t| < HEADER || t[0] == TYPE_END || (t[1] as int) < HEADER || (t[1] as int) > |t|
  }

  /** The end-of-table structure ends the walk, whatever follows it. */
  lemma EndOfTable(t: seq<byte>, id: Identity)
    requires |t| >= 4 && t[0] == 127
    ensures Walk(t, id) == id
  {
  }

  /** Where the structure after the first one starts. */
  function NextStructure(t: seq<byte>): (n: Option<nat>)
    requires !Stops(t)
    ensures n.Some? ==> 0 < n.value <= |t|
  {
    var end := DoubleNul(t[t[1]..]);
    if end == None then None else Some(t[1] as int + end.value + 2)
  }

  function Walk(t: seq<byte>, id: Identity): Identity
    decreases |t|
  {
    if Stops(t) then id
    else
      var id', next := AfterStructure(t, id), NextStructure(t);
      if next == None || Complete(id') then id' else Walk(t[next.value..], id')
  }

  // ---------------------------------------------------------------------
  // Well-formed tables
  // ---------------------------------------------------------------------

  /** `body` is the formatted area after the four-byte header. */
  datatype Structure = Structure(kind: byte, handle: (byte, byte), body: seq<byte>, strings: seq<seq<byte>>)

  predicate WellFormed(s: Structure) {
    && s.kind != 127 && HEADER + |s.body| < 0x100
    && AllText(s.strings)
  }

  predicate AllText(strings: seq<seq<byte>>) {
    forall k :: 0 <= k < |strings| ==> Text(strings[k])
  }

  predicate Text(s: seq<byte>) {
    s != [] && forall i :: 0 <= i < |s| ==> s[i] != 0
  }

  function Terminated(strings: seq<seq<byte>>): seq<byte> {
    if strings == [] then [0] else strings[0] + [0] + Terminated(strings[1..])
  }

  /** The string set; one without strings is two zero bytes. */
  function StringSet(strings: seq<seq<byte>>): seq<byte> {
    if strings == [] then [0, 0] else Terminated(strings)
  }

  function Formatted(s: Structure): seq<byte>
    requires WellFormed(s)
  {
    [s.kind, HEADER + |s.body|, s.handle.0, s.handle.1] + s.body
  }

  function Encode(s: Structure): seq<byte>
    requires WellFormed(s)
  {
    Formatted(s) + StringSet(s.strings)
  }

  function EncodeAll(ss: seq<Structure>): seq<byte>
    requires forall k :: 0 <= k < |ss| ==> WellFormed(ss[k])
  {
    if ss == [] then [] else Encode(ss[0]) + EncodeAll(ss[1..])
  }

  /** The product string a structure names, if it has one. */
  function ProductName(s: Structure): Option<seq<byte>> {
    if |s.body| < 2 || s.body[1] == 0 || s.body[1] as int > |s.strings| then None
    else Some(Cut(s.strings[s.body[1] - 1]))
  }

  /** Each Type 1 or Type 2 structure that names a product replaces the last one, until both are known. */
  function Identify(ss: seq<Structure>, id: Identity): Identity {
    if ss == [] then id
    else
      var name := ProductName(ss[0]);
      var id' := if name == None then id
                 else if ss[0].kind == TYPE_SYSTEM then id.(product := name.value)
                 else if ss[0].kind == TYPE_BASEBOARD then id.(board := name.value)
                 else id;
      if Complete(id') then id' else Identify(ss[1..], id')
  }

  /** The last name that a structure of this type gives. */
  function LastName(ss: seq<Structure>, kind: byte): Option<seq<byte>> {
    if ss == [] then None
    else
      var last := ss[|ss| - 1];
      if last.kind == kind && ProductName(last).Some? then ProductName(last) else LastName(ss[..|ss| - 1], kind)
  }

  /** The product is named by a Type 1 structure and the board by a Type 2, and either is known by now. */
  predicate BothNamed(ss: seq<Structure>) {
    LastName(ss, 1).Some? && LastName(ss, 2).Some?
  }

  function NameOr(name: Option<seq<byte>>, other: seq<byte>): seq<byte> {
    if name.Some? then name.value else other
  }

  lemma NamesAreNotEmpty(s: Structure)
    requires WellFormed(s) && ProductName(s).Some?
    ensures ProductName(s).value != []
  {
    assert Text(s.strings[s.body[1] - 1]);
  }

  /** What has been taken in from the first n structures, as long as not both names were known before. */
  lemma {:induction false} IdentifyFrom(ss: seq<Structure>, n: nat)
    requires n <= |ss| && forall k :: 0 <= k < |ss| ==> WellFormed(ss[k])
    requires forall k :: 0 <= k <= n ==> !BothNamed(ss[..k])
    ensures Identify(ss, Identity([], [])) == Identify(ss[n..], SoFar(ss[..n]))
  {
    if n == 0 {
      assert ss[0..] == ss;
      NothingNamed(ss[..0]);
    } else {
      IdentifyFrom(ss, n - 1);
      OneMoreName(ss, n - 1);
      assert ss[n - 1..][1..] == ss[n..] && ss[n - 1..][0] == ss[n - 1];
      LastIsNonEmpty(ss[..n], 1);
      LastIsNonEmpty(ss[..n], 2);
      assert !Complete(SoFar(ss[..n]));
    }
  }

  lemma NothingNamed(ss: seq<Structure>)
    requires ss == []
    ensures SoFar(ss) == Identity([], [])
  {
  }

  function SoFar(ss: seq<Structure>): Identity {
    Identity(NameOr(LastName(ss, 1), []), NameOr(LastName(ss, 2), []))
  }

  lemma {:induction false} LastIsNonEmpty(ss: seq<Structure>, kind: byte)
    requires forall k :: 0 <= k < |ss| ==> WellFormed(ss[k])
    ensures LastName(ss, kind).Some? ==> LastName(ss, kind).value != []
  {
    if ss != [] {
      LastIsNonEmpty(ss[..|ss| - 1], kind);
      var last := ss[|ss| - 1];
      if ProductName(last).Some? {
        NamesAreNotEmpty(last);
      }
    }
  }

  lemma OneMoreName(ss: seq<Structure>, n: nat)
    requires n < |ss|
    ensures var s, id := ss[n], SoFar(ss[..n]);
      SoFar(ss[..n + 1]) == if ProductName(s) == None then id
                            else if s.kind == 1 then id.(product := ProductName(s).value)
                            else if s.kind == 2 then id.(board := ProductName(s).value)
                            else id
  {
    assert ss[..n + 1][..n] == ss[..n] && ss[..n + 1][n] == ss[n];
  }

  /**
    The identity of a machine: the last product that a Type 1 structure names and the last
    board that a Type 2 structure names, among the first n structures, where n is the first
    number of them to name both, or all of them.
  */
  lemma IdentifyIsLast(ss: seq<Structure>, n: nat)
    requires n <= |ss| && forall k :: 0 <= k < |ss| ==> WellFormed(ss[k])
    requires forall k :: 0 <= k < n ==> !BothNamed(ss[..k])
    requires n == |ss| || BothNamed(ss[..n])
    ensures var id := Identify(ss, Identity([], []));
      && id.product == NameOr(LastName(ss[..n], 1), [])
      && id.board == NameOr(LastName(ss[..n], 2), [])
  {
    if BothNamed(ss[..n]) {
      assert n > 0 by { NothingNamed(ss[..0]); }
      IdentifyFrom(ss, n - 1);
      OneMoreName(ss, n - 1);
      LastIsNonEmpty(ss[..n], 1);
      LastIsNonEmpty(ss[..n], 2);
      assert ss[n - 1..][0] == ss[n - 1];
    } else {
      IdentifyFrom(ss, n);
      assert ss[n..] == [];
    }
  }

  // ---------------------------------------------------------------------
  // A well-formed table is read as its structures say
  // ---------------------------------------------------------------------

  lemma {:induction false} TextThenNul(s: seq<byte>, rest: seq<byte>)
    requires forall i :: 0 <= i < |s| ==> s[i] != 0
    ensures TextLength(s + [0] + rest) == |s|
  {
    var t := s + [0] + rest;
    if s == [] {
      assert t[0] == 0;
    } else {
      assert t[0] == s[0];
      assert t[1..] == s[1..] + [0] + rest;
      TextThenNul(s[1..], rest);
    }
  }

  lemma TerminatedHead(strings: seq<seq<byte>>, rest: seq<byte>)
    ensures strings == [] ==> Terminated(strings) == [0]
    ensures strings != [] ==> Terminated(strings) + rest == strings[0] + [0] + (Terminated(strings[1..]) + rest)
  {
  }

  lemma TextHead(strings: seq<seq<byte>>)
    requires AllText(strings) && strings != []
    ensures Text(strings[0]) && AllText(strings[1..])
  {
  }

  lemma FindStep(s: seq<byte>, more: seq<byte>, number: byte, wanted: byte)
    requires Text(s)
    ensures FindString(s + [0] + more, number, wanted) ==
            if number == wanted then Some(Cut(s)) else FindString(more, (number + 1) % 0x100, wanted)
  {
    var t := s + [0] + more;
    TextThenNul(s, more);
    assert t[..|s|] == s && t[|s| + 1..] == more;
  }

  lemma {:induction false} FindInSet(strings: seq<seq<byte>>, rest: seq<byte>, number: byte, wanted: byte)
    requires AllText(strings)
    requires 1 <= number <= wanted
    ensures FindString(Terminated(strings) + rest, number, wanted) ==
            if wanted - number < |strings| then Some(Cut(strings[wanted - number])) else None
    decreases |strings|
  {
    TerminatedHead(strings, rest);
    hide FindString, TextLength, Text, Terminated, Cut;
    if strings == [] {
      NoText(rest, number, wanted);
    } else {
      TextHead(strings);
      var more := Terminated(strings[1..]) + rest;
      FindStep(strings[0], more, number, wanted);
      if number < wanted {
        assert (number + 1) % 0x100 == number + 1;
        FindInSet(strings[1..], rest, number + 1, wanted);
        if wanted - number < |strings| {
          assert strings[1..][wanted - number - 1] == strings[wanted - number];
        }
      }
    }
  }

  lemma NoText(rest: seq<byte>, number: byte, wanted: byte)
    ensures FindString([0] + rest, number, wanted) == None
  {
    assert ([0] + rest)[0] == 0;
  }

  lemma {:induction false} NulAfterText(s: seq<byte>, more: seq<byte>)
    requires forall i :: 0 <= i < |s| ==> s[i] != 0
    ensures DoubleNul(s + [0] + more) ==
            if more != [] && more[0] == 0 then Some(|s|)
            else if DoubleNul(more) == None then None else Some(|s| + 1 + DoubleNul(more).value)
  {
    var t := s + [0] + more;
    if s == [] {
      assert t[0] == 0 && t[1..] == more;
      assert more != [] ==> t[1] == more[0];
    } else {
      assert t[0] == s[0] && t[1..] == s[1..] + [0] + more;
      NulAfterText(s[1..], more);
    }
  }

  lemma {:induction false} NulAfterSet(strings: seq<seq<byte>>, rest: seq<byte>)
    requires AllText(strings)
    ensures |StringSet(strings)| >= 2
    ensures DoubleNul(StringSet(strings) + rest) == Some(|StringSet(strings)| - 2)
    decreases |strings|
  {
    hide AllText;
    if strings == [] {
      var t := [0, 0] + rest;
      assert t[0] == 0 && t[1] == 0;
    } else {
      var s, more := strings[0], Terminated(strings[1..]) + rest;
      assert Terminated(strings) + rest == s + [0] + more;
      TextHead(strings);
      NulAfterText(s, more);
      hide DoubleNul;
      if |strings| == 1 {
        assert more[0] == 0;
      } else {
        assert strings[1..] != [] && StringSet(strings[1..]) == Terminated(strings[1..]);
        NulAfterSet(strings[1..], rest);
        StartsWithText(strings[1..], rest);
      }
    }
  }

  lemma StartsWithText(strings: seq<seq<byte>>, rest: seq<byte>)
    requires strings != [] && Text(strings[0])
    ensures var t := Terminated(strings) + rest; t != [] && t[0] != 0
  {
    assert (Terminated(strings) + rest)[0] == strings[0][0];
  }

  /** One structure is consumed exactly, and contributes exactly the product string it names. */
  lemma OneStructure(s: Structure, rest: seq<byte>, id: Identity)
    requires WellFormed(s)
    ensures Walk(Encode(s) + rest, id) == Continue(Identify([s], id), rest)
  {
    var t, n := Encode(s) + rest, HEADER + |s.body|;
    EncodedShape(s, rest);
    NulAfterSet(s.strings, rest);
    if |s.body| >= 2 {
      ContributesName(s, rest);
    }
    hide DoubleNul, Encode, NamedString;
    NamesProduct(s, t, id);
    hide AfterStructure, Identify;
    assert t[n..][|StringSet(s.strings)|..] == rest;
    assert t[n + (|StringSet(s.strings)| - 2) + 2..] == rest;
  }

  lemma EncodedShape(s: Structure, rest: seq<byte>)
    requires WellFormed(s)
    ensures var t, n := Encode(s) + rest, HEADER + |s.body|;
      && |t| == n + |StringSet(s.strings)| + |rest|
      && t[0] == s.kind && t[1] == n && t[n..] == StringSet(s.strings) + rest
      && t[n + |StringSet(s.strings)|..] == rest
  {
    assert Encode(s) + rest == Formatted(s) + (StringSet(s.strings) + rest);
  }

  lemma NamesProduct(s: Structure, t: seq<byte>, id: Identity)
    requires WellFormed(s) && |t| >= HEADER + |s.body| && t[0] == s.kind && t[1] == HEADER + |s.body|
    requires |s.body| >= 2 ==> NamedString(t, HEADER + |s.body|, t[PRODUCT_NAME]) == ProductName(s)
    ensures AfterStructure(t, id) == Identify([s], id)
  {
    hide NamedString;
    assert [s][1..] == [];
  }

  function Continue(id: Identity, rest: seq<byte>): Identity {
    if Complete(id) then id else Walk(rest, id)
  }

  lemma ContributesName(s: Structure, rest: seq<byte>)
    requires WellFormed(s) && |s.body| >= 2
    ensures var t := Encode(s) + rest; NamedString(t, HEADER + |s.body|, t[PRODUCT_NAME]) == ProductName(s)
  {
    var t, area := Encode(s) + rest, StringSet(s.strings) + rest;
    EncodedShape(s, rest);
    assert t[PRODUCT_NAME] == Formatted(s)[PRODUCT_NAME] == s.body[1];
    if s.body[1] != 0 {
      if s.strings == [] {
        assert area == [0] + ([0] + rest);
        NoText([0] + rest, 1, s.body[1]);
      } else {
        FindInSet(s.strings, rest, 1, s.body[1]);
      }
    }
  }

  /** Nothing that the walk would still read. */
  predicate Ends(tail: seq<byte>) {
    |tail| < HEADER || tail[0] == TYPE_END
  }

  /** A whole table: any well-formed structures, then an end marker or the end of the table. */
  lemma {:induction false} TableIsRead(ss: seq<Structure>, tail: seq<byte>, id: Identity)
    requires forall k :: 0 <= k < |ss| ==> WellFormed(ss[k])
    requires Ends(tail)
    ensures Walk(EncodeAll(ss) + tail, id) == Identify(ss, id)
    decreases |ss|
  {
    if ss == [] {
      assert [] + tail == tail;
    } else {
      var rest := EncodeAll(ss[1..]) + tail;
      assert EncodeAll(ss) + tail == Encode(ss[0]) + rest;
      OneStructure(ss[0], rest, id);
      IdentifyFirst(ss, id);
      hide Walk, Encode;
      if !Complete(Identify([ss[0]], id)) {
        TableIsRead(ss[1..], tail, Identify([ss[0]], id));
      }
    }
  }

  lemma IdentifyFirst(ss: seq<Structure>, id: Identity)
    requires ss != []
    ensures var first := Identify([ss[0]], id);
      Identify(ss, id) == if Complete(first) then first else Identify(ss[1..], first)
  {
    assert [ss[0]][1..] == [];
  }

  // ---------------------------------------------------------------------
  // The code, on any table
  // ---------------------------------------------------------------------

  lemma FindUnfold(t: seq<byte>, number: byte, wanted: byte)
    requires t != [] && t[0] != 0
    ensures var n := TextLength(t);
      && 0 < n <= |t|
      && FindString(t, number, wanted) ==
         if number == wanted then Some(Cut(t[..n]))
         else if n == |t| then None
         else FindString(t[n + 1..], (number + 1) % 0x100, wanted)
  {
  }

  lemma FindNothing(t: seq<byte>, number: byte, wanted: byte)
    requires t == [] || t[0] == 0
    ensures FindString(t, number, wanted) == None
  {
  }

  class DmiIdentity {
    var product: seq<byte>
    var board: seq<byte>

    ghost function Value(): Identity
      reads this
    {
      Identity(product, board)
    }

    constructor ()
      ensures Value() == Identity([], [])
    {
      product, board := [], [];
    }

    /** Where the text that starts at `str` ends. */
    method TextEnd(table: seq<byte>, str: nat) returns (len: nat)
      requires str <= |table|
      ensures len == TextLength(table[str..])
    {
      len := 0;
      while str + len < |table| && table[str + len] != 0
        invariant str + len <= |table|
        invariant len + TextLength(table[str + len..]) == TextLength(table[str..])
      {
        assert table[str + len..][1..] == table[str + len + 1..];
        len := len + 1;
      }
    }

    /** TouchCopySmbiosString: every access is inside the table. */
    method CopyString(table: seq<byte>, at: nat, number: byte) returns (copied: Option<seq<byte>>)
      requires at + 1 < |table|
      ensures copied == NamedString(table[at..], table[at + 1], number)
    {
      var length: nat := table[at + 1];
      if number == 0 || at + length > |table| {
        return None;
      }
      assert table[at..][length..] == table[at + length..];
      copied := SearchSet(table, at + length, number);
    }

    /** The numbered string of the string set at `from`. */
    method SearchSet(table: seq<byte>, from: nat, number: byte) returns (found: Option<seq<byte>>)
      requires from <= |table|
      ensures found == FindString(table[from..], 1, number)
    {
      hide FindString, TextLength, Cut;
      var str := from;
      var current: byte := 1;
      while str < |table| && table[str] != 0
        invariant from <= str <= |table|
        invariant FindString(table[str..], current, number) == FindString(table[from..], 1, number)
        decreases |table| - str
      {
        var len := TextEnd(table, str);
        FindUnfold(table[str..], current, number);
        if current == number {
          found := Some(CopyText(table, str, len));
          return;
        }
        if str + len >= |table| {
          return None;
        }
        assert table[str..][len + 1..] == table[str + len + 1..];
        str := str + len + 1;
        current := (current + 1) % 0x100;
      }
      FindNothing(table[str..], current, number);
      return None;
    }

    /** The text, cut to what the destination holds. */
    function CopyText(table: seq<byte>, str: nat, len: nat): (s: seq<byte>)
      requires str + len <= |table|
      ensures s == Cut(table[str..][..len])
    {
      assert table[str..][..len][..Min(len, NAME_MAX)] == table[str..str + Min(len, NAME_MAX)];
      table[str..str + Min(len, NAME_MAX)]
    }

    /** The first two zero bytes in a row at or after `from`. */
    method SkipStrings(table: seq<byte>, from: nat) returns (next: Option<nat>)
      requires from <= |table|
      ensures var n := DoubleNul(table[from..]); next == if n == None then None else Some(from + n.value + 2)
      ensures next.Some? ==> next.value <= |table|
    {
      var str := from;
      while str + 1 < |table| && !(table[str] == 0 && table[str + 1] == 0)
        invariant from <= str <= |table|
        invariant DoubleNul(table[from..]) == (
          var n := DoubleNul(table[str..]); if n == None then None else Some(str - from + n.value))
      {
        assert table[str..][1..] == table[str + 1..];
        str := str + 1;
      }
      if str + 1 >= |table| {
        return None;
      }
      return Some(str + 2);
    }

    /** Take the product string of a Type 1 or Type 2 structure. */
    method TakeName(table: seq<byte>, p: nat)
      requires p + HEADER <= |table| && p + table[p + 1] as int <= |table|
      modifies this
      ensures Value() == AfterStructure(table[p..], old(Value()))
    {
      ghost var t := table[p..];
      assert t[0] == table[p] && t[1] == table[p + 1];
      var length: nat := table[p + 1];
      hide NamedString;
      if length > PRODUCT_NAME {
        assert t[PRODUCT_NAME] == table[p + PRODUCT_NAME];
        if table[p] == TYPE_SYSTEM {
          var name := CopyString(table, p, table[p + PRODUCT_NAME]);
          if name.Some? {
            product := name.value;
          }
        } else if table[p] == TYPE_BASEBOARD {
          var name := CopyString(table, p, table[p + PRODUCT_NAME]);
          if name.Some? {
            board := name.value;
          }
        }
      }
    }

    /** The structure at p is taken in; None when there is none after it. */
    method TakeAndSkip(table: seq<byte>, p: nat) returns (next: Option<nat>)
      requires p <= |table| && !Stops(table[p..])
      modifies this
      ensures Value() == AfterStructure(table[p..], old(Value()))
      ensures next == var n := NextStructure(table[p..]); if n == None then None else Some(p + n.value)
    {
      hide AfterStructure, DoubleNul, NextStructure, Stops, Walk, Identify, TextLength, FindString;
      Continues(table[p..]);
      assert table[p..][1] == table[p + 1];
      var length: nat := table[p + 1];
      assert table[p + length..] == table[p..][length..];
      TakeName(table, p);
      next := SkipStrings(table, p + length);
    }

    /** One step of the walk; None when it is over. */
    method TakeStructure(table: seq<byte>, p: nat) returns (next: Option<nat>)
      requires p <= |table|
      modifies this
      ensures next.Some? ==> p < next.value <= |table|
      ensures Walk(table[p..], old(Value())) ==
              if next == None then Value() else Walk(table[next.value..], Value())
    {
      hide Walk, AfterStructure, NextStructure, Stops;
      WalkUnfold(table[p..], Value());
      var over := IsOver(table, p);
      if over {
        return None;
      }
      next := TakeAndSkip(table, p);
      if next == None {
        return;
      }
      assert table[next.value..] == table[p..][next.value - p..];
      if product != [] && board != [] {
        return None;
      }
    }

    method IsOver(table: seq<byte>, p: nat) returns (over: bool)
      requires p <= |table|
      ensures over == Stops(table[p..])
    {
      if p + HEADER > |table| {
        return true;
      }
      assert table[p..][0] == table[p] && table[p..][1] == table[p + 1];
      return table[p] == TYPE_END || (table[p + 1] as int) < HEADER || p + table[p + 1] as int > |table|;
    }

    /** The walk: it terminates on every table and computes its meaning. */
    method Read(table: seq<byte>)
      modifies this
      ensures Value() == Walk(table, old(Value()))
    {
      hide Walk;
      var p := 0;
      assert table[0..] == table;
      while true
        invariant p <= |table|
        invariant Walk(table[p..], Value()) == Walk(table, old(Value()))
        decreases |table| - p
      {
        var next := TakeStructure(table, p);
        if next == None {
          return;
        }
        p := next.value;
      }
    }
  }

  lemma Continues(t: seq<byte>)
    requires !Stops(t)
    ensures |t| >= HEADER && t[1] as int <= |t|
    ensures var n := DoubleNul(t[t[1]..]);
      NextStructure(t) == if n == None then None else Some(t[1] as int + n.value + 2)
  {
  }

  lemma WalkUnfold(t: seq<byte>, id: Identity)
    ensures Walk(t, id) ==
            if Stops(t) then id
            else
              var id', next := AfterStructure(t, id), NextStructure(t);
              if next == None || Complete(id') then id' else Walk(t[next.value..], id')
  {
  }
}
