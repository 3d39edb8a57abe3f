/** What the meaning of a report descriptor guarantees, whatever the device declares. */
module HidTheorems {
  import opened Machine
  import opened HidItems
  import opened HidMeaning
  import opened HidFields

  /** The first qualifying ID is chosen. */
  lemma {:induction false} ChoiceIsFirst(ids: seq<byte>, s: Scan, cap: nat)
    ensures Choose(ids, s, cap) == None <==>
            forall k :: 0 <= k < |ids| ==> !Qualifies(ReportOf(s.inputs, ids[k], cap), s.env.anyId, cap)
    ensures Choose(ids, s, cap).Some? ==>
              exists n :: 0 <= n < |ids|
                && Qualifies(ReportOf(s.inputs, ids[n], cap), s.env.anyId, cap)
                && Choose(ids, s, cap).value == LayoutOf(ReportOf(s.inputs, ids[n], cap), ids[n], s.env.anyId, cap)
                && forall k :: 0 <= k < n ==> !Qualifies(ReportOf(s.inputs, ids[k], cap), s.env.anyId, cap)
  {
    if ids != [] && !Qualifies(ReportOf(s.inputs, ids[0], cap), s.env.anyId, cap) {
      var rest := ids[1..];
      ChoiceIsFirst(rest, s, cap);
      assert forall k :: 0 <= k < |rest| ==> rest[k] == ids[k + 1];
      if Choose(rest, s, cap).Some? {
        var n :| 0 <= n < |rest|
          && Qualifies(ReportOf(s.inputs, rest[n], cap), s.env.anyId, cap)
          && Choose(rest, s, cap).value == LayoutOf(ReportOf(s.inputs, rest[n], cap), rest[n], s.env.anyId, cap)
          && forall k :: 0 <= k < n ==> !Qualifies(ReportOf(s.inputs, rest[k], cap), s.env.anyId, cap);
        assert ids[n + 1] == rest[n];
        forall k | 0 <= k < n + 1
          ensures !Qualifies(ReportOf(s.inputs, ids[k], cap), s.env.anyId, cap)
        {
          if k > 0 {
            assert ids[k] == rest[k - 1];
          }
        }
      }
    }
  }

  // ---------------------------------------------------------------------
  // Field separation
  // ---------------------------------------------------------------------

  predicate Apart(aLo: int, aHi: int, bLo: int, bHi: int) {
    aHi <= bLo || bHi <= aLo
  }

  lemma FieldsApart(r: Report, f: Field, g: Field)
    requires WellLaid(r) && f in r.fields && g in r.fields && f != g
    ensures Apart(f.offset, f.offset + f.size, g.offset, g.offset + g.size)
  {
    var j :| 0 <= j < |r.fields| && r.fields[j] == f;
    var k :| 0 <= k < |r.fields| && r.fields[k] == g;
    if j < k {
    } else {
      assert k < j;
    }
  }

  /** The tip bit, the X range and the Y range are disjoint and inside what the report may carry. */
  predicate Separated(l: Layout, payload: int) {
    && l.xSize >= 1 && l.ySize >= 1
    && l.tipOffset + 1 <= payload && l.xOffset + l.xSize <= payload && l.yOffset + l.ySize <= payload
    && Apart(l.tipOffset, l.tipOffset + 1, l.xOffset, l.xOffset + l.xSize)
    && Apart(l.tipOffset, l.tipOffset + 1, l.yOffset, l.yOffset + l.ySize)
    && Apart(l.xOffset, l.xOffset + l.xSize, l.yOffset, l.yOffset + l.ySize)
  }

  lemma LayoutSeparated(r: Report, id: byte, anyId: bool, cap: nat)
    requires Qualifies(r, anyId, cap) && WellLaid(r)
    ensures Separated(LayoutOf(r, id, anyId, cap), PayloadBits(anyId, cap))
  {
    var t, x, y := FirstField(r.fields, USAGE_TIP_SWITCH).value, FirstField(r.fields, USAGE_X).value,
                   FirstField(r.fields, USAGE_Y).value;
    FieldInside(r, t);
    FieldInside(r, x);
    FieldInside(r, y);
    FieldsApart(r, t, x);
    FieldsApart(r, t, y);
    FieldsApart(r, x, y);
  }

  /** For every descriptor and every declared maximum. */
  lemma FieldSeparation(d: seq<byte>, cap: nat)
    requires Meaning(d, cap).Some?
    ensures var l := Meaning(d, cap).value;
      && l.hasReportId == ScanOf(Items(d, 0)).env.anyId
      && Separated(l, PayloadBits(l.hasReportId, cap))
  {
    var s := ScanOf(Items(d, 0));
    var ids := KnownIds(s.inputs);
    ChoiceIsFirst(ids, s, cap);
    var n :| 0 <= n < |ids| && Qualifies(ReportOf(s.inputs, ids[n], cap), s.env.anyId, cap)
             && Choose(ids, s, cap).value == LayoutOf(ReportOf(s.inputs, ids[n], cap), ids[n], s.env.anyId, cap);
    ReportWellLaid(s.inputs, ids[n], cap);
    LayoutSeparated(ReportOf(s.inputs, ids[n], cap), ids[n], s.env.anyId, cap);
  }

  // ---------------------------------------------------------------------
  // Skipped reports do not disturb good ones
  // ---------------------------------------------------------------------

  /** Later declarations only extend the list, and a Report ID item is never forgotten. */
  lemma {:induction false} ScanExtends(a: seq<Item>, b: seq<Item>) returns (more: seq<Input>)
    ensures ScanOf(a + b).inputs == ScanOf(a).inputs + more
    ensures ScanOf(a).env.anyId ==> ScanOf(a + b).env.anyId
  {
    if b == [] {
      assert a + b == a;
      more := [];
    } else {
      var rest, it := b[..|b| - 1], b[|b| - 1];
      var before := ScanExtends(a, rest);
      assert (a + b)[..|a + b| - 1] == a + rest;
      more := if IsInput(it) then before + [InputOf(ScanOf(a + rest).env)] else before;
      assert ScanOf(a + b).inputs == ScanOf(a).inputs + more;
    }
  }

  lemma {:induction false} ForeignDeclarations(a: seq<Input>, b: seq<Input>, id: byte, cap: nat)
    requires forall k :: 0 <= k < |b| ==> b[k].id != id
    ensures ReportOf(a + b, id, cap) == ReportOf(a, id, cap)
  {
    hide AddInput;
    if b == [] {
      assert a + b == a;
    } else {
      ForeignDeclarations(a, b[..|b| - 1], id, cap);
      assert (a + b)[..|a + b| - 1] == a + b[..|b| - 1];
    }
  }

  lemma {:induction false} IdsExtend(a: seq<Input>, b: seq<Input>)
    ensures |Ids(a)| <= |Ids(a + b)| && Ids(a) == Ids(a + b)[..|Ids(a)|]
  {
    if b == [] {
      assert a + b == a;
    } else {
      IdsExtend(a, b[..|b| - 1]);
      assert (a + b)[..|a + b| - 1] == a + b[..|b| - 1];
    }
  }

  /** A choice made among the first IDs stands, however many IDs follow. */
  lemma {:induction false} ChoiceStands(ids: seq<byte>, more: seq<byte>, s: Scan, t: Scan, cap: nat)
    requires Choose(ids, s, cap).Some? && s.env.anyId == t.env.anyId
    requires forall k :: 0 <= k < |ids| ==> ReportOf(t.inputs, ids[k], cap) == ReportOf(s.inputs, ids[k], cap)
    ensures Choose(ids + more, t, cap) == Choose(ids, s, cap)
  {
    assert (ids + more)[0] == ids[0];
    if !Qualifies(ReportOf(s.inputs, ids[0], cap), s.env.anyId, cap) {
      assert (ids + more)[1..] == ids[1..] + more;
      forall k | 0 <= k < |ids[1..]|
        ensures ReportOf(t.inputs, ids[1..][k], cap) == ReportOf(s.inputs, ids[1..][k], cap)
      {
        assert ids[1..][k] == ids[k + 1];
      }
      ChoiceStands(ids[1..], more, s, t, cap);
    }
  }

  lemma ForeignInputsDoNoHarm(s: Scan, t: Scan, more: seq<Input>, cap: nat)
    requires t.inputs == s.inputs + more && s.env.anyId == t.env.anyId
    requires forall k :: 0 <= k < |more| ==> more[k].id !in Ids(s.inputs)
    requires Choose(KnownIds(s.inputs), s, cap).Some?
    ensures Choose(KnownIds(t.inputs), t, cap) == Choose(KnownIds(s.inputs), s, cap)
  {
    IdsExtend(s.inputs, more);
    var ids, after := KnownIds(s.inputs), KnownIds(t.inputs);
    assert after == ids + after[|ids|..];
    assert forall k :: 0 <= k < |ids| ==> ids[k] in Ids(s.inputs);
    hide Choose, ReportOf, KnownIds;
    forall k | 0 <= k < |ids|
      ensures ReportOf(t.inputs, ids[k], cap) == ReportOf(s.inputs, ids[k], cap)
    {
      ForeignDeclarations(s.inputs, more, ids[k], cap);
    }
    ChoiceStands(ids, after[|ids|..], s, t, cap);
  }

  /**
    If d is whole, declares a report ID and has a layout, then appending items
    whose Input items all belong to report IDs without an Input item in d
    leaves the layout as it is, however oversized or degenerate they are.
  */
  lemma SkippedReportsDoNoHarm(d: seq<byte>, e: seq<byte>, cap: nat)
    requires WholeItems(d, 0)
    requires var s := ScanOf(Items(d, 0));
      && s.env.anyId && Meaning(d, cap).Some?
      && var t := ScanOf(Items(d, 0) + Items(e, 0)).inputs;
         forall k :: |s.inputs| <= k < |t| ==> t[k].id !in Ids(s.inputs)
    ensures Meaning(d + e, cap) == Meaning(d, cap)
  {
    hide Items, ScanOf, Ids, KnownIds, Choose, WholeItems;
    ItemsConcat(d, e, 0);
    var s, t := ScanOf(Items(d, 0)), ScanOf(Items(d + e, 0));
    var more := ScanExtends(Items(d, 0), Items(e, 0));
    assert forall k :: 0 <= k < |more| ==> more[k] == t.inputs[|s.inputs| + k];
    ForeignInputsDoNoHarm(s, t, more, cap);
  }
}
