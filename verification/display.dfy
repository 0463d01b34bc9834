/** The display view of the document store: every name mapped to the total
    it paid and the number of payments. */
module Display {
  import opened Document

  /** What the view shows for one name: total in cents and payment count. */
  datatype Summary = Summary(total: int, count: nat)

  function Summarize(p: Person): Summary
  {
    Summary(SumAmounts(p.records), |p.records|)
  }

  /** The view of a whole document. A later entry with an already seen name
      replaces the earlier one, since the view is keyed by name. */
  function DisplayData(doc: Doc): (r: map<string, Summary>)
    ensures r.Keys == Names(doc)
  {
    if |doc| == 0 then map[]
    else
      NamesOfPrefix(doc);
      DisplayData(doc[..|doc| - 1])[doc[|doc| - 1].name := Summarize(doc[|doc| - 1])]
  }

  /** The view shows, for each name, the payments of the last entry with that name. */
  lemma {:induction false} DisplayOfLast(doc: Doc, i: int)
    requires LastWithName(doc, i)
    ensures doc[i].name in DisplayData(doc)
    ensures DisplayData(doc)[doc[i].name] == Summarize(doc[i])
    decreases |doc|
  {
    if i < |doc| - 1 {
      var pre := doc[..|doc| - 1];
      assert LastWithName(pre, i);
      DisplayOfLast(pre, i);
    }
  }

  /** With unique names every entry is shown with the sum and count of its own records. */
  lemma DisplayOfUnique(doc: Doc)
    requires UniqueNames(doc)
    ensures forall i :: 0 <= i < |doc| ==>
      doc[i].name in DisplayData(doc) && DisplayData(doc)[doc[i].name] == Summarize(doc[i])
  {
    forall i | 0 <= i < |doc|
      ensures doc[i].name in DisplayData(doc) && DisplayData(doc)[doc[i].name] == Summarize(doc[i])
    {
      DisplayOfLast(doc, i);
    }
  }

  /** The view as the loops of the store compute it: one entry per person,
      reset to zero and then increased by each record in turn. */
  method GetDisplayData(doc: Doc) returns (result: map<string, Summary>)
    ensures result.Keys == Names(doc)
    ensures result == DisplayData(doc)
  {
    result := map[];
    var i := 0;
    while i < |doc|
      invariant 0 <= i <= |doc|
      invariant result == DisplayData(doc[..i])
    {
      var p := doc[i];
      result := result[p.name := Summary(0, 0)];
      var k := 0;
      while k < |p.records|
        invariant 0 <= k <= |p.records|
        invariant result == DisplayData(doc[..i])[p.name := Summary(SumAmounts(p.records[..k]), k)]
      {
        SumAmountsAppend(p.records[..k], p.records[k]);
        assert p.records[..k + 1] == p.records[..k] + [p.records[k]];
        var s := result[p.name];
        result := result[p.name := Summary(s.total + p.records[k].amount, s.count + 1)];
        k := k + 1;
      }
      assert p.records[..k] == p.records;
      assert doc[..i + 1][..i] == doc[..i];
      i := i + 1;
    }
    assert doc[..i] == doc;
  }
}
