/** Recording a payment in the document store: the record goes to the end of
    the first entry with the payer's name, or a new entry is added at the end. */
module WritePayment {
  import opened Document
  import opened Display

  /** Position of the first entry named `name`, or `|doc|` when there is none. */
  function Find(doc: Doc, name: string): (k: nat)
    ensures k <= |doc|
    ensures k < |doc| ==> doc[k].name == name
    ensures forall j :: 0 <= j < k ==> doc[j].name != name
  {
    if |doc| == 0 then 0
    else if doc[0].name == name then 0
    else 1 + Find(doc[1..], name)
  }

  /** The document after `name` paid `amount` cents at `time`. */
  function WriteNewPayment(doc: Doc, name: string, amount: int, time: string): (r: Doc)
    ensures Names(r) == Names(doc) + {name}
    ensures UniqueNames(doc) ==> UniqueNames(r)
    ensures |r| == |doc| || |r| == |doc| + 1
  {
    var rec := Record(amount, time);
    var k := Find(doc, name);
    if k < |doc| then
      var r := doc[k := Person(name, doc[k].records + [rec])];
      assert forall j :: 0 <= j < |doc| ==> r[j].name == doc[j].name;
      assert Names(r) == Names(doc) by {
        forall n | n in Names(doc) ensures n in Names(r) {
          var j :| 0 <= j < |doc| && doc[j].name == n;
          assert r[j].name == n;
        }
      }
      r
    else
      var r := doc + [Person(name, [rec])];
      NamesOfPrefix(r);
      assert r[..|r| - 1] == doc;
      r
  }

  /** Paying under a known name: the record is appended to the first entry
      with that name, and every other entry and the length stay as they were. */
  lemma WriteExisting(doc: Doc, name: string, amount: int, time: string, k: int)
    requires 0 <= k < |doc| && doc[k].name == name
    requires forall j :: 0 <= j < k ==> doc[j].name != name
    ensures |WriteNewPayment(doc, name, amount, time)| == |doc|
    ensures WriteNewPayment(doc, name, amount, time)[k]
      == Person(name, doc[k].records + [Record(amount, time)])
    ensures forall j :: 0 <= j < |doc| && j != k ==> WriteNewPayment(doc, name, amount, time)[j] == doc[j]
  {
    assert Find(doc, name) == k;
  }

  /** Paying under a new name: one entry with just that record is appended. */
  lemma WriteAbsent(doc: Doc, name: string, amount: int, time: string)
    requires name !in Names(doc)
    ensures WriteNewPayment(doc, name, amount, time) == doc + [Person(name, [Record(amount, time)])]
  {
  }

  /** What the display shows for `name` before any payment is recorded under it. */
  function Shown(view: map<string, Summary>, name: string): Summary
  {
    if name in view then view[name] else Summary(0, 0)
  }

  /** The display of a document with unique names after one entry changed
      its records only: that name shows the new entry, every other name is
      unchanged. */
  lemma {:induction false} DisplayAfterReplace(doc: Doc, r: Doc, k: int)
    requires UniqueNames(doc) && UniqueNames(r)
    requires |r| == |doc| && 0 <= k < |doc| && r[k].name == doc[k].name
    requires forall j :: 0 <= j < |doc| && j != k ==> r[j] == doc[j]
    ensures DisplayData(r).Keys == DisplayData(doc).Keys
    ensures DisplayData(r)[r[k].name] == Summarize(r[k])
    ensures forall n :: n in DisplayData(doc) && n != r[k].name ==> DisplayData(r)[n] == DisplayData(doc)[n]
  {
    assert forall j :: 0 <= j < |doc| ==> r[j].name == doc[j].name;
    assert Names(r) == Names(doc) by {
      forall n | n in Names(doc) ensures n in Names(r) {
        var j :| 0 <= j < |doc| && doc[j].name == n;
        assert r[j].name == n;
      }
    }
    assert LastWithName(r, k);
    DisplayOfLast(r, k);
    forall n | n in DisplayData(doc) && n != r[k].name
      ensures DisplayData(r)[n] == DisplayData(doc)[n]
    {
      var j :| 0 <= j < |doc| && doc[j].name == n;
      assert r[j] == doc[j];
      assert LastWithName(doc, j) && LastWithName(r, j);
      DisplayOfLast(doc, j);
      DisplayOfLast(r, j);
    }
  }

  /** The display of a document after one entry with a new name is appended. */
  lemma {:induction false} DisplayAfterAppend(doc: Doc, p: Person)
    requires p.name !in Names(doc)
    ensures DisplayData(doc + [p]) == DisplayData(doc)[p.name := Summarize(p)]
  {
    assert (doc + [p])[..|doc|] == doc;
  }

  /** Recording `amount` for `name` took the display from `before` to
      `after`: the payer's count rose by one and total by the amount, and
      every other name shows what it showed before. */
  predicate DisplayStep(before: map<string, Summary>, after: map<string, Summary>, name: string, amount: int)
  {
    && after.Keys == before.Keys + {name}
    && after[name] == Summary(Shown(before, name).total + amount, Shown(before, name).count + 1)
    && forall n :: n in before && n != name ==> after[n] == before[n]
  }

  /** Appending one record to the entry at `k` of a document with unique
      names is one display step for that entry's name. */
  lemma {:induction false} AppendRecordStep(doc: Doc, r: Doc, k: int, amount: int, time: string)
    requires UniqueNames(doc) && UniqueNames(r)
    requires |r| == |doc| && 0 <= k < |doc|
    requires r[k] == Person(doc[k].name, doc[k].records + [Record(amount, time)])
    requires forall j :: 0 <= j < |doc| && j != k ==> r[j] == doc[j]
    ensures DisplayStep(DisplayData(doc), DisplayData(r), doc[k].name, amount)
  {
    var name := doc[k].name;
    DisplayAfterReplace(doc, r, k);
    assert LastWithName(doc, k);
    DisplayOfLast(doc, k);
    SumAmountsAppend(doc[k].records, Record(amount, time));
    StepOfReplace(DisplayData(doc), DisplayData(r), name, amount);
  }

  /** A display in which only `name`'s summary changed, by one more payment
      of `amount`, took one display step. */
  lemma StepOfReplace(before: map<string, Summary>, after: map<string, Summary>, name: string, amount: int)
    requires name in before && after.Keys == before.Keys
    requires after[name] == Summary(before[name].total + amount, before[name].count + 1)
    requires forall n :: n in before && n != name ==> after[n] == before[n]
    ensures DisplayStep(before, after, name, amount)
  {
  }

  lemma {:induction false} WriteThenDisplayExisting(doc: Doc, name: string, amount: int, time: string, k: int)
    requires UniqueNames(doc)
    requires k == Find(doc, name) && k < |doc|
    ensures DisplayStep(DisplayData(doc), DisplayData(WriteNewPayment(doc, name, amount, time)), name, amount)
  {
    WriteExisting(doc, name, amount, time, k);
    AppendRecordStep(doc, WriteNewPayment(doc, name, amount, time), k, amount, time);
  }

  lemma {:induction false} WriteThenDisplayAbsent(doc: Doc, name: string, amount: int, time: string)
    requires Find(doc, name) == |doc|
    ensures DisplayStep(DisplayData(doc), DisplayData(WriteNewPayment(doc, name, amount, time)), name, amount)
  {
    assert name !in Names(doc);
    WriteAbsent(doc, name, amount, time);
    DisplayAfterAppend(doc, Person(name, [Record(amount, time)]));
    SumAmountsAppend([], Record(amount, time));
    assert [Record(amount, time)] == [] + [Record(amount, time)];
  }

  /** Recording then displaying, for any document with unique names. */
  lemma {:induction false} WriteThenDisplay(doc: Doc, name: string, amount: int, time: string)
    requires UniqueNames(doc)
    ensures DisplayStep(DisplayData(doc), DisplayData(WriteNewPayment(doc, name, amount, time)), name, amount)
  {
    var k := Find(doc, name);
    if k < |doc| {
      WriteThenDisplayExisting(doc, name, amount, time, k);
    } else {
      WriteThenDisplayAbsent(doc, name, amount, time);
    }
  }

  /** Two payments of 1.00 and 2.00 by Alice show a total of 3.00 over two payments. */
  lemma ExampleTwoPayments(t1: string, t2: string)
    ensures DisplayData(WriteNewPayment(WriteNewPayment([], "Alice", 100, t1), "Alice", 200, t2))["Alice"]
      == Summary(300, 2)
  {
    var once := WriteNewPayment([], "Alice", 100, t1);
    WriteThenDisplay([], "Alice", 100, t1);
    WriteThenDisplay(once, "Alice", 200, t2);
  }

  /** A document that repeats a name (writing never introduces one, since
      `WriteNewPayment` preserves `UniqueNames`, but a starting file may hold
      one) hides new payments: the record goes to the first entry while the
      display reads the last. */
  lemma DuplicateNameHidesWrite()
    ensures var doc := [Person("A", []), Person("A", [])];
            DisplayData(WriteNewPayment(doc, "A", 500, "t"))["A"] == Summary(0, 0)
  {
    var doc := [Person("A", []), Person("A", [])];
    var r := WriteNewPayment(doc, "A", 500, "t");
    WriteExisting(doc, "A", 500, "t", 0);
    assert LastWithName(r, 1);
    DisplayOfLast(r, 1);
  }
}
