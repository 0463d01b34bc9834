/** The document store's data file: a list of people, each holding the list
    of payments they made. Amounts are integer cents; the caller rounds every
    amount to two decimals before it is stored, so cents lose nothing. */
module Document {

  /** One payment: its amount in cents and an opaque time token. */
  datatype Record = Record(amount: int, time: string)

  /** One entry of the document: a name and that person's payments, oldest first. */
  datatype Person = Person(name: string, records: seq<Record>)

  type Doc = seq<Person>

  /** Sum of the amounts of `rs`, accumulated front to back. */
  function SumAmounts(rs: seq<Record>): int
  {
    if |rs| == 0 then 0 else SumAmounts(rs[..|rs| - 1]) + rs[|rs| - 1].amount
  }

  lemma SumAmountsAppend(rs: seq<Record>, r: Record)
    ensures SumAmounts(rs + [r]) == SumAmounts(rs) + r.amount
  {
    assert (rs + [r])[..|rs|] == rs;
  }

  /** Every name that occurs in the document. */
  function Names(doc: Doc): set<string>
  {
    set p | p in doc :: p.name
  }

  /** No two entries share a name; adding payments through the document
      store never breaks this. */
  predicate UniqueNames(doc: Doc)
  {
    forall i, j :: 0 <= i < j < |doc| ==> doc[i].name != doc[j].name
  }

  /** Entry `i` is the last one carrying its name. Reading the document into
      a dictionary keyed by name keeps the values of this entry. */
  predicate LastWithName(doc: Doc, i: int)
  {
    0 <= i < |doc| && forall j :: i < j < |doc| ==> doc[j].name != doc[i].name
  }

  lemma NamesOfPrefix(doc: Doc)
    requires |doc| > 0
    ensures Names(doc) == Names(doc[..|doc| - 1]) + {doc[|doc| - 1].name}
  {
    assert doc == doc[..|doc| - 1] + [doc[|doc| - 1]];
  }
}
