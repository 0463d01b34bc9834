# Who-will-pay expense tracker: a Dafny model of its core

The tracker records who paid how much and when, and suggests who should pay
next. Its core has two stores:

- **The document store (`opData`).** A JSON list of persons, each with a name
  and a list of records (amount, time). It offers three operations:
  - the display data: per name, the sum of the amounts and the number of payments;
  - the next-payment weights: the fairness policy;
  - recording a new payment.
- **The relational store (`PaymentDB`).** Three tables:
  - `Persons` and `Groups`, each mapping an id to a unique name;
  - `Payments`, each row holding a payer, a group, an amount and a time, with
    foreign keys that cascade on delete.

  It offers group create/read/list/rename/remove, recording and removing a
  payment, and a listing of every payment grouped by group name and ordered
  by time.

The model has these modules:

- `Document`: the JSON document as a sequence of `Person`s.
- `Display`: the display data.
- `Fairness`: the next-payment weights.
- `WritePayment`: recording a payment.
- `Ledger`: the relational store as an immutable state. It holds three maps
  from id to row and three id counters. Every operation returns a `Result`
  with `NotFound` or `Duplicate` on failure.
- `Listing`: the grouped listing.
- `LedgerListing`: how each store operation shows in the listing.
- `Sorting`, `TextOrder` and `SetFacts`: the sorting, text-ordering and
  finite-set facts the proofs rest on.

**Units.** Money is an integer number of cents. Weights are integer
hundredths: weight 1 is `UnitWeight` = 100 and weight 100 is `FullWeight` =
10000. A total `d` cents above the lowest total lowers the warm weight by `d`
hundredths. That is the source's `100 - diff` with `diff` in whole currency
units.

**Repeated names in the document.** The document store reads names with
last-wins semantics: a repeated name resets its entry (opData.py:16 and :28).
It writes with first-match semantics (opData.py:76-79). The model keeps both
behaviours:

- The round-trip lemmas assume the document has unique names. Writing never
  introduces a repeated name (`WriteNewPayment` preserves `UniqueNames`), but
  the starting JSON file may already hold one.
- `WritePayment.DuplicateNameHidesWrite` shows what happens otherwise: a
  payment written into a document that repeats a name is hidden from the
  display.

**All-equal totals.** The warm branch has a fallback: when no weight survives,
every name gets weight 1 (opData.py:55-57). That fallback is unreachable.
Whoever has the lowest total is at distance 0 and keeps weight 100. So when
everyone has paid the same non-zero total, everyone gets weight 100
(`Fairness.WarmAllEqual`), not the uniform weight 1. The model follows the
code. `Fairness.WarmFallbackUnreachable` proves that the fallback is never
taken.

**Renaming to a taken name.** Group names are UNIQUE (paymentDB.py:35).
Renaming a group to a name that another group holds therefore fails, and the
model reports it as `Duplicate`. Renaming a group to its own name succeeds.

## Model

| member | source | states |
|---|---|---|
| Display.GetDisplayData | opData.py:9-20 | the display's keys are exactly the document's names, and the loop computes the same map as the recursive definition `DisplayData` |
| Display.DisplayData | opData.py:14-20 | the display has one key per distinct name in the document |
| Display.DisplayOfLast | opData.py:15-19 | for the last entry with a given name, the display shows that entry's sum of amounts and its number of records |
| Display.DisplayOfUnique | opData.py:14-20 | with unique names, every entry's name shows that entry's own sum and count |
| Fairness.Totals | opData.py:26-30 | the totals have one key per name, and a name's total is the sum of its last entry's amounts |
| Fairness.ZeroTotals | opData.py:33-37 | the names with zero total are a subset of the names |
| Fairness.Lowest | opData.py:44-47 | the lowest total is attained by some name and is no greater than any total |
| Fairness.NextPayment | opData.py:33-67 | every weighted name is a known name, and every weight lies in (0, 100] |
| Fairness.NextPaymentOf | opData.py:22-67 | the weighted names of a document are among its names |
| Fairness.ColdStart | opData.py:39-41 | when every total is zero, every name gets weight 1 |
| Fairness.Mixed | opData.py:62-65 | when some totals are zero and some are not, exactly the zero-total names are weighted, each with weight 1 |
| Fairness.WarmFallbackUnreachable | opData.py:43-59 | with no zero total the drop-zero result is non-empty, so the uniform fallback is never taken |
| Fairness.WarmExact | opData.py:44-53 | with no zero total, a name is weighted iff 100 minus its distance to the lowest total is positive, and that is its weight |
| Fairness.WarmLowestGetsFull | opData.py:44-53 | with no zero total the result is non-empty and every lowest payer gets weight 100 |
| Fairness.WarmMonotone | opData.py:50-53 | with no zero total, a name that paid no more than a weighted name is weighted too, and with at least its weight |
| Fairness.WarmAllEqual | opData.py:54-59 | equal non-zero totals give every name weight 100 |
| Fairness.ExampleMixed | opData.py:62-65 | Alice 0, Bob 50, Carol 0 gives Alice 1 and Carol 1 |
| Fairness.ExampleWarm | opData.py:44-53 | Alice 10, Bob 60 gives Alice 100 and Bob 50 |
| Fairness.ExampleWarmDrop | opData.py:50-53 | Alice 10, Bob 120 gives Alice 100 and drops Bob |
| WritePayment.Find | opData.py:76-79 | the result is the position of the first entry with the name, or the length when there is none |
| WritePayment.WriteNewPayment | opData.py:69-83 | after writing, the names are the old names plus the payer, unique names stay unique, and at most one entry is added |
| WritePayment.WriteExisting | opData.py:76-79 | under a known name, the record is appended to the first entry with that name, and every other entry is unchanged |
| WritePayment.WriteAbsent | opData.py:81-83 | under a new name, one entry holding just the record is appended |
| WritePayment.WriteThenDisplayExisting | opData.py:76-79 | writing under a known name raises that name's count by one and its total by the amount |
| WritePayment.AppendRecordStep | opData.py:76-79 | appending one record to an entry of a document with unique names raises that name's count by one and total by the amount and leaves every other name's summary as it was |
| WritePayment.WriteThenDisplayAbsent | opData.py:81-83 | writing under a new name adds that name with count 1 and total equal to the amount |
| WritePayment.WriteThenDisplay | opData.py:69-83 | with unique names, writing then displaying raises the payer's count by one and total by the amount, and every other name shows what it showed before |
| WritePayment.ExampleTwoPayments | opData.py:69-83 | two payments of 1.00 and 2.00 by Alice display as 3.00 over two payments |
| WritePayment.DuplicateNameHidesWrite | opData.py:76-79 | in a document that repeats a name, a new payment goes to the first entry and the display, which reads the last entry, does not show it |
| Ledger.Empty | paymentDB.py:17-51 | a new database has three empty tables and satisfies the schema's constraints |
| Ledger.IdNamed | paymentDB.py:157-161 | the id selected for a name is the only row with that name |
| Ledger.GetGroupId | paymentDB.py:59-70 | succeeds exactly when some group has the name, and then returns that group's id; otherwise NotFound |
| Ledger.CreateGroup | paymentDB.py:72-80 | fails with Duplicate exactly when the name is taken; otherwise adds one group under a fresh id and changes nothing else |
| Ledger.GroupsBetween | paymentDB.py:96-101 | lists exactly the groups with ids in the range, each once, in ascending id order |
| Ledger.ListGroups | paymentDB.py:82-101 | lists exactly the groups with their names, each once |
| Ledger.GetGroup | paymentDB.py:103-113 | succeeds exactly when the id exists and returns its name; otherwise NotFound |
| Ledger.RenameGroup | paymentDB.py:115-124 | NotFound for an unknown id, Duplicate when another group holds the name; otherwise only that group's name changes |
| Ledger.RemoveGroup | paymentDB.py:126-134 | NotFound for an unknown id; otherwise the group and exactly its payments are deleted, and persons stay |
| Ledger.Upsert | paymentDB.py:154-161 | insert-or-ignore of a name then selecting its id: an existing name keeps its row, a new name gets a fresh id, and names stay unique |
| Ledger.Insert | paymentDB.py:138-167 | adds one payment under a fresh id that references the payer and the group with the given names, and leaves every existing row as it was |
| Ledger.RemovePayment | paymentDB.py:172-180 | NotFound for an unknown id; otherwise exactly that payment is deleted |
| Ledger.CreateThenFind | paymentDB.py:59-80 | a created group is found by name and by id, and creating it again is a Duplicate |
| Ledger.RenameThenFind | paymentDB.py:115-124 | after a rename the group is found under the new name, and its old name is no longer found |
| Ledger.RemoveThenGone | paymentDB.py:126-134 | after removal the group is found neither by id nor by name, removing it again is NotFound, and no payment references it |
| Ledger.InsertThenRemove | paymentDB.py:138-180 | removing a just-recorded payment restores the payments table, and removing it again is NotFound |
| TextOrder.LeTotal | paymentDB.py:202 | any two texts are ordered one way or the other |
| TextOrder.LeTransitive | paymentDB.py:202 | text order is transitive |
| TextOrder.LeAntisymmetric | paymentDB.py:202 | texts ordered both ways are equal |
| Sorting.SortBy | paymentDB.py:202 | sorting yields a permutation of its input |
| Sorting.SortBySorted | paymentDB.py:202 | for a total preorder, sorting yields a sorted sequence |
| Listing.JoinFromRows | paymentDB.py:198-201 | the join has one row per payment whose payer and group exist, and exactly those payments' rows |
| Listing.JoinRowsCount | paymentDB.py:198-201 | in a valid store every payment joins, so the join has one row per payment |
| Listing.RowLeTotalPreorder | paymentDB.py:202 | ordering by group name then time compares any two rows and is transitive |
| Listing.GroupRowsIsFilter | paymentDB.py:205-211 | grouping lists a name exactly when it has rows, and its list holds exactly its rows in row order |
| Listing.FilterSort | paymentDB.py:202-211 | one group's rows out of the rows ordered by name and time are that group's rows ordered by time |
| Listing.ListingOfGroup | paymentDB.py:183-212 | a group name is listed exactly when it has a joined payment, and its list is its payments ordered by time |
| Listing.FilterJoinCount | paymentDB.py:198-201 | the join holds exactly one row of a group per joined payment of that group |
| Listing.ListingCount | paymentDB.py:183-212 | a listed group's list has exactly as many entries as the Payments table has rows for that group |
| Listing.TotalOfGroupRows | paymentDB.py:205-211 | grouping keeps every row: the lists hold as many entries as there are rows |
| Listing.AllPayments | paymentDB.py:183-212 | the keys are the names of the groups with payments, each list is ordered by time and holds exactly that group's payments, and the lists hold one entry per payment |
| LedgerListing.RemoveGroupRows | paymentDB.py:126-134 | after removing a group its name has no joined rows, and every other group's rows are unchanged |
| LedgerListing.RemoveGroupListing | paymentDB.py:126-134 | removing a group drops its name from the listing and leaves every other group's list as it was |
| LedgerListing.RenameGroupRows | paymentDB.py:115-124 | after a rename the new name has the old name's rows, the old name has none, and other names are unchanged |
| LedgerListing.RenameGroupListing | paymentDB.py:115-124 | renaming moves the group's list, unchanged, to the new name, and every other group's list stays as it was |
| LedgerListing.InsertRows | paymentDB.py:163-167 | recording a payment appends exactly its joined row to the join |
| LedgerListing.InsertFilter | paymentDB.py:138-167 | after recording, the payment's group gains exactly the new entry and every other group's rows are unchanged |
| LedgerListing.InsertListing | paymentDB.py:138-167 | recording a payment lists its group, adds exactly its entry to that group's list, and leaves every other group's list as it was |
| LedgerListing.RemovePaymentSplit | paymentDB.py:172-180 | the join before a payment's removal is the join after it with that payment's row put back in its place |
| LedgerListing.RemovePaymentFilter | paymentDB.py:172-180 | removing a payment takes exactly its entry out of its group's rows |
| LedgerListing.RemovePaymentListing | paymentDB.py:172-180 | removing a payment takes exactly its entry out of its group's list, and the listing holds one entry fewer |

## Left out

- File and database I/O are not modelled. That covers opening and parsing the JSON file, `json.dump`, `print`, SQLite connections, `PRAGMA foreign_keys` and the table-creation statements. Each store is a value passed in and returned.
- interface.py, the web layer, is not part of this model.
- Display.GetDisplayData: amounts are integer cents. The source's `round(float(amount), 2)` and float summation are not modelled, because floating point is outside the model.
- Fairness.NextPayment: weights are integer hundredths. The source's `round(100 - diff, 4)` on floats is not modelled, and neither are totals that are not whole cents.
- Ledger.Insert: never fails in the model. The storage errors that the source wraps as `RuntimeError` (paymentDB.py:168-169) come from outside its logic.
- Ledger.ListGroups: lists groups in ascending id order. The query fixes no order, so the order is a choice of this model.
- Listing.AllPayments: rows with the same group name and time come in ascending payment id. SQL leaves their order open. The order of the result dictionary's keys is not modelled either.
- Error kinds are reduced to `NotFound` and `Duplicate`. The source raises `RuntimeError` for a missing row and lets `sqlite3.IntegrityError` surface for a taken name. The message texts are not modelled.
- Ledger.Empty: AUTOINCREMENT is modelled as counters that start at 1 and never go back. SQLite's exact id choice and its limits are not modelled.
- Concurrent access to either store is not modelled.
