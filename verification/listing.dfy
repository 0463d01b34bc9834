/** Listing every payment grouped by group name. The store joins each
    payment with its payer and group, orders the joined rows by group name
    and then time, and gathers them into one list per group name in that
    order. Rows equal on both keys come in ascending payment id here; the
    query leaves their order open. */
module Listing {
  import opened TextOrder
  import opened Sorting
  import opened Ledger

  /** One listed payment. */
  datatype Entry = Entry(person: string, amount: int, time: string)

  /** A joined row: the group's name and the listed payment. */
  datatype Row = Row(group: string, entry: Entry)

  /** The inner join finds payment `p` together with its payer and group. */
  predicate Joins(s: State, p: nat)
  {
    p in s.payments && s.payments[p].personId in s.persons && s.payments[p].groupId in s.groups
  }

  function RowOf(s: State, p: nat): Row
    requires Joins(s, p)
  {
    var pay := s.payments[p];
    Row(s.groups[pay.groupId], Entry(s.persons[pay.personId], pay.amount, pay.time))
  }

  /** The ids in [lo, next payment id) that the join finds. */
  function JoinedIds(s: State, lo: nat): set<nat>
  {
    set p | p in s.payments && lo <= p < s.nextPaymentId && Joins(s, p)
  }

  /** The joined rows of the payments with ids from `lo` on, ascending by id. */
  function JoinFrom(s: State, lo: nat): seq<Row>
    decreases s.nextPaymentId - lo
  {
    if lo >= s.nextPaymentId then []
    else (if Joins(s, lo) then [RowOf(s, lo)] else []) + JoinFrom(s, lo + 1)
  }

  /** The join holds one row per joined id, and exactly their rows. */
  lemma {:induction false} JoinFromRows(s: State, lo: nat)
    ensures |JoinFrom(s, lo)| == |JoinedIds(s, lo)|
    ensures forall r :: r in JoinFrom(s, lo) <==> exists p :: p in JoinedIds(s, lo) && RowOf(s, p) == r
    decreases s.nextPaymentId - lo
  {
    if lo >= s.nextPaymentId {
      assert JoinedIds(s, lo) == {};
    } else {
      JoinFromRows(s, lo + 1);
      if Joins(s, lo) {
        assert JoinedIds(s, lo) == {lo} + JoinedIds(s, lo + 1);
      } else {
        assert JoinedIds(s, lo) == JoinedIds(s, lo + 1);
      }
    }
  }

  /** The joined ids from `lo` on whose payment belongs to group name `k`. */
  function GroupIdsFrom(s: State, lo: nat, k: string): set<nat>
  {
    set p | p in JoinedIds(s, lo) && RowOf(s, p).group == k
  }

  /** Group `k`'s rows in the join number exactly its joined payments. */
  lemma {:induction false} FilterJoinCount(s: State, lo: nat, k: string)
    ensures |Filter(JoinFrom(s, lo), k)| == |GroupIdsFrom(s, lo, k)|
    decreases s.nextPaymentId - lo
  {
    if lo >= s.nextPaymentId {
      assert GroupIdsFrom(s, lo, k) == {};
    } else {
      FilterJoinCount(s, lo + 1, k);
      JoinFromStep(s, lo);
      var head := if Joins(s, lo) then [RowOf(s, lo)] else [];
      FilterConcat(head, JoinFrom(s, lo + 1), k);
      assert lo !in GroupIdsFrom(s, lo + 1, k);
      if Joins(s, lo) && RowOf(s, lo).group == k {
        FilterCons(RowOf(s, lo), [], k);
        assert GroupIdsFrom(s, lo, k) == {lo} + GroupIdsFrom(s, lo + 1, k);
      } else {
        if Joins(s, lo) {
          FilterCons(RowOf(s, lo), [], k);
        }
        assert GroupIdsFrom(s, lo, k) == GroupIdsFrom(s, lo + 1, k);
      }
    }
  }

  lemma JoinFromStep(s: State, lo: nat)
    requires lo < s.nextPaymentId
    ensures JoinFrom(s, lo) == (if Joins(s, lo) then [RowOf(s, lo)] else []) + JoinFrom(s, lo + 1)
  {
  }

  function JoinRows(s: State): seq<Row>
  {
    JoinFrom(s, 0)
  }

  /** Every payment of a valid store is joined, so the join has one row per payment. */
  lemma JoinRowsCount(s: State)
    requires Valid(s)
    ensures JoinedIds(s, 0) == s.payments.Keys
    ensures |JoinRows(s)| == |s.payments|
  {
    JoinFromRows(s, 0);
    assert JoinedIds(s, 0) == s.payments.Keys;
  }

  /** Ordered by group name, then by time. */
  predicate RowLe(x: Row, y: Row)
  {
    if x.group == y.group then Le(x.entry.time, y.entry.time) else Le(x.group, y.group)
  }

  /** Ordered by time. */
  predicate TimeLe(x: Entry, y: Entry)
  {
    Le(x.time, y.time)
  }

  lemma TimeLeTotalPreorder()
    ensures TotalPreorder(TimeLe)
  {
    forall a, b ensures TimeLe(a, b) || TimeLe(b, a) {
      LeTotal(a.time, b.time);
    }
    forall a, b, c | TimeLe(a, b) && TimeLe(b, c) ensures TimeLe(a, c) {
      LeTransitive(a.time, b.time, c.time);
    }
  }

  lemma RowLeTransitive(a: Row, b: Row, c: Row)
    requires RowLe(a, b) && RowLe(b, c)
    ensures RowLe(a, c)
  {
    if a.group == b.group && b.group == c.group {
      LeTransitive(a.entry.time, b.entry.time, c.entry.time);
    } else if a.group != b.group && b.group != c.group {
      LeTransitive(a.group, b.group, c.group);
      if a.group == c.group {
        LeAntisymmetric(a.group, b.group);
      }
    }
  }

  lemma RowLeTotalPreorder()
    ensures TotalPreorder(RowLe)
  {
    forall a, b ensures RowLe(a, b) || RowLe(b, a) {
      LeTotal(a.group, b.group);
      LeTotal(a.entry.time, b.entry.time);
    }
    forall a, b, c | RowLe(a, b) && RowLe(b, c) ensures RowLe(a, c) {
      RowLeTransitive(a, b, c);
    }
  }

  /** The rows of group `k`, as listed payments, in the order of `rows`. */
  function Filter(rows: seq<Row>, k: string): (es: seq<Entry>)
    ensures |es| <= |rows|
    ensures forall e :: e in es <==> Row(k, e) in rows
  {
    if |rows| == 0 then []
    else (if rows[0].group == k then [rows[0].entry] else []) + Filter(rows[1..], k)
  }

  lemma {:induction false} FilterConcat(a: seq<Row>, b: seq<Row>, k: string)
    ensures Filter(a + b, k) == Filter(a, k) + Filter(b, k)
  {
    if |a| > 0 {
      FilterConcat(a[1..], b, k);
      assert (a + b)[0] == a[0];
      assert (a + b)[1..] == a[1..] + b;
    } else {
      assert a + b == b;
    }
  }

  lemma FilterCons(x: Row, rows: seq<Row>, k: string)
    ensures Filter([x] + rows, k) == (if x.group == k then [x.entry] else []) + Filter(rows, k)
  {
    assert ([x] + rows)[0] == x;
    assert ([x] + rows)[1..] == rows;
  }

  /** Gathering the ordered rows into one list per group name, appending each
      row to its group's list (created empty on the group's first row). */
  function GroupRows(rows: seq<Row>): map<string, seq<Entry>>
  {
    if |rows| == 0 then map[]
    else
      var m := GroupRows(rows[..|rows| - 1]);
      var last := rows[|rows| - 1];
      m[last.group := (if last.group in m then m[last.group] else []) + [last.entry]]
  }

  /** Each group's list holds exactly that group's rows, in row order, and a
      group is listed exactly when it has a row. */
  lemma {:induction false} GroupRowsIsFilter(rows: seq<Row>)
    ensures forall k :: k in GroupRows(rows) <==> Filter(rows, k) != []
    ensures forall k :: k in GroupRows(rows) ==> GroupRows(rows)[k] == Filter(rows, k)
  {
    if |rows| > 0 {
      var pre := rows[..|rows| - 1];
      var last := rows[|rows| - 1];
      GroupRowsIsFilter(pre);
      assert rows == pre + [last];
      forall k ensures Filter(rows, k) == Filter(pre, k) + (if last.group == k then [last.entry] else []) {
        FilterConcat(pre, [last], k);
        assert Filter([last], k) == (if last.group == k then [last.entry] else []) + Filter([], k);
      }
    }
  }

  /** Listing every payment, grouped by group name. */
  function GetAllPayments(s: State): map<string, seq<Entry>>
  {
    GroupRows(SortBy(RowLe, JoinRows(s)))
  }

  /** Ordering rows by group name and time yields a sorted permutation. */
  lemma SortRowsSorted(rows: seq<Row>)
    ensures Sorted(RowLe, SortBy(RowLe, rows))
  {
    RowLeTotalPreorder();
    SortBySorted(RowLe, rows);
  }

  /** Inserting a row of another group leaves group `k` alone. */
  lemma {:induction false} FilterInsertOther(x: Row, s: seq<Row>, k: string)
    requires x.group != k
    ensures Filter(InsertBy(RowLe, x, s), k) == Filter(s, k)
  {
    if |s| == 0 {
      FilterCons(x, [], k);
    } else if RowLe(x, s[0]) {
      FilterCons(x, s, k);
    } else {
      FilterInsertOther(x, s[1..], k);
      FilterCons(s[0], InsertBy(RowLe, x, s[1..]), k);
      FilterCons(s[0], s[1..], k);
      assert s == [s[0]] + s[1..];
    }
  }

  /** In rows ordered by group and time, a row of group `k` placed at or
      before the first row is no later than any of group `k`'s rows. */
  lemma FirstOfGroupNotEarlier(x: Row, s: seq<Row>, k: string)
    requires Sorted(RowLe, s)
    requires |s| > 0 && RowLe(x, s[0]) && x.group == k
    requires Filter(s, k) != []
    ensures TimeLe(x.entry, Filter(s, k)[0])
  {
    var f := Filter(s, k);
    assert f[0] in f;
    assert Row(k, f[0]) in s;
    var j :| 0 <= j < |s| && s[j] == Row(k, f[0]);
    if j > 0 {
      RowLeTransitive(x, s[0], s[j]);
    }
  }

  lemma InsertByFront<T>(le: (T, T) -> bool, x: T, s: seq<T>)
    requires |s| == 0 || le(x, s[0])
    ensures InsertBy(le, x, s) == [x] + s
  {
  }

  lemma InsertByPast<T>(le: (T, T) -> bool, x: T, y: T, s: seq<T>)
    requires !le(x, y)
    ensures InsertBy(le, x, [y] + s) == [y] + InsertBy(le, x, s)
  {
    assert ([y] + s)[0] == y;
    assert ([y] + s)[1..] == s;
  }

  /** Inserting a row of group `k` into rows ordered by group and time places
      its entry among that group's entries as inserting it by time would. */
  lemma {:induction false} FilterInsertSame(x: Row, s: seq<Row>, k: string)
    requires Sorted(RowLe, s)
    requires x.group == k
    ensures Filter(InsertBy(RowLe, x, s), k) == InsertBy(TimeLe, x.entry, Filter(s, k))
    decreases |s|, 1
  {
    if |s| == 0 {
      FilterCons(x, [], k);
    } else if RowLe(x, s[0]) {
      FilterCons(x, s, k);
      if Filter(s, k) != [] {
        FirstOfGroupNotEarlier(x, s, k);
      }
      InsertByFront(TimeLe, x.entry, Filter(s, k));
    } else {
      FilterInsertSameStep(x, s, k);
    }
  }

  lemma {:induction false} FilterInsertSameStep(x: Row, s: seq<Row>, k: string)
    requires Sorted(RowLe, s)
    requires x.group == k
    requires |s| > 0 && !RowLe(x, s[0])
    ensures Filter(InsertBy(RowLe, x, s), k) == InsertBy(TimeLe, x.entry, Filter(s, k))
    decreases |s|, 0
  {
    var rest := InsertBy(RowLe, x, s[1..]);
    assert InsertBy(RowLe, x, s) == [s[0]] + rest;
    assert Sorted(RowLe, s[1..]);
    FilterInsertSame(x, s[1..], k);
    FilterCons(s[0], rest, k);
    FilterCons(s[0], s[1..], k);
    assert s == [s[0]] + s[1..];
    var f1 := Filter(s[1..], k);
    if s[0].group == k {
      assert Filter(s, k) == [s[0].entry] + f1;
      assert Filter(InsertBy(RowLe, x, s), k) == [s[0].entry] + InsertBy(TimeLe, x.entry, f1);
      assert !TimeLe(x.entry, s[0].entry);
      InsertByPast(TimeLe, x.entry, s[0].entry, f1);
    } else {
      assert Filter(s, k) == [] + f1 == f1;
      assert Filter(InsertBy(RowLe, x, s), k) == [] + Filter(rest, k) == Filter(rest, k);
    }
  }

  /** Ordering all rows and then taking group `k` is ordering group `k` by time. */
  lemma {:induction false} FilterSort(rows: seq<Row>, k: string)
    ensures Filter(SortBy(RowLe, rows), k) == SortBy(TimeLe, Filter(rows, k))
    decreases |rows|, 1
  {
    if |rows| > 0 {
      FilterSortStep(rows, k);
    }
  }

  lemma {:induction false} FilterSortStep(rows: seq<Row>, k: string)
    requires |rows| > 0
    ensures Filter(SortBy(RowLe, rows), k) == SortBy(TimeLe, Filter(rows, k))
    decreases |rows|, 0
  {
    var x := rows[0];
    var tail := rows[1..];
    var rest := SortBy(RowLe, tail);
    assert SortBy(RowLe, rows) == InsertBy(RowLe, x, rest);
    FilterSort(tail, k);
    FilterCons(x, tail, k);
    assert rows == [x] + tail;
    var f1 := Filter(tail, k);
    if x.group == k {
      SortRowsSorted(tail);
      FilterInsertSame(x, rest, k);
      SortByCons(TimeLe, x.entry, f1);
    } else {
      FilterInsertOther(x, rest, k);
      assert Filter(rows, k) == f1;
    }
  }

  lemma SortByCons<T>(le: (T, T) -> bool, x: T, s: seq<T>)
    ensures SortBy(le, [x] + s) == InsertBy(le, x, SortBy(le, s))
  {
    assert ([x] + s)[0] == x;
    assert ([x] + s)[1..] == s;
  }

  /** What the listing shows for group name `k`: its payments, ordered by
      time. */
  lemma ListingOfGroup(s: State, k: string)
    ensures k in GetAllPayments(s) <==> Filter(JoinRows(s), k) != []
    ensures k in GetAllPayments(s) ==> GetAllPayments(s)[k] == SortBy(TimeLe, Filter(JoinRows(s), k))
    ensures k in GetAllPayments(s) ==> Sorted(TimeLe, GetAllPayments(s)[k])
  {
    GroupRowsIsFilter(SortBy(RowLe, JoinRows(s)));
    FilterSort(JoinRows(s), k);
    TimeLeTotalPreorder();
    SortBySorted(TimeLe, Filter(JoinRows(s), k));
  }

  /** Two stores whose joins agree on a group's rows list that group alike. */
  lemma ListingFollowsRows(s: State, k: string, s': State, k': string)
    requires Filter(JoinRows(s'), k') == Filter(JoinRows(s), k)
    ensures k' in GetAllPayments(s') <==> k in GetAllPayments(s)
    ensures k in GetAllPayments(s) ==> GetAllPayments(s')[k'] == GetAllPayments(s)[k]
  {
    ListingOfGroup(s, k);
    ListingOfGroup(s', k');
  }

  /** How many entries a listing holds over all groups. */
  ghost function TotalEntries(m: map<string, seq<Entry>>): nat
    decreases |m|
  {
    if |m| == 0 then 0
    else
      var k :| k in m;
      |m[k]| + TotalEntries(m - {k})
  }

  lemma TotalEntriesUnfold(m: map<string, seq<Entry>>, k: string)
    requires k in m
    ensures exists j :: j in m && TotalEntries(m) == |m[j]| + TotalEntries(m - {j})
  {
    assert |m| != 0 by {
      assert k in m.Keys;
      assert |m.Keys| == |m|;
    }
  }

  lemma RemoveBothOrders(m: map<string, seq<Entry>>, j: string, k: string)
    requires j in m && k in m && j != k
    ensures m - {j} - {k} == m - {k} - {j}
    ensures k in m - {j} && (m - {j})[k] == m[k]
    ensures j in m - {k} && (m - {k})[j] == m[j]
    ensures |m - {j}| < |m| && |m - {k}| < |m|
  {
    assert (m - {j}).Keys == m.Keys - {j};
    assert (m - {k}).Keys == m.Keys - {k};
  }

  /** The total does not depend on which group is counted first. */
  lemma {:induction false} TotalEntriesRemove(m: map<string, seq<Entry>>, k: string)
    requires k in m
    ensures TotalEntries(m) == |m[k]| + TotalEntries(m - {k})
    decreases |m|
  {
    TotalEntriesUnfold(m, k);
    var j :| j in m && TotalEntries(m) == |m[j]| + TotalEntries(m - {j});
    if j != k {
      var mj := m - {j};
      var mk := m - {k};
      RemoveBothOrders(m, j, k);
      TotalEntriesRemove(mj, k);
      TotalEntriesRemove(mk, j);
      assert TotalEntries(mj - {k}) == TotalEntries(mk - {j});
    }
  }

  lemma TotalEntriesUpdate(m: map<string, seq<Entry>>, k: string, v: seq<Entry>)
    ensures TotalEntries(m[k := v]) == TotalEntries(m) - (if k in m then |m[k]| else 0) + |v|
  {
    var m' := m[k := v];
    TotalEntriesRemove(m', k);
    assert m' - {k} == m - {k};
    if k in m {
      TotalEntriesRemove(m, k);
    } else {
      assert m - {k} == m;
    }
  }

  /** Grouping keeps every row: the lists hold as many entries as there are rows. */
  lemma {:induction false} TotalOfGroupRows(rows: seq<Row>)
    ensures TotalEntries(GroupRows(rows)) == |rows|
  {
    if |rows| > 0 {
      var pre := rows[..|rows| - 1];
      var last := rows[|rows| - 1];
      var m := GroupRows(pre);
      TotalOfGroupRows(pre);
      TotalEntriesUpdate(m, last.group, (if last.group in m then m[last.group] else []) + [last.entry]);
    }
  }

  /** A listed group's list holds one entry per payment of that group, so
      payments with equal rows are each listed. */
  lemma ListingCount(s: State, k: string)
    requires Valid(s)
    ensures k in GetAllPayments(s) ==>
      |GetAllPayments(s)[k]| == |set p | p in s.payments && s.groups[s.payments[p].groupId] == k|
  {
    ListingOfGroup(s, k);
    FilterJoinCount(s, 0, k);
    GroupIdsOfValid(s, k);
  }

  lemma GroupIdsOfValid(s: State, k: string)
    requires Valid(s)
    ensures GroupIdsFrom(s, 0, k) == set p | p in s.payments && s.groups[s.payments[p].groupId] == k
  {
    JoinRowsCount(s);
  }

  lemma ListingOfValidGroup(s: State, k: string)
    requires Valid(s)
    ensures k in GetAllPayments(s) <==> exists p :: p in s.payments && s.groups[s.payments[p].groupId] == k
    ensures k in GetAllPayments(s) ==> Sorted(TimeLe, GetAllPayments(s)[k])
    ensures forall e :: k in GetAllPayments(s) ==>
      (e in GetAllPayments(s)[k] <==> exists p :: p in s.payments && RowOf(s, p) == Row(k, e))
  {
    var rows := JoinRows(s);
    JoinRowsCount(s);
    JoinFromRows(s, 0);
    ListingOfGroup(s, k);
    var f := Filter(rows, k);
    if exists p :: p in s.payments && s.groups[s.payments[p].groupId] == k {
      var p :| p in s.payments && s.groups[s.payments[p].groupId] == k;
      assert RowOf(s, p) in rows;
      assert RowOf(s, p).entry in f;
    }
    if f != [] {
      assert f[0] in f;
    }
    if k in GetAllPayments(s) {
      var listed := GetAllPayments(s)[k];
      forall e ensures e in listed <==> e in f {
        assert e in listed <==> e in multiset(listed);
      }
    }
  }

  /** The listing of a valid store: a group name is a key exactly when some
      payment belongs to that group; its list holds exactly that group's
      payments, ordered by time; and the lists together hold one entry per
      payment. */
  lemma AllPayments(s: State)
    requires Valid(s)
    ensures forall k :: k in GetAllPayments(s) <==>
      exists p :: p in s.payments && s.groups[s.payments[p].groupId] == k
    ensures forall k :: k in GetAllPayments(s) ==> Sorted(TimeLe, GetAllPayments(s)[k])
    ensures forall k, e :: k in GetAllPayments(s) ==>
      (e in GetAllPayments(s)[k] <==> exists p :: p in s.payments && RowOf(s, p) == Row(k, e))
    ensures TotalEntries(GetAllPayments(s)) == |s.payments|
  {
    JoinRowsCount(s);
    JoinFromRows(s, 0);
    TotalOfGroupRows(SortBy(RowLe, JoinRows(s)));
    forall k
      ensures k in GetAllPayments(s) <==> exists p :: p in s.payments && s.groups[s.payments[p].groupId] == k
      ensures k in GetAllPayments(s) ==> Sorted(TimeLe, GetAllPayments(s)[k])
      ensures forall e :: k in GetAllPayments(s) ==>
        (e in GetAllPayments(s)[k] <==> exists p :: p in s.payments && RowOf(s, p) == Row(k, e))
    {
      ListingOfValidGroup(s, k);
    }
  }
}
