/** How each change to the relational store shows in the listing of all
    payments grouped by group name. */
module LedgerListing {
  import opened Ledger
  import opened Sorting
  import opened Listing

  /** The list shown for group name `k`; empty when `k` is not a key. */
  function Listed(listing: map<string, seq<Entry>>, k: string): seq<Entry>
  {
    if k in listing then listing[k] else []
  }

  // ----- removing a group -----

  lemma {:induction false} RemoveGroupRows(s: State, g: nat, lo: nat, k: string)
    requires Valid(s) && g in s.groups
    ensures RemoveGroup(s, g).Ok?
    ensures Filter(JoinFrom(RemoveGroup(s, g).value, lo), k)
      == if k == s.groups[g] then [] else Filter(JoinFrom(s, lo), k)
    decreases s.nextPaymentId - lo
  {
    var s' := RemoveGroup(s, g).value;
    if lo < s.nextPaymentId {
      JoinFromStep(s, lo);
      JoinFromStep(s', lo);
      RemoveGroupRows(s, g, lo + 1, k);
      var head := if Joins(s, lo) then [RowOf(s, lo)] else [];
      var head' := if Joins(s', lo) then [RowOf(s', lo)] else [];
      FilterConcat(head, JoinFrom(s, lo + 1), k);
      FilterConcat(head', JoinFrom(s', lo + 1), k);
      if Joins(s', lo) {
        assert RowOf(s', lo) == RowOf(s, lo);
        assert RowOf(s, lo).group != s.groups[g];
      }
    }
  }

  /** Removing a group removes its name from the listing and leaves every
      other group's list as it was. */
  lemma RemoveGroupListing(s: State, g: nat)
    requires Valid(s) && g in s.groups
    ensures RemoveGroup(s, g).Ok?
    ensures s.groups[g] !in GetAllPayments(RemoveGroup(s, g).value)
    ensures forall k :: k != s.groups[g] ==>
      && (k in GetAllPayments(RemoveGroup(s, g).value) <==> k in GetAllPayments(s))
      && Listed(GetAllPayments(RemoveGroup(s, g).value), k) == Listed(GetAllPayments(s), k)
  {
    var s' := RemoveGroup(s, g).value;
    RemoveGroupRows(s, g, 0, s.groups[g]);
    ListingOfGroup(s', s.groups[g]);
    forall k | k != s.groups[g]
      ensures k in GetAllPayments(s') <==> k in GetAllPayments(s)
      ensures Listed(GetAllPayments(s'), k) == Listed(GetAllPayments(s), k)
    {
      RemoveGroupRows(s, g, 0, k);
      ListingFollowsRows(s, k, s', k);
    }
  }

  // ----- renaming a group -----

  lemma {:induction false} RenameGroupRows(s: State, g: nat, newName: string, lo: nat, k: string)
    requires Valid(s) && RenameGroup(s, g, newName).Ok?
    ensures var s' := RenameGroup(s, g, newName).value.0;
      Filter(JoinFrom(s', lo), k)
        == if k == newName then Filter(JoinFrom(s, lo), s.groups[g])
           else if k == s.groups[g] then []
           else Filter(JoinFrom(s, lo), k)
    decreases s.nextPaymentId - lo
  {
    var s' := RenameGroup(s, g, newName).value.0;
    var oldName := s.groups[g];
    if lo < s.nextPaymentId {
      JoinFromStep(s, lo);
      JoinFromStep(s', lo);
      RenameGroupRows(s, g, newName, lo + 1, k);
      var head := if Joins(s, lo) then [RowOf(s, lo)] else [];
      var head' := if Joins(s', lo) then [RowOf(s', lo)] else [];
      FilterConcat(head, JoinFrom(s, lo + 1), k);
      FilterConcat(head', JoinFrom(s', lo + 1), k);
      if k == newName {
        FilterConcat(head, JoinFrom(s, lo + 1), oldName);
      }
      if Joins(s, lo) {
        assert Joins(s', lo);
        var gid := s.payments[lo].groupId;
        if gid == g {
          assert RowOf(s', lo) == Row(newName, RowOf(s, lo).entry);
        } else {
          assert RowOf(s', lo) == RowOf(s, lo);
          assert RowOf(s, lo).group != oldName && RowOf(s, lo).group != newName;
        }
      }
    }
  }

  /** Renaming a group moves its list, unchanged, from the old name to the
      new one; every other group's list stays as it was. */
  lemma RenameGroupListing(s: State, g: nat, newName: string)
    requires Valid(s) && RenameGroup(s, g, newName).Ok?
    ensures var s' := RenameGroup(s, g, newName).value.0;
      var oldName := s.groups[g];
      && (newName in GetAllPayments(s') <==> oldName in GetAllPayments(s))
      && Listed(GetAllPayments(s'), newName) == Listed(GetAllPayments(s), oldName)
      && (oldName != newName ==> oldName !in GetAllPayments(s'))
      && forall k :: k != oldName && k != newName ==>
           && (k in GetAllPayments(s') <==> k in GetAllPayments(s))
           && Listed(GetAllPayments(s'), k) == Listed(GetAllPayments(s), k)
  {
    var s' := RenameGroup(s, g, newName).value.0;
    var oldName := s.groups[g];
    RenameGroupRows(s, g, newName, 0, newName);
    ListingFollowsRows(s, oldName, s', newName);
    if oldName != newName {
      RenameGroupRows(s, g, newName, 0, oldName);
      ListingOfGroup(s', oldName);
    }
    forall k | k != oldName && k != newName
      ensures k in GetAllPayments(s') <==> k in GetAllPayments(s)
      ensures Listed(GetAllPayments(s'), k) == Listed(GetAllPayments(s), k)
    {
      RenameGroupRows(s, g, newName, 0, k);
      ListingFollowsRows(s, k, s', k);
    }
  }

  // ----- recording a payment -----

  /** Recording a payment leaves the joined rows of older payments alone. */
  lemma InsertKeepsRow(s: State, name: string, group: string, amount: int, time: string, p: nat)
    requires Valid(s) && p < s.nextPaymentId
    ensures var s' := Insert(s, name, group, amount, time).0;
      && (Joins(s', p) <==> Joins(s, p))
      && (Joins(s, p) ==> RowOf(s', p) == RowOf(s, p))
  {
  }

  /** The recorded payment joins as a row of its group. */
  lemma InsertNewRow(s: State, name: string, group: string, amount: int, time: string)
    requires Valid(s)
    ensures var (s', id) := Insert(s, name, group, amount, time);
      && id == s.nextPaymentId && s'.nextPaymentId == id + 1
      && Joins(s', id) && RowOf(s', id) == Row(group, Entry(name, amount, time))
  {
  }

  lemma {:induction false} InsertRows(s: State, name: string, group: string, amount: int, time: string, lo: nat)
    requires Valid(s) && lo <= s.nextPaymentId
    ensures JoinFrom(Insert(s, name, group, amount, time).0, lo)
      == JoinFrom(s, lo) + [Row(group, Entry(name, amount, time))]
    decreases s.nextPaymentId - lo
  {
    var s' := Insert(s, name, group, amount, time).0;
    var row := Row(group, Entry(name, amount, time));
    InsertNewRow(s, name, group, amount, time);
    JoinFromStep(s', lo);
    if lo == s.nextPaymentId {
      assert JoinFrom(s', lo + 1) == [];
      assert JoinFrom(s, lo) == [];
    } else {
      JoinFromStep(s, lo);
      InsertRows(s, name, group, amount, time, lo + 1);
      InsertKeepsRow(s, name, group, amount, time, lo);
    }
  }

  /** After recording, each group's rows are its old rows, plus the new
      payment's entry at the end for the payment's own group. */
  lemma InsertFilter(s: State, name: string, group: string, amount: int, time: string, k: string)
    requires Valid(s)
    ensures Filter(JoinRows(Insert(s, name, group, amount, time).0), k)
      == Filter(JoinRows(s), k) + (if k == group then [Entry(name, amount, time)] else [])
  {
    var row := Row(group, Entry(name, amount, time));
    InsertRows(s, name, group, amount, time, 0);
    FilterConcat(JoinRows(s), [row], k);
    FilterCons(row, [], k);
  }

  /** Recording a payment adds its entry to its group's list and leaves every
      other group's list as it was. */
  lemma InsertListing(s: State, name: string, group: string, amount: int, time: string)
    requires Valid(s)
    ensures var s' := Insert(s, name, group, amount, time).0;
      && group in GetAllPayments(s')
      && multiset(GetAllPayments(s')[group])
           == multiset(Listed(GetAllPayments(s), group)) + multiset{Entry(name, amount, time)}
      && forall k :: k != group ==>
           && (k in GetAllPayments(s') <==> k in GetAllPayments(s))
           && Listed(GetAllPayments(s'), k) == Listed(GetAllPayments(s), k)
  {
    var s' := Insert(s, name, group, amount, time).0;
    InsertListingOwn(s, s', name, group, amount, time);
    forall k | k != group
      ensures k in GetAllPayments(s') <==> k in GetAllPayments(s)
      ensures Listed(GetAllPayments(s'), k) == Listed(GetAllPayments(s), k)
    {
      InsertFilter(s, name, group, amount, time, k);
      assert Filter(JoinRows(s'), k) == Filter(JoinRows(s), k);
      ListingFollowsRows(s, k, s', k);
    }
  }

  lemma InsertListingOwn(s: State, s': State, name: string, group: string, amount: int, time: string)
    requires Valid(s) && s' == Insert(s, name, group, amount, time).0
    ensures group in GetAllPayments(s')
    ensures multiset(GetAllPayments(s')[group])
      == multiset(Listed(GetAllPayments(s), group)) + multiset{Entry(name, amount, time)}
  {
    var f := Filter(JoinRows(s), group);
    InsertFilter(s, name, group, amount, time, group);
    ListingOfGroup(s', group);
    ListingOfGroup(s, group);
    assert multiset(Filter(JoinRows(s'), group)) == multiset(f) + multiset{Entry(name, amount, time)};
    if f == [] {
      assert multiset(f) == multiset{};
    }
  }

  // ----- removing a payment -----

  /** The joined rows of the payments with ids in [lo, hi), ascending by id. */
  function JoinBetween(s: State, lo: nat, hi: nat): seq<Row>
    decreases hi - lo
  {
    if lo >= hi then []
    else (if Joins(s, lo) then [RowOf(s, lo)] else []) + JoinBetween(s, lo + 1, hi)
  }

  lemma {:induction false} JoinSplit(s: State, lo: nat, m: nat)
    requires lo <= m <= s.nextPaymentId
    ensures JoinFrom(s, lo) == JoinBetween(s, lo, m) + JoinFrom(s, m)
    decreases m - lo
  {
    if lo < m {
      JoinSplit(s, lo + 1, m);
      JoinFromStep(s, lo);
      var head := if Joins(s, lo) then [RowOf(s, lo)] else [];
      assert JoinBetween(s, lo, m) == head + JoinBetween(s, lo + 1, m);
      assert head + (JoinBetween(s, lo + 1, m) + JoinFrom(s, m))
        == (head + JoinBetween(s, lo + 1, m)) + JoinFrom(s, m);
    }
  }

  /** Above the removed id, the joined rows are the same before and after. */
  lemma {:induction false} RemovePaymentAbove(s: State, s': State, id: nat, lo: nat)
    requires s' == s.(payments := s.payments - {id})
    requires id < lo
    ensures JoinFrom(s, lo) == JoinFrom(s', lo)
    decreases s.nextPaymentId - lo
  {
    if lo < s.nextPaymentId {
      RemovePaymentAbove(s, s', id, lo + 1);
      JoinFromStep(s, lo);
      JoinFromStep(s', lo);
    }
  }

  /** Below the removed id, the joined rows are the same before and after. */
  lemma {:induction false} RemovePaymentBelow(s: State, s': State, id: nat, lo: nat)
    requires s' == s.(payments := s.payments - {id})
    requires lo <= id
    ensures JoinBetween(s, lo, id) == JoinBetween(s', lo, id)
    decreases id - lo
  {
    if lo < id {
      RemovePaymentBelow(s, s', id, lo + 1);
    }
  }

  /** The joined rows before the removal are those after it with the removed
      payment's row put back in its place. */
  lemma RemovePaymentSplit(s: State, s': State, id: nat)
    requires Joins(s, id) && id < s.nextPaymentId
    requires s' == s.(payments := s.payments - {id})
    ensures JoinRows(s) == JoinBetween(s, 0, id) + [RowOf(s, id)] + JoinFrom(s, id + 1)
    ensures JoinRows(s') == JoinBetween(s, 0, id) + JoinFrom(s, id + 1)
  {
    JoinSplit(s, 0, id);
    JoinSplit(s', 0, id);
    JoinFromStep(s, id);
    JoinFromStep(s', id);
    RemovePaymentBelow(s, s', id, 0);
    RemovePaymentAbove(s, s', id, id + 1);
    assert !Joins(s', id);
  }

  /** The entry payment `id` contributes to group `k`'s rows. */
  function Contribution(s: State, id: nat, k: string): multiset<Entry>
    requires Joins(s, id)
  {
    if RowOf(s, id).group == k then multiset{RowOf(s, id).entry} else multiset{}
  }

  /** Group `k`'s rows before the removal are those after it plus the removed
      payment's entry when the payment was in group `k`. */
  lemma RemovePaymentFilter(s: State, s': State, id: nat, k: string)
    requires Joins(s, id) && id < s.nextPaymentId
    requires s' == s.(payments := s.payments - {id})
    ensures multiset(Filter(JoinRows(s), k)) == multiset(Filter(JoinRows(s'), k)) + Contribution(s, id, k)
  {
    var pre := JoinBetween(s, 0, id);
    var post := JoinFrom(s, id + 1);
    RemovePaymentSplit(s, s', id);
    FilterConcat(pre + [RowOf(s, id)], post, k);
    FilterConcat(pre, [RowOf(s, id)], k);
    FilterConcat(pre, post, k);
    FilterCons(RowOf(s, id), [], k);
  }

  /** Removing a payment takes exactly its entry out of its group's list, and
      the listing then holds one entry fewer. */
  lemma RemovePaymentListing(s: State, id: nat)
    requires Valid(s) && id in s.payments
    ensures RemovePayment(s, id).Ok?
    ensures var s' := RemovePayment(s, id).value;
      && (forall k :: multiset(Listed(GetAllPayments(s), k))
            == multiset(Listed(GetAllPayments(s'), k)) + Contribution(s, id, k))
      && TotalEntries(GetAllPayments(s')) + 1 == TotalEntries(GetAllPayments(s))
  {
    var s' := RemovePayment(s, id).value;
    forall k
      ensures multiset(Listed(GetAllPayments(s), k))
        == multiset(Listed(GetAllPayments(s'), k)) + Contribution(s, id, k)
    {
      RemovePaymentFilter(s, s', id, k);
      ListingOfGroup(s, k);
      ListingOfGroup(s', k);
    }
    AllPayments(s);
    AllPayments(s');
  }
}
