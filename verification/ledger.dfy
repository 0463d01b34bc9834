/** The relational store as a state machine over its three tables: Persons
    and Groups (id to unique name) and Payments (id to payer, group, amount in
    cents and time). Ids are handed out from counters that only grow, so a
    new row's id is never in use and is never reused. */
module Ledger {

  /** The failures an operation reports; a failing operation changes nothing. */
  datatype DbError =
    | NotFound   // no row has the given id or name
    | Duplicate  // the name is already used by another row of a UNIQUE column

  datatype Result<T> = Ok(value: T) | Err(error: DbError)

  datatype Payment = Payment(personId: nat, groupId: nat, amount: int, time: string)

  /** A row of Groups as the store returns it. */
  datatype Group = Group(id: nat, name: string)

  datatype State = State(
    persons: map<nat, string>,
    groups: map<nat, string>,
    payments: map<nat, Payment>,
    nextPersonId: nat,
    nextGroupId: nat,
    nextPaymentId: nat)

  /** No two rows share a name (the UNIQUE name columns). */
  predicate UniqueNames(m: map<nat, string>)
  {
    forall i, j :: i in m && j in m && m[i] == m[j] ==> i == j
  }

  /** Every id in use lies below the next id to hand out. */
  predicate IdsBelow<V>(m: map<nat, V>, bound: nat)
  {
    forall i :: i in m ==> i < bound
  }

  /** The constraints the schema enforces: unique names, foreign keys from
      each payment to its person and group, and fresh ids. */
  predicate Valid(s: State)
  {
    && IdsBelow(s.persons, s.nextPersonId)
    && IdsBelow(s.groups, s.nextGroupId)
    && IdsBelow(s.payments, s.nextPaymentId)
    && UniqueNames(s.persons)
    && UniqueNames(s.groups)
    && forall p :: p in s.payments ==>
         s.payments[p].personId in s.persons && s.payments[p].groupId in s.groups
  }

  /** The freshly created database: three empty tables; ids start at 1. */
  function Empty(): (s: State)
    ensures Valid(s)
    ensures s.persons == map[] && s.groups == map[] && s.payments == map[]
  {
    State(map[], map[], map[], 1, 1, 1)
  }

  /** The id of the only row named `name`. */
  function IdNamed(m: map<nat, string>, name: string): (id: nat)
    requires UniqueNames(m)
    requires name in m.Values
    ensures id in m && m[id] == name
    ensures forall j :: j in m && m[j] == name ==> j == id
  {
    var id :| id in m && m[id] == name;
    id
  }

  // ----- groups -----

  /** Looking a group up by name. */
  function GetGroupId(s: State, name: string): (r: Result<nat>)
    requires Valid(s)
    ensures r.Ok? <==> name in s.groups.Values
    ensures r.Err? ==> r.error == NotFound
    ensures r.Ok? ==> r.value in s.groups && s.groups[r.value] == name
  {
    if name in s.groups.Values then Ok(IdNamed(s.groups, name)) else Err(NotFound)
  }

  /** Creating a group under a name no group has yet. */
  function CreateGroup(s: State, name: string): (r: Result<(State, nat)>)
    requires Valid(s)
    ensures r.Err? <==> name in s.groups.Values
    ensures r.Err? ==> r.error == Duplicate
    ensures r.Ok? ==>
      var (s', id) := r.value;
      && Valid(s')
      && id !in s.groups
      && s'.groups == s.groups[id := name]
      && s'.persons == s.persons && s'.payments == s.payments
  {
    if name in s.groups.Values then Err(Duplicate)
    else
      var id := s.nextGroupId;
      Ok((s.(groups := s.groups[id := name], nextGroupId := id + 1), id))
  }

  /** The groups with ids in [lo, hi), in ascending id order. */
  function GroupsBetween(groups: map<nat, string>, lo: nat, hi: nat): (r: seq<Group>)
    ensures forall g :: g in r <==> g.id in groups && lo <= g.id < hi && g.name == groups[g.id]
    ensures forall i, j :: 0 <= i < j < |r| ==> r[i].id < r[j].id
    ensures forall i :: 0 <= i < |r| ==> lo <= r[i].id
    decreases hi - lo
  {
    if lo >= hi then []
    else (if lo in groups then [Group(lo, groups[lo])] else []) + GroupsBetween(groups, lo + 1, hi)
  }

  /** Every group, each once, in the order of their ids (the order in which
      the store scans the table; the query itself does not fix one). */
  function ListGroups(s: State): (r: seq<Group>)
    requires Valid(s)
    ensures forall g :: g in r <==> g.id in s.groups && g.name == s.groups[g.id]
    ensures forall i, j :: 0 <= i < j < |r| ==> r[i].id < r[j].id
  {
    GroupsBetween(s.groups, 0, s.nextGroupId)
  }

  /** Reading one group by id. */
  function GetGroup(s: State, id: nat): (r: Result<Group>)
    ensures r.Ok? <==> id in s.groups
    ensures r.Err? ==> r.error == NotFound
    ensures r.Ok? ==> r.value.id == id && r.value.name == s.groups[id]
  {
    if id in s.groups then Ok(Group(id, s.groups[id])) else Err(NotFound)
  }

  /** Renaming a group. An unknown id updates no row; a name held by another
      group breaks the UNIQUE constraint; the group's own name is allowed. */
  function RenameGroup(s: State, id: nat, newName: string): (r: Result<(State, Group)>)
    requires Valid(s)
    ensures r.Err? <==> id !in s.groups || exists j :: j in s.groups && j != id && s.groups[j] == newName
    ensures r.Err? ==> (r.error == NotFound <==> id !in s.groups)
    ensures r.Ok? ==>
      var (s', g) := r.value;
      && Valid(s')
      && g == Group(id, newName)
      && s'.groups == s.groups[id := newName]
      && s'.persons == s.persons && s'.payments == s.payments
  {
    if id !in s.groups then Err(NotFound)
    else if exists j :: j in s.groups && j != id && s.groups[j] == newName then Err(Duplicate)
    else Ok((s.(groups := s.groups[id := newName]), Group(id, newName)))
  }

  /** The payments of every group except `g`. */
  function PaymentsOutside(payments: map<nat, Payment>, g: nat): (r: map<nat, Payment>)
    ensures forall p :: p in r <==> p in payments && payments[p].groupId != g
    ensures forall p :: p in r ==> r[p] == payments[p]
  {
    map p | p in payments && payments[p].groupId != g :: payments[p]
  }

  /** Removing a group deletes its payments with it (ON DELETE CASCADE);
      persons stay. */
  function RemoveGroup(s: State, id: nat): (r: Result<State>)
    requires Valid(s)
    ensures r.Err? <==> id !in s.groups
    ensures r.Err? ==> r.error == NotFound
    ensures r.Ok? ==>
      var s' := r.value;
      && Valid(s')
      && s'.groups == s.groups - {id}
      && s'.persons == s.persons
      && (forall p :: p in s'.payments <==> p in s.payments && s.payments[p].groupId != id)
      && (forall p :: p in s'.payments ==> s'.payments[p] == s.payments[p])
  {
    if id !in s.groups then Err(NotFound)
    else Ok(s.(groups := s.groups - {id}, payments := PaymentsOutside(s.payments, id)))
  }

  // ----- payments -----

  /** A table after INSERT OR IGNORE of `name` and the id then selected for it. */
  datatype Upserted = Upserted(rows: map<nat, string>, next: nat, id: nat)

  /** INSERT OR IGNORE of a name into a table with a UNIQUE name column,
      followed by reading back that name's id. */
  function Upsert(rows: map<nat, string>, next: nat, name: string): (u: Upserted)
    requires UniqueNames(rows) && IdsBelow(rows, next)
    ensures UniqueNames(u.rows) && IdsBelow(u.rows, u.next)
    ensures u.id in u.rows && u.rows[u.id] == name
    ensures forall i :: i in u.rows && u.rows[i] == name ==> i == u.id
    ensures name in rows.Values ==> u.rows == rows && u.next == next
    ensures name !in rows.Values ==> u.id !in rows && u.rows == rows[u.id := name]
    ensures next <= u.next
  {
    if name in rows.Values then Upserted(rows, next, IdNamed(rows, name))
    else Upserted(rows[next := name], next + 1, next)
  }

  /** Recording a payment: the payer and the group are created when their
      names are new, then one payment row is added with a fresh id. */
  function Insert(s: State, name: string, group: string, amount: int, time: string): (r: (State, nat))
    requires Valid(s)
    ensures var (s', id) := r;
      && Valid(s')
      && id !in s.payments
      && s'.payments.Keys == s.payments.Keys + {id}
      && (forall p :: p in s.payments ==> s'.payments[p] == s.payments[p])
      && s'.persons[s'.payments[id].personId] == name
      && s'.groups[s'.payments[id].groupId] == group
      && s'.payments[id].amount == amount && s'.payments[id].time == time
      && (forall i :: i in s.persons ==> i in s'.persons && s'.persons[i] == s.persons[i])
      && (forall i :: i in s.groups ==> i in s'.groups && s'.groups[i] == s.groups[i])
      && (name in s.persons.Values ==> s'.persons == s.persons)
      && (group in s.groups.Values ==> s'.groups == s.groups)
      && (forall i :: i in s'.persons && s'.persons[i] == name ==> i == s'.payments[id].personId)
      && (forall i :: i in s'.groups && s'.groups[i] == group ==> i == s'.payments[id].groupId)
      && (name !in s.persons.Values ==> s'.persons == s.persons[s'.payments[id].personId := name])
      && (group !in s.groups.Values ==> s'.groups == s.groups[s'.payments[id].groupId := group])
  {
    var person := Upsert(s.persons, s.nextPersonId, name);
    var grp := Upsert(s.groups, s.nextGroupId, group);
    var id := s.nextPaymentId;
    var row := Payment(person.id, grp.id, amount, time);
    var s' := State(person.rows, grp.rows, s.payments[id := row], person.next, grp.next, id + 1);
    (s', id)
  }

  /** Removing exactly one payment by id. */
  function RemovePayment(s: State, id: nat): (r: Result<State>)
    requires Valid(s)
    ensures r.Err? <==> id !in s.payments
    ensures r.Err? ==> r.error == NotFound
    ensures r.Ok? ==>
      var s' := r.value;
      && Valid(s')
      && s'.payments == s.payments - {id}
      && s'.persons == s.persons && s'.groups == s.groups
  {
    if id !in s.payments then Err(NotFound)
    else Ok(s.(payments := s.payments - {id}))
  }

  // ----- how the operations fit together -----

  /** A created group is found again by its name and by its id. */
  lemma CreateThenFind(s: State, name: string)
    requires Valid(s) && name !in s.groups.Values
    ensures CreateGroup(s, name).Ok?
    ensures var (s', id) := CreateGroup(s, name).value;
      && GetGroupId(s', name) == Ok(id)
      && GetGroup(s', id) == Ok(Group(id, name))
      && CreateGroup(s', name) == Err(Duplicate)
  {
    var (s', id) := CreateGroup(s, name).value;
    assert name in s'.groups.Values by {
      assert s'.groups[id] == name;
    }
  }

  /** After a rename the group answers to the new name only. */
  lemma RenameThenFind(s: State, id: nat, newName: string)
    requires Valid(s) && RenameGroup(s, id, newName).Ok?
    ensures var s' := RenameGroup(s, id, newName).value.0;
      && GetGroup(s', id) == Ok(Group(id, newName))
      && GetGroupId(s', newName) == Ok(id)
      && (s.groups[id] != newName ==> GetGroupId(s', s.groups[id]) == Err(NotFound))
  {
    var s' := RenameGroup(s, id, newName).value.0;
    assert newName in s'.groups.Values by {
      assert s'.groups[id] == newName;
    }
  }

  /** A removed group and its payments are gone, and its id stays unknown. */
  lemma RemoveThenGone(s: State, id: nat)
    requires Valid(s) && id in s.groups
    ensures RemoveGroup(s, id).Ok?
    ensures var s' := RemoveGroup(s, id).value;
      && GetGroup(s', id) == Err(NotFound)
      && GetGroupId(s', s.groups[id]) == Err(NotFound)
      && RemoveGroup(s', id) == Err(NotFound)
      && forall p :: p in s'.payments ==> s'.payments[p].groupId != id
  {
  }

  /** A recorded payment is found under its id until it is removed, and
      removing it twice reports the second time. */
  lemma InsertThenRemove(s: State, name: string, group: string, amount: int, time: string)
    requires Valid(s)
    ensures var (s', id) := Insert(s, name, group, amount, time);
      && GetGroupId(s', group) == Ok(s'.payments[id].groupId)
      && RemovePayment(s', id).Ok?
      && RemovePayment(s', id).value.payments == s.payments
      && RemovePayment(RemovePayment(s', id).value, id) == Err(NotFound)
  {
    var (s', id) := Insert(s, name, group, amount, time);
    assert group in s'.groups.Values by {
      assert s'.groups[s'.payments[id].groupId] == group;
    }
    assert s'.payments - {id} == s.payments;
  }
}
