/** The abstract state of the employee repository: the stored records keyed
    by id, and their ids in the order they were first saved (the order in
    which the table returns them). */
module EmployeeRepository {
  import opened Wrappers
  import opened Entity

  datatype Store = Store(records: map<int, Employee>, order: seq<int>)

  ghost predicate Distinct(s: seq<int>) {
    forall i, j :: 0 <= i < j < |s| ==> s[i] != s[j]
  }

  /** The store's invariant: every stored id is listed exactly once in
      `order`, and every record carries the id it is stored under. */
  ghost predicate Valid(s: Store) {
    && Distinct(s.order)
    && (forall k :: k in s.order <==> k in s.records)
    && (forall k :: k in s.records ==> s.records[k].id == Some(k))
  }

  /** `s` with every occurrence of `x` removed. */
  function Without(s: seq<int>, x: int): (t: seq<int>)
    ensures forall y :: y in t <==> y in s && y != x
    ensures |t| <= |s|
    ensures x !in s ==> t == s
    ensures Distinct(s) ==> Distinct(t)
  {
    if s == [] then []
    else if s[0] == x then Without(s[1..], x)
    else
      var rest := Without(s[1..], x);
      assert Distinct(s) ==> s[0] !in s[1..] && Distinct(s[1..]) by {
        if Distinct(s) {
          forall i | 0 <= i < |s[1..]| ensures s[1..][i] != s[0] {
            assert s[1..][i] == s[i + 1];
          }
        }
      }
      [s[0]] + rest
  }

  /** The repository's `save` of an entity that carries an id: insert or
      overwrite the record under that id. A new id goes to the end of the
      insertion order; an existing one keeps its place. */
  function Save(s: Store, e: Employee): (s': Store)
    requires e.id.Some?
    ensures s'.records.Keys == s.records.Keys + {e.id.value}
    ensures s'.records[e.id.value] == e
    ensures forall k :: k in s.records && k != e.id.value ==> s'.records[k] == s.records[k]
    ensures s.order <= s'.order
    ensures e.id.value in s.records ==> s'.order == s.order
    ensures e.id.value !in s.records ==> s'.order == s.order + [e.id.value]
    ensures Valid(s) ==> Valid(s')
  {
    var k := e.id.value;
    Store(s.records[k := e], if k in s.records then s.order else s.order + [k])
  }

  /** The repository's `deleteById`: drop the record under `id`, if any;
      deleting an id that is not stored changes nothing. */
  function DeleteById(s: Store, id: int): (s': Store)
    ensures id !in s'.records && id !in s'.order
    ensures s'.records.Keys == s.records.Keys - {id}
    ensures forall k :: k in s'.records ==> s'.records[k] == s.records[k]
    ensures id !in s.records && Valid(s) ==> s' == s
    ensures Valid(s) ==> Valid(s')
  {
    Store(s.records - {id}, Without(s.order, id))
  }
}
