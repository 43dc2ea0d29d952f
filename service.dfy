/** The employee service layer: the queries are functions of the
    repository's state, and the service object's methods change that state
    (create, update with a null-aware merge, delete). */
module Service {
  import opened Wrappers
  import opened Entity
  import opened EmployeeRepository

  /** Java's `Integer` range (32-bit two's complement). */
  const Int32Min: int := -0x8000_0000
  const Int32Max: int := 0x7fff_ffff
  type Int32 = x: int | Int32Min <= x <= Int32Max

  datatype ServiceError =
    | EmployeeNotFound    // EmployeeNotFoundException
    | InvalidPageRequest  // IllegalArgumentException thrown by PageRequest.of

  function Min(a: int, b: int): int {
    if a <= b then a else b
  }

  // ---------------------------------------------------------------- findAll

  /** Every stored employee, in insertion order. */
  function FindAll(s: Store): (rows: seq<Employee>)
    requires Valid(s)
    ensures |rows| == |s.order|
    ensures forall i :: 0 <= i < |rows| ==> s.order[i] in s.records && rows[i] == s.records[s.order[i]]
    ensures forall i :: 0 <= i < |rows| ==> rows[i].id == Some(s.order[i])
  {
    ListedIdsAreStored(s);
    seq(|s.order|, i requires 0 <= i < |s.order| => s.records[s.order[i]])
  }

  lemma ListedIdsAreStored(s: Store)
    requires Valid(s)
    ensures forall i :: 0 <= i < |s.order| ==> s.order[i] in s.records && s.records[s.order[i]].id == Some(s.order[i])
  {
    forall i | 0 <= i < |s.order|
      ensures s.order[i] in s.records && s.records[s.order[i]].id == Some(s.order[i])
    {
      assert s.order[i] in s.order;
    }
  }

  /** `FindAll` lists exactly the stored records. */
  lemma {:induction false} FindAllListsEveryRecord(s: Store)
    requires Valid(s)
    ensures forall e :: e in FindAll(s) <==> e in s.records.Values
  {
    var rows := FindAll(s);
    forall k | k in s.records
      ensures s.records[k] in rows
    {
      var i :| 0 <= i < |s.order| && s.order[i] == k;
      assert rows[i] == s.records[k];
    }
  }

  // --------------------------------------------------------------- findById

  /** The stored employee with id `id`, or the not-found error. */
  function FindById(s: Store, id: int): (r: Result<Employee, ServiceError>)
    ensures r.Ok? <==> id in s.records
    ensures r.Ok? ==> r.value == s.records[id]
    ensures Valid(s) && r.Ok? ==> r.value.id == Some(id)
    ensures r.Err? ==> r.error == EmployeeNotFound
  {
    if id in s.records then Ok(s.records[id]) else Err(EmployeeNotFound)
  }

  // -------------------------------------------------------- findAllByGender

  /** The rows whose gender is exactly `gender`, in their original order. */
  function ByGender(rows: seq<Employee>, gender: string): (r: seq<Employee>)
    ensures forall e :: e in r <==> e in rows && e.gender == gender
    ensures |r| <= |rows|
    ensures (forall i, j :: 0 <= i < j < |rows| ==> rows[i] != rows[j]) ==>
              (forall i, j :: 0 <= i < j < |r| ==> r[i] != r[j])
  {
    if rows == [] then []
    else
      var rest := ByGender(rows[1..], gender);
      assert (forall i, j :: 0 <= i < j < |rows| ==> rows[i] != rows[j]) ==>
               rows[0] !in rows[1..] && (forall i, j :: 0 <= i < j < |rows[1..]| ==> rows[1..][i] != rows[1..][j]) by {
        if forall i, j :: 0 <= i < j < |rows| ==> rows[i] != rows[j] {
          forall i | 0 <= i < |rows[1..]| ensures rows[1..][i] != rows[0] {
            assert rows[1..][i] == rows[i + 1];
          }
          forall i, j | 0 <= i < j < |rows[1..]| ensures rows[1..][i] != rows[1..][j] {
            assert rows[1..][i] == rows[i + 1] && rows[1..][j] == rows[j + 1];
          }
        }
      }
      (if rows[0].gender == gender then [rows[0]] else []) + rest
  }

  /** The stored employees whose gender string equals `gender`. */
  function FindAllByGender(s: Store, gender: string): (r: seq<Employee>)
    requires Valid(s)
    ensures forall e :: e in r <==> e in s.records.Values && e.gender == gender
    ensures forall i, j :: 0 <= i < j < |r| ==> r[i] != r[j]
  {
    FindAllListsEveryRecord(s);
    var rows := FindAll(s);
    assert forall i, j :: 0 <= i < j < |rows| ==> rows[i] != rows[j] by {
      forall i, j | 0 <= i < j < |rows|
        ensures rows[i] != rows[j]
      {
        assert rows[i].id == Some(s.order[i]) && rows[j].id == Some(s.order[j]);
      }
    }
    ByGender(rows, gender)
  }

  // ------------------------------------------------------------- findByPage

  /** `pageNumber - 1` evaluated in Java `int` arithmetic: the Int32 value
      congruent to it modulo 2^32 (Integer.MIN_VALUE wraps to MAX_VALUE). */
  function PageIndex(pageNumber: Int32): (index: Int32)
    ensures index == pageNumber - 1 || index == pageNumber - 1 + 0x1_0000_0000
  {
    if pageNumber == Int32Min then Int32Max else pageNumber - 1
  }

  /** The content of page `index` (0-based) of size `size` over `rows`:
      at most `size` rows, starting at offset `index * size`. */
  function PageOf(rows: seq<Employee>, index: nat, size: nat): (page: seq<Employee>)
    requires size >= 1
    ensures |page| <= size
  {
    var offset := index * size;
    rows[Min(offset, |rows|)..Min(offset + size, |rows|)]
  }

  /** The employees on 1-based page `pageNumber` of `pageSize` records. */
  function FindByPage(s: Store, pageNumber: Int32, pageSize: Int32): (r: Result<seq<Employee>, ServiceError>)
    requires Valid(s)
    ensures r.Err? <==> (Int32Min < pageNumber <= 0 || pageSize < 1)
    ensures r.Err? ==> r.error == InvalidPageRequest
    ensures 1 <= pageNumber && 1 <= pageSize ==>
      r == Ok(FindAll(s)[Min((pageNumber - 1) * pageSize, |s.order|)..Min(pageNumber * pageSize, |s.order|)])
  {
    var index := PageIndex(pageNumber);
    if index < 0 || pageSize < 1 then Err(InvalidPageRequest)
    else
      assert 1 <= pageNumber ==> index * pageSize + pageSize == pageNumber * pageSize;
      Ok(PageOf(FindAll(s), index, pageSize))
  }

  /** Pages 0 .. k-1 of size `size`, concatenated. */
  function FirstPages(rows: seq<Employee>, size: nat, k: nat): seq<Employee>
    requires size >= 1
  {
    if k == 0 then [] else FirstPages(rows, size, k - 1) + PageOf(rows, k - 1, size)
  }

  /** Consecutive pages tile the rows: the first `k` pages are exactly the
      first `k * size` rows, with no gap and no overlap. */
  lemma {:induction false} FirstPagesArePrefix(rows: seq<Employee>, size: nat, k: nat)
    requires size >= 1
    ensures FirstPages(rows, size, k) == rows[..Min(k * size, |rows|)]
  {
    if k > 0 {
      FirstPagesArePrefix(rows, size, k - 1);
      var offset := (k - 1) * size;
      assert offset + size == k * size;
      var a, b := Min(offset, |rows|), Min(offset + size, |rows|);
      assert rows[..a] + rows[a..b] == rows[..b];
    }
  }

  /** Row `i` is found on 0-based page `i / size`, at position `i % size`. */
  lemma {:induction false} RowOnItsPage(rows: seq<Employee>, size: nat, i: nat)
    requires size >= 1 && i < |rows|
    ensures i % size < |PageOf(rows, i / size, size)|
    ensures PageOf(rows, i / size, size)[i % size] == rows[i]
  {
    var q, r := i / size, i % size;
    assert q * size + r == i;
  }

  /** Over three stored records, page 1 of size 2 is the first two records
      in insertion order and page 2 is the third. */
  lemma PagesOfThreeRecords(s: Store)
    requires Valid(s) && |s.order| == 3
    ensures FindByPage(s, 1, 2) == Ok([FindAll(s)[0], FindAll(s)[1]])
    ensures FindByPage(s, 2, 2) == Ok([FindAll(s)[2]])
  {
    var rows := FindAll(s);
    assert rows[0..2] == [rows[0], rows[1]];
    assert rows[2..3] == [rows[2]];
  }

  // ----------------------------------------------------------------- update

  /** The record `update` saves: `stored` with the patch's non-null salary
      and age copied over; id, name, gender and companyId never change. */
  function Merge(stored: Employee, patch: Employee): (merged: Employee)
    ensures merged.id == stored.id && merged.name == stored.name
    ensures merged.gender == stored.gender && merged.companyId == stored.companyId
    ensures patch.salary.Some? ==> merged.salary == patch.salary
    ensures patch.salary.None? ==> merged.salary == stored.salary
    ensures patch.age.Some? ==> merged.age == patch.age
    ensures patch.age.None? ==> merged.age == stored.age
    ensures patch.salary.None? && patch.age.None? ==> merged == stored
  {
    var withSalary := if patch.salary.Some? then stored.(salary := patch.salary) else stored;
    if patch.age.Some? then withSalary.(age := patch.age) else withSalary
  }

  /** A patch carrying a new name, gender, age and salary changes only the
      age and salary of the stored record. */
  lemma MergeIgnoresNameAndGender()
    ensures Merge(Employee(Some(1), "zhangsan", Some(22), "Male", Some(1000), None),
                  Employee(Some(1), "lisi", Some(24), "Female", Some(2000), None))
         == Employee(Some(1), "zhangsan", Some(24), "Male", Some(2000), None)
  {
  }

  // ---------------------------------------------------------------- service

  /** The service object. Its one field is the injected repository, whose
      state is what create, update and delete change. */
  class EmployeeService {
    var repository: Store

    ghost predicate Valid()
      reads this
    {
      EmployeeRepository.Valid(repository)
    }

    constructor (repository: Store)
      requires EmployeeRepository.Valid(repository)
      ensures Valid() && this.repository == repository
    {
      this.repository := repository;
    }

    /** Saves `employee`; an employee without an id gets `generatedId`, the
        fresh id the repository allocates. Returns the saved record. */
    method Create(employee: Employee, generatedId: int) returns (saved: Employee)
      requires Valid()
      requires employee.id.None? ==> generatedId !in repository.records
      modifies this
      ensures Valid()
      ensures saved == employee.(id := saved.id)
      ensures saved.id == if employee.id.Some? then employee.id else Some(generatedId)
      ensures repository == Save(old(repository), saved)
      ensures FindById(repository, saved.id.value) == Ok(saved)
      ensures employee.id.None? ==> |repository.order| == |old(repository.order)| + 1
    {
      saved := employee;
      if saved.id.None? {
        saved := saved.(id := Some(generatedId));
      }
      repository := Save(repository, saved);
    }

    /** Looks the record up (failing with not-found), copies the patch's
        non-null salary and age onto it and saves it back. */
    method Update(id: int, patch: Employee) returns (outcome: Outcome<ServiceError>)
      requires Valid()
      modifies this
      ensures Valid()
      ensures outcome == if id in old(repository.records) then Pass else Fail(EmployeeNotFound)
      ensures outcome.Fail? ==> repository == old(repository)
      ensures outcome.Pass? ==> repository == Save(old(repository), Merge(old(repository.records[id]), patch))
      ensures outcome.Pass? ==> FindById(repository, id) == Ok(Merge(old(repository.records[id]), patch))
      ensures forall k :: k != id ==> FindById(repository, k) == FindById(old(repository), k)
      ensures repository.order == old(repository.order)
    {
      var found := FindById(repository, id);
      if found.Err? {
        return Fail(found.error);
      }
      var toBeUpdated := found.value;
      if patch.salary.Some? {
        toBeUpdated := toBeUpdated.(salary := patch.salary);
      }
      if patch.age.Some? {
        toBeUpdated := toBeUpdated.(age := patch.age);
      }
      repository := Save(repository, toBeUpdated);
      outcome := Pass;
    }

    /** Forwards to the repository's delete-by-id; no existence check. */
    method Delete(id: int)
      requires Valid()
      modifies this
      ensures Valid()
      ensures repository == DeleteById(old(repository), id)
      ensures FindById(repository, id) == Err(EmployeeNotFound)
      ensures forall k :: k != id ==> FindById(repository, k) == FindById(old(repository), k)
    {
      repository := DeleteById(repository, id);
    }
  }
}
