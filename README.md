# Employee service model

A Dafny model of the employee service layer of a Spring Boot CRUD backend
(`EmployeeService`). The service reads and writes employee records through a
JPA repository; here the repository's state is an abstract value, `Store`:
the stored records keyed by id, plus the ids in the order they were first
saved. The model covers the service's rules over that store:

- `findById` returns the stored record or fails with the not-found error;
- `update` looks the record up, copies only the patch's non-null `salary`
  and `age` onto it and saves it; `id`, `name`, `gender` and `companyId`
  are never touched and no other record changes;
- `findByPage` turns a 1-based page number into the repository's 0-based
  page index (in Java `int` arithmetic) and returns that page's content;
- `findAllByGender` returns exactly the records whose gender string matches;
- `findAll`, `create` and `delete` forward to the repository.

Files:

- `wrappers.dfy` — `Option`, `Result`, `Outcome`.
- `entity.dfy` — the `Employee` record; its boxed `Long`/`Integer` fields
  (`id`, `age`, `salary`, `companyId`) are `Option`s, `None` for null.
- `repository.dfy` — the abstract store, its invariant `Valid` (ids listed
  once, every stored record carries its own id) and the repository's `save`
  (upsert) and `deleteById`, each proved to keep the invariant.
- `service.dfy` — the queries as functions of the store, the update merge,
  and the class `EmployeeService`, whose one field is the repository state
  and whose methods `Create`, `Update` and `Delete` change it.

Callers pass 1-based page numbers, but `findByPage` accepts any `Integer`:
`PageRequest.of` rejects a negative page index or a page size below one, so
`FindByPage` returns `InvalidPageRequest` for those. `pageNumber - 1` wraps
around at `Integer.MIN_VALUE`, so that one non-positive page number is not
rejected by `PageRequest.of`.

## Model

| member | source | states |
|---|---|---|
| EmployeeRepository.Save | src/main/java/com/afs/restapi/service/EmployeeService.java:39 | saving a record with an id stores it under that id, leaves every other record as it was, appends a new id to the insertion order and keeps existing ids in place, and preserves the store invariant |
| EmployeeRepository.DeleteById | src/main/java/com/afs/restapi/service/EmployeeService.java:54-56 | after delete-by-id no record and no listed id `id` remains, every other record is unchanged, deleting an absent id changes nothing, and the invariant is preserved |
| Service.FindAll | src/main/java/com/afs/restapi/service/EmployeeService.java:22-24 | one row per stored id, in insertion order, each row carrying the id it is listed under |
| Service.FindAllListsEveryRecord | src/main/java/com/afs/restapi/service/EmployeeService.java:22-24 | a record is in the `findAll` result exactly when it is stored |
| Service.FindById | src/main/java/com/afs/restapi/service/EmployeeService.java:26-29 | succeeds exactly when `id` is stored, returning that record, whose id is `id`; otherwise fails with `EmployeeNotFound` |
| Service.FindAllByGender | src/main/java/com/afs/restapi/service/EmployeeService.java:42-44 | a record is returned exactly when it is stored and its gender equals the argument, and no record is returned twice |
| Service.PageIndex | src/main/java/com/afs/restapi/service/EmployeeService.java:51 | the 0-based page index is `pageNumber - 1` reduced into the 32-bit range (it wraps only at the minimum) |
| Service.FindByPage | src/main/java/com/afs/restapi/service/EmployeeService.java:50-51 | fails with `InvalidPageRequest` exactly when the wrapped page index is negative or the page size is below one; for page `p >= 1` and size `s >= 1` returns the stored rows from `(p-1)*s` up to `min(p*s, n)` |
| Service.FirstPagesArePrefix | src/main/java/com/afs/restapi/service/EmployeeService.java:50-51 | the first `k` pages concatenated are exactly the first `min(k*s, n)` rows: pages neither overlap nor skip records |
| Service.RowOnItsPage | src/main/java/com/afs/restapi/service/EmployeeService.java:50-51 | row `i` appears on 0-based page `i / s` at position `i % s` |
| Service.PagesOfThreeRecords | src/test/java/com/afs/restapi/apiTest/EmployeeApiTest.java:131-155 | over three stored records, page 1 of size 2 is the first two in insertion order and page 2 is the third |
| Service.Merge | src/main/java/com/afs/restapi/service/EmployeeService.java:33-38 | the merged record keeps `id`, `name`, `gender` and `companyId`; salary and age take the patch's value when it is non-null and keep the stored one otherwise; an all-null patch leaves the record unchanged |
| Service.MergeIgnoresNameAndGender | src/test/java/com/afs/restapi/apiTest/EmployeeApiTest.java:37-57 | updating `{1, zhangsan, 22, Male, 1000}` with `{1, lisi, 24, Female, 2000}` gives `{1, zhangsan, 24, Male, 2000}` |
| Service.EmployeeService.constructor | src/main/java/com/afs/restapi/service/EmployeeService.java:17-20 | the service starts over the injected repository's state |
| Service.EmployeeService.Create | src/main/java/com/afs/restapi/service/EmployeeService.java:46-48 | the saved record is the input with its id, or the allocated id when it had none; it is then found by that id, and a record without an id adds exactly one new entry |
| Service.EmployeeService.Update | src/main/java/com/afs/restapi/service/EmployeeService.java:31-40 | an unknown id fails with `EmployeeNotFound` and leaves the store unchanged; otherwise the record at `id` becomes the merge of the old record and the patch, every other id finds what it found before, and the insertion order is unchanged |
| Service.EmployeeService.Delete | src/main/java/com/afs/restapi/service/EmployeeService.java:54-56 | afterwards `findById(id)` fails with `EmployeeNotFound` and every other id finds what it found before |

## Left out

- `CompanyService` (and its `findEmployeesByCompanyId`) is not part of this model; its source file is not available.
- The HTTP controllers, JSON mapping and Spring dependency injection are framework plumbing and are not modelled.
- Id generation: the id the repository allocates on `create` is the parameter `generatedId`, assumed fresh; how the database picks it is not modelled.
- Saving a record that carries an id not yet stored puts it under that id; what the JPA provider does in that case (it may allocate another id) is not modelled.
- The table's row order: `findAll` and paging return records in insertion order, while the database without a sort clause promises no order.
- Service.FindByPage: page offsets `(pageNumber - 1) * pageSize` above `Integer.MAX_VALUE` are not modelled; the model returns the page at that offset computed without overflow, while the paging library narrows the offset to `int` and fails or wraps.
- Paging metadata (total count, `hasNext`) is not modelled; only the page content is returned by the source.
- `deleteById` of an id that is not stored is modelled as a no-op; some repository versions throw instead.
- Null arguments (a null `id`, `pageNumber`, `pageSize` or patch) raise an exception in Java; the model's parameters are never null.
- Ids are unbounded integers rather than 64-bit `Long` values.
- Service.EmployeeService.Update: the Java code mutates the managed entity returned by `findById` in place before saving it; the model copies a value, so aliasing of that entity with other holders is not captured.
- Failures of the store other than not-found (connectivity, constraint violations) and concurrent updates of one id are outside this sequential model.
