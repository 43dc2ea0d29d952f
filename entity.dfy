/** The employee record the service stores and returns. */
module Entity {
  import opened Wrappers

  /** An `Employee` entity. The boxed `Long`/`Integer` fields of the entity
      may be null; `None` stands for null. `id` is absent until the
      repository assigns one. */
  datatype Employee = Employee(
    id: Option<int>,
    name: string,
    age: Option<int>,
    gender: string,
    salary: Option<int>,
    companyId: Option<int>)
}
