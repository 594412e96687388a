/**
 * The Employee entity and the data-transfer shapes the service maps to and from.
 * The object mapper is a field-by-field copy, so the read-side EmployeeDto carries
 * the same fields as the entity; the create shape has no id (the store assigns
 * one) and the update shape has one.
 */
module Employees {

  /** A row of the Employees table; the salary (a decimal in the store) is an integer here. */
  datatype Employee = Employee(id: int, firstName: string, lastName: string, salary: int, positionId: int)

  /** What callers read back: a copy of every field of the entity. */
  type EmployeeDto = Employee

  datatype EmployeeForCreateDto = EmployeeForCreateDto(firstName: string, lastName: string, salary: int, positionId: int)

  datatype EmployeeForUpdateDto = EmployeeForUpdateDto(id: int, firstName: string, lastName: string, salary: int, positionId: int)

  /** The entity built from a create request, once the store has assigned it `id`. */
  function FromCreateDto(d: EmployeeForCreateDto, id: int): Employee
  {
    Employee(id, d.firstName, d.lastName, d.salary, d.positionId)
  }

  /** The entity built from an update request: every field, the id included, comes from the request. */
  function FromUpdateDto(d: EmployeeForUpdateDto): Employee
  {
    Employee(d.id, d.firstName, d.lastName, d.salary, d.positionId)
  }
}
