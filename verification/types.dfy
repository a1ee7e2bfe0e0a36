/** The records of the attendance planner. Optional fields of the source
    (`avatar?`, `startTime?`, `endTime?`, `notes?`, `ownerId?`) are Options;
    no operation of the model reads `ownerId`, it is only carried along. */
module Types {
  import opened Wrappers

  datatype Status = Absent | Present | PresentWithDog

  datatype Entry = Entry(
    id: string,
    employeeId: string,
    date: string,          // yyyy-MM-dd
    status: Status,
    startTime: Option<string>,
    endTime: Option<string>,
    notes: Option<string>,
    ownerId: Option<string>)

  datatype Employee = Employee(
    id: string,
    name: string,
    department: string,    // a department name, not an id
    avatar: Option<string>,
    ownerId: Option<string>)

  datatype Department = Department(id: string, name: string, color: string)
}
