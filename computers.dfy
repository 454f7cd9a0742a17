/**
  The records the table shows and exports: one inventory computer, its referenced catalog
  entries (each an object with an id and a name), and the catalog lists of the filter menus.
  An optional field of the API record (`departament?`, `user?`, ...) is an `Option`.
 */
module Computers {
  import opened Wrappers

  /** A catalog entry referenced by a computer: department, section, CPU, monitor type, ... */
  datatype Ref = Ref(id: int, name: string)

  /** An entry of the department list of the filter options. */
  datatype Department = Department(id: int, name: string)

  /** An entry of a department's section list (`{id, name, raw_name}`). */
  datatype SectionOption = SectionOption(id: int, name: string, rawName: string)

  /** Dates inside a computer record are the API's text; their locale rendering is a parameter. */
  datatype Computer = Computer(
    slug: string,
    department: Option<Ref>,
    section: Option<Ref>,
    user: Option<string>,
    computerType: Option<Ref>,
    ipAddress: Option<string>,
    macAddress: Option<string>,
    sealNumber: Option<string>,
    warehouseManager: Option<Ref>,
    motherboard: Option<Ref>,
    motherboardModel: Option<Ref>,
    cpu: Option<Ref>,
    generation: Option<Ref>,
    frequency: Option<Ref>,
    hdd: Option<Ref>,
    ssd: Option<Ref>,
    diskType: Option<Ref>,
    ramType: Option<Ref>,
    ramSize: Option<Ref>,
    gpu: Option<Ref>,
    os: Option<string>,
    internet: bool,
    isActive: bool,
    joinDate: Option<string>,
    historyDate: Option<string>,
    historyUser: Option<string>,
    printers: Option<seq<Ref>>,
    scanners: Option<seq<Ref>>,
    mfps: Option<seq<Ref>>,
    webcamTypes: Option<seq<Ref>>,
    webcamModels: Option<seq<Ref>>,
    monitorTypes: Option<seq<Ref>>
  )
}
