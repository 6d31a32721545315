/** One faculty record of the JSON list the directory loads. */
module Records {
  import opened Wrappers

  /** `department` is `None` when the record has no such field;
      `availability` is the truthiness of the field (a missing one is false). */
  datatype Faculty = Faculty(
    name: string,
    department: Option<string>,
    designation: string,
    photo: string,
    description: string,
    location: string,
    email: string,
    availability: bool)
}
