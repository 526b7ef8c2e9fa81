/** The trial record that ingestion writes and matching reads. */
module Records {
  import opened Base

  /** One entry of the trial catalog, with the fields ingestion stores. */
  datatype Trial = Trial(
    nctId: string,
    title: Option<string>,
    conditions: seq<string>,
    minAge: Option<string>,
    maxAge: Option<string>,
    gender: Option<string>,
    criteriaText: string,
    overallStatus: string,
    phase: string,
    sponsor: Option<string>,
    enrollment: Option<int>,
    url: string)
}
