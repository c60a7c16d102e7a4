/** The records of the agents, and the values that are counted. */
module Records {
  type Record = map<string, string>

  // A row of the statistics: one observed value of one type of event.
  datatype Row = Row(typ: string, info: string)

  // Reading a missing key gives the empty string.
  function Get(v: Record, k: string): string {
    if k in v then v[k] else ""
  }
}
