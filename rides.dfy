/** One row of the ride table, with the columns the core reads. */
module RideTable {
  import opened Wrappers

  /** `heightRestriction` is `None` where the table cell is empty, which the
      table loader delivers as a non-string value. */
  datatype Ride = Ride(
    name: string,
    ageRestriction: string,
    heightRestriction: Option<string>,
    category: string,
    duration: int,
    waitTime: string,
    popularity: string)

  /** (name, row) pairs in table order, as the details map stores them. */
  function NameRowPairs(rides: seq<Ride>): (ps: seq<(string, Ride)>)
    ensures |ps| == |rides|
    ensures forall i :: 0 <= i < |rides| ==> ps[i] == (rides[i].name, rides[i])
  {
    seq(|rides|, i requires 0 <= i < |rides| => (rides[i].name, rides[i]))
  }
}
