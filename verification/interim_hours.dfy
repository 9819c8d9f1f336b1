/**
  The records the time-entry reconciliation passes between its stages, and
  the conversions it borrows from the runtime.
 */
module InterimHours {
  import opened Wrappers

  /** One canonical time entry. `JobCode` and `ConsultantName` are never null
      here: a missing source value aborts the run before an entry is built. */
  datatype CanonicalInterimHours = CanonicalInterimHours(
    accountNumber: Option<string>,
    jobCode: string,
    rateOrAmount: Option<real>,
    consultantName: string,
    duration: Option<real>,
    date: Option<string>,
    jobDescription: Option<string>,
    revisionNumber: Option<int>,
    rateType: Option<string>)

  /** The reduction groups entries by date and rate type. */
  datatype GroupKey = GroupKey(date: Option<string>, rateType: Option<string>)

  function KeyOf(e: CanonicalInterimHours): GroupKey {
    GroupKey(e.date, e.rateType)
  }

  /** Runtime conversions the pipeline calls but whose behaviour is not part of it:
      - `toDouble` is `Convert.ToDouble` on a non-null string (None: it throws);
      - `toInt32` is `Convert.ToInt32` on a non-null string (None: it throws);
      - `tryParseDate` is `DateTime.TryParse` followed by `ToString("yyyy-MM-dd")`;
      - `round2` is `Math.Round(x, 2)`. */
  datatype Conversions = Conversions(
    toDouble: string -> Option<real>,
    toInt32: string -> Option<int>,
    tryParseDate: string -> Option<string>,
    round2: real -> real)

  /** Why a run is abandoned: the request body is not a well-formed document,
      a node the code dereferences is missing, or a number does not parse. */
  datatype Fault =
    | MalformedDocument(message: string)
    | NullReference
    | InvalidNumber(text: string)
}
