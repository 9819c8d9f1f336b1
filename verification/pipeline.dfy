/**
  `ValidateTimeEntries.Run`: extraction, reduction and validation chained, and
  the mapping of the faults that end a run to an HTTP response. Reading the
  request body and parsing it are not part of this model: the run receives
  the parse outcome, the parser's error message on failure.
 */
module Pipeline {
  import opened Wrappers
  import opened Tree
  import opened InterimHours
  import opened Extraction
  import opened Reduction
  import opened Validation

  const InvalidXmlPrefix := "Invalid XML provided: "
  const UnexpectedPrefix := "Unexpected error happened: "

  /** The message .NET gives a `NullReferenceException`. */
  const NullReferenceMessage := "Object reference not set to an instance of an object."

  /** `OkObjectResult` with the validation result, `BadRequestObjectResult`, or
      an `ObjectResult` with status 500. */
  datatype Response =
    | Ok(result: ValidationResult<CanonicalInterimHours>)
    | BadRequest(message: string)
    | ServerError(message: string)

  /** `ex.Message` of the exception a fault stands for; the message of a
      failed number conversion comes from the runtime and is a parameter. */
  function FaultMessage(f: Fault, numberMessage: string -> string): string {
    match f
    case MalformedDocument(m) => m
    case NullReference => NullReferenceMessage
    case InvalidNumber(t) => numberMessage(t)
  }

  /** The two catch clauses: a null reference or a malformed document is the
      client's fault, anything else is reported as an unexpected error. */
  function Respond(f: Fault, numberMessage: string -> string): (r: Response)
    ensures !r.Ok?
    ensures r.BadRequest? <==> f.MalformedDocument? || f.NullReference?
    ensures r.BadRequest? ==> r.message == InvalidXmlPrefix + FaultMessage(f, numberMessage)
    ensures r.ServerError? ==> r.message == UnexpectedPrefix + FaultMessage(f, numberMessage)
  {
    if f.MalformedDocument? || f.NullReference? then BadRequest(InvalidXmlPrefix + FaultMessage(f, numberMessage))
    else ServerError(UnexpectedPrefix + FaultMessage(f, numberMessage))
  }

  /** The entries the run extracts from a parsed document. */
  function Extracted(parsed: Result<Document, string>, conv: Conversions): Result<seq<CanonicalInterimHours>, Fault> {
    match parsed
    case Failure(m) => Failure(MalformedDocument(m))
    case Success(doc) => SerializeInterimHours(doc, conv)
  }

  /** `Run`: no partial result is ever produced. The run succeeds exactly when
      extraction does, and then reports one validated record per distinct
      (Date, RateType) of the extracted entries. */
  function Run(parsed: Result<Document, string>, conv: Conversions, rules: seq<Rule<CanonicalInterimHours>>,
               numberMessage: string -> string): (r: Response)
    ensures parsed.Failure? ==> r == BadRequest(InvalidXmlPrefix + parsed.error)
    ensures Extracted(parsed, conv).Failure? ==> r == Respond(Extracted(parsed, conv).error, numberMessage)
    ensures r.Ok? <==> Extracted(parsed, conv).Success?
    ensures r.Ok? ==> |r.result.valid| + |r.result.invalid| == |KeySet(Extracted(parsed, conv).value)|
    ensures r.BadRequest? ==> InvalidXmlPrefix <= r.message
    ensures r.ServerError? ==> UnexpectedPrefix <= r.message
  {
    match Extracted(parsed, conv)
    case Failure(f) => Respond(f, numberMessage)
    case Success(es) =>
      GroupHoursCount(es);
      Ok(ValidateHours(rules, GroupHoursByDateAndType(es)))
  }

  /** A successful run files every reduced record exactly once, in order:
      valid ones as they are, invalid ones with all of their reasons. */
  lemma {:induction false} RunFilesEveryRecord(parsed: Result<Document, string>, conv: Conversions,
                            rules: seq<Rule<CanonicalInterimHours>>, numberMessage: string -> string)
    ensures Run(parsed, conv, rules, numberMessage).Ok? ==>
              var reduced := GroupHoursByDateAndType(Extracted(parsed, conv).value);
              var v := Run(parsed, conv, rules, numberMessage).result;
              && multiset(v.valid) + multiset(HoursOf(v.invalid)) == multiset(reduced)
              && Seqs.Subsequence(v.valid, reduced) && Seqs.Subsequence(HoursOf(v.invalid), reduced)
              && (forall i :: 0 <= i < |v.valid| ==> IsValid(rules, v.valid[i]))
              && (forall i :: 0 <= i < |v.invalid| ==>
                    v.invalid[i].reasons == Errors(rules, v.invalid[i].hours) && v.invalid[i].reasons != [])
  {
    if Run(parsed, conv, rules, numberMessage).Ok? {
      var reduced := GroupHoursByDateAndType(Extracted(parsed, conv).value);
      ValidateHoursPartition(rules, reduced);
      ValidateHoursOrder(rules, reduced);
      ValidSideValid(rules, reduced);
      InvalidSideReasons(rules, reduced);
    }
  }

  /** A document in which no interval is billable is answered with two empty lists. */
  lemma {:induction false} RunNothingBillable(doc: Document, conv: Conversions, rules: seq<Rule<CanonicalInterimHours>>,
                           numberMessage: string -> string)
    requires var ivs := ElementsByTagName(doc, "TimeInterval");
             forall i :: 0 <= i < |ivs| ==> IdNode(ivs[i]).Some? && !IsBillable(ivs[i])
    ensures Run(Success(doc), conv, rules, numberMessage) == Ok(ValidationResult([], []))
  {
    NothingBillableNothingExtracted(doc, conv);
  }

  /** A document without a job code or consultant name is rejected as invalid
      input once a billable interval reaches composition. */
  lemma {:induction false} RunMissingName(doc: Document, conv: Conversions, rules: seq<Rule<CanonicalInterimHours>>,
                       numberMessage: string -> string)
    ensures MissingName(doc) && ReachesComposition(doc, conv) ==>
              Run(Success(doc), conv, rules, numberMessage) == BadRequest(InvalidXmlPrefix + NullReferenceMessage)
  {
    MissingNameAbortsExtraction(doc, conv);
  }

  /** A number that does not convert is not the client's fault in the source's
      eyes: it is reported as an unexpected error. */
  lemma {:induction false} RunInvalidNumber(parsed: Result<Document, string>, conv: Conversions,
                         rules: seq<Rule<CanonicalInterimHours>>, numberMessage: string -> string)
    ensures Extracted(parsed, conv).Failure? && Extracted(parsed, conv).error.InvalidNumber? ==>
              Run(parsed, conv, rules, numberMessage)
              == ServerError(UnexpectedPrefix + numberMessage(Extracted(parsed, conv).error.text))
  {
  }

  /** A parsed document is answered with 400 only for a null reference: every
      other fault of extraction is a failed number conversion, answered with 500. */
  lemma {:induction false} RunParsedFaults(doc: Document, conv: Conversions,
                         rules: seq<Rule<CanonicalInterimHours>>, numberMessage: string -> string)
    ensures Run(Success(doc), conv, rules, numberMessage).BadRequest? ==>
              Run(Success(doc), conv, rules, numberMessage) == BadRequest(InvalidXmlPrefix + NullReferenceMessage)
    ensures Run(Success(doc), conv, rules, numberMessage).ServerError? ==>
              SerializeInterimHours(doc, conv).Failure? && SerializeInterimHours(doc, conv).error.InvalidNumber?
  {
    ExtractAllFaultKinds(doc, ElementsByTagName(doc, "TimeInterval"), conv);
  }

  /** A `TimeInterval` without an `Id`, reached after every earlier interval
      has passed, is answered as invalid input. */
  lemma {:induction false} RunMissingId(doc: Document, conv: Conversions, rules: seq<Rule<CanonicalInterimHours>>,
                     numberMessage: string -> string, k: nat)
    ensures var ivs := ElementsByTagName(doc, "TimeInterval");
            k < |ivs| && IdNode(ivs[k]).None? && Extractable(doc, ivs[..k], conv) ==>
              Run(Success(doc), conv, rules, numberMessage) == BadRequest(InvalidXmlPrefix + NullReferenceMessage)
  {
    var ivs := ElementsByTagName(doc, "TimeInterval");
    if k < |ivs| && IdNode(ivs[k]).None? && Extractable(doc, ivs[..k], conv) {
      MissingIdAbortsExtraction(doc, ivs, conv, k);
    }
  }

  /** A document without the reporting-requirements or person-name path is
      answered as invalid input once an interval is selected. */
  lemma {:induction false} RunMissingPath(doc: Document, conv: Conversions, rules: seq<Rule<CanonicalInterimHours>>,
                       numberMessage: string -> string)
    ensures ReadDocumentFields(doc).Failure? && SomeSelected(doc) ==>
              Run(Success(doc), conv, rules, numberMessage) == BadRequest(InvalidXmlPrefix + NullReferenceMessage)
  {
    MissingPathAbortsExtraction(doc, conv);
  }
}
