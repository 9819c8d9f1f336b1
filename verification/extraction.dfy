/**
  Extraction and canonicalisation (`SerializeInterimHours` and
  `ComposeInterimHourEntry`): every `TimeInterval` element of the document,
  in document order, becomes at most one canonical entry.
 */
module Extraction {
  import opened Wrappers
  import opened Tree
  import opened InterimHours
  import Text
  import Seqs

  const NonBillableRateType := "RTNCB"
  const JobCodeLimit := 50
  const ConsultantNameLimit := 255
  const JobDescriptionLimit := 200

  const ReportingPath := ["TimeCard", "AdditionalData", "StaffingAdditionalData", "CustomerReportingRequirements"]
  const PersonNamePath := ["TimeCard", "ReportedResource", "Person", "PersonName"]

  /** The document-level values copied into every entry; each is null when its
      leaf element is missing. */
  datatype DocumentFields = DocumentFields(
    departmentCode: Option<string>,
    customerJobCode: Option<string>,
    formattedName: Option<string>,
    customerJobDescription: Option<string>)

  /** `node?.InnerText`. */
  function TextOfNode(n: Option<Node>): Option<string> {
    match n
    case None => None
    case Some(x) => Some(InnerText(x))
  }

  /** `parent["name"]?.InnerText`. */
  function ChildText(parent: Node, name: string): Option<string>
    requires parent.Element?
  {
    TextOfNode(Child(parent.children, name))
  }

  /** The four document-level lookups. Only the leaf is null-conditional, so a
      missing element on the way to it throws. */
  function ReadDocumentFields(doc: Document): (r: Result<DocumentFields, Fault>)
    ensures r.Failure? <==> Descend(doc.nodes, ReportingPath).None? || Descend(doc.nodes, PersonNamePath).None?
    ensures r.Failure? ==> r.error == NullReference
  {
    match (Descend(doc.nodes, ReportingPath), Descend(doc.nodes, PersonNamePath))
    case (Some(reporting), Some(person)) =>
      Success(DocumentFields(
        ChildText(reporting, "DepartmentCode"),
        ChildText(reporting, "CustomerJobCode"),
        ChildText(person, "FormattedName"),
        ChildText(reporting, "CustomerJobDescription")))
    case _ => Failure(NullReference)
  }

  /** `Convert.ToDouble(string)`: null converts to 0, text must parse. */
  function ToDouble(conv: Conversions, text: Option<string>): (r: Result<real, Fault>)
    ensures text.None? ==> r == Success(0.0)
    ensures text.Some? ==> (r.Success? <==> conv.toDouble(text.value).Some?)
  {
    match text
    case None => Success(0.0)
    case Some(t) =>
      match conv.toDouble(t)
      case Some(v) => Success(v)
      case None => Failure(InvalidNumber(t))
  }

  /** The text of the first child element whose attribute `type` has the given value. */
  function RateText(iv: Node, rateType: string): Option<string>
    requires iv.Element?
  {
    TextOfNode(ChildWithAttribute(iv.children, "type", rateType))
  }

  /** The value a rate component contributes when it converts: 0 when absent. */
  function RateValue(conv: Conversions, text: Option<string>): real {
    match text
    case None => 0.0
    case Some(t) => conv.toDouble(t).GetOr(0.0)
  }

  /** The text of the identifier under `Id` that carries `name='<which>'`. */
  function IdText(idNode: Node, which: string): Option<string>
    requires idNode.Element?
  {
    TextOfNode(ChildWithAttribute(idNode.children, "name", which))
  }

  /** Line 97: a non-empty duration is parsed and rounded, an empty or missing one is null. */
  function DurationValue(conv: Conversions, text: Option<string>): (r: Result<Option<real>, Fault>)
    ensures r.Failure? ==> r.error.InvalidNumber?
    ensures r.Success? ==> (r.value.None? <==> Text.IsNullOrEmpty(text))
    ensures r.Success? && r.value.Some? ==>
              conv.toDouble(text.value).Some? && r.value.value == conv.round2(conv.toDouble(text.value).value)
    ensures !Text.IsNullOrEmpty(text) ==> (r.Success? <==> conv.toDouble(text.value).Some?)
  {
    if Text.IsNullOrEmpty(text) then Success(None)
    else match conv.toDouble(text.value)
         case Some(v) => Success(Some(conv.round2(v)))
         case None => Failure(InvalidNumber(text.value))
  }

  /** Line 100: a present revision identifier is converted, a missing one is null. */
  function RevisionValue(conv: Conversions, text: Option<string>): (r: Result<Option<int>, Fault>)
    ensures r.Failure? ==> r.error.InvalidNumber?
    ensures r.Success? ==> (r.value.None? <==> text.None?)
    ensures r.Success? && r.value.Some? ==> r.value == conv.toInt32(text.value)
    ensures text.Some? ==> (r.Success? <==> conv.toInt32(text.value).Some?)
  {
    match text
    case None => Success(None)
    case Some(t) =>
      match conv.toInt32(t)
      case Some(n) => Success(Some(n))
      case None => Failure(InvalidNumber(t))
  }

  /** The object initialiser of lines 91-102 once every conversion has succeeded. */
  function Canonical(fields: DocumentFields, iv: Node, idNode: Node, conv: Conversions,
                     hourly: real, fee: real, duration: Option<real>, revision: Option<int>)
    : CanonicalInterimHours
    requires iv.Element? && idNode.Element?
    requires fields.customerJobCode.Some? && fields.formattedName.Some?
  {
    var rateOrAmount := ChildText(iv, "RateOrAmount");
    var start := ChildText(iv, "StartDateTime");
    var rateType := IdText(idNode, "rateid");
    CanonicalInterimHours(
      accountNumber := if Text.IsNullOrEmpty(fields.departmentCode) then None else fields.departmentCode,
      jobCode := Text.Clip(fields.customerJobCode.value, JobCodeLimit),
      rateOrAmount := if Text.IsNullOrEmpty(rateOrAmount) then None else Some(conv.round2(hourly + fee)),
      consultantName := Text.Clip(fields.formattedName.value, ConsultantNameLimit),
      duration := duration,
      date := if start.None? then None else conv.tryParseDate(start.value),
      jobDescription :=
        if Text.IsNullOrEmpty(fields.customerJobDescription) then None
        else Some(Text.Clip(fields.customerJobDescription.value, JobDescriptionLimit)),
      revisionNumber := revision,
      rateType := if Text.IsNullOrEmpty(rateType) then None else rateType)
  }

  /** `ComposeInterimHourEntry`, from the document fields onwards. The run is
      abandoned, in the order the C# code evaluates, when a rate component does
      not parse (lines 88-89), the job code or the consultant name is null
      (lines 94 and 96), the duration does not parse (line 97) or the revision
      number does not parse (line 100). */
  function Compose(fields: DocumentFields, iv: Node, idNode: Node, conv: Conversions)
    : (r: Result<CanonicalInterimHours, Fault>)
    requires iv.Element? && idNode.Element?
    ensures fields.customerJobCode.None? || fields.formattedName.None? ==> r.Failure?
    ensures r.Failure? ==> r.error.NullReference? || r.error.InvalidNumber?
  {
    var hourly :- ToDouble(conv, RateText(iv, "hourly"));
    var fee :- ToDouble(conv, RateText(iv, "customer_fee"));
    if fields.customerJobCode.None? || fields.formattedName.None? then Failure(NullReference)
    else
      var duration :- DurationValue(conv, ChildText(iv, "Duration"));
      var revision :- RevisionValue(conv, IdText(idNode, "revision"));
      Success(Canonical(fields, iv, idNode, conv, hourly, fee, duration, revision))
  }

  /** Every successfully composed entry obeys the canonicalisation rules. */
  lemma {:induction false} ComposeRules(fields: DocumentFields, iv: Node, idNode: Node, conv: Conversions)
    requires iv.Element? && idNode.Element?
    ensures Compose(fields, iv, idNode, conv).Success? ==>
              ComposedFrom(Compose(fields, iv, idNode, conv).value, fields, iv, idNode, conv)
  {
    var r := Compose(fields, iv, idNode, conv);
    if r.Success? {
      var hourly := ToDouble(conv, RateText(iv, "hourly"));
      var fee := ToDouble(conv, RateText(iv, "customer_fee"));
      var duration := DurationValue(conv, ChildText(iv, "Duration"));
      var revision := RevisionValue(conv, IdText(idNode, "revision"));
      assert hourly.Success? && fee.Success? && duration.Success? && revision.Success?;
      assert hourly.value == RateValue(conv, RateText(iv, "hourly"));
      assert fee.value == RateValue(conv, RateText(iv, "customer_fee"));
      assert r.value == Canonical(fields, iv, idNode, conv, hourly.value, fee.value, duration.value, revision.value);
      CanonicalRules(fields, iv, idNode, conv, hourly.value, fee.value, duration.value, revision.value);
    }
  }

  /** The object initialiser obeys the field rules once its inputs are the
      converted values of the interval. */
  lemma {:induction false} CanonicalRules(fields: DocumentFields, iv: Node, idNode: Node, conv: Conversions,
                                          hourly: real, fee: real, duration: Option<real>, revision: Option<int>)
    requires iv.Element? && idNode.Element?
    requires fields.customerJobCode.Some? && fields.formattedName.Some?
    requires hourly == RateValue(conv, RateText(iv, "hourly"))
    requires fee == RateValue(conv, RateText(iv, "customer_fee"))
    requires DurationValue(conv, ChildText(iv, "Duration")) == Success(duration)
    requires RevisionValue(conv, IdText(idNode, "revision")) == Success(revision)
    ensures ComposedFrom(Canonical(fields, iv, idNode, conv, hourly, fee, duration, revision), fields, iv, idNode, conv)
  {
  }

  /** The first `limit` characters of `source`, or all of it when it is shorter. */
  predicate ClippedFrom(r: string, source: string, limit: nat) {
    r <= source && |r| == (if |source| > limit then limit else |source|)
  }

  /** The canonicalisation rules, field by field, stated as properties of the result. */
  ghost predicate ComposedFrom(e: CanonicalInterimHours, fields: DocumentFields, iv: Node, idNode: Node,
                               conv: Conversions)
    requires iv.Element? && idNode.Element?
  {
    // AccountNumber: null exactly when the department code is null or empty.
    && (e.accountNumber.None? <==> Text.IsNullOrEmpty(fields.departmentCode))
    && (e.accountNumber.Some? ==> e.accountNumber == fields.departmentCode)
    // JobCode, ConsultantName, JobDescription: cut to their limits.
    && fields.customerJobCode.Some? && ClippedFrom(e.jobCode, fields.customerJobCode.value, JobCodeLimit)
    && fields.formattedName.Some? && ClippedFrom(e.consultantName, fields.formattedName.value, ConsultantNameLimit)
    && (e.jobDescription.None? <==> Text.IsNullOrEmpty(fields.customerJobDescription))
    && (e.jobDescription.Some? ==>
          ClippedFrom(e.jobDescription.value, fields.customerJobDescription.value, JobDescriptionLimit))
    // RateOrAmount: the rounded sum of both rate components, present only when the
    // first RateOrAmount element has text.
    && (e.rateOrAmount.None? <==> Text.IsNullOrEmpty(ChildText(iv, "RateOrAmount")))
    && (e.rateOrAmount.Some? ==>
          e.rateOrAmount.value
          == conv.round2(RateValue(conv, RateText(iv, "hourly")) + RateValue(conv, RateText(iv, "customer_fee"))))
    // Duration: the rounded parsed value, null when the element is missing or empty.
    && (e.duration.None? <==> Text.IsNullOrEmpty(ChildText(iv, "Duration")))
    && (e.duration.Some? ==>
          conv.toDouble(ChildText(iv, "Duration").value).Some?
          && e.duration.value == conv.round2(conv.toDouble(ChildText(iv, "Duration").value).value))
    // Date: null when the start is missing or does not parse.
    && (ChildText(iv, "StartDateTime").Some? ==> e.date == conv.tryParseDate(ChildText(iv, "StartDateTime").value))
    && (ChildText(iv, "StartDateTime").None? ==> e.date.None?)
    // RevisionNumber: null exactly when there is no revision identifier.
    && (e.revisionNumber.None? <==> IdText(idNode, "revision").None?)
    && (e.revisionNumber.Some? ==> e.revisionNumber == conv.toInt32(IdText(idNode, "revision").value))
    // RateType: the rate identifier's text, null when missing or empty.
    && (e.rateType.None? <==> Text.IsNullOrEmpty(IdText(idNode, "rateid")))
    && (e.rateType.Some? ==> e.rateType == IdText(idNode, "rateid"))
  }

  /** The interval carries an attribute `billable` whose value is exactly "true". */
  predicate IsBillable(iv: Node) {
    iv.Element? && exists a :: a in iv.attributes && a.name == "billable" && a.value == "true"
  }

  /** The interval's `Id` element, whose absence throws at the rate-type lookup. */
  function IdNode(iv: Node): Option<Node>
    requires iv.Element?
  {
    Child(iv.children, "Id")
  }

  /** Text of the rate identifier, used both for the RTNCB skip and for RateType. */
  function RateIdText(iv: Node): Option<string>
    requires iv.Element? && IdNode(iv).Some?
  {
    IdText(IdNode(iv).value, "rateid")
  }

  /** An interval that produces an entry: it has an `Id`, its rate type is not
      RTNCB and it is billable. */
  predicate Selected(iv: Node) {
    && iv.Element?
    && IdNode(iv).Some?
    && RateIdText(iv) != Some(NonBillableRateType)
    && IsBillable(iv)
  }

  /** The full canonicalisation of one selected interval. */
  function ComposeFor(doc: Document, iv: Node, conv: Conversions): Result<CanonicalInterimHours, Fault>
    requires Selected(iv)
  {
    var fields :- ReadDocumentFields(doc);
    Compose(fields, iv, IdNode(iv).value, conv)
  }

  /** One iteration of the extraction loop: null for a skipped interval. */
  function ExtractInterval(doc: Document, iv: Node, conv: Conversions)
    : (r: Result<Option<CanonicalInterimHours>, Fault>)
    requires iv.Element?
    ensures r.Success? && r.value.Some? <==> Selected(iv) && ComposeFor(doc, iv, conv).Success?
    ensures r.Success? && r.value.Some? ==> r.value.value == ComposeFor(doc, iv, conv).value
    ensures r.Failure? <==> IdNode(iv).None? || (Selected(iv) && ComposeFor(doc, iv, conv).Failure?)
    ensures r.Failure? && IdNode(iv).Some? ==> r.error == ComposeFor(doc, iv, conv).error
  {
    match IdNode(iv)
    case None => Failure(NullReference)
    case Some(_) =>
      if RateIdText(iv) == Some(NonBillableRateType) || !IsBillable(iv) then Success(None)
      else
        var e :- ComposeFor(doc, iv, conv);
        Success(Some(e))
  }

  /** The intervals that produce an entry, in document order: the `continue`
      checks of the loop as a `Where`. */
  function SelectedIntervals(ivs: seq<Node>): (r: seq<Node>)
    ensures forall i :: 0 <= i < |r| ==> Selected(r[i]) && r[i] in ivs
    ensures forall i :: 0 <= i < |ivs| && Selected(ivs[i]) ==> ivs[i] in r
    ensures Seqs.Subsequence(r, ivs)
  {
    Seqs.FilterSubsequence(ivs, Selected);
    Seqs.Filter(ivs, Selected)
  }

  /** The extraction loop over the given intervals, in order; the first fault ends it. */
  function ExtractAll(doc: Document, ivs: seq<Node>, conv: Conversions)
    : (r: Result<seq<CanonicalInterimHours>, Fault>)
    requires forall i :: 0 <= i < |ivs| ==> ivs[i].Element?
    decreases |ivs|
  {
    if ivs == [] then Success([])
    else
      var es :- ExtractAll(doc, ivs[..|ivs| - 1], conv);
      var e :- ExtractInterval(doc, ivs[|ivs| - 1], conv);
      Success(es + (if e.Some? then [e.value] else []))
  }

  /** No interval lacks its `Id`, and every selected interval composes. */
  ghost predicate Extractable(doc: Document, ivs: seq<Node>, conv: Conversions)
    requires forall i :: 0 <= i < |ivs| ==> ivs[i].Element?
  {
    forall i :: 0 <= i < |ivs| ==> Passes(doc, ivs[i], conv)
  }

  /** The interval has its `Id`, and composes if it is selected. */
  ghost predicate Passes(doc: Document, iv: Node, conv: Conversions)
    requires iv.Element?
  {
    IdNode(iv).Some? && (Selected(iv) ==> ComposeFor(doc, iv, conv).Success?)
  }

  /** Extractability of a list is that of its prefix and of its last interval. */
  lemma {:induction false} ExtractableSnoc(doc: Document, ivs: seq<Node>, conv: Conversions)
    requires ivs != [] && forall i :: 0 <= i < |ivs| ==> ivs[i].Element?
    ensures Extractable(doc, ivs, conv)
            <==> Extractable(doc, ivs[..|ivs| - 1], conv) && Passes(doc, ivs[|ivs| - 1], conv)
  {
    var init := ivs[..|ivs| - 1];
    assert forall i :: 0 <= i < |init| ==> init[i] == ivs[i];
  }

  /** The loop succeeds exactly when no interval makes it throw. */
  lemma {:induction false} ExtractAllSucceeds(doc: Document, ivs: seq<Node>, conv: Conversions)
    requires forall i :: 0 <= i < |ivs| ==> ivs[i].Element?
    ensures ExtractAll(doc, ivs, conv).Success? <==> Extractable(doc, ivs, conv)
    decreases |ivs|
  {
    if ivs != [] {
      var init := ivs[..|ivs| - 1];
      assert forall i :: 0 <= i < |init| ==> init[i].Element? by {
        forall i | 0 <= i < |init| ensures init[i].Element? { assert init[i] == ivs[i]; }
      }
      ExtractAllSucceeds(doc, init, conv);
      ExtractableSnoc(doc, ivs, conv);
    }
  }

  /** `e` is what the selected interval `iv` composes to. */
  ghost predicate ComposesTo(doc: Document, iv: Node, conv: Conversions, e: CanonicalInterimHours)
    requires Selected(iv)
  {
    ComposeFor(doc, iv, conv) == Success(e)
  }

  /** One successful step of the loop: the prefix succeeded too, and the last
      interval added its entry exactly when it is selected. */
  lemma {:induction false} ExtractAllStep(doc: Document, ivs: seq<Node>, conv: Conversions)
    requires ivs != [] && forall i :: 0 <= i < |ivs| ==> ivs[i].Element?
    requires ExtractAll(doc, ivs, conv).Success?
    ensures ExtractAll(doc, ivs[..|ivs| - 1], conv).Success?
    ensures var last := ivs[|ivs| - 1];
            var ei := ExtractAll(doc, ivs[..|ivs| - 1], conv).value;
            if Selected(last)
            then exists e :: ComposesTo(doc, last, conv, e) && ExtractAll(doc, ivs, conv).value == ei + [e]
            else ExtractAll(doc, ivs, conv).value == ei
  {
    var last := ivs[|ivs| - 1];
    var e := ExtractInterval(doc, last, conv);
    assert e.Success?;
    if Selected(last) {
      assert ComposesTo(doc, last, conv, e.value.value);
    }
  }

  /** A successful loop yields one entry per selected interval, in order: a
      filter followed by a map. */
  lemma {:induction false} ExtractAllEntries(doc: Document, ivs: seq<Node>, conv: Conversions)
    requires forall i :: 0 <= i < |ivs| ==> ivs[i].Element?
    requires ExtractAll(doc, ivs, conv).Success?
    ensures var es := ExtractAll(doc, ivs, conv).value;
            && |es| == |SelectedIntervals(ivs)|
            && forall i :: 0 <= i < |es| ==> ComposesTo(doc, SelectedIntervals(ivs)[i], conv, es[i])
    decreases |ivs|
  {
    if ivs != [] {
      var init := ivs[..|ivs| - 1];
      var last := ivs[|ivs| - 1];
      assert forall i :: 0 <= i < |init| ==> init[i] == ivs[i];
      ExtractAllStep(doc, ivs, conv);
      ExtractAllEntries(doc, init, conv);
      var es := ExtractAll(doc, ivs, conv).value;
      var ei := ExtractAll(doc, init, conv).value;
      var sel := SelectedIntervals(ivs);
      var si := SelectedIntervals(init);
      if Selected(last) {
        var e :| ComposesTo(doc, last, conv, e) && es == ei + [e];
        assert sel == si + [last];
        var rel := (iv: Node, x: CanonicalInterimHours) => Selected(iv) && ComposesTo(doc, iv, conv, x);
        Seqs.PairwiseSnoc(si, ei, last, e, rel);
        assert forall i :: 0 <= i < |es| ==> rel(sel[i], es[i]);
      } else {
        assert sel == si;
      }
    }
  }

  /** Both halves of the loop's contract. */
  lemma ExtractAllSpec(doc: Document, ivs: seq<Node>, conv: Conversions)
    requires forall i :: 0 <= i < |ivs| ==> ivs[i].Element?
    ensures ExtractAll(doc, ivs, conv).Success? <==> Extractable(doc, ivs, conv)
    ensures ExtractAll(doc, ivs, conv).Success? ==>
              var es := ExtractAll(doc, ivs, conv).value;
              && |es| == |SelectedIntervals(ivs)|
              && forall i :: 0 <= i < |es| ==> ComposesTo(doc, SelectedIntervals(ivs)[i], conv, es[i])
  {
    ExtractAllSucceeds(doc, ivs, conv);
    if ExtractAll(doc, ivs, conv).Success? {
      ExtractAllEntries(doc, ivs, conv);
    }
  }

  /** `SerializeInterimHours`: extraction over every `TimeInterval` element. */
  function SerializeInterimHours(doc: Document, conv: Conversions): (r: Result<seq<CanonicalInterimHours>, Fault>)
  {
    ExtractAll(doc, ElementsByTagName(doc, "TimeInterval"), conv)
  }

  /** An interval whose rate identifier reads RTNCB never yields an entry, so no
      extracted entry has that rate type. */
  lemma {:induction false} NoNonBillableRateType(doc: Document, conv: Conversions)
    ensures var r := SerializeInterimHours(doc, conv);
            r.Success? ==> forall i :: 0 <= i < |r.value| ==> r.value[i].rateType != Some(NonBillableRateType)
  {
    var ivs := ElementsByTagName(doc, "TimeInterval");
    var r := SerializeInterimHours(doc, conv);
    ExtractAllSpec(doc, ivs, conv);
    if r.Success? {
      forall i | 0 <= i < |r.value| ensures r.value[i].rateType != Some(NonBillableRateType) {
        var iv := SelectedIntervals(ivs)[i];
        var fields := ReadDocumentFields(doc).value;
        ComposeRules(fields, iv, IdNode(iv).value, conv);
      }
    }
  }

  lemma {:induction false} NoneSelected(ivs: seq<Node>)
    requires forall i :: 0 <= i < |ivs| ==> !Selected(ivs[i])
    ensures SelectedIntervals(ivs) == []
    decreases |ivs|
  {
    if ivs != [] {
      var init := ivs[..|ivs| - 1];
      assert forall i :: 0 <= i < |init| ==> init[i] == ivs[i];
      NoneSelected(init);
    }
  }

  /** A document none of whose intervals is billable yields no entries and no
      fault, whatever its document-level fields: the fields are read only when
      an entry is composed. */
  lemma {:induction false} NothingBillableNothingExtracted(doc: Document, conv: Conversions)
    requires var ivs := ElementsByTagName(doc, "TimeInterval");
             forall i :: 0 <= i < |ivs| ==> IdNode(ivs[i]).Some? && !IsBillable(ivs[i])
    ensures SerializeInterimHours(doc, conv) == Success([])
  {
    var ivs := ElementsByTagName(doc, "TimeInterval");
    ExtractAllSpec(doc, ivs, conv);
    NoneSelected(ivs);
  }

  /** Both rate components are absent or convert. */
  predicate RatesConvert(iv: Node, conv: Conversions)
    requires iv.Element?
  {
    && (RateText(iv, "hourly").Some? ==> conv.toDouble(RateText(iv, "hourly").value).Some?)
    && (RateText(iv, "customer_fee").Some? ==> conv.toDouble(RateText(iv, "customer_fee").value).Some?)
  }

  /** A missing job code or consultant name is dereferenced while composing the
      entry (lines 94 and 96): once the rate components have converted, that is
      a null-reference fault. */
  lemma {:induction false} MissingNameComposeFault(doc: Document, iv: Node, conv: Conversions)
    requires Selected(iv) && RatesConvert(iv, conv)
    ensures MissingName(doc) ==> ComposeFor(doc, iv, conv) == Failure(NullReference)
  {
  }

  /** Every interval has an `Id`, at least one is selected, and every selected
      interval fails to compose with a null reference. */
  ghost predicate AllSelectedNullReference(doc: Document, ivs: seq<Node>, conv: Conversions) {
    && (forall i :: 0 <= i < |ivs| ==> ivs[i].Element? && IdNode(ivs[i]).Some?)
    && (forall i :: 0 <= i < |ivs| && Selected(ivs[i]) ==> NullReferenceAt(doc, ivs[i], conv))
    && (exists i :: 0 <= i < |ivs| && Selected(ivs[i]))
  }

  /** Composing the selected interval dereferences a missing node. */
  ghost predicate NullReferenceAt(doc: Document, iv: Node, conv: Conversions)
    requires Selected(iv)
  {
    ComposeFor(doc, iv, conv) == Failure(NullReference)
  }

  /** Such a failure aborts the whole extraction: no partial list is returned. */
  lemma {:induction false} ExtractAllNullReference(doc: Document, ivs: seq<Node>, conv: Conversions)
    requires forall i :: 0 <= i < |ivs| ==> ivs[i].Element?
    requires AllSelectedNullReference(doc, ivs, conv)
    ensures ExtractAll(doc, ivs, conv) == Failure(NullReference)
  {
    var k := Seqs.FirstIndex(ivs, Selected);
    NullReferenceInterval(doc, ivs[k], conv);
    UnselectedPrefixPasses(doc, ivs, conv, k);
    FirstFaultAbortsExtraction(doc, ivs, conv, k);
  }

  /** A selected interval's null reference is the loop step's fault. */
  lemma {:induction false} NullReferenceInterval(doc: Document, iv: Node, conv: Conversions)
    requires Selected(iv)
    ensures NullReferenceAt(doc, iv, conv) ==> ExtractInterval(doc, iv, conv) == Failure(NullReference)
  {
  }

  /** Intervals that have an `Id` and are not selected pass the loop. */
  lemma {:induction false} UnselectedPrefixPasses(doc: Document, ivs: seq<Node>, conv: Conversions, k: nat)
    requires k <= |ivs|
    requires forall i :: 0 <= i < |ivs| ==> ivs[i].Element? && IdNode(ivs[i]).Some?
    requires forall j :: 0 <= j < k ==> !Selected(ivs[j])
    ensures Extractable(doc, ivs[..k], conv)
  {
    forall j | 0 <= j < k ensures Passes(doc, ivs[..k][j], conv) {
      assert ivs[..k][j] == ivs[j];
    }
  }

  /** The document has both field paths but lacks the job code or the consultant name. */
  predicate MissingName(doc: Document) {
    && ReadDocumentFields(doc).Success?
    && (ReadDocumentFields(doc).value.customerJobCode.None? || ReadDocumentFields(doc).value.formattedName.None?)
  }

  /** Every interval has an `Id` and convertible rate components, and one is selected. */
  predicate ReachesComposition(doc: Document, conv: Conversions) {
    var ivs := ElementsByTagName(doc, "TimeInterval");
    && (forall i :: 0 <= i < |ivs| ==> IdNode(ivs[i]).Some? && RatesConvert(ivs[i], conv))
    && (exists i :: 0 <= i < |ivs| && Selected(ivs[i]))
  }

  /** A document whose job code or consultant name is missing aborts extraction
      with a null-reference fault as soon as one interval is selected (and the
      rate components convert); it does not produce entries with a null field. */
  lemma {:induction false} MissingNameAbortsExtraction(doc: Document, conv: Conversions)
    ensures MissingName(doc) && ReachesComposition(doc, conv) ==> SerializeInterimHours(doc, conv) == Failure(NullReference)
  {
    if MissingName(doc) && ReachesComposition(doc, conv) {
      var ivs := ElementsByTagName(doc, "TimeInterval");
      forall i | 0 <= i < |ivs| && Selected(ivs[i])
        ensures ComposeFor(doc, ivs[i], conv) == Failure(NullReference)
      {
        MissingNameComposeFault(doc, ivs[i], conv);
      }
      ExtractAllNullReference(doc, ivs, conv);
    }
  }

  /** Every fault of the loop is a null reference or a number that does not convert. */
  lemma {:induction false} ExtractAllFaultKinds(doc: Document, ivs: seq<Node>, conv: Conversions)
    requires forall i :: 0 <= i < |ivs| ==> ivs[i].Element?
    ensures ExtractAll(doc, ivs, conv).Failure? ==>
              ExtractAll(doc, ivs, conv).error.NullReference? || ExtractAll(doc, ivs, conv).error.InvalidNumber?
    decreases |ivs|
  {
    if ivs != [] {
      var init := ivs[..|ivs| - 1];
      assert forall i :: 0 <= i < |init| ==> init[i] == ivs[i];
      ExtractAllFaultKinds(doc, init, conv);
    }
  }

  /** The first interval that throws decides the outcome: once every interval
      before it has passed, its fault ends the extraction and no partial list
      is returned. */
  lemma {:induction false} FirstFaultAbortsExtraction(doc: Document, ivs: seq<Node>, conv: Conversions, k: nat)
    requires forall i :: 0 <= i < |ivs| ==> ivs[i].Element?
    requires k < |ivs| && Extractable(doc, ivs[..k], conv) && ExtractInterval(doc, ivs[k], conv).Failure?
    ensures ExtractAll(doc, ivs, conv) == Failure(ExtractInterval(doc, ivs[k], conv).error)
    decreases |ivs|
  {
    var init := ivs[..|ivs| - 1];
    assert forall i :: 0 <= i < |init| ==> init[i] == ivs[i];
    if k == |ivs| - 1 {
      ExtractAllSucceeds(doc, init, conv);
    } else {
      assert init[..k] == ivs[..k];
      FirstFaultAbortsExtraction(doc, init, conv, k);
    }
  }

  /** An interval without an `Id` throws at the rate-type lookup (line 54): once
      every interval before it has passed, the extraction ends with a null
      reference. */
  lemma {:induction false} MissingIdAbortsExtraction(doc: Document, ivs: seq<Node>, conv: Conversions, k: nat)
    requires forall i :: 0 <= i < |ivs| ==> ivs[i].Element?
    requires k < |ivs| && IdNode(ivs[k]).None? && Extractable(doc, ivs[..k], conv)
    ensures ExtractAll(doc, ivs, conv) == Failure(NullReference)
  {
    FirstFaultAbortsExtraction(doc, ivs, conv, k);
  }

  /** Every interval has an `Id` and at least one is selected. */
  predicate SomeSelected(doc: Document) {
    var ivs := ElementsByTagName(doc, "TimeInterval");
    && (forall i :: 0 <= i < |ivs| ==> IdNode(ivs[i]).Some?)
    && (exists i :: 0 <= i < |ivs| && Selected(ivs[i]))
  }

  /** The reporting-requirements and person-name paths are dereferenced
      (lines 80-83) before anything else of an entry: when either is missing,
      the first selected interval ends the extraction with a null reference. */
  lemma {:induction false} MissingPathAbortsExtraction(doc: Document, conv: Conversions)
    ensures ReadDocumentFields(doc).Failure? && SomeSelected(doc) ==>
              SerializeInterimHours(doc, conv) == Failure(NullReference)
  {
    if ReadDocumentFields(doc).Failure? && SomeSelected(doc) {
      var ivs := ElementsByTagName(doc, "TimeInterval");
      assert forall i :: 0 <= i < |ivs| && Selected(ivs[i]) ==> NullReferenceAt(doc, ivs[i], conv);
      ExtractAllNullReference(doc, ivs, conv);
    }
  }
}
