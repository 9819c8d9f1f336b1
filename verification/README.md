# Netive functions: a verified model of the core

This project models the data-shaping core of a set of Azure functions in Dafny. It covers:

- **Time-entry reconciliation** (`ValidateTimeEntries`). A parsed time-card
  document goes through four stages:
  - every `TimeInterval` element is read;
  - the non-chargeable rate type `RTNCB` and the intervals not marked
    `billable="true"` are dropped;
  - each remaining interval becomes a canonical entry (strings truncated,
    empty values turned into null, the two rate components added and rounded);
  - the entries are reduced to one record per (Date, RateType), namely the
    latest revision carrying the summed duration, and each record is filed
    as valid or invalid.

  A fault that ends the run becomes an HTTP 400 or 500 response.
- **Store statistics shaping** (`StoreService`):
  - the configuration summary of a store;
  - subtracting point-of-sale revenue from web-store revenue;
  - marking the contact with the lowest admin id as the default marketing
    contact;
  - clearing an unset sign-up date.
- **JSON helpers** (`JTokenExtensions`, `JTokenDictionary`):
  - the emptiness test, the deep merge, case-insensitive top-level lookup
    and the property walk;
  - a multimap from tokens to string lists that drops duplicated values.
- **`StringExtensions.Truncate`.**

One module per component:

| file | module | models |
|---|---|---|
| wrappers.dfy | `Wrappers` | `Option`, `Result` |
| seqs.dfy | `Seqs` | filter, count and subsequence over sequences |
| text.dfy | `Text` | `string.IsNullOrEmpty`, prefix clipping, case-insensitive comparison |
| tree.dfy | `Tree` | the XML document as a tree of elements and text; `node[name]`, `SelectSingleNode`, `GetElementsByTagName` |
| interim_hours.dfy | `InterimHours` | `CanonicalInterimHours`, the runtime conversions, the faults |
| extraction.dfy | `Extraction` | `SerializeInterimHours`, `ComposeInterimHourEntry` |
| reduction.dfy | `Reduction` | `GroupHoursByDateAndType` |
| validation.dfy | `Validation` | `ValidateHours`, with the validator's rules as a parameter |
| pipeline.dfy | `Pipeline` | `Run`: chaining the stages and turning faults into responses |
| store_service.dfy | `StoreService` | `GetStoreConfigByStoreName`, `SubtractPosRevenueFromEstore`, `ProcessContacts`, the sign-up date rule |
| json.dfy | `Json` | `JToken`, `JProperty`, property lookup by name |
| jtoken_extensions.dfy | `JTokenExtensions` | `IsNullOrEmpty`, `MergeWith`, `SelectTokenCaseInsensitive`, `WalkNode` |
| token_dictionary.dfy | `JTokenDictionary` | `Add`, `GetValues`, `RemoveDuplicateValues` |
| string_extensions.dfy | `StringExtensions` | `Truncate` |

Modelling choices:

- **Exceptions as results.** Each C# exception that ends an operation is a
  `Failure` of a `Result`:
  - a `NullReferenceException` from a missing node;
  - an `XmlException`;
  - a `FormatException` from a number conversion;
  - an `InvalidCastException` from casting a non-object to `JObject`.
- **Parameters for code that is not shown.** Runtime services that are
  called but not part of the code are parameters:
  - `Convert.ToDouble`, `Convert.ToInt32`, `DateTime.TryParse` with
    `"yyyy-MM-dd"` formatting, and `Math.Round(x, 2)` form the
    `Conversions` record;
  - `CanonicalInterimHoursValidator` is a list of rules;
  - `ContactValidator` is a predicate;
  - `MystoreApps.FriendlyNames` is a sequence of app names.
- **Reals for floating point.** `double` and `decimal` values are `real`.
- **Insertion-ordered dictionaries.** A `Dictionary` whose enumeration order
  matters is a sequence of entries in insertion order.

Three behaviours of the C# code are easy to miss:

- **A missing job code or consultant name aborts the run.** It does not
  become a null field. The code dereferences `jobCode.Length` and
  `consultantName.Length` (`ValidateTimeEntries.cs:94`, `:96`). The resulting
  null reference aborts the whole run with "Invalid XML provided". So does a
  `TimeInterval` without an `Id` element (`:54`).
- **RateOrAmount is present exactly when the first `RateOrAmount` child has
  non-empty text** (`:87`, `:95`). It does not depend on whether the rate
  components are present. A missing component counts as 0, because
  `Convert.ToDouble(null)` is 0.
- **A number that does not parse is a server error.** It produces a 500
  response, "Unexpected error happened", not a 400.

## Model

| member | source | states |
|---|---|---|
| Text.Clip | ValidateTimeEntries.cs:94 | `s.Length > n ? s.Substring(0, n) : s` yields a prefix of `s` of length `min(|s|, n)` |
| Text.EqualsIgnoreCaseExample | JTokenExtensionsTests.cs:91-104 | "LastName" matches "lastname" ignoring case and does not match "nonExistingNode" |
| Tree.Child | ValidateTimeEntries.cs:86-90 | `node[name]` is the first child element with that name; it is null exactly when no child has the name |
| Tree.ChildWithAttribute | ValidateTimeEntries.cs:54 | `SelectSingleNode("*[@name='…']")` returns the first child, in document order, that carries the attribute; it is null exactly when none carries it |
| Tree.Descend | ValidateTimeEntries.cs:80-83 | a chained `doc["A"]["B"]…` lookup of one step is the first child with that name; it is null when the first step is missing, and when it succeeds it ends at an element with the last name on the path |
| Tree.DescendSnoc | ValidateTimeEntries.cs:80-83 | each further step `[q]` takes the first child named `q` of the element reached so far, and the chain stays null once a step is missing |
| Tree.ElementsByTagName | ValidateTimeEntries.cs:49 | `GetElementsByTagName` returns only elements with the requested name |
| Tree.ElementsByTagNameExact | ValidateTimeEntries.cs:49 | an element is in the result exactly when it has the requested name and occurs somewhere in the document |
| Extraction.ReadDocumentFields | ValidateTimeEntries.cs:80-83 | reading the document-level fields fails with a null reference exactly when the reporting-requirements or person-name path is missing |
| Extraction.ToDouble | ValidateTimeEntries.cs:88-89 | `Convert.ToDouble` on a missing rate component gives 0; on present text it succeeds exactly when the text converts |
| Extraction.DurationValue | ValidateTimeEntries.cs:97 | the duration is null exactly when its text is null or empty; otherwise it is the rounded conversion, and the step fails exactly when the text does not convert |
| Extraction.RevisionValue | ValidateTimeEntries.cs:100 | the revision is null exactly when there is no revision identifier; otherwise it is the `Convert.ToInt32` value, and the step fails exactly when that conversion fails |
| Extraction.Compose | ValidateTimeEntries.cs:88-103 | composing an entry without a job code or consultant name always fails; every failure is a null reference or an unparsable number |
| Extraction.ComposeRules | ValidateTimeEntries.cs:91-102 | every composed entry obeys the field rules: AccountNumber, JobDescription and RateType are null when empty; JobCode, ConsultantName and JobDescription are cut to 50, 255 and 200 characters; RateOrAmount is round2(hourly + customer_fee) only when the RateOrAmount text is non-empty; Duration, Date and RevisionNumber are converted or null |
| Extraction.ExtractInterval | ValidateTimeEntries.cs:53-74 | an interval yields an entry exactly when it has an `Id`, its rate id is not RTNCB, it is billable and composition succeeds; it fails exactly when `Id` is missing or composition of a selected interval fails |
| Extraction.SelectedIntervals | ValidateTimeEntries.cs:51-70 | the selected intervals are exactly the input intervals that pass the rate-type and billable checks, in document order |
| Extraction.ExtractAllSucceeds | ValidateTimeEntries.cs:51-76 | extraction of all intervals succeeds exactly when every interval has an `Id` and every selected interval composes |
| Extraction.ExtractAllEntries | ValidateTimeEntries.cs:70-74 | a successful extraction has one entry per selected interval, in document order, each the composition of its interval |
| Extraction.ExtractAllSpec | ValidateTimeEntries.cs:47-77 | the two statements above combined: the success condition and the entry-by-entry result |
| Extraction.NoNonBillableRateType | ValidateTimeEntries.cs:54-58 | no extracted entry has the rate type RTNCB |
| Extraction.NothingBillableNothingExtracted | ValidateTimeEntries.cs:59-70 | a document in which every interval has an `Id` and no interval is billable yields no entries |
| Extraction.MissingNameComposeFault | ValidateTimeEntries.cs:94-96 | a selected interval whose rates convert fails with a null reference when the job code or consultant name is missing |
| Extraction.ExtractAllNullReference | ValidateTimeEntries.cs:72-73 | when every selected interval fails with a null reference and at least one is selected, the whole extraction fails with it; no partial list is returned |
| Extraction.MissingNameAbortsExtraction | ValidateTimeEntries.cs:72-96 | a document without a job code or consultant name is rejected with a null reference, provided every interval has an `Id`, every interval's rate components convert, and at least one interval is selected |
| Extraction.ExtractAllFaultKinds | ValidateTimeEntries.cs:47-103 | every fault that ends extraction is a null reference or a number that does not convert |
| Extraction.FirstFaultAbortsExtraction | ValidateTimeEntries.cs:51-76 | once every earlier interval has passed, the first interval that throws ends extraction with its own fault and no partial list |
| Extraction.MissingIdAbortsExtraction | ValidateTimeEntries.cs:51-54 | an interval without an `Id`, reached after every earlier interval has passed, ends extraction with a null reference |
| Extraction.MissingPathAbortsExtraction | ValidateTimeEntries.cs:72-83 | a missing reporting-requirements or person-name path ends extraction with a null reference, provided every interval has an `Id` and at least one is selected |
| Reduction.Members | ValidateTimeEntries.cs:108-112 | the members of a key are exactly the entries with that (Date, RateType) key, in input order |
| Reduction.Insert | ValidateTimeEntries.cs:108-112 | grouping one more entry appends it to its key's group, or opens a new group at the end; keys stay distinct |
| Reduction.GroupBy | ValidateTimeEntries.cs:108-112 | groups have pairwise distinct keys and are never empty |
| Reduction.GroupByMembers | ValidateTimeEntries.cs:108-112 | each group holds exactly the entries of its key, in input order |
| Reduction.GroupByCovers | ValidateTimeEntries.cs:108-112 | every entry's key has a group |
| Reduction.GroupHasEntry | ValidateTimeEntries.cs:108-112 | every group's key is the key of some input entry |
| Reduction.GroupByFirstSeen | ValidateTimeEntries.cs:108-114 | groups appear in the order their keys are first seen in the input |
| Reduction.MaxRevision | ValidateTimeEntries.cs:116 | nullable `Max` ignores nulls: it is null exactly when every revision is null, and otherwise it is a revision that occurs and bounds all the others |
| Reduction.FirstWithRevision | ValidateTimeEntries.cs:117 | `First(x => x.RevisionNumber == latest)` is the first position with that revision |
| Reduction.ReduceGroup | ValidateTimeEntries.cs:116-120 | the record is some member with the summed duration, no earlier member having the same revision, and its revision is the maximum |
| Reduction.ReducedRecord | ValidateTimeEntries.cs:116-120 | the record of a group carries the group's summed duration and its latest revision, and is the first member with that revision |
| Reduction.ReduceAll | ValidateTimeEntries.cs:114-121 | one record per group, in group order |
| Reduction.ReduceGroupKey | ValidateTimeEntries.cs:117-120 | reducing a group keeps its key |
| Reduction.GroupHoursByDateAndType | ValidateTimeEntries.cs:106-123 | one record per group, carrying that group's key |
| Reduction.GroupHoursKeys | ValidateTimeEntries.cs:106-123 | the records have pairwise distinct keys, and every key of the input has a record |
| Reduction.GroupHoursRecord | ValidateTimeEntries.cs:114-120 | each record is the first member with the latest revision of its key, with Duration replaced by the sum over all the key's entries |
| Reduction.GroupHoursCount | ValidateTimeEntries.cs:106-123 | the number of records is the number of distinct (Date, RateType) keys |
| Reduction.DurationConserved | ValidateTimeEntries.cs:118-119 | the total duration, with nulls counted as 0, is the same before and after reduction |
| Reduction.ThreeRevisions | ValidateTimeEntries.cs:116-119 | revisions 0, 1, 2 of one key reduce to revision 2 carrying the sum of the three durations |
| Reduction.ExampleRecord | ValidateTimeEntriesTests.cs:47-52 | the three revisions of one rate type reduce to revision 2 with the summed duration |
| Reduction.TwoRateTypes | ValidateTimeEntries.cs:106-123 | three revisions of each of two rate types on one date reduce to two records, in first-seen order |
| Reduction.RevisionSumExample | ValidateTimeEntriesTests.cs:40-53 | durations 8, -8, 5 under RTH100 and 4, -4, 3 under RTH150 reduce to 5 and 3, both at revision 2 |
| Validation.Errors | ValidateTimeEntries.cs:131-138 | the error list is empty exactly when every rule holds |
| Validation.ErrorsExact | ValidateTimeEntries.cs:138 | a message is reported exactly when some rule carrying that message fails |
| Validation.ErrorsInRuleOrder | ValidateTimeEntriesTests.cs:82-86 | an entry without account number or date reports both messages, in rule order |
| Validation.ValidateHours | ValidateTimeEntries.cs:125-143 | every record is filed once: the valid and invalid lists together are as long as the input |
| Validation.ValidSideValid | ValidateTimeEntries.cs:132-135 | every record on the valid side satisfies all rules |
| Validation.InvalidSideReasons | ValidateTimeEntries.cs:136-140 | every invalid record carries all of its error messages, and at least one |
| Validation.ValidateHoursPartition | ValidateTimeEntries.cs:129-141 | the valid and invalid sides together are a permutation of the input |
| Validation.ValidateHoursOrder | ValidateTimeEntries.cs:129-141 | both sides keep the input order |
| Validation.SideMembership | ValidateTimeEntries.cs:129-141 | a record on the valid side is valid; a record on the invalid side is invalid and filed with its reasons |
| Validation.ValidateHoursFiling | ValidateTimeEntries.cs:129-141 | each input record lands on the side its rules decide |
| Pipeline.Respond | ValidateTimeEntries.cs:35-44 | a null reference or a malformed document gives 400 "Invalid XML provided: " plus the message; every other fault gives 500 "Unexpected error happened: " plus the message |
| Pipeline.Run | ValidateTimeEntries.cs:20-45 | a malformed body gives 400; a failed extraction is answered by the catch clauses' mapping of its fault (`Respond`); the run answers 200 exactly when extraction succeeds, and then with one record per distinct key |
| Pipeline.RunFilesEveryRecord | ValidateTimeEntries.cs:28-33 | a 200 answer files every reduced record once, in order, valid ones as they are and invalid ones with all their reasons |
| Pipeline.RunNothingBillable | ValidateTimeEntriesTests.cs:89-99 | a document in which every interval has an `Id` and none is billable is answered with two empty lists |
| Pipeline.RunMissingName | ValidateTimeEntries.cs:35-39 | a missing job code or consultant name is answered with 400 and the null-reference message, provided every interval has an `Id`, every interval's rate components convert, and at least one interval is selected |
| Pipeline.RunParsedFaults | ValidateTimeEntries.cs:35-44 | for a parsed document a 400 always carries the null-reference message, and a 500 always comes from a number that does not convert |
| Pipeline.RunMissingId | ValidateTimeEntries.cs:35-39 | an interval without an `Id`, reached after every earlier interval has passed, is answered with 400 and the null-reference message |
| Pipeline.RunMissingPath | ValidateTimeEntries.cs:35-39 | a missing reporting-requirements or person-name path is answered with 400 and the null-reference message, provided every interval has an `Id` and at least one is selected |
| Pipeline.RunInvalidNumber | ValidateTimeEntries.cs:40-44 | a number that does not convert is answered with 500 |
| StoreService.InstalledAppsSpec | StoreService.cs:81-84 | the installed-apps string is ";" plus name for each app name matched by some key ignoring case, in app-list order |
| StoreService.InstalledAppsEmpty | StoreServiceTests.cs:567-579 | the installed-apps string is empty exactly when no app name matches a key |
| StoreService.FirstWithKey | StoreService.cs:92-93 | `FirstOrDefault` by key is the first entry with that key, and null exactly when none has it |
| StoreService.GetStoreConfigByStoreName | StoreService.cs:71-96 | an empty list gives null. Otherwise: the Crall flags hold exactly when their key is present; Klarna holds exactly when one of its three keys is present; Templates is set only when its key is present; the only failure is an unconvertible canceled-order id |
| StoreService.FirstEntriesWin | StoreService.cs:92-93 | the canceled-order id is 0 without its key, 0 when the first such entry's value is null (`Convert.ToInt32(null)`), and otherwise the conversion of that value; Templates is the first `TEMPLATE_NAME` entry's value |
| StoreService.ExampleInstalledApps | StoreServiceTests.cs:497 | the test configuration lists DIGITAL_PRODUCTS_ACTIVE and KLARNA_CHECKOUT_V3_STATUS, in that order |
| StoreService.ConfigurationExample | StoreServiceTests.cs:467-498 | the test configuration yields Crall search only, Klarna installed, canceled-order id 4 and the two apps |
| StoreService.SubtractPosRevenueFromEstore | StoreService.cs:98-114 | with point-of-sale figures, adding them back restores each of the nine web-store figures; without them, the record is unchanged; nothing but revenue changes |
| StoreService.SubtractUnique | StoreService.cs:100-111 | the subtracted revenue is the only one that adds back to the original |
| StoreService.SubtractExample | StoreServiceTests.cs:512-537 | 100, 300, 500, 750 and 750 minus 0, 50, 100, 200 and 200 gives 100, 250, 400, 550 and 550 |
| StoreService.NormalizeDateSignedUp | StoreService.cs:37-40 | the sign-up date becomes null exactly when it is null or `DateTime.MinValue`; otherwise it is kept |
| StoreService.GeneralUpdates | StoreService.cs:35-40 | the revenue subtraction and the date rule act on disjoint fields and commute |
| StoreService.MinAdminId | StoreService.cs:132 | the minimum admin id occurs in the list and bounds every contact's id |
| StoreService.MarkAdmin | StoreService.cs:133-139 | exactly the contacts with the minimum id get the flag set; the others are unchanged |
| StoreService.ProcessContacts | StoreService.cs:116-141 | one result per valid contact |
| StoreService.ProcessContactsSpec | StoreService.cs:116-141 | the result is the valid contacts in input order; ids and details are kept; a contact is flagged exactly when it was already flagged or has the minimum id; a non-empty result has a flagged contact |
| StoreService.ProcessContactsExample | StoreServiceTests.cs:501-564 | of contacts 1 and 2, only contact 1 becomes the default marketing contact |
| Json.IndexOfIgnoreCase | JTokenExtensions.cs:91 | `GetValue(path, IgnoreCase)` finds the first property whose name matches ignoring case, and none exactly when no name matches |
| JTokenExtensions.MergeValue | JTokenExtensions.cs:25-29 | a merged value is an object exactly when the right-hand value is one |
| JTokenExtensions.MergeValueLookup | JTokenExtensions.cs:25-29 | merging two objects: a name only on the left keeps its value, a name only on the right is added, and a name on both sides gets the merged value |
| JTokenExtensions.MergePropsDistinct | JTokenExtensions.cs:25-29 | merging into an object with distinct names keeps the names distinct |
| JTokenExtensions.MergeWith | JTokenExtensions.cs:8-32 | both sides empty gives null; one empty side gives the other; otherwise the merge fails exactly when the left is not an object, and a non-object right side leaves the left as it is |
| JTokenExtensions.MergeWithProperty | JTokenExtensions.cs:25-31 | the property-by-property outcome: a right scalar, array or null overrides, left-only properties survive, right-only ones are added, and nested objects merge |
| JTokenExtensions.ArraysReplaced | JTokenExtensions.cs:27 | an array on the right replaces the left array wholesale |
| JTokenExtensions.NullMergeExample | JTokenExtensionsTests.cs:72-88 | an explicit null Id on the right overwrites "123"; LastName and FirstName come from the right; Contact is kept from the left |
| JTokenExtensions.SelectTokenCaseInsensitive | JTokenExtensions.cs:88-93 | a null token is a null reference, and a non-object fails the cast. Otherwise the result is null exactly when no top-level name matches ignoring case; an exact match wins, and failing that the first property whose name matches ignoring case |
| JTokenExtensions.IsNullOrEmpty | JTokenExtensions.cs:34-39 | a token is null or empty exactly when it is missing, JSON null, an array or object without values, or a string whose text is empty; booleans and numbers never are |
| JTokenExtensions.SelectExample | JTokenExtensionsTests.cs:91-104 | "lastname" finds the LastName value and "nonExistingNode" finds nothing |
| JTokenExtensions.WalkNode | JTokenExtensions.cs:64-69 | a null node visits nothing |
| JTokenExtensions.WalkExact | JTokenExtensions.cs:64-86 | a property is visited exactly when it occurs in some object nested in the token, including objects inside arrays |
| JTokenExtensions.WalkPropsExact | JTokenExtensions.cs:71-78 | an object's walk visits exactly its properties and everything beneath them |
| JTokenExtensions.WalkItemsExact | JTokenExtensions.cs:79-85 | an array's walk visits exactly what lies beneath its items |
| JTokenExtensions.WalkPreorder | JTokenExtensions.cs:73-77 | each property is visited before the properties beneath it, which follow it in visit order |
| JTokenDictionary.GetValues | JTokenDictionary.cs:21 | the lookup fails with `KeyNotFoundException` exactly when the key was never added; otherwise it returns the list stored under the key |
| JTokenDictionary.GetValuesAt | JTokenDictionary.cs:21 | looking up a present key returns its list |
| JTokenDictionary.Add | JTokenDictionary.cs:11-19 | a new key gets a list at the end of the key order; the value is appended to the key's list; no other key changes |
| JTokenDictionary.AddExisting | JTokenDictionary.cs:13-18 | adding under a present key appends to its list in place |
| JTokenDictionary.AddNew | JTokenDictionary.cs:13-18 | adding under a new key appends an entry holding just that value |
| JTokenDictionary.RemoveFirst | JTokenDictionary.cs:42 | `List.Remove` deletes the first occurrence of a present value, so one copy fewer remains, and leaves a list without it unchanged |
| JTokenDictionary.RemoveFirstOrder | JTokenDictionary.cs:42 | the values that remain after `List.Remove` keep their order |
| JTokenDictionary.Distinct | JTokenDictionary.cs:31 | the `GroupBy(x => x)` keys are the values of the list, each once |
| JTokenDictionary.Duplicates | JTokenDictionary.cs:31-34 | the duplicate values are exactly those occurring more than once, each listed once |
| JTokenDictionary.RemoveEachSpec | JTokenDictionary.cs:38-44 | removing each duplicate from a list deletes the first occurrence of each duplicate present and nothing else, keeping the order |
| JTokenDictionary.DropFirstsRemove | JTokenDictionary.cs:42 | after the first occurrences of some values are gone, `List.Remove` of one more present value deletes its first occurrence as well |
| JTokenDictionary.RemoveDuplicateValues | JTokenDictionary.cs:23-46 | keys and their order are unchanged |
| JTokenDictionary.RemoveDuplicateValuesSpec | JTokenDictionary.cs:23-46 | each list loses its first occurrence of each value that occurs more than once across all lists; nothing else is lost and the order is kept |
| JTokenDictionary.UniqueValueKept | JTokenDictionary.cs:31-34 | a value occurring at most once across all lists is never removed |
| JTokenDictionary.ExampleBuild | JTokenDictionaryTests.cs:15-19 | adding a, b, c under one key and c, d under another gives the two lists in order |
| JTokenDictionary.ExampleRemoval | JTokenDictionaryTests.cs:20 | removing duplicates from {a, b, c} and {c, d} gives {a, b} and {d} |
| JTokenDictionary.ExampleUnitTest | JTokenDictionaryTests.cs:12-24 | for two distinct keys the lists end with 2 and 1 values, and neither contains "c" |
| StringExtensions.Truncate | StringExtensions.cs:5-18 | the call throws `ArgumentOutOfRangeException` at `Remove` exactly when `length` is negative and the input is non-empty; otherwise null or empty input gives null, and any other result is a prefix of the input, equal to it when short enough and of exactly `length` characters when longer |
| StringExtensions.TruncateIdempotent | StringExtensions.cs:7-17 | for `length >= 1` truncating never throws, and truncating twice is truncating once |
| StringExtensions.TruncateZero | StringExtensions.cs:7-17 | `length = 0` maps a non-empty string to "", and truncating "" again gives null |

## Left out

- XML parsing, the HTTP trigger, stream reading and logging. The run receives the parse outcome, and the parser's error message stands for `XmlException.Message`.
- The async repository calls in `StoreService`, and storing a store through `IAsyncCollector`.
- `double` and `decimal` arithmetic. `Math.Round(x, 2)`, `Convert.ToDouble`, `Convert.ToInt32` and `DateTime.TryParse` with `"yyyy-MM-dd"` formatting are parameters (`Conversions`), so the model does not fix their behaviour.
- The bodies of `CanonicalInterimHoursValidator` and `ContactValidator`, and the contents of `MystoreApps.FriendlyNames`, are not part of this model. They are parameters: a rule list, a predicate and a list of app names.
- The exception message of a failing number conversion comes from the runtime. It is a parameter of `Pipeline.Run`.
- `ConvertWholeNumberFloatsToInteger` relies on float modulo and `RemoveProperty` on library path queries, so neither is modelled.
- The other functions of the repository are not part of this model: state-item hashing, the SOAP upsert, CSV validation, customer validation, and the `MergeJson` HTTP wrapper.
- Text.EqualsIgnoreCase: folds ASCII letters only. Culture-aware case folding (`CurrentCultureIgnoreCase`, `InvariantCultureIgnoreCase`) is not modelled.
- JTokenExtensions.WalkNode: states only which properties are visited and in what order. The effects of the action are not modelled.
- JTokenExtensions.MergeWith: returns the merged value. The in-place update of the left token is not modelled. Neither is the fact that the caller can still observe the left token afterwards.
- StoreService.ProcessContacts: returns new contact values. That the C# code flips the flag on objects shared with its input list is not modelled.
- StoreService.SubtractPosRevenueFromEstore: only the nine revenue figures are named. Every other field of `GeneralInfo` is an opaque `details` value.
- JTokenDictionary.Add: keys are opaque values compared by the token's own equality, which is reference identity for objects and arrays and value equality for scalar values. A C# null key, which throws, is not modelled.
- JTokenDictionary.GetValues: a C# null key, which throws `ArgumentNullException`, is not modelled.
- StoreService.GetStoreConfigByStoreName: the configuration list is a value, so a null `configStats`, which throws `ArgumentNullException` at `ToList` (`StoreService.cs:75`), is not modelled. The list comes from the repository, which is not part of this model.
- StoreService.ProcessContacts: a null contact list, which throws when enumerated (`StoreService.cs:120`), is not modelled, for the same reason.
- StoreService.SubtractPosRevenueFromEstore: a null `generalInfo` is not modelled. With point-of-sale figures present it throws at `StoreService.cs:102`; without them it is returned as null.
- Text.Clip: lengths count Unicode scalar values, not the UTF-16 code units of C# `Length` and `Substring`. A cut that falls inside a surrogate pair is not modelled.
- StringExtensions.Truncate: lengths count Unicode scalar values, not UTF-16 code units. A cut inside a surrogate pair, which leaves a lone surrogate in C#, is not modelled.
- JTokenExtensions.SelectTokenCaseInsensitive: the final `SelectToken(jTokenValue.Path)` (`JTokenExtensions.cs:92`) is taken to return the property value just found. Names that do not survive the JSON-path round trip, such as "$" or "*", are not modelled.
- JTokenDictionary.RemoveDuplicateValues: `Dictionary.Values` is enumerated in insertion order. This holds for a dictionary without removals, which is the only kind this class builds.
