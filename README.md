# Prisoner search document translator

A Dafny model of the translator in the HMPPS prisoner search indexer. `Prisoner.translate`
builds the search document for one prisoner from four inputs:

- a NOMIS booking record (`OffenderBooking`);
- the outcome of the incentives lookup, a `kotlin.Result` holding a nullable incentive review;
- optional restricted-patient data;
- a previously indexed document, consulted only for its current incentive.

The private extension `toCurrentIncentive` turns an incentive review into the document's
`CurrentIncentive`, with the timestamp cut to whole seconds.

Modules:

- `Wrappers`: `Option` (Kotlin nullability), `OrElse` (Kotlin `?:`) and `Result` (`kotlin.Result`).
- `KotlinText`: the Kotlin and JVM library behaviour the translator relies on.
  - `isNullOrBlank`, with the JVM whitespace set.
  - `uppercase`, for a comparison with `"YES"`.
  - `toIntOrNull`: optional sign, decimal digits, 32-bit range.
  - `Long.toString`.
  - string templates, where a null renders as `null`.
- `JavaTime`: `LocalDate` as an opaque day number; `LocalDateTime` with its `nano` field and `withNano`.
- `Services`, `Nomis`: the input records (incentive review, restricted patient, booking and its parts).
- `Incentives`: `CurrentIncentive`, `toCurrentIncentive` and the three-way incentive decision of translator.kt line 120.
- `FieldMapping`: one function per expression of `translate`, and the lemmas about them.
  - first-match lookups
  - alias and active-alert mapping
  - the characteristics dispatch, last entry wins
  - the marks partition
  - override-date precedence
  - booking-id guards
  - the restricted-patient location overlay
- `Translator`: the `Prisoner` document, the two `forEach` loops as `while` loops (`ApplyCharacteristics`, `FileMarks`) and `Translate`.

`Translate` takes the receiver as a value and returns the updated document. Its contract gives every
field of the result in terms of the inputs. It makes explicit which fields depend on the receiver's
prior state:

- The seven characteristic fields (hair, both eye colours, facial hair, face, build, shoe size) keep the
  receiver's value when no non-blank entry of their type exists.
- The four mark lists (tattoos, scars, marks, other marks) are extended from the receiver's lists.

Every other field is overwritten from the inputs.

Three behaviours of the code are worth noting:

- The code carries the receiver's prior characteristic values and mark lists into the result. It does
  not build a fresh document. Translated into a fresh `Prisoner()` (`Translator.EmptyPrisoner`), each
  mark list is null or exactly its category's marks, and a characteristic without an entry stays null
  (`Translator.FreshMarkList`, `Translator.FreshCharacteristic`). A document translated a second time
  from the same booking keeps its characteristics (`FieldMapping.CharacteristicsReapplied`) but has
  every mark twice (`FieldMapping.AppendAllTwice`).
- A booking without a `bookingId` is not rejected. `bookingId` becomes null. With the entry ids of the
  offence history and the sentence terms taken as non-null (see "## Left out"), no offence is then
  chosen as most serious, and `indeterminateSentence` is false whenever terms are present.
- `indeterminateSentence` is null, not false, when the sentence-terms list is null. An empty list
  gives false.

The canonical short and long PNC forms (`canonicalPNCNumberShort`/`Long`) are not part of this model.
They are the two functions of a parameter, `Services.PncCanonicaliser`. Kotlin's field name `type` is
a Dafny keyword and appears as `typeCode`.

## Model

| member | source | states |
|---|---|---|
| Translator.Translate | src/main/kotlin/uk/gov/justice/digital/hmpps/prisonersearchindexer/model/translator.kt:11-123 | every field of the result. Scalars are copied from the booking or read through a null nested record. Identifiers, profile, aliases, alerts, dates, offence, sentence and restricted-patient fields come from their `FieldMapping` functions. Characteristics come from the receiver's values and the last non-blank entry of each type. Mark lists are the receiver's lists plus the filed marks of each category. The incentive is resolved against the existing document's incentive |
| Translator.TranslateDeterministic | src/main/kotlin/uk/gov/justice/digital/hmpps/prisonersearchindexer/model/translator.kt:11-123 | the contract of `Translate` fixes every field: translating the same inputs into the same receiver twice gives the same document |
| Translator.CharacteristicsToApply | src/main/kotlin/uk/gov/justice/digital/hmpps/prisonersearchindexer/model/translator.kt:48 | the characteristics the loop visits are the non-blank ones of the list, in source order and with repeats, so the last one of each type decides; none for a null list |
| Translator.MarksToFile | src/main/kotlin/uk/gov/justice/digital/hmpps/prisonersearchindexer/model/translator.kt:59 | the marks the loop visits: the list itself, none for a null list |
| Translator.HospitalId | src/main/kotlin/uk/gov/justice/digital/hmpps/prisonersearchindexer/model/translator.kt:115 | the discharge hospital's agency id, non-null exactly when there is restricted-patient data with a hospital |
| Translator.FreshMarkList | src/main/kotlin/uk/gov/justice/digital/hmpps/prisonersearchindexer/model/translator.kt:59-68 | a fresh document has null mark lists; filing into one gives null when the category gets nothing and exactly the category's marks otherwise |
| Translator.FreshCharacteristic | src/main/kotlin/uk/gov/justice/digital/hmpps/prisonersearchindexer/model/translator.kt:48-58 | a fresh document has null characteristics; one without a non-blank entry of its type stays null, shoe size included |
| Translator.ApplyCharacteristics | src/main/kotlin/uk/gov/justice/digital/hmpps/prisonersearchindexer/model/translator.kt:48-58 | the loop leaves every field but the seven characteristic ones unchanged. Each of those is the detail of the last entry of its type, the shoe size parsed with `toIntOrNull`, or the prior value when the type has no entry |
| Translator.FileMarks | src/main/kotlin/uk/gov/justice/digital/hmpps/prisonersearchindexer/model/translator.kt:59-68 | the loop leaves every field but the four mark lists unchanged. Each list is the prior list extended, in source order, by the marks of its category that have a body part. A null list with something to add becomes that list |
| Translator.AppendAllStep | src/main/kotlin/uk/gov/justice/digital/hmpps/prisonersearchindexer/model/translator.kt:62-65 | appending one more detail with `plus ?: listOf` extends the accumulated list by that detail |
| Incentives.ToCurrentIncentive | src/main/kotlin/uk/gov/justice/digital/hmpps/prisonersearchindexer/model/translator.kt:125-131 | a review gives an incentive exactly when it is non-null. The level is (iepCode, iepLevel), the next review date is copied, and the time is the review time in the same second with nano 0 |
| Incentives.ResolveIncentive | src/main/kotlin/uk/gov/justice/digital/hmpps/prisonersearchindexer/model/translator.kt:120 | a failed lookup gives exactly the existing incentive. A success with no review gives null. A success with a review gives the converted review. The result is non-null iff a review was found or the lookup failed with an existing incentive |
| Incentives.ExistingOnlyOnFailure | src/main/kotlin/uk/gov/justice/digital/hmpps/prisonersearchindexer/model/translator.kt:120 | on a successful lookup the existing document's incentive has no influence on the result |
| Incentives.SnapshotStable | src/main/kotlin/uk/gov/justice/digital/hmpps/prisonersearchindexer/model/translator.kt:125-131 | converting a review whose time is already truncated yields the same incentive again |
| Incentives.FallbackScenarios | src/main/kotlin/uk/gov/justice/digital/hmpps/prisonersearchindexer/model/translator.kt:120 | Failure with an existing STD incentive keeps it unchanged. Success(null) gives null despite it. Failure with no existing document gives null |
| JavaTime.WithNano | src/main/kotlin/uk/gov/justice/digital/hmpps/prisonersearchindexer/model/translator.kt:129 | `withNano(n)` sets the sub-second part to n and keeps date, hour, minute and second |
| JavaTime.TruncationIdempotent | src/main/kotlin/uk/gov/justice/digital/hmpps/prisonersearchindexer/model/translator.kt:129 | truncating twice is truncating once, and a whole-second time is already truncated |
| KotlinText.Uppercase | src/main/kotlin/uk/gov/justice/digital/hmpps/prisonersearchindexer/model/translator.kt:74 | upper-casing keeps the length |
| KotlinText.UppercaseIsYes | src/main/kotlin/uk/gov/justice/digital/hmpps/prisonersearchindexer/model/translator.kt:74 | a value upper-cases to "YES" iff it has three letters y/Y, e/E, s/S/long s |
| KotlinText.ToIntOrNull | src/main/kotlin/uk/gov/justice/digital/hmpps/prisonersearchindexer/model/translator.kt:56 | a parsed shoe size lies within the 32-bit `Int` range |
| KotlinText.ToIntOrNullOnlyNumerals | src/main/kotlin/uk/gov/justice/digital/hmpps/prisonersearchindexer/model/translator.kt:56 | for every string: only digits, or a sign followed by digits, can parse; everything else gives null |
| KotlinText.ToIntOrNullNumeralValue | src/main/kotlin/uk/gov/justice/digital/hmpps/prisonersearchindexer/model/translator.kt:56 | for every numeral, unsigned or signed: it parses to its value when that fits an `Int`, and to null otherwise |
| KotlinText.NonNumericIsNull | src/main/kotlin/uk/gov/justice/digital/hmpps/prisonersearchindexer/model/translator.kt:56 | "abc", "", "-" and " 9" parse to null, not to an error |
| KotlinText.OverflowIsNull | src/main/kotlin/uk/gov/justice/digital/hmpps/prisonersearchindexer/model/translator.kt:56 | 2147483648, one past the largest `Int`, parses to null |
| KotlinText.IsWhitespace | src/main/kotlin/uk/gov/justice/digital/hmpps/prisonersearchindexer/model/translator.kt:48 | space, tab and newline are whitespace; digits and ASCII letters are not |
| KotlinText.IsBlank | src/main/kotlin/uk/gov/justice/digital/hmpps/prisonersearchindexer/model/translator.kt:48 | the empty string is blank; a string starting with a digit is not |
| KotlinText.NullOrBlankCases | src/main/kotlin/uk/gov/justice/digital/hmpps/prisonersearchindexer/model/translator.kt:48 | facts of `IsNullOrBlank`: a null or empty detail counts as blank; one starting with a digit does not |
| KotlinText.NatToDigits | src/main/kotlin/uk/gov/justice/digital/hmpps/prisonersearchindexer/model/translator.kt:14 | the decimal text of a number is non-empty, all digits, without a leading zero |
| KotlinText.LongToString | src/main/kotlin/uk/gov/justice/digital/hmpps/prisonersearchindexer/model/translator.kt:14 | the text of a booking id is its decimal notation: the digits of its absolute value without leading zeros, after '-' exactly for a negative id, and they read back as that absolute value |
| KotlinText.NatToDigitsInjective | src/main/kotlin/uk/gov/justice/digital/hmpps/prisonersearchindexer/model/translator.kt:14 | two numbers with the same decimal digits are equal |
| KotlinText.DigitsRoundTrip | src/main/kotlin/uk/gov/justice/digital/hmpps/prisonersearchindexer/model/translator.kt:14 | reading back the decimal digits of n gives n |
| KotlinText.LongToStringInjective | src/main/kotlin/uk/gov/justice/digital/hmpps/prisonersearchindexer/model/translator.kt:14 | two booking ids with the same text are equal |
| KotlinText.Render | src/main/kotlin/uk/gov/justice/digital/hmpps/prisonersearchindexer/model/translator.kt:102 | a template renders a value as itself and a null as "null" |
| FieldMapping.FirstIndex | src/main/kotlin/uk/gov/justice/digital/hmpps/prisonersearchindexer/model/translator.kt:15 | `firstOrNull`: there is no match iff no element satisfies the predicate, otherwise the index found matches and no earlier one does |
| FieldMapping.FirstOrNull | src/main/kotlin/uk/gov/justice/digital/hmpps/prisonersearchindexer/model/translator.kt:15-20 | null iff no element matches; otherwise the element found is in the list and matches |
| FieldMapping.IdentifierValue | src/main/kotlin/uk/gov/justice/digital/hmpps/prisonersearchindexer/model/translator.kt:15-20 | a non-null value is the value of some identifier of the type in the list |
| FieldMapping.CanonicalPnc | src/main/kotlin/uk/gov/justice/digital/hmpps/prisonersearchindexer/model/translator.kt:16-19 | null without a PNC value; otherwise the canonical form of that value |
| FieldMapping.FirstOrNullAt | src/main/kotlin/uk/gov/justice/digital/hmpps/prisonersearchindexer/model/translator.kt:15 | an element that matches, with no match before it, is the one found |
| FieldMapping.FirstOrNullIgnoresLater | src/main/kotlin/uk/gov/justice/digital/hmpps/prisonersearchindexer/model/translator.kt:15-20 | once a list has a match, appending more entries does not change what is found |
| FieldMapping.IdentifierValueIsFirst | src/main/kotlin/uk/gov/justice/digital/hmpps/prisonersearchindexer/model/translator.kt:15-20 | the PNC/CRO value is that of the first identifier of the type, and null when there is none |
| FieldMapping.IdentifierDuplicateIgnored | src/main/kotlin/uk/gov/justice/digital/hmpps/prisonersearchindexer/model/translator.kt:15-20 | a later identifier of a type already present is ignored |
| FieldMapping.NoPncNoCanonical | src/main/kotlin/uk/gov/justice/digital/hmpps/prisonersearchindexer/model/translator.kt:15-19 | without identifiers or without a PNC entry, the PNC number and both canonical forms are null |
| FieldMapping.ProfileValueIsFirst | src/main/kotlin/uk/gov/justice/digital/hmpps/prisonersearchindexer/model/translator.kt:70-72 | nationality, religion and marital status come from the first profile entry of their type |
| FieldMapping.ProfileValue | src/main/kotlin/uk/gov/justice/digital/hmpps/prisonersearchindexer/model/translator.kt:70-72 | a non-null value is the result value of some profile entry of the type |
| FieldMapping.YouthOffender | src/main/kotlin/uk/gov/justice/digital/hmpps/prisonersearchindexer/model/translator.kt:73-74 | the flag is true only when a YOUTH value of three characters exists |
| FieldMapping.YouthOffenderMeaning | src/main/kotlin/uk/gov/justice/digital/hmpps/prisonersearchindexer/model/translator.kt:73-74 | the youth flag is true iff the first YOUTH value is "yes" in some letter case. It is false, never null, otherwise |
| FieldMapping.Aliases | src/main/kotlin/uk/gov/justice/digital/hmpps/prisonersearchindexer/model/translator.kt:38-39 | aliases are null iff the source list is null. Otherwise they have the same length and order, with each alias's names, date of birth, gender and ethnicity copied |
| FieldMapping.ActiveOnly | src/main/kotlin/uk/gov/justice/digital/hmpps/prisonersearchindexer/model/translator.kt:41 | filtering never lengthens the list |
| FieldMapping.ActiveOnlyKeepsActive | src/main/kotlin/uk/gov/justice/digital/hmpps/prisonersearchindexer/model/translator.kt:41 | an alert is kept iff it is in the source and active, with its multiplicity; inactive alerts occur zero times |
| FieldMapping.ActiveOnlyConcat | src/main/kotlin/uk/gov/justice/digital/hmpps/prisonersearchindexer/model/translator.kt:41 | filtering distributes over concatenation, so source order is kept |
| FieldMapping.AllActiveKept | src/main/kotlin/uk/gov/justice/digital/hmpps/prisonersearchindexer/model/translator.kt:41 | a list of active alerts passes the filter unchanged |
| FieldMapping.MapAlerts | src/main/kotlin/uk/gov/justice/digital/hmpps/prisonersearchindexer/model/translator.kt:41 | one document alert per source alert, at the same position, with type, code and flags copied |
| FieldMapping.ToPrisonerAlert | src/main/kotlin/uk/gov/justice/digital/hmpps/prisonersearchindexer/model/translator.kt:41 | type, code and both flags of the alert are copied |
| FieldMapping.Alerts | src/main/kotlin/uk/gov/justice/digital/hmpps/prisonersearchindexer/model/translator.kt:40-41 | document alerts are null iff the source list is null. All of them are active, every active source alert appears, and the list is the active alerts converted one by one, so the `ActiveOnly` and `MapAlerts` facts carry over |
| FieldMapping.AlertsFromActive | src/main/kotlin/uk/gov/justice/digital/hmpps/prisonersearchindexer/model/translator.kt:40-41 | every document alert is the conversion of an active source alert |
| FieldMapping.AlertsConcat | src/main/kotlin/uk/gov/justice/digital/hmpps/prisonersearchindexer/model/translator.kt:40-41 | the alerts of two joined lists are those of each in turn, so source order and repeats are kept |
| FieldMapping.NotBlank | src/main/kotlin/uk/gov/justice/digital/hmpps/prisonersearchindexer/model/translator.kt:48 | skipping blank details never lengthens the list |
| FieldMapping.NotBlankMembers | src/main/kotlin/uk/gov/justice/digital/hmpps/prisonersearchindexer/model/translator.kt:48 | an entry survives iff its detail is neither null nor blank |
| FieldMapping.NotBlankConcat | src/main/kotlin/uk/gov/justice/digital/hmpps/prisonersearchindexer/model/translator.kt:48 | skipping blanks distributes over concatenation, so order is kept |
| FieldMapping.LastIndex | src/main/kotlin/uk/gov/justice/digital/hmpps/prisonersearchindexer/model/translator.kt:48-58 | the entry that decides a field under last-write-wins: none iff no entry matches, otherwise a match with no match after it |
| FieldMapping.LastIndexAt | src/main/kotlin/uk/gov/justice/digital/hmpps/prisonersearchindexer/model/translator.kt:48-58 | a match with no match after it is the deciding entry |
| FieldMapping.DetailAfter | src/main/kotlin/uk/gov/justice/digital/hmpps/prisonersearchindexer/model/translator.kt:48-55 | a field without an entry of its type keeps the prior value; a changed field holds the detail of some entry of its type |
| FieldMapping.ShoeSizeAfter | src/main/kotlin/uk/gov/justice/digital/hmpps/prisonersearchindexer/model/translator.kt:56 | without a SHOESIZE entry the shoe size keeps the prior value; a changed non-null shoe size lies in the `Int` range |
| FieldMapping.DetailAfterStep | src/main/kotlin/uk/gov/justice/digital/hmpps/prisonersearchindexer/model/translator.kt:49-55 | one more entry overwrites its own type's field and no other |
| FieldMapping.ShoeSizeAfterStep | src/main/kotlin/uk/gov/justice/digital/hmpps/prisonersearchindexer/model/translator.kt:56 | one more SHOESIZE entry sets the shoe size to its parsed detail; other entries leave it |
| FieldMapping.LastNonBlankDecides | src/main/kotlin/uk/gov/justice/digital/hmpps/prisonersearchindexer/model/translator.kt:48-57 | over the original list, the last non-blank entry of a type decides its field (shoe size parsed), whatever blank entries of the type follow it |
| FieldMapping.NoEntryKeepsPrior | src/main/kotlin/uk/gov/justice/digital/hmpps/prisonersearchindexer/model/translator.kt:48-58 | a type with no non-blank entry leaves the receiver's value, shoe size included |
| FieldMapping.CharacteristicsReapplied | src/main/kotlin/uk/gov/justice/digital/hmpps/prisonersearchindexer/model/translator.kt:48-58 | applying the same characteristics twice gives the same fields as once |
| FieldMapping.ShoeSizeScenario | src/main/kotlin/uk/gov/justice/digital/hmpps/prisonersearchindexer/model/translator.kt:48-56 | "9" then "abc" then a blank: the blank is skipped and "abc" makes the shoe size null, replacing the prior 42 without an error |
| FieldMapping.AppendAll | src/main/kotlin/uk/gov/justice/digital/hmpps/prisonersearchindexer/model/translator.kt:62-65 | repeated `plus ?: listOf` leaves a list alone when nothing is added. Otherwise the result is the prior list (empty if null) followed by the new details |
| FieldMapping.Plus | src/main/kotlin/uk/gov/justice/digital/hmpps/prisonersearchindexer/model/translator.kt:62-65 | one `plus ?: listOf` always gives a list: the prior list (empty if null) followed by the detail |
| FieldMapping.AppendAllTwice | src/main/kotlin/uk/gov/justice/digital/hmpps/prisonersearchindexer/model/translator.kt:59-68 | filing the same details twice duplicates them, so a mark list is not stable under re-translation |
| FieldMapping.MarksOf | src/main/kotlin/uk/gov/justice/digital/hmpps/prisonersearchindexer/model/translator.kt:59-67 | a category never receives more details than there are marks |
| FieldMapping.MarksOfStep | src/main/kotlin/uk/gov/justice/digital/hmpps/prisonersearchindexer/model/translator.kt:60-66 | one more mark adds its detail to its own category when it has a body part, and nothing otherwise |
| FieldMapping.MarksPartition | src/main/kotlin/uk/gov/justice/digital/hmpps/prisonersearchindexer/model/translator.kt:59-67 | the four lists together hold exactly as many details as there are marks with a body part and a known category. Each such mark is filed once |
| FieldMapping.UnfiledMarkDropped | src/main/kotlin/uk/gov/justice/digital/hmpps/prisonersearchindexer/model/translator.kt:60-66 | a mark without a body part or of an unknown type reaches none of the four lists |
| FieldMapping.FiledMarkAppended | src/main/kotlin/uk/gov/justice/digital/hmpps/prisonersearchindexer/model/translator.kt:60-66 | a filed mark is appended to its own category's list and to no other |
| FieldMapping.OverridePrecedence | src/main/kotlin/uk/gov/justice/digital/hmpps/prisonersearchindexer/model/translator.kt:93-98 | each of the three release dates is the override when present and the calculated date otherwise. All three are null without a sentence detail |
| FieldMapping.AutomaticReleaseDate | src/main/kotlin/uk/gov/justice/digital/hmpps/prisonersearchindexer/model/translator.kt:93-94 | a non-null date needs a sentence detail and is its override or its calculated date |
| FieldMapping.PostRecallReleaseDate | src/main/kotlin/uk/gov/justice/digital/hmpps/prisonersearchindexer/model/translator.kt:95-96 | a non-null date needs a sentence detail and is its override or its calculated date |
| FieldMapping.ConditionalReleaseDate | src/main/kotlin/uk/gov/justice/digital/hmpps/prisonersearchindexer/model/translator.kt:97-98 | a non-null date needs a sentence detail and is its override or its calculated date |
| FieldMapping.MostSeriousOffence | src/main/kotlin/uk/gov/justice/digital/hmpps/prisonersearchindexer/model/translator.kt:105-106 | a chosen offence is the description of a most-serious entry of this booking. Nothing is chosen without a booking id or without a history |
| FieldMapping.MostSeriousOffenceIsFirst | src/main/kotlin/uk/gov/justice/digital/hmpps/prisonersearchindexer/model/translator.kt:105-106 | the first most-serious entry of this booking is the one chosen |
| FieldMapping.MostSeriousOffenceScenario | src/main/kotlin/uk/gov/justice/digital/hmpps/prisonersearchindexer/model/translator.kt:105-106 | for booking 5, Theft is chosen over Fraud of booking 6, in either order |
| FieldMapping.AnyLifeSentenceFor | src/main/kotlin/uk/gov/justice/digital/hmpps/prisonersearchindexer/model/translator.kt:111 | `any`: true iff some term is a life sentence of this booking |
| FieldMapping.IndeterminateSentence | src/main/kotlin/uk/gov/justice/digital/hmpps/prisonersearchindexer/model/translator.kt:111 | null iff the sentence-terms list is null (an empty list gives false). Otherwise it is true iff some term is a life sentence with this booking's id. Without a booking id it is false, the ids of the terms being taken as non-null |
| FieldMapping.LocationDescription | src/main/kotlin/uk/gov/justice/digital/hmpps/prisonersearchindexer/model/translator.kt:101-103 | without restricted-patient data the location is the booking's. With it the location is never null |
| FieldMapping.HospitalDescription | src/main/kotlin/uk/gov/justice/digital/hmpps/prisonersearchindexer/model/translator.kt:102-116 | the discharge hospital's description when there is restricted-patient data with a hospital, and null otherwise |
| FieldMapping.LocationOverlay | src/main/kotlin/uk/gov/justice/digital/hmpps/prisonersearchindexer/model/translator.kt:101-103 | a restricted patient's location is the rendered booking location, then " - discharged to ", then the rendered hospital description |
| FieldMapping.LocationOverlayNulls | src/main/kotlin/uk/gov/justice/digital/hmpps/prisonersearchindexer/model/translator.kt:101-103 | with no location and no hospital the text is "null - discharged to null" |

## Left out

- Translator.Translate: the receiver is a value passed in and the result a new value. In-place update of the receiver is not modelled, and neither is aliasing between the receiver and `existingPrisoner`, which only supplies its incentive. Kotlin's default of null for `existingPrisoner` is a caller passing `None`. The receiver is a value, so every field's dependence on its prior state appears in the contract.
- IncentivesService (the HTTP call, the 404-to-null mapping and the 20-second blocking timeout) is I/O. It appears only through its outcome, `Result<Option<IncentiveLevel>>`. The exception inside a Kotlin `Failure` is not kept, because the translator discards it.
- The canonical PNC functions are not part of this model. They appear as two total functions of a parameter.
- KotlinText.ToIntOrNull: accepts only ASCII digits. The JVM also accepts other Unicode decimal digits.
- KotlinText.Uppercase: maps only ASCII letters and U+017F. That is every character that can upper-case into "YES", which is the only comparison the translator makes.
- Calendar arithmetic on `LocalDate`/`LocalDateTime` is not needed: dates are only copied, and times only truncated.
- Nullability of the unshown types (`Prisoner`, `OffenderBooking` and its parts, `RestrictedPatient`) is assumed:
  - Every field of the booking itself, of its living unit, physical attributes and sentence detail, and of the restricted-patient data is nullable.
  - Non-null by how the translator uses them: `active` of an alert, `mostSerious` of an offence and `lifeSentence` of a sentence term, each tested as a condition.
  - Non-null by assumption: `type` of identifiers, characteristics, marks and profile entries; `alertType`, `alertCode` and `expired` of an alert; `bookingId` and `offenceDescription` of an offence; `bookingId` of a sentence term; `agencyId` of the discharge hospital.
  - Translator.EmptyPrisoner: a new `Prisoner()` is taken to start with every field the translator writes null and `restrictedPatient` false. `Translator.FreshMarkList` and `Translator.FreshCharacteristic` rest on this.
  - FieldMapping.MostSeriousOffence / FieldMapping.IndeterminateSentence: the entry ids are compared with Kotlin `==`, which holds for two nulls. If entry ids were nullable, a booking without an id would match the entries without one. The clauses saying that a booking without an id chooses no offence and gives `indeterminateSentence` false rest on the non-null assumption.
  - FieldMapping.MostSeriousOffence: because `offenceDescription` is non-null here, the model cannot show a chosen entry with a null description giving a null `mostSeriousOffence`.
- Fields of `Prisoner` that the translator does not write are not modelled.
- Elasticsearch and OpenAPI annotations on `CurrentIncentive` are serialisation metadata and are not modelled.
