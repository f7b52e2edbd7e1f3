# Contract request handling of the IDS connector

This project models the step of the connector's Camel routes that answers an IDS
`ContractRequestMessage`: `ContractRequestProcessor.process`. The step reads the
inbound exchange and rewrites it as the reply, in this order:

1. It deserialises the message body as a `ContractRequest`.
2. It takes the requested artifact from the target of the request's first permission.
3. It replaces the IDSCP2 header with a `ContractResponseMessageBuilder`. The builder's
   correlation message is the id of the inbound `ContractRequestMessage`.
4. It splits the exchange's container-URI property on runs of `\s`, trims each piece and
   turns each into a URI.
5. It builds a `ContractOffer` and makes its serialisation the new body.

The offer is built as follows:

- Its date and start are "now".
- Its end is "now" with the year field raised by one.
- It holds one USE permission per container, in order.
- Each permission is pinned with a `SYSTEM SAME_AS <container>` reference constraint.
- Each permission also carries one shared constraint, `POLICY_EVALUATION_TIME LT now + 3 600 000 ms`.

There are five files:

- `wrappers.dfy`: `Option` and `Result`.
- `calendar.dfy`: the calendar timestamp.
  - Adding a duration carries into the day, month and year.
  - `year += 1` changes only the year.
  - A millisecond ordinal serves as the reference for both of these operations.
- `text.dfy`: Kotlin's `split(Regex("\\s+"))` and `String.trim()`, with their round trips.
- `infomodel.dfy`: the subset of the IDS information model the step builds.
- `contract_request.dfy`: the processor. It contains:
  - the pure offer synthesis;
  - the spec function `Handle`, which describes one whole turn, failures included;
  - the `Exchange` class;
  - the imperative `Process` method. `Process` is proved to leave the exchange exactly as `Handle` says.

Code outside the step is passed in as parameters. `Collaborators` bundles three of them as
function values:

- the information-model serializer, in both directions;
- the syntax check that `URI.create` performs.

The clock reading is the `now` parameter.

Each exception the Kotlin code can raise with debug logging off is a value of `Error`.
Each one is raised exactly when its step is the first to fail, in source order. The model
records what each one leaves behind:

- The serializer rejecting the body, an empty permission list (`permission[0]`) and a
  missing header (`.id` of null) all happen before the header is written. They leave the
  exchange untouched.
- A missing property (`.toString()` of null), a malformed piece (`URI.create`) and a
  serializer failure all happen after the header is written. They leave the new header in
  place and the old body unchanged.

Two behaviours of the code are modelled as written:

- **No "no scopes" error.** `split` always gives at least one piece. An empty property
  gives one empty container URI, and a non-empty property made only of `\s` gives two.
  Neither is a "no scopes" error. If `URI.create` rejects the empty text, the error is a
  malformed URI instead (`EmptyPropertyIsOneContainer`, `BlankPropertyIsTwoContainers`).
- **`contractEnd` is not normalised.** It is the year field raised by one. From 29 February
  it names no existing date (`AddYearValid`).

## Model

Every source cell below refers to
`camel-processors/src/main/kotlin/de/fhg/aisec/ids/camel/processors/ContractRequestProcessor.kt`.

| member | source | states |
|---|---|---|
| Calendar.AddMillis | camel-processors/src/main/kotlin/de/fhg/aisec/ids/camel/processors/ContractRequestProcessor.kt:82-84 | adding a duration to a valid timestamp gives a valid timestamp, strictly later when the duration is positive |
| Calendar.AddMillisExact | camel-processors/src/main/kotlin/de/fhg/aisec/ids/camel/processors/ContractRequestProcessor.kt:82-84 | the carried result lies exactly `d` milliseconds after the original on the millisecond ordinal |
| Calendar.BeforeIsOrdinalOrder | camel-processors/src/main/kotlin/de/fhg/aisec/ids/camel/processors/ContractRequestProcessor.kt:89-93 | field-by-field chronological order between valid timestamps holds exactly when their ordinals are ordered |
| Calendar.AddYear | camel-processors/src/main/kotlin/de/fhg/aisec/ids/camel/processors/ContractRequestProcessor.kt:93 | only the year changes, and it goes up by one; the result is strictly later |
| Calendar.AddYearValid | camel-processors/src/main/kotlin/de/fhg/aisec/ids/camel/processors/ContractRequestProcessor.kt:93 | the year-raised timestamp is a valid date exactly when the original is not 29 February |
| Calendar.AddYearDays | camel-processors/src/main/kotlin/de/fhg/aisec/ids/camel/processors/ContractRequestProcessor.kt:93 | when valid, the end lies one calendar year after the start: 365 or 366 days, depending on which February lies between them |
| Text.IsRegexSpace | camel-processors/src/main/kotlin/de/fhg/aisec/ids/camel/processors/ContractRequestProcessor.kt:73 | the default `\s` class of Java regular expressions: space, tab, line feed, vertical tab, form feed and carriage return, all ASCII, so no Unicode space is a separator |
| Text.IsWhitespace | camel-processors/src/main/kotlin/de/fhg/aisec/ids/camel/processors/ContractRequestProcessor.kt:74 | Kotlin's `Char.isWhitespace()`: the ASCII separators and controls 0x1C-0x1F, every Unicode space, line and paragraph separator, the no-break spaces included; not U+0085, U+180E, U+200B or U+FEFF |
| Text.RegexSpaceIsWhitespace | camel-processors/src/main/kotlin/de/fhg/aisec/ids/camel/processors/ContractRequestProcessor.kt:73-74 | every `\s` character is also removed by `trim()` |
| Text.Split | camel-processors/src/main/kotlin/de/fhg/aisec/ids/camel/processors/ContractRequestProcessor.kt:73 | at least one piece; no piece holds a `\s` character; the first piece is empty exactly when the text is empty or starts with `\s`; no inner piece is empty |
| Text.SplitJoin | camel-processors/src/main/kotlin/de/fhg/aisec/ids/camel/processors/ContractRequestProcessor.kt:73 | splitting pieces joined with single spaces gives back the same pieces |
| Text.JoinSplit | camel-processors/src/main/kotlin/de/fhg/aisec/ids/camel/processors/ContractRequestProcessor.kt:73 | joining the pieces of a single-spaced text with spaces gives back the text |
| Text.NoSpaceIsOnePiece | camel-processors/src/main/kotlin/de/fhg/aisec/ids/camel/processors/ContractRequestProcessor.kt:73 | a text without `\s` is one piece, itself |
| Text.Collapse | camel-processors/src/main/kotlin/de/fhg/aisec/ids/camel/processors/ContractRequestProcessor.kt:73 | the independent reference: each maximal `\s` run replaced by one space; empty exactly when the input is, and it starts with a space exactly when the input starts with `\s` |
| Text.CollapseSingleSpaced | camel-processors/src/main/kotlin/de/fhg/aisec/ids/camel/processors/ContractRequestProcessor.kt:73 | in the collapsed text every `\s` run is a single plain space |
| Text.SplitCollapse | camel-processors/src/main/kotlin/de/fhg/aisec/ids/camel/processors/ContractRequestProcessor.kt:73 | for every text, of any run lengths and any `\s` characters: its pieces are those of its collapsed form, and joining them with single spaces gives the collapsed form; with `SplitJoin`, this fixes `Split` on every input |
| Text.TrimStart | camel-processors/src/main/kotlin/de/fhg/aisec/ids/camel/processors/ContractRequestProcessor.kt:74 | the result is a suffix; every dropped character satisfies `isWhitespace`; the first kept character does not |
| Text.TrimEnd | camel-processors/src/main/kotlin/de/fhg/aisec/ids/camel/processors/ContractRequestProcessor.kt:74 | the result is a prefix; every dropped character satisfies `isWhitespace`; the last kept character does not |
| Text.Trim | camel-processors/src/main/kotlin/de/fhg/aisec/ids/camel/processors/ContractRequestProcessor.kt:74 | never longer than the input; neither end of the result is whitespace |
| Text.TrimIsInfix | camel-processors/src/main/kotlin/de/fhg/aisec/ids/camel/processors/ContractRequestProcessor.kt:74 | the trimmed text is a contiguous part of the input, and only whitespace surrounds it |
| Text.TrimIdempotent | camel-processors/src/main/kotlin/de/fhg/aisec/ids/camel/processors/ContractRequestProcessor.kt:74 | trimming twice is trimming once |
| ContractRequestProcessor.TrimAll | camel-processors/src/main/kotlin/de/fhg/aisec/ids/camel/processors/ContractRequestProcessor.kt:74 | the pieces keep their number and order, and each one is trimmed |
| ContractRequestProcessor.WellFormedPrefix | camel-processors/src/main/kotlin/de/fhg/aisec/ids/camel/processors/ContractRequestProcessor.kt:74 | `URI.create` accepts every text before the returned index and rejects the text at that index |
| ContractRequestProcessor.ContainerUris | camel-processors/src/main/kotlin/de/fhg/aisec/ids/camel/processors/ContractRequestProcessor.kt:72-75 | a failure is always a malformed-URI error; a success holds one URI per piece of the split property, in order, each the trimmed piece, and at least one |
| ContractRequestProcessor.TrimmedPiecesWellFormed | camel-processors/src/main/kotlin/de/fhg/aisec/ids/camel/processors/ContractRequestProcessor.kt:74 | the accepted prefix covers all pieces exactly when every trimmed piece is accepted |
| ContractRequestProcessor.ContainerUrisWellFormed | camel-processors/src/main/kotlin/de/fhg/aisec/ids/camel/processors/ContractRequestProcessor.kt:72-75 | the container URIs parse exactly when every trimmed piece of the property is a well-formed URI (both directions) |
| ContractRequestProcessor.ContainerUrisReportsFirstMalformed | camel-processors/src/main/kotlin/de/fhg/aisec/ids/camel/processors/ContractRequestProcessor.kt:72-75 | the error names the first trimmed piece `URI.create` rejects; every piece before it is accepted |
| ContractRequestProcessor.EmptyPropertyIsOneContainer | camel-processors/src/main/kotlin/de/fhg/aisec/ids/camel/processors/ContractRequestProcessor.kt:72-75 | an empty property yields exactly one container, the empty URI, when `URI.create` accepts the empty text, and a malformed-URI error naming the empty text otherwise |
| ContractRequestProcessor.LeadingSpaceGivesEmptyContainer | camel-processors/src/main/kotlin/de/fhg/aisec/ids/camel/processors/ContractRequestProcessor.kt:72-75 | a property starting with `\s` yields at least two containers, the first the empty URI |
| ContractRequestProcessor.BlankPropertyIsTwoContainers | camel-processors/src/main/kotlin/de/fhg/aisec/ids/camel/processors/ContractRequestProcessor.kt:72-75 | a non-empty property made only of `\s` yields exactly two containers, both the empty URI, when `URI.create` accepts the empty text, and a malformed-URI error naming the empty text otherwise |
| ContractRequestProcessor.TimeConstraint | camel-processors/src/main/kotlin/de/fhg/aisec/ids/camel/processors/ContractRequestProcessor.kt:77-88 | the constraint is POLICY_EVALUATION_TIME LT a date-time-stamp typed literal |
| ContractRequestProcessor.TimeConstraintBound | camel-processors/src/main/kotlin/de/fhg/aisec/ids/camel/processors/ContractRequestProcessor.kt:82-84 | the literal is a valid timestamp strictly after the contract date, exactly 3 600 000 ms after it |
| ContractRequestProcessor.SystemConstraint | camel-processors/src/main/kotlin/de/fhg/aisec/ids/camel/processors/ContractRequestProcessor.kt:102-106 | the constraint is SYSTEM SAME_AS a reference to the given URI |
| ContractRequestProcessor.OfferPermissions | camel-processors/src/main/kotlin/de/fhg/aisec/ids/camel/processors/ContractRequestProcessor.kt:95-112 | one permission per container, in order; each targets the artifact, has actions exactly `[USE]` and has exactly two constraints: its container's SYSTEM constraint, then the shared time constraint |
| ContractRequestProcessor.SynthesizeOffer | camel-processors/src/main/kotlin/de/fhg/aisec/ids/camel/processors/ContractRequestProcessor.kt:89-113 | date and start are both "now"; the end is "now" with only the year raised by one, and it is strictly after the start; permissions are the per-container permissions, sharing `TimeConstraint(now)` |
| ContractRequestProcessor.OfferTurn | camel-processors/src/main/kotlin/de/fhg/aisec/ids/camel/processors/ContractRequestProcessor.kt:72-121 | the already-written response header stays; each failure is raised after the header and leaves the body as it was; a missing property is reported exactly when the property is absent; a malformed-URI error exactly when the URIs do not parse, and it is their error; a serializer failure exactly when the URIs parse and the serializer rejects the offer; success exactly when all three steps pass, and the new body is then the serialised offer |
| ContractRequestProcessor.Handle | camel-processors/src/main/kotlin/de/fhg/aisec/ids/camel/processors/ContractRequestProcessor.kt:52-121 | each error before the header is raised exactly when its step fails first: an undeserialisable body, then an empty permission list, then a missing ContractRequestMessage header; once all three pass, the turn is the offer turn for the first permission's target with a response correlated with the inbound id; success holds exactly when the request is accepted and the offer is delivered; every failure keeps the body; the header stays unchanged exactly when the failure is raised before the response is written |
| ContractRequestProcessor.HandleLaterFailures | camel-processors/src/main/kotlin/de/fhg/aisec/ids/camel/processors/ContractRequestProcessor.kt:72-121 | for a whole turn: a missing property, a malformed URI and a serializer failure are each reported exactly when the request is accepted and that step is the first to fail |
| ContractRequestProcessor.SuccessfulTurn | camel-processors/src/main/kotlin/de/fhg/aisec/ids/camel/processors/ContractRequestProcessor.kt:47-122 | after a successful turn, the response's correlation message is the inbound id and the body serialises an offer with one permission per split piece; permission i targets the first requested permission's artifact, is pinned to trimmed piece i and carries the shared time constraint |
| ContractRequestProcessor.TwoContainerOffer | camel-processors/src/main/kotlin/de/fhg/aisec/ids/camel/processors/ContractRequestProcessor.kt:72-111 | two well-formed container URIs separated by a space give exactly those two containers and exactly the two expected permissions, in order |
| ContractRequestProcessor.Process | camel-processors/src/main/kotlin/de/fhg/aisec/ids/camel/processors/ContractRequestProcessor.kt:47-122 | writes only the exchange's header and body; afterwards the header, the body and the reported exception are exactly as `Handle` prescribes for the old header and body |

## Left out

- Serialisation: the JSON-LD serializer is foreign code. Its two directions are function
  parameters (`Collaborators`), so the model says nothing about the text of the
  serialised offer. The same holds for the header serialisation that is only logged.
- URI syntax: what `URI.create` accepts is the `isUri` parameter. A URI is its own string
  form, on the assumption that `URI.create(s).toString()` gives `s` back.
- The clock and the calendar construction (`System.currentTimeMillis`,
  `Idscp2Utils.createGregorianCalendarTimestamp`): "now" is a parameter. The model also
  leaves out time-zone offsets and the separate hour, minute and second fields, which are
  folded into the milliseconds of the day.
- `ContractRequestProcessor.TimeConstraint`: states its bound as a timestamp value. It
  does not state the lexical form that `toString()` gives the literal.
- `Calendar.AddYear`: models `year += 1` without any leap-day normalisation. From
  29 February the end is an invalid date, and `AddYearValid` makes this explicit.
- Logging, including the offer id logged at line 117, is left out. With debug logging
  off it has no effect on the exchange.
- The debug-only serialisation of the response header at line 66 is left out. With debug
  logging on, a serializer failure there would abort the turn before the header is
  written, with an exception `Error` does not hold.
- Camel plumbing: the model keeps the header, the body and the container-URI property,
  and leaves out the rest of `Exchange`, `Message` and `Processor`. The property is held
  in its `toString()` form.
- The information model: only the classes, fields and enumeration values the step uses
  are modelled. A request permission's target is never null in the model.
- Idempotence of the offer synthesis needs no lemma, since every function here is pure.
  `Process` itself is not idempotent: it consumes the request body.
- `ContractOfferProcessor`, `InfoModelService`, the policy-engine test, the attestation
  server and the web UI module are not part of this model.
