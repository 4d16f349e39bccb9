# Party invitations: the CRM export parser and the radius filter

This project models the core of a small TypeScript service that invites
customers to a party:

- **The CRM export parser.** An export holds one customer per line. Each line
  is a list of comma-separated `key: value` fields, and the known keys are
  `id`, `lat` and `long`. The parser reads each line into a three-slot
  accumulator. It turns every problem it meets into a warning. A line whose
  slots all end up filled becomes a customer. The parser appears twice in the
  source, word for word:
  - `CrmExportProvider.extractCustomers`;
  - `CrmExportFile.extractCustomer`.

  Both are modelled by one method, `CrmExportParser.ExtractCustomers`.
  The table below cites whichever copy is clearer. The same code sits in the
  other copy, 41 lines away: `CrmExportProvider.ts` lines 69-177 are
  `CrmExportFile.ts` lines 28-136.
  Reading a file and splitting it at the platform's line terminator is also
  shared, as `CrmExportParser.ReadCustomers`.
- **The id check.** The regular expression
  `[a-z0-9]{8}-[a-z0-9]{4}-[a-z0-9]{4}-[a-z0-9]{4}-[a-z0-9]{8}` is unanchored,
  so a value passes when it *contains* such a token (`CustomerId`).
- **The radius filter of `PartyInvitations.invitedCustomersOrThrow`.** It keeps
  the customers strictly closer than the radius and forwards the warnings
  (`PartyInvitations`).
- **`Distance`.** A kilometre value with a strict `lessThan`.

## Structure

- **JavaScript library behaviour the parser relies on** is written out:
  - `trim`, with ECMAScript's whitespace code points;
  - `split` with a string separator;
  - `Number.parseFloat`, as a longest-decimal-prefix parser with `None`
    standing for NaN (`JsString`, `JsNumber`);
  - the coercion of `undefined` to the text "undefined" before `test` and
    `parseFloat` see it (`CrmExport.ToJsString`).
- **The specification of the parser** is given by functions in `CrmExport`:
  - `StepField`, one call of the `reduce` callback;
  - `ReduceFields`, one line's fields;
  - `StepLine`, one call of the `forEach` callback;
  - `Parse`, the whole export.
- **The accumulator** is the mutable object `CrmExport.CustomerInFile`. Its
  `ApplyField` updates its slots in place.
- **The loops.** `CrmExportParser` holds the loops over the lines and over
  the fields, each proved equal to the specification functions.
- **Reference definitions.** `CrmExportProperties` states what the parser
  guarantees against definitions that do not mention the accumulator:
  - `LastAccepted`, the last field whose value passes its slot's check;
  - `LineCustomer`;
  - counts of warnings by kind;
  - `RepeatedIds`.
- **Radius filter.** In `PartyInvitations` the distance on the globe is a
  function parameter. The outcome of reading the customers is a `Result`.

**Two behaviours of the code worth knowing:**

- **Last valid value wins.** When a key repeats on a line, every later valid
  value overwrites the slot, so the last one is kept (CrmExportProvider.ts
  lines 110, 124 and 138). The repeated-key tests expect this.
  `CrmExportProperties.SlotsHoldLastAccepted` states it. A repeat draws a
  "Multiple" warning only when the slot already holds a value, that is, when
  an earlier occurrence was valid (lines 101, 114 and 128): after
  `id: <invalid>, id: <valid>` there is no such warning.
  `CrmExportProperties.FieldWarningsAccounted` states it, counting the
  "Multiple" warnings with `CrmExportProperties.RepeatCount`.
- **Every colon splits.** A field is split at every colon, and only the first
  two pieces are kept as key and value, so `id: a:b` has the value `a`
  (`CrmExportProperties.KeyValueExtraColons`).

## Model

| member | source | states |
|---|---|---|
| JsString.TrimStartSpec | src/PartyInvitations/CustomersProviders/CrmExportProvider.ts:87-90 | `trimStart` removes exactly the longest whitespace prefix: the result is a suffix that does not start with whitespace, and everything cut off is whitespace |
| JsString.TrimEndSpec | src/PartyInvitations/CustomersProviders/CrmExportProvider.ts:87-90 | `trimEnd` removes exactly the longest whitespace suffix |
| JsString.Trim | src/PartyInvitations/CustomersProviders/CrmExportProvider.ts:89 | `trim` returns a text no longer than its argument, neither end of which is whitespace |
| JsString.TrimSpec | src/PartyInvitations/CustomersProviders/CrmExportProvider.ts:87-90 | `trim` keeps a contiguous piece of the text and drops only whitespace around it; with `Trim`'s own contract, neither end of that piece is whitespace |
| JsString.TrimIdempotent | src/PartyInvitations/CustomersProviders/CrmExportProvider.ts:93-95 | trimming twice is trimming once |
| JsString.TrimAllWhitespace | src/PartyInvitations/CustomersProviders/CrmExportProvider.ts:87-90 | an all-whitespace text trims to the empty string (so it is dropped as a field) |
| JsString.TrimNoOp | src/PartyInvitations/CustomersProviders/CrmExportProvider.ts:87-90 | a text with no whitespace at either end is left alone |
| JsString.TrimLeadingSpace | src/PartyInvitations/CustomersProviders/CrmExportProvider.ts:89 | the space that follows a comma or a colon is trimmed away in front of a field or a value |
| JsString.TrimKeepsOut | src/PartyInvitations/CustomersProviders/CrmExportProvider.ts:89 | `trim` brings in no character the text did not hold |
| JsString.FirstOccurrenceIsFirst | src/PartyInvitations/CustomersProviders/CrmExportProvider.ts:61 | the occurrence `split` cuts at is the leftmost one, and when none is found there is none |
| JsString.Split | src/PartyInvitations/CustomersProviders/CrmExportProvider.ts:61 | `split` always gives at least one piece, even for the empty string |
| JsString.SplitJoin | src/PartyInvitations/CustomersProviders/CrmExportProvider.ts:61 | splitting loses nothing: joining the pieces with the separator gives the text back |
| JsString.SplitPiecesAvoidSeparator | src/PartyInvitations/CustomersProviders/CrmExportProvider.ts:87-88 | no piece of a split contains the separator |
| JsString.SplitWithout | src/PartyInvitations/CustomersProviders/CrmExportProvider.ts:93-95 | a text without the separator character is its own only piece |
| JsString.SplitAt | src/PartyInvitations/CustomersProviders/CrmExportProvider.ts:93-95 | the first piece runs up to the first separator character and the rest is the split of what follows it |
| JsString.SplitCount | src/PartyInvitations/CustomersProviders/CrmExportProvider.ts:93-95 | a split at one character gives a single piece exactly when the text does not hold that character |
| JsString.SplitPiecesAvoidChar | src/PartyInvitations/CustomersProviders/CrmExportProvider.ts:87-88 | no piece of a split at one character holds that character |
| JsString.SplitTerminated | src/PartyInvitations/CustomersProviders/CrmExportProvider.ts:61 | a text ending in a separator that cannot overlap itself splits into the pieces of the text before it plus one empty piece |
| JsNumber.DigitRun | src/PartyInvitations/CustomersProviders/CrmExportProvider.ts:120 | the digit run `parseFloat` reads is all digits and maximal: it ends at the text's end or at a non-digit |
| JsNumber.ParseFloat | src/PartyInvitations/CustomersProviders/CrmExportProvider.ts:120-121 | `Number.parseFloat` is NaN exactly when, after leading whitespace and an optional sign, the text starts with neither `Infinity`, a digit, nor a point followed by a digit |
| JsNumber.ParseUnsignedNaNIff | src/PartyInvitations/CustomersProviders/CrmExportProvider.ts:120-121 | an unsigned decimal prefix exists exactly when the text starts with a digit or with a point and a digit |
| JsNumber.ParseFloatDecimal | src/PartyInvitations/CustomersProviders/CrmExportProvider.ts:120 | `parseFloat` reads a non-negative integer numeral back to its value and ignores trailing text that cannot continue a number |
| JsNumber.ParseFloatExamples | test/PartyInvitations/CustomersProviders/CrmExportProvider.test.ts:11 | `parseFloat("52.1")` is 52.1 |
| JsNumber.ParseFloatRejectsExamples | test/PartyInvitations/CustomersProviders/CrmExportProvider.test.ts:76-108 | `parseFloat("x.1")` and `parseFloat("nope")` are NaN |
| CustomerId.TestFromSpec | src/PartyInvitations/CustomersFile/CrmExportFile.ts:8-9 | the search from an index succeeds exactly when the 8-4-4-4-8 pattern matches at that index or a later one |
| CustomerId.Test | src/PartyInvitations/CustomersProviders/CrmExportProvider.ts:107 | `CUSTOMER_ID_REGEX.test` succeeds exactly when the pattern matches somewhere in the value |
| CustomerId.Unanchored | src/PartyInvitations/CustomersProviders/CrmExportProvider.ts:26-27 | the pattern is unanchored: text before and after a valid id keeps it valid |
| CustomerId.TooShort | src/PartyInvitations/CustomersProviders/CrmExportProvider.ts:26-27 | a value shorter than 32 characters never passes |
| CustomerId.GroupsPass | src/PartyInvitations/CustomersProviders/CrmExportProvider.ts:26-27 | five lower-case alphanumeric groups of lengths 8, 4, 4, 4, 8 joined by hyphens pass |
| CustomerId.ShortFixtureIdFails | test/PartyInvitations/CustomersProviders/CrmExportProvider.test.ts:46 | the shortened id `98765432-1234` fails |
| CrmExport.Eol | src/PartyInvitations/CustomersProviders/CrmExportProvider.ts:61 | the line terminator is never empty |
| CrmExport.EolUnbordered | src/PartyInvitations/CustomersProviders/CrmExportProvider.ts:61 | neither `\n` nor `\r\n` can overlap itself |
| CrmExport.Lines | src/PartyInvitations/CustomersProviders/CrmExportProvider.ts:61 | the lines hold no terminator, and joining them with it gives the file's text back |
| CrmExport.TrimmedAvoids | src/PartyInvitations/CustomersProviders/CrmExportProvider.ts:89-90 | trimming the pieces and dropping the empty ones brings in no character |
| CrmExport.Fields | src/PartyInvitations/CustomersProviders/CrmExportProvider.ts:87-90 | every field of a line is non-empty, trimmed and free of commas |
| CrmExport.KeyValue | src/PartyInvitations/CustomersProviders/CrmExportProvider.ts:93-95 | the key and the value are trimmed and hold no colon, and the value is `undefined` exactly when the field has no colon |
| CrmExport.UndefinedRejected | src/PartyInvitations/CustomersProviders/CrmExportProvider.ts:107-134 | the text `undefined` becomes, when a field has no colon, fails both the id check (line 107) and `parseFloat` (lines 120, 134) |
| CrmExport.StepFieldFills | src/PartyInvitations/CustomersProviders/CrmExportProvider.ts:92-148 | one call of the `reduce` callback never empties a slot, fills at most one, fills an empty one when it pushes no warning, and pushes at most two warnings |
| CrmExport.ReduceFieldsFills | src/PartyInvitations/CustomersProviders/CrmExportProvider.ts:91-153 | a line's fields each fill a slot or draw a warning, and draw at most two each; so filling all three slots takes at least three fields |
| CrmExport.HasId | src/PartyInvitations/CustomersProviders/CrmExportProvider.ts:167 | `customers.some(...)` holds exactly when some earlier customer has the id |
| CrmExport.StepLine | src/PartyInvitations/CustomersProviders/CrmExportProvider.ts:86-173 | a line only appends: earlier customers and warnings stay as they were, at most one customer is added, and a line changes the result exactly when it is non-empty |
| CrmExport.Parse | src/PartyInvitations/CustomersProviders/CrmExportProvider.ts:84-176 | an export never yields more customers than it has lines |
| CrmExport.CustomerInFile.constructor | src/PartyInvitations/CustomersProviders/CrmExportProvider.ts:149-152 | every line starts from an accumulator with all three slots `undefined` |
| CrmExport.CustomerInFile.ApplyField | src/PartyInvitations/CustomersProviders/CrmExportProvider.ts:92-147 | the `reduce` callback updates the slots in place and pushes warnings exactly as `StepField` prescribes |
| CrmExportParser.ReadCustomers | src/PartyInvitations/CustomersProviders/CrmExportProvider.ts:47-64 | a failed read fails with the file's name and the cause, and no customers; otherwise the text is split at the platform's terminator and parsed as `Parse` prescribes (`CrmExportFile.ts` lines 11-26 read the same way) |
| CrmExportParser.ExtractCustomers | src/PartyInvitations/CustomersProviders/CrmExportProvider.ts:69-177 | the loops return exactly the customers and warnings `Parse` gives for the lines, so both copies return the same result for every list of lines |
| CrmExportParser.NonEmpty | src/PartyInvitations/CustomersFile/CrmExportFile.ts:43-44 | the lines kept are exactly the non-empty ones, in order |
| CrmExportParser.AddLine | src/PartyInvitations/CustomersFile/CrmExportFile.ts:45-133 | one line's callback adds exactly what `StepLine` prescribes |
| CrmExportParser.ReduceLine | src/PartyInvitations/CustomersProviders/CrmExportProvider.ts:91-153 | reducing a line's fields into a fresh accumulator gives the slots and pushed warnings of `ReduceFields` |
| CrmExport.TrimmedNonEmpty | src/PartyInvitations/CustomersProviders/CrmExportProvider.ts:89-90 | every piece kept is trimmed and non-empty, and no more fields are kept than there were pieces |
| CrmExportProperties.KeyValueNoColon | src/PartyInvitations/CustomersProviders/CrmExportProvider.ts:93-95 | a field without a colon is all key and has no value (`undefined`) |
| CrmExportProperties.KeyValuePair | src/PartyInvitations/CustomersProviders/CrmExportProvider.ts:93-95 | `key:value` gives the trimmed key and the trimmed value |
| CrmExportProperties.KeyValueExtraColons | src/PartyInvitations/CustomersProviders/CrmExportProvider.ts:93-95 | the field is split at every colon: text after a second colon is dropped |
| CrmExportProperties.StepFieldStores | src/PartyInvitations/CustomersFile/CrmExportFile.ts:58-104 | a field whose value passes its slot's check overwrites that slot; an invalid value or an unknown key leaves the accumulator unchanged |
| CrmExportProperties.SlotFieldPushed | src/PartyInvitations/CustomersProviders/CrmExportProvider.ts:101-139 | a field for a known slot pushes a "Multiple" warning first when the slot is already filled, whatever its own value, and then a rejection when its value fails the check, and nothing else |
| CrmExportProperties.StepFieldDraws | src/PartyInvitations/CustomersProviders/CrmExportProvider.ts:99-145 | the number of warnings of each kind one field pushes; an unknown key pushes exactly one "Unknown data field" warning |
| CrmExportProperties.SlotsHoldLastAccepted | src/PartyInvitations/CustomersProviders/CrmExportProvider.ts:91-153 | after a line, each slot holds the value of the last field accepted for it, or stays `undefined` when none was |
| CrmExportProperties.FilledIff | src/PartyInvitations/CustomersProviders/CrmExportProvider.ts:101-111 | a slot is set exactly when some earlier field was accepted for it |
| CrmExportProperties.KindCountMatches | src/PartyInvitations/CustomersProviders/CrmExportProvider.ts:91-153 | the warnings of a line's fields, counted kind by kind, match the counts read off the fields |
| CrmExportProperties.FieldWarningsAccounted | src/PartyInvitations/CustomersProviders/CrmExportProvider.ts:91-153 | a line's fields draw one "Multiple" warning per field whose slot was already set, one rejection per invalid value, one warning per unknown key, and no line-level warning |
| CrmExportProperties.NonEmptyLines | src/PartyInvitations/CustomersProviders/CrmExportProvider.ts:85 | the lines kept are all non-empty |
| CrmExportProperties.LineAccumulator | src/PartyInvitations/CustomersProviders/CrmExportProvider.ts:155-172 | a line's accumulator is complete exactly when the line yields a customer, and the customer carries its values |
| CrmExportProperties.EmptyLineYieldsNothing | src/PartyInvitations/CustomersProviders/CrmExportProvider.ts:85 | an empty line yields no customer |
| CrmExportProperties.StepLineCustomers | src/PartyInvitations/CustomersProviders/CrmExportProvider.ts:155-173 | a line appends its customer, if it yields one, after the earlier customers |
| CrmExportProperties.StepLineShape | src/PartyInvitations/CustomersProviders/CrmExportProvider.ts:155-173 | a non-empty line adds its fields' warnings, then either the "Incomplete" warning or, when an earlier customer has its id, the duplicate-id warning |
| CrmExportProperties.StepLineIncomplete | src/PartyInvitations/CustomersFile/CrmExportFile.ts:114-123 | a non-empty line adds exactly one "Incomplete" warning when it yields no customer, and none otherwise |
| CrmExportProperties.StepLineDuplicates | src/PartyInvitations/CustomersFile/CrmExportFile.ts:125-131 | a line adds a duplicate-id warning exactly when its customer's id is already taken, naming that id |
| CrmExportProperties.CustomersInLineOrder | src/PartyInvitations/CustomersProviders/CrmExportProvider.ts:84-174 | the customers are those of the lines that fill every slot, one per line, in line order |
| CrmExportProperties.EveryLineAccounted | src/PartyInvitations/CustomersProviders/CrmExportProvider.ts:84-174 | every non-empty line gives either a customer or an "Incomplete" warning, never both; empty lines give neither |
| CrmExportProperties.DuplicateIdsWarned | src/PartyInvitations/CustomersProviders/CrmExportProvider.ts:166-172 | the duplicate-id warnings name, in order, exactly the customers whose id an earlier customer has, and those customers are kept |
| CrmExportProperties.IdsMatchPattern | src/PartyInvitations/CustomersFile/CrmExportFile.ts:66-70 | every returned customer's id passes the id check |
| CrmExportProperties.EmptyLinesIgnored | src/PartyInvitations/CustomersProviders/CrmExportProvider.ts:84-85 | empty lines change nothing: parsing the lines is parsing the non-empty ones |
| CrmExportProperties.BlankLineIncomplete | src/PartyInvitations/CustomersProviders/CrmExportProvider.ts:155-164 | a whitespace-only line is read, has no fields, and draws exactly one "Incomplete" warning with every slot `undefined` |
| CrmExportProperties.PlainField | src/PartyInvitations/CustomersProviders/CrmExportProvider.ts:93-95 | `key: value` with a plain key and value gives exactly that key and value |
| CrmExportProperties.WellFormedSplit | src/PartyInvitations/CustomersProviders/CrmExportProvider.ts:87-88 | the line `id: X, lat: A, long: B` splits at its two commas |
| CrmExportProperties.WellFormedFields | src/PartyInvitations/CustomersProviders/CrmExportProvider.ts:87-90 | the line `id: X, lat: A, long: B` has exactly the three fields `id: X`, `lat: A`, `long: B` |
| CrmExportProperties.WellFormedReduce | src/PartyInvitations/CustomersProviders/CrmExportProvider.ts:91-153 | those three fields, with a valid id and two numbers, fill the three slots and draw no warning |
| CrmExportProperties.CleanLine | src/PartyInvitations/CustomersProviders/CrmExportProvider.ts:165-172 | a line whose fields fill every slot without a warning adds its customer, and only a duplicate-id warning when an earlier customer has its id |
| CrmExportProperties.WellFormedLine | src/PartyInvitations/CustomersProviders/CrmExportProvider.ts:86-173 | a well-formed line `id: X, lat: A, long: B` with a valid id and two numbers adds exactly the customer `X` at `(A, B)`, and no warning unless an earlier customer has the id `X` |
| CrmExportProperties.TrailingTerminatorIgnored | src/PartyInvitations/CustomersProviders/CrmExportProvider.ts:61 | a line terminator at the end of the export changes neither customers nor warnings |
| Distance.NewKm | src/PartyInvitations/Distance.ts:29-31 | `newKm(d).km` is `d` |
| Distance.NewKmLessThan | src/PartyInvitations/Distance.ts:37-39 | distances built by `newKm` compare as their kilometre values do |
| Distance.LessThanIrreflexive | src/PartyInvitations/Distance.ts:37-39 | no distance is less than itself |
| Distance.LessThanAsymmetric | src/PartyInvitations/Distance.ts:37-39 | two distances are never each less than the other |
| Distance.LessThanTransitive | src/PartyInvitations/Distance.ts:37-39 | `lessThan` is transitive |
| Distance.LessThanTotal | src/PartyInvitations/Distance.ts:37-39 | of two different distances, one is less than the other |
| PartyInvitations.WithinRadius | src/PartyInvitations/PartyInvitations.ts:44-50 | the filter never returns more customers than it was given |
| PartyInvitations.InvitedCustomers | src/PartyInvitations/PartyInvitations.ts:34-52 | a failed read fails the call with its cause and returns no customers; otherwise the warnings are forwarded unchanged and the customers filtered |
| PartyInvitations.WithinRadiusMembers | src/PartyInvitations/PartyInvitations.ts:44-50 | a customer is invited exactly when it was read and its distance from the party is strictly less than the radius |
| PartyInvitations.NotWithinRadius | src/PartyInvitations/PartyInvitations.ts:49 | a customer at exactly the radius, or beyond it, is not invited |
| PartyInvitations.WithinRadiusKeepsOrder | src/PartyInvitations/PartyInvitations.ts:44 | the invited customers are a subsequence of the read ones, in their order |
| PartyInvitations.WithinRadiusIdempotent | src/PartyInvitations/PartyInvitations.ts:44-50 | filtering the result again with the same party and radius changes nothing |
| PartyInvitations.WithinRadiusAppend | src/PartyInvitations/PartyInvitations.ts:44-50 | the filter decides customer by customer: filtering a concatenation concatenates the filtered parts |

## Left out

- **Great-circle distance.** The floating-point trigonometry of
  `GreatCircleDistance` is not part of this model. The filter takes the
  distance as a function parameter.
- **Reading files.** `FileProvider.getContent`, `fs.readFile`, promises and
  exceptions are not modelled. What a read gives is an input: its text, or
  the error it raised as a `Result` failure. The thrown `Error`s become
  failure values that carry the same data.
- **The platform's line terminator** (`os.EOL`) is a parameter
  (`CrmExport.Platform`).
- **Warning text.** The exact template strings and `JSON.stringify` of the
  accumulator are not modelled. Neither is how numbers print inside
  warnings. Warnings are a datatype carrying the values the text shows.
- **JsNumber.ParseFloat: number semantics.**
  - It gives exact real values. Rounding to binary64, overflow of very long
    numerals to `Infinity`, and the distinction of `-0` are not modelled.
  - JavaScript numbers are therefore not bounded here.
- **Aliasing of customer objects.** The source pushes the accumulator object
  itself as the customer. The model copies its values into a `Customer`
  value. Each line has a fresh accumulator that is not touched afterwards,
  so no later update is observable through the customer.
- **`src/main.ts`.** The environment variables, console output, exit codes
  and the sort by id are not part of this model.
- **Interfaces and wiring.** `CustomersFileInterface`,
  `CustomersProviderInterface` and `GreatCircleDistanceInterface` carry no
  behaviour. The constructor wiring of `PartyInvitations` is not modelled.
- Distance.LessThanTotal: the kilometre value is a `real`, so NaN and
  infinite distances are not modelled. JavaScript's `number` has them, and
  `lessThan` is false both ways when either side is NaN. The lemma holds only
  for real-valued kilometres. A NaN distance arises in the source when a
  coordinate is `Infinity`, which `parseFloat` accepts, but the great-circle
  distance is not part of this model.
- **Distance.** `Distance` is an immutable datatype, so its stored value
  cannot change after construction. No member states this separately.
