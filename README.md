# Registration validator of the KURUKSHETRA festival backend

The backend takes a college's team registration as one JSON object through
`POST /register`. The object holds three identity fields (college name,
coordinator name, coordinator phone) and one field per participant slot of
the event catalog. Before anything is stored, `register()` checks the
submission:

- It trims the identity fields and checks them.
- It walks the 27 catalog slots in order. Every slot that names someone
  becomes an `(event, name)` entry. Dance and Mad Ad entries are counted on
  the way, by key prefix.
- It applies the cardinality rules:
  - Dance needs 5 to 7 participants;
  - Mad Ad needs exactly 6;
  - each of the ten single or dual events needs exactly its 1 or 2.
- If any check failed, it answers with every error, in checking order.

The project models this validation pass and proves what it promises.

- `text.dfy` (module `Text`) models the Python string built-ins involved:
  - `str.strip()` with Python's white-space set;
  - `str.isdigit()` over ASCII digits;
  - `str(n)` for a count.
- `catalog.dfy` (module `Catalog`) holds the catalog and the count rules.
  - `EventFields` lists the 27 slots.
  - `ExactRules` lists the exact-count rules, Mad Ad first.
  - Lemmas check the catalog's shape.
- `validation.dfy` (module `Validation`) holds the submission, entry, error
  and outcome types.
  - Functions specify the pass: `Collect`, `Count`, `CheckErrors`,
    `ValidationOutcome` and `Message`.
  - The imperative `Register` method follows the source statement by
    statement. It builds the error list by appending. Its
    `CollectParticipants` loop updates the two counters as the source
    does. It is proved equal to `ValidationOutcome`.
- `participant_properties.dfy` covers the participant list:
  - its order and its bounds;
  - that blank, null and unknown event fields do not matter.
- `error_properties.dfy` covers the error list:
  - which check each error comes from;
  - each check reports exactly when it fails;
  - the strict checking order;
  - at most fifteen errors.
- `outcome_properties.dfy` covers:
  - acceptance;
  - the size of an accepted registration;
  - how a null identity field reads;
  - the count carried in each error text.
- `wrappers.dfy` holds `Option`.

A submission is a `map<string, Option<string>>`. `None` stands for a JSON
`null`, and a key that is not in the map is absent.

The identity fields and the event fields read `null` differently, and the
model keeps that difference:
- An identity field is read as `str(data.get(key, ""))`. A `null` there
  becomes the text `"None"`, which is not empty (`IdentityText`,
  `NullCollegeNameIsNotMissing`).
- An event field treats `null` as empty.

Errors are a datatype that carries the event, the required count and the
actual count. `Validation.Message` renders each one as the exact text the
endpoint returns.

The code has fifteen checks:
- three identity checks;
- Dance;
- Mad Ad;
- ten single or dual events.

`Validation.IsValidPhone` follows `is_valid_phone` as written. It gets the
already-trimmed contact, as `register()` passes it, and its `if not phone`
guard is kept.

## Model

| member | source | states |
|---|---|---|
| Catalog.EventFields | app.py:43-56 | No contract; defines `EVENT_FIELDS` as its 27 (form key, event) slots, in source order. Its properties are `SlotWellFormed`, `CatalogCountedByPrefix` and the range lemmas below. |
| Catalog.DanceMin | app.py:110 | No contract; the smallest number of Dance participants accepted, 5. |
| Catalog.DanceMax | app.py:110 | No contract; the largest number of Dance participants accepted, 7. |
| Catalog.ExactRules | app.py:112-148 | No contract; defines the eleven exact-count checks as (event, required count) pairs, in the order the source tests them. `ExactRulesSpelledOut` lists them, `RuleEventsDistinct` and `RequiredTotalIsTwenty` are about them. |
| Catalog.SlotWellFormed | app.py:43-56 | The catalog has 27 slots. In each one, the key starts with "dance" exactly for Dance slots and with "madAd" exactly for Mad Ad slots. Each event is one of the twelve catalog events, and no slot key is an identity key. |
| Catalog.CatalogCountedByPrefix | app.py:43-56 | Every catalog slot agrees with its key prefix, which is what makes the prefix counters count events. |
| Catalog.EventNamesDistinct | app.py:43-56 | The twelve catalog event names are pairwise distinct. |
| Catalog.EventNamesMatchRules | app.py:110-148 | The catalog events are Dance followed by the events of the exact-count rules, in rule order. |
| Catalog.RuleEventsDistinct | app.py:112-148 | No two exact-count rules are about the same event, and none is about Dance. |
| Catalog.RequiredTotalIsTwenty | app.py:112-148 | The exact-count rules require 20 participants in all. |
| Text.IsSpace | app.py:61 | No contract; defines Python's `str.isspace` for one character by listing its 29 white-space code points (also used by the trimming at app.py:78-80 and 101). |
| Text.IsDigit | app.py:62 | No contract; defines a digit as one of the ASCII characters '0' to '9', the part of Python's `str.isdigit` the model covers (the rest is under Left out). |
| Text.LeadingEnd | app.py:61 | Returns where the white-space run starting at `i` ends: everything from `i` up to it is white space, and either it is the end of the string or the character there is not white space. |
| Text.TrailingStart | app.py:61 | Returns where the trailing white space ending at `j` starts, going no further left than `lo`: everything from there up to `j` is white space, and either it is `lo` or the character before it is not white space. |
| Text.StripTrimmed | app.py:61 | What `strip` leaves is no longer than its argument and neither starts nor ends with white space. |
| Text.StripIsSlice | app.py:61 | What `strip` leaves is a contiguous slice of its argument, with only white space cut off on either side. |
| Text.StripIdempotent | app.py:78-80 | Trimming twice is trimming once. |
| Text.StripEmptyIff | app.py:83-86 | A value trims to the empty string exactly when it is all white space. |
| Text.Strip | app.py:61 | No contract; defines Python's `s.strip()` (also used at app.py:78-80 and 101) as the slice between `LeadingEnd` and `TrailingStart`. Its properties are `StripTrimmed`, `StripIsSlice`, `StripIdempotent` and `StripEmptyIff`. |
| Text.StartsWith | app.py:104-107 | No contract; defines Python's `s.startswith(p)` character by character. |
| Text.StartsWithIsPrefix | app.py:104-107 | `StartsWith(s, p)` holds exactly when `p` is no longer than `s` and is its first `|p|` characters, which is what `str.startswith` means. |
| Text.IsDigitString | app.py:62 | No contract; defines Python's `s.isdigit()` over the ASCII digits: non-empty, and every character a digit. |
| Text.NatToString | app.py:111 | `str(n)` is a non-empty digit string without leading zeros, and it is one digit long exactly when `n < 10`. |
| Text.DecimalRoundTrip | app.py:111 | Reading back the decimal text of a count gives the count. |
| Text.TrailingDigits | app.py:111 | Returns the longest run of digits at the end of a string. |
| Text.TrailingDigitsOfSuffix | app.py:111 | Digits written after a non-digit are exactly the trailing digit run. |
| Validation.IsValidPhone | app.py:58-62 | A contact is valid exactly when, after trimming, it is ten characters long and all of them are digits. An empty contact is therefore invalid. |
| Validation.IdentityText | app.py:78-80 | No contract; defines `str(data.get(key, ""))` for an identity key: a missing key reads as "", a null as "None", a string as itself. |
| Validation.IdentityField | app.py:78-80 | No contract; defines an identity field as `IdentityText` trimmed. |
| Validation.SlotValue | app.py:96-101 | No contract; defines a slot's name: a missing key or a null reads as "", any other value is trimmed. |
| Validation.SlotEntries | app.py:102-103 | No contract; defines what one slot adds: the entry `(event, name)` when the name is non-empty, nothing otherwise. |
| Validation.Collect | app.py:91-103 | No contract; defines the participant list of a slot list: the entries of its slots, in slot order. Its properties are `CollectFollowsSlots`, `FilledExactly` and `CollectEntriesWellFormed`. |
| Validation.Participants | app.py:91-103 | No contract; defines the participant list of a submission as `Collect` over the catalog. |
| Validation.Count | app.py:115-126 | No contract; defines the number of entries of one event, as the source's `sum(1 for e, _ in participants if e == event)`. |
| Validation.IdentityErrors | app.py:82-88 | No contract; defines the identity errors: college name, coordinator name and contact, each present when its check fails. Characterised by `IdentityReport` and `IdentityErrorsOrdered`. |
| Validation.DanceErrors | app.py:110-111 | No contract; defines the Dance error: `DanceOutOfRange(count)` when the Dance count is outside `DanceMin..DanceMax`. Characterised by `DanceReport`. |
| Validation.RuleCheck | app.py:112-148 | No contract; defines one exact-count check: `CountMismatch(event, required, count)` when the count differs from the required one, nothing otherwise. |
| Validation.RuleErrors | app.py:112-148 | No contract; defines the errors of the first `k` exact-count rules, in rule order. Characterised by `RuleErrorsReport`, `RuleErrorsExact`, `RuleErrorsOrdered` and `RuleErrorsEmpty`. |
| Validation.CheckErrors | app.py:82-148 | No contract; defines the whole error list: identity errors, then the Dance error, then the exact-count errors. Characterised by `ErrorsOrdered`, `ErrorsCarryActualCounts` and `NoErrorsIff`. |
| Validation.Errors | app.py:78-148 | No contract; defines the error list of a submission: `CheckErrors` of its trimmed identity fields and its participant list. |
| Validation.ValidationOutcome | app.py:78-151 | No contract; defines the outcome: rejected with the errors when there are any, accepted with the trimmed identity fields and the participant list otherwise. Characterised by `AcceptIff`; `Register` is proved equal to it. |
| Validation.Message | app.py:84-148 | No contract; defines the text of each error as the source writes it: the three identity texts, the Dance range text, and `"<event> must have exactly <n> participant(s) (got <count>)"` with "participant" when exactly one is required. `MessageReportsCount` proves that each text reports the count its error carries. |
| Validation.CheckIdentity | app.py:82-88 | Appends the college-name, the coordinator-name and the contact error, in that order, each exactly when its check fails. |
| Validation.CollectParticipants | app.py:91-107 | The loop builds the entry list of the slot walk. Its invariant keeps `danceCount` and `madAdCount` equal to the number of collected Dance and Mad Ad entries, given that every slot's key prefix agrees with its event. |
| Validation.CheckExact | app.py:129-130 | One exact-count check appends its error, carrying the actual count, exactly when the count differs from the required one. |
| Validation.CheckCounters | app.py:110-113 | Appends the Dance error when the Dance counter is outside 5..7, then the Mad Ad error when the Mad Ad counter is not 6. |
| Validation.CheckEventCounts | app.py:114-148 | Counts each single or dual event over the participant list, then appends one error for each event whose count is off, in checking order. |
| Validation.Register | app.py:78-151 | The imperative pass returns exactly `ValidationOutcome(data)`. It rejects with the full error list when any check fails. Otherwise it accepts the trimmed identity fields and the participant list. |
| ParticipantProperties.CollectFollowsSlots | app.py:95-103 | There is one entry per slot that names someone, in slot order. The `t`-th entry is the event and trimmed name of the `t`-th such slot. |
| ParticipantProperties.FilledBounded | app.py:95-103 | The slots that contributed are no more numerous than the slots, and each is a slot position. |
| ParticipantProperties.FilledIncreasing | app.py:95 | Contributing slots are taken in increasing catalog order, so each slot contributes at most once. |
| ParticipantProperties.FilledAt | app.py:96-103 | A slot contributes an entry if and only if its trimmed value is non-empty. |
| ParticipantProperties.FilledExactly | app.py:96-103 | For every slot, the slot contributes if and only if it names someone. |
| ParticipantProperties.CollectEntriesWellFormed | app.py:101-103 | Every collected entry has a non-empty trimmed name and an event taken from the slot list. |
| ParticipantProperties.ParticipantsWellFormed | app.py:43-56 | Every participant has a non-empty, already-trimmed name and a catalog event, and there are at most 27 participants. |
| ParticipantProperties.CollectIgnoresKey | app.py:95-96 | The walk reads only the slot keys, so any other key leaves it unchanged. |
| ParticipantProperties.SameReadingsSameOutcome | app.py:78-151 | The outcome depends only on how the three identity keys read and on the collected participants. |
| ParticipantProperties.IdentityTextIgnoresKey | app.py:78-80 | Setting or removing one key leaves the reading of every other identity key unchanged. |
| ParticipantProperties.UnknownKeysIgnored | app.py:78-107 | A key that is neither a catalog key nor an identity key never changes the outcome, whatever its value. |
| ParticipantProperties.CollectBlankIsMissing | app.py:96-102 | In the walk, a null or all-white-space value reads like a missing key. |
| ParticipantProperties.BlankValuesAreMissing | app.py:96-102 | For any key but the identity keys, a null or all-white-space value gives the same outcome as a missing key. |
| ErrorProperties.IndexFromRule | app.py:129-148 | With distinct rule events, searching for the event of rule `i` finds rule `i`. |
| ErrorProperties.RuleErrorsBound | app.py:129-148 | The first `k` exact rules add at most `k` errors. |
| ErrorProperties.RuleErrorsIndexRange | app.py:112-148 | Every error of the first `k` exact rules is a count error of one of those rules. |
| ErrorProperties.RuleErrorsOrdered | app.py:112-148 | Count errors come in strictly increasing rule order. |
| ErrorProperties.RuleErrorsReport | app.py:112-148 | Among the first `k` rules, rule `i`'s error with count `g` is reported if and only if `g` is that event's count and differs from the required one. |
| ErrorProperties.RuleErrorsExact | app.py:129-148 | Every error of the first `k` exact rules is the mismatch of one of those rules that fails, with its event, its required count and the count actually found. |
| ErrorProperties.IdentityReport | app.py:82-88 | The college-name and the coordinator-name errors are reported if and only if the trimmed field is empty. The contact error is reported if and only if the phone check fails, whatever the reason. |
| ErrorProperties.DanceReport | app.py:110-111 | The Dance error with count `g` is reported if and only if `g` is the Dance count and that count is outside 5..7. |
| ErrorProperties.RuleReport | app.py:112-148 | For each of the eleven exact-count events, the error with count `g` is reported if and only if `g` is the event's count and differs from the required one. |
| ErrorProperties.ErrorsCarryActualCounts | app.py:110-148 | In the whole error list, a Dance error carries the Dance count, and that count is outside 5..7. Every other count error is the mismatch of a failing exact-count rule, carrying that rule's event, its required count and the count actually found. |
| ErrorProperties.ConcatOrdered | app.py:82-148 | Errors of earlier checks followed by errors of later checks are in check order. |
| ErrorProperties.IdentityErrorsOrdered | app.py:82-88 | The identity errors come in the order college name, coordinator name, contact. |
| ErrorProperties.ErrorsOrdered | app.py:82-148 | The errors come in strictly increasing check order (identity, Dance, Mad Ad, then the ten events), so no check adds two errors and there are at most 15 errors. |
| OutcomeProperties.RuleErrorsEmpty | app.py:112-148 | The first `k` exact rules report nothing if and only if all of them hold. |
| OutcomeProperties.NoErrorsIff | app.py:82-150 | There is no error if and only if both names are non-empty, the contact is valid, Dance has 5 to 7 participants and every exact-count rule holds. |
| OutcomeProperties.AcceptIff | app.py:78-151 | A submission is accepted if and only if every check passes. Then the registration holds the trimmed identity fields and the participant list. Otherwise the rejection carries the whole, non-empty error list. |
| OutcomeProperties.SumCountsAppend | app.py:115-126 | One more entry adds one to the per-event sum if its event is one of the distinct names counted. |
| OutcomeProperties.CountsPartition | app.py:115-126 | When every entry's event is one of distinct names, the per-event counts add up to the number of entries. |
| OutcomeProperties.SumCountsOfEmpty | app.py:115-126 | An empty list counts zero for every event. |
| OutcomeProperties.SumOfHeldRules | app.py:115-148 | When every rule holds, the counts of the rules' events add up to the rules' required total. |
| OutcomeProperties.SizeOfHeldRules | app.py:110-148 | When every rule holds, the list is its Dance entries plus the required total. |
| OutcomeProperties.AcceptedSize | app.py:110-151 | An accepted registration has its Dance participants plus 20 others, so it has between 25 and 27 participants. |
| OutcomeProperties.NullCollegeNameIsNotMissing | app.py:78-84 | A null college name reads as "None" and is not reported missing. An absent one is reported. |
| OutcomeProperties.NoneIsKept | app.py:78-80 | The text "None" survives trimming. |
| OutcomeProperties.ReportsRenderedCount | app.py:111 | A text ending in " (got ", a rendered count and ")" reports that count. |
| OutcomeProperties.DanceMessageReportsCount | app.py:110-111 | The Dance error text reports the Dance count it carries. |
| OutcomeProperties.CountMessageReportsCount | app.py:112-148 | Every exact-count error text reports the count it carries. |
| OutcomeProperties.MessageReportsCount | app.py:82-148 | An error text reports a count exactly when its error carries one, and then it reports that count. |
| OutcomeProperties.ValidPhoneExamples | app.py:58-62 | Example: "9876543210" is a valid contact. |
| OutcomeProperties.PaddedPhoneExample | app.py:58-62 | Example: " 9876543210" followed by a line feed is a valid contact, because the surrounding white space is trimmed. |
| OutcomeProperties.InvalidPhoneExamples | app.py:58-62 | Examples: "98765-4321" (a separator inside), "987654321" (nine digits) and "" are invalid contacts. |

## Left out

- The HTTP layer is not modelled: the Flask routing, the "request must be JSON" check, the invalid-body check and the status codes (app.py:64-76, 151, 177-188). The model starts from a decoded JSON object and ends at the outcome. It does not model that the outcome is returned as a `{"errors": [...]}` response.
- The CORS setup and the environment configuration (app.py:9-26) are process configuration and are not modelled.
- The database part is foreign I/O and is not modelled: `get_db_connection`, the inserts, the two commits (app.py:165, 174) and the cleanup (app.py:28-40, 153-199). There is no rollback: the `finally` block only closes the cursor and the connection, so a participant insert that fails leaves the already committed college row in place. The one fact stateable there is that the reported participant count (returned in the 201 response) equals the length of the participant list (app.py:175). That holds by construction, since `Registration.participants` is that list.
- JSON values other than strings and `null` are not modelled. The source coerces numbers, booleans, arrays and objects with `str()`; the model takes every value as an optional string.
- `Text.IsDigit` accepts only '0'..'9'. Python's `str.isdigit` also accepts other Unicode digit characters, such as Arabic-Indic digits or superscript two; they are not modelled.
- `Text.IsSpace` lists Python's white-space characters explicitly. No other Unicode handling is modelled.
- Validation.CheckEventCounts: the `counts` dictionary of app.py:115-126 becomes ten local variables, one per event. Each holds the same sum over the participant list.
- Mad Ad is modelled as the first exact-count rule because its check has the same form as the others. The model still counts it by the "madAd" key prefix, as the loop does.
- The error strings are modelled as a datatype of error kinds. `Validation.Message` renders each kind as the source's text. The model proves that each text reports the count its error carries; it does not prove the full text of each message.
