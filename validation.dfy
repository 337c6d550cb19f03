/**
 * The validation pass of the registration endpoint: from a submission to
 * either the ordered list of every rule it breaks or the normalised college
 * identity and participant list that the storage layer then writes.
 */
module Validation {
  import opened Wrappers
  import opened Text
  import opened Catalog

  /** A JSON object as the endpoint receives it, restricted to string values:
      a key maps to `Some(text)`, or to `None` when its value is `null`. */
  type Submission = map<string, Option<string>>

  /** One participant of one event. */
  datatype Entry = Entry(event: string, name: string)

  /** One broken rule. A count error carries the count actually found. */
  datatype ValidationError =
    | CollegeNameRequired
    | CoordinatorNameRequired
    | InvalidContact
    | DanceOutOfRange(got: nat)
    | CountMismatch(event: string, required: nat, got: nat)

  /** What an accepted submission hands on to storage. */
  datatype Registration = Registration(
    collegeName: string,
    coordinatorName: string,
    coordinatorContact: string,
    participants: seq<Entry>)

  datatype Outcome = Rejected(errors: seq<ValidationError>) | Accepted(registration: Registration)

  /** `is_valid_phone`: after trimming, exactly ten decimal digits. */
  function IsValidPhone(phone: string): (ok: bool)
    ensures ok <==> (var p := Strip(phone); |p| == 10 && AllDigits(p))
  {
    if phone == "" then false
    else
      var p := Strip(phone);
      IsDigitString(p) && |p| == 10
  }

  /** `str(data.get(key, ""))` for an identity field: a missing key reads as
      the empty string, but a JSON null is rendered by `str` as "None". This
      differs on purpose from the event fields, where null reads as empty. */
  function IdentityText(data: Submission, key: string): string {
    if key !in data then ""
    else match data[key]
      case None => "None"
      case Some(v) => v
  }

  /** An identity field as the validator sees it: read, then trimmed. */
  function IdentityField(data: Submission, key: string): string {
    Strip(IdentityText(data, key))
  }

  /** The participant name in an event field: missing and null read as empty,
      anything else is trimmed. */
  function SlotValue(data: Submission, key: string): string {
    if key in data && data[key].Some? then Strip(data[key].value) else ""
  }

  /** What one slot contributes: one entry if it names someone. */
  function SlotEntries(data: Submission, slot: Slot): seq<Entry> {
    var name := SlotValue(data, slot.key);
    if name == "" then [] else [Entry(slot.event, name)]
  }

  /** The entries contributed by `fields`, in their order. */
  function Collect(data: Submission, fields: seq<Slot>): seq<Entry> {
    if fields == [] then []
    else Collect(data, fields[..|fields| - 1]) + SlotEntries(data, fields[|fields| - 1])
  }

  /** The participant list of a submission. */
  function Participants(data: Submission): seq<Entry> {
    Collect(data, EventFields)
  }

  /** The number of entries of `event` in `ps`. */
  function Count(ps: seq<Entry>, event: string): nat {
    if ps == [] then 0
    else Count(ps[..|ps| - 1], event) + (if ps[|ps| - 1].event == event then 1 else 0)
  }

  /** The checks of the three identity fields, in order. */
  function IdentityErrors(collegeName: string, coordinatorName: string, contact: string): seq<ValidationError> {
    (if collegeName == "" then [CollegeNameRequired] else [])
    + (if coordinatorName == "" then [CoordinatorNameRequired] else [])
    + (if IsValidPhone(contact) then [] else [InvalidContact])
  }

  /** The range check of Dance. */
  function DanceErrors(ps: seq<Entry>): seq<ValidationError> {
    var n := Count(ps, DanceEvent);
    if DanceMin <= n <= DanceMax then [] else [DanceOutOfRange(n)]
  }

  /** The check of one exact-count rule. */
  function RuleCheck(ps: seq<Entry>, rule: CountRule): seq<ValidationError> {
    var n := Count(ps, rule.event);
    if n == rule.required then [] else [CountMismatch(rule.event, rule.required, n)]
  }

  /** The checks of the first `k` of `rules`, in rule order. */
  function RuleErrors(ps: seq<Entry>, rules: seq<CountRule>, k: nat): seq<ValidationError>
    requires k <= |rules|
  {
    if k == 0 then [] else RuleErrors(ps, rules, k - 1) + RuleCheck(ps, rules[k - 1])
  }

  /** Every error of trimmed identity fields and a participant list, in the
      order the checks run. */
  function CheckErrors(collegeName: string, coordinatorName: string, contact: string, ps: seq<Entry>)
    : seq<ValidationError>
  {
    IdentityErrors(collegeName, coordinatorName, contact) + DanceErrors(ps) + RuleErrors(ps, ExactRules, |ExactRules|)
  }

  /** Every error of a submission, in the order the checks run. */
  function Errors(data: Submission): seq<ValidationError> {
    CheckErrors(IdentityField(data, CollegeNameKey), IdentityField(data, CoordinatorNameKey),
                IdentityField(data, CoordinatorContactKey), Participants(data))
  }

  /** The result of validating a submission. */
  function ValidationOutcome(data: Submission): Outcome {
    var errors := Errors(data);
    if errors != [] then Rejected(errors)
    else Accepted(Registration(IdentityField(data, CollegeNameKey),
                               IdentityField(data, CoordinatorNameKey),
                               IdentityField(data, CoordinatorContactKey),
                               Participants(data)))
  }

  /** The text the endpoint reports for an error. */
  function Message(e: ValidationError): string {
    match e
    case CollegeNameRequired => "collegeName is required"
    case CoordinatorNameRequired => "coordinatorName is required"
    case InvalidContact => "coordinatorContact must be a valid 10-digit number"
    case DanceOutOfRange(n) =>
      "Dance must have between 5 and 7 participants (got " + NatToString(n) + ")"
    case CountMismatch(event, required, n) =>
      event + " must have exactly " + NatToString(required)
      + (if required == 1 then " participant" else " participants")
      + " (got " + NatToString(n) + ")"
  }

  lemma CountAppend(ps: seq<Entry>, x: Entry, event: string)
    ensures Count(ps + [x], event) == Count(ps, event) + (if x.event == event then 1 else 0)
  {
    assert (ps + [x])[..|ps|] == ps;
  }

  /** The identity checks of `register`: each empty or invalid field appends one error. */
  method CheckIdentity(collegeName: string, coordinatorName: string, coordinatorContact: string)
    returns (errors: seq<ValidationError>)
    ensures errors == IdentityErrors(collegeName, coordinatorName, coordinatorContact)
  {
    errors := [];
    if collegeName == "" {
      errors := errors + [CollegeNameRequired];
    }
    if coordinatorName == "" {
      errors := errors + [CoordinatorNameRequired];
    }
    if !IsValidPhone(coordinatorContact) {
      errors := errors + [InvalidContact];
    }
  }

  /** The walk over a slot list: every slot that names someone adds an
      entry, and the Dance and Mad Ad slots are counted by key prefix on the
      way, which counts their events as long as every slot's key prefix
      agrees with its event. */
  method CollectParticipants(data: Submission, fields: seq<Slot>)
    returns (participants: seq<Entry>, danceCount: nat, madAdCount: nat)
    requires forall j | 0 <= j < |fields| :: CountedByPrefix(fields[j])
    ensures participants == Collect(data, fields)
    ensures danceCount == Count(participants, DanceEvent)
    ensures madAdCount == Count(participants, MadAdEvent)
  {
    participants := [];
    danceCount, madAdCount := 0, 0;
    for i := 0 to |fields|
      invariant participants == Collect(data, fields[..i])
      invariant danceCount == Count(participants, DanceEvent)
      invariant madAdCount == Count(participants, MadAdEvent)
    {
      var slot := fields[i];
      assert fields[..i + 1][..i] == fields[..i];
      var raw := if slot.key in data then data[slot.key] else None;
      var name := if raw.None? then "" else Strip(raw.value);
      if name != "" {
        CountAppend(participants, Entry(slot.event, name), DanceEvent);
        CountAppend(participants, Entry(slot.event, name), MadAdEvent);
        participants := participants + [Entry(slot.event, name)];
        if StartsWith(slot.key, "dance") {
          danceCount := danceCount + 1;
        }
        if StartsWith(slot.key, "madAd") {
          madAdCount := madAdCount + 1;
        }
      }
    }
    assert fields[..|fields|] == fields;
  }

  /** One exact-count check: `count` is the number of participants of rule
      `k`'s event, and a mismatch appends one error carrying that count. */
  method CheckExact(errors: seq<ValidationError>, ghost ps: seq<Entry>, ghost base: seq<ValidationError>,
                    k: nat, count: nat)
    returns (result: seq<ValidationError>)
    requires k < |ExactRules| && count == Count(ps, ExactRules[k].event)
    requires errors == base + RuleErrors(ps, ExactRules, k)
    ensures result == base + RuleErrors(ps, ExactRules, k + 1)
  {
    var rule := ExactRules[k];
    result := errors;
    if count != rule.required {
      result := result + [CountMismatch(rule.event, rule.required, count)];
    }
  }

  /** The prefix-counted rules: Dance by range on its counter and Mad Ad
      exactly on its counter. Each failing rule appends one error. */
  method CheckCounters(errors: seq<ValidationError>, ghost participants: seq<Entry>, danceCount: nat, madAdCount: nat)
    returns (result: seq<ValidationError>)
    requires danceCount == Count(participants, DanceEvent)
    requires madAdCount == Count(participants, MadAdEvent)
    ensures result == errors + DanceErrors(participants) + RuleErrors(participants, ExactRules, 1)
  {
    result := errors;
    if !(DanceMin <= danceCount <= DanceMax) {
      result := result + [DanceOutOfRange(danceCount)];
    }
    result := CheckExact(result, participants, result, 0, madAdCount);
  }

  /** The single and dual events: each count is taken over the participant
      list, and each failing rule appends one error. */
  method CheckEventCounts(errors: seq<ValidationError>, participants: seq<Entry>, ghost base: seq<ValidationError>)
    returns (result: seq<ValidationError>)
    requires errors == base + RuleErrors(participants, ExactRules, 1)
    ensures result == base + RuleErrors(participants, ExactRules, |ExactRules|)
  {
    ExactRulesSpelledOut();
    var mockPress := Count(participants, "Mock Press");
    var quiz := Count(participants, "Quiz");
    var treasureHunt := Count(participants, "Treasure Hunt");
    var marketing := Count(participants, "Marketing");
    var bottleArt := Count(participants, "Bottle Art");
    var motorMouth := Count(participants, "Motor Mouth");
    var bestManager := Count(participants, "Best Manager");
    var sharkTank := Count(participants, "Shark Tank");
    var mockCid := Count(participants, "Mock CID");
    var reelsMaking := Count(participants, "Reels Making");
    result := CheckExact(errors, participants, base, 1, mockPress);
    result := CheckExact(result, participants, base, 2, quiz);
    result := CheckExact(result, participants, base, 3, treasureHunt);
    result := CheckExact(result, participants, base, 4, marketing);
    result := CheckExact(result, participants, base, 5, bottleArt);
    result := CheckExact(result, participants, base, 6, motorMouth);
    result := CheckExact(result, participants, base, 7, bestManager);
    result := CheckExact(result, participants, base, 8, sharkTank);
    result := CheckExact(result, participants, base, 9, mockCid);
    result := CheckExact(result, participants, base, 10, reelsMaking);
  }

  /** The validation body of the registration endpoint: trim and check the
      identity fields, collect the participants, apply the cardinality rules,
      and reject when any error was gathered. */
  method Register(data: Submission) returns (outcome: Outcome)
    ensures outcome == ValidationOutcome(data)
  {
    var collegeName := Strip(IdentityText(data, CollegeNameKey));
    var coordinatorName := Strip(IdentityText(data, CoordinatorNameKey));
    var coordinatorContact := Strip(IdentityText(data, CoordinatorContactKey));
    var errors := CheckIdentity(collegeName, coordinatorName, coordinatorContact);
    CatalogCountedByPrefix();
    var participants, danceCount, madAdCount := CollectParticipants(data, EventFields);
    ghost var base := errors + DanceErrors(participants);
    errors := CheckCounters(errors, participants, danceCount, madAdCount);
    errors := CheckEventCounts(errors, participants, base);
    if errors != [] {
      outcome := Rejected(errors);
    } else {
      outcome := Accepted(Registration(collegeName, coordinatorName, coordinatorContact, participants));
    }
  }
}
