/**
 * When a submission is accepted, how large an accepted registration is, how
 * the identity fields read a null, and what the error texts report.
 */
module OutcomeProperties {
  import opened Wrappers
  import opened Text
  import opened Catalog
  import opened Validation
  import opened ParticipantProperties
  import opened ErrorProperties

  // ---------------------------------------------------------------------
  // Acceptance
  // ---------------------------------------------------------------------

  /** Each of the first `k` of `rules` holds for `ps`. */
  predicate RulesHold(ps: seq<Entry>, rules: seq<CountRule>, k: nat)
    requires k <= |rules|
  {
    forall i | 0 <= i < k :: Count(ps, rules[i].event) == rules[i].required
  }

  /** The first `k` rules report nothing exactly when they all hold. */
  lemma {:induction false} RuleErrorsEmpty(ps: seq<Entry>, rules: seq<CountRule>, k: nat)
    requires k <= |rules|
    ensures RuleErrors(ps, rules, k) == [] <==> RulesHold(ps, rules, k)
  {
    if k == 0 {
      RuleErrorsEmptyBase(ps, rules);
    } else {
      RuleErrorsEmpty(ps, rules, k - 1);
      RuleErrorsEmptyStep(ps, rules, k);
    }
  }

  /** One more rule reports nothing exactly when it holds. */
  lemma RuleErrorsEmptyStep(ps: seq<Entry>, rules: seq<CountRule>, k: nat)
    requires 0 < k <= |rules|
    requires RuleErrors(ps, rules, k - 1) == [] <==> RulesHold(ps, rules, k - 1)
    ensures RuleErrors(ps, rules, k) == [] <==> RulesHold(ps, rules, k)
  {
    RulesHoldStep(ps, rules, k);
    RuleErrorsStep(ps, rules, k);
  }

  /** Checking no rule reports nothing, and no rule is broken. */
  lemma RuleErrorsEmptyBase(ps: seq<Entry>, rules: seq<CountRule>)
    ensures RuleErrors(ps, rules, 0) == [] <==> RulesHold(ps, rules, 0)
  {
  }

  /** The first `k` rules hold when the first `k - 1` do and rule `k - 1` does too. */
  lemma RulesHoldStep(ps: seq<Entry>, rules: seq<CountRule>, k: nat)
    requires 0 < k <= |rules|
    ensures RulesHold(ps, rules, k)
        <==> RulesHold(ps, rules, k - 1) && Count(ps, rules[k - 1].event) == rules[k - 1].required
  {
  }

  /** Checking one more rule adds an error exactly when it fails. */
  lemma RuleErrorsStep(ps: seq<Entry>, rules: seq<CountRule>, k: nat)
    requires 0 < k <= |rules|
    ensures RuleErrors(ps, rules, k) == []
        <==> RuleErrors(ps, rules, k - 1) == [] && Count(ps, rules[k - 1].event) == rules[k - 1].required
  {
    var prev, last := RuleErrors(ps, rules, k - 1), RuleCheck(ps, rules[k - 1]);
    assert RuleErrors(ps, rules, k) == prev + last;
    assert |RuleErrors(ps, rules, k)| == |prev| + |last|;
  }

  /** No error is reported exactly when both names are present, the contact
      is a valid phone number, Dance has between five and seven participants
      and every exact-count rule holds. */
  lemma NoErrorsIff(c: string, n: string, p: string, ps: seq<Entry>)
    ensures CheckErrors(c, n, p, ps) == []
        <==> (&& c != "" && n != "" && IsValidPhone(p)
              && DanceMin <= Count(ps, DanceEvent) <= DanceMax
              && RulesHold(ps, ExactRules, |ExactRules|))
  {
    RuleErrorsEmpty(ps, ExactRules, |ExactRules|);
  }

  /** A submission is accepted exactly when every check passes, and then the
      registration holds the trimmed identity fields and the participant list. */
  lemma AcceptIff(data: Submission)
    ensures var c, n, p, ps := IdentityField(data, CollegeNameKey), IdentityField(data, CoordinatorNameKey),
                               IdentityField(data, CoordinatorContactKey), Participants(data);
      && (ValidationOutcome(data).Accepted?
          <==> (&& c != "" && n != "" && IsValidPhone(p)
                && DanceMin <= Count(ps, DanceEvent) <= DanceMax
                && RulesHold(ps, ExactRules, |ExactRules|)))
      && (ValidationOutcome(data).Accepted? ==> ValidationOutcome(data).registration == Registration(c, n, p, ps))
      && (ValidationOutcome(data).Rejected? ==> ValidationOutcome(data).errors == CheckErrors(c, n, p, ps) != [])
  {
    NoErrorsIff(IdentityField(data, CollegeNameKey), IdentityField(data, CoordinatorNameKey),
                IdentityField(data, CoordinatorContactKey), Participants(data));
  }

  // ---------------------------------------------------------------------
  // The size of an accepted registration
  // ---------------------------------------------------------------------

  /** The number of entries of `ps` whose event is one of `names`. */
  function SumCounts(ps: seq<Entry>, names: seq<string>): nat {
    if names == [] then 0 else Count(ps, names[0]) + SumCounts(ps, names[1..])
  }

  /** One more entry adds one to the sum when its event is one of `names`. */
  lemma {:induction false} SumCountsAppend(ps: seq<Entry>, x: Entry, names: seq<string>)
    requires Distinct(names)
    ensures SumCounts(ps + [x], names) == SumCounts(ps, names) + (if x.event in names then 1 else 0)
  {
    if names != [] {
      var rest := names[1..];
      assert Distinct(rest) by {
        forall i, j | 0 <= i < j < |rest| ensures rest[i] != rest[j] {
          assert rest[i] == names[i + 1] && rest[j] == names[j + 1];
        }
      }
      assert x.event in names <==> x.event == names[0] || x.event in rest;
      assert x.event == names[0] ==> x.event !in rest;
      CountAppend(ps, x, names[0]);
      SumCountsAppend(ps, x, rest);
    }
  }

  /** When every entry's event is one of the distinct `names`, the counts of
      the names add up to the number of entries. */
  lemma {:induction false} CountsPartition(ps: seq<Entry>, names: seq<string>)
    requires Distinct(names)
    requires forall e | e in ps :: e.event in names
    ensures SumCounts(ps, names) == |ps|
  {
    if ps == [] {
      assert SumCounts(ps, names) == 0 by { SumCountsOfEmpty(names); }
    } else {
      var init, x := ps[..|ps| - 1], ps[|ps| - 1];
      assert ps == init + [x];
      CountsPartition(init, names);
      SumCountsAppend(init, x, names);
    }
  }

  lemma {:induction false} SumCountsOfEmpty(names: seq<string>)
    ensures SumCounts([], names) == 0
  {
    if names != [] {
      SumCountsOfEmpty(names[1..]);
    }
  }

  /** When `names` are the events of `rules` and every rule holds, the counts
      of the names add up to the required total. */
  lemma {:induction false} SumOfHeldRules(ps: seq<Entry>, names: seq<string>, rules: seq<CountRule>)
    requires |names| == |rules|
    requires forall k | 0 <= k < |rules| :: names[k] == rules[k].event && Count(ps, rules[k].event) == rules[k].required
    ensures SumCounts(ps, names) == RequiredTotal(rules)
  {
    if names != [] {
      assert forall k | 0 <= k < |rules| - 1 :: names[1..][k] == names[k + 1] && rules[1..][k] == rules[k + 1];
      SumOfHeldRules(ps, names[1..], rules[1..]);
    }
  }

  /** When the events of `ps` are among the distinct `names`, which are one
      range-checked event followed by the events of `rules`, and every rule
      holds, `ps` has the entries of that first event plus the required total. */
  lemma SizeOfHeldRules(ps: seq<Entry>, names: seq<string>, rules: seq<CountRule>)
    requires Distinct(names) && |names| == |rules| + 1
    requires forall k | 0 <= k < |rules| :: names[k + 1] == rules[k].event
    requires forall e | e in ps :: e.event in names
    requires forall k | 0 <= k < |rules| :: Count(ps, rules[k].event) == rules[k].required
    ensures |ps| == Count(ps, names[0]) + RequiredTotal(rules)
  {
    CountsPartition(ps, names);
    var rest := names[1..];
    assert forall k | 0 <= k < |rules| :: rest[k] == names[k + 1];
    SumOfHeldRules(ps, rest, rules);
  }

  /** An accepted registration has its Dance participants plus the twenty
      the exact-count rules require: between 25 and 27 participants. */
  lemma AcceptedSize(data: Submission)
    requires ValidationOutcome(data).Accepted?
    ensures var ps := ValidationOutcome(data).registration.participants;
      |ps| == Count(ps, DanceEvent) + RequiredTotal(ExactRules) && 25 <= |ps| <= 27
  {
    AcceptIff(data);
    ParticipantsWellFormed(data);
    RequiredTotalIsTwenty();
    EventNamesDistinct();
    EventNamesMatchRules();
    SizeOfHeldRules(Participants(data), EventNames, ExactRules);
  }

  // ---------------------------------------------------------------------
  // Identity fields and null
  // ---------------------------------------------------------------------

  /** A null college name reads as the text "None", so it is not reported
      missing, while an absent one is. */
  lemma NullCollegeNameIsNotMissing(data: Submission)
    ensures CollegeNameKey in data && data[CollegeNameKey].None? ==>
      IdentityField(data, CollegeNameKey) == "None" && CollegeNameRequired !in Errors(data)
    ensures CollegeNameKey !in data ==> CollegeNameRequired in Errors(data)
  {
    var c := IdentityField(data, CollegeNameKey);
    var n, p := IdentityField(data, CoordinatorNameKey), IdentityField(data, CoordinatorContactKey);
    assert Errors(data) == CheckErrors(c, n, p, Participants(data));
    IdentityReport(c, n, p, Participants(data));
    NoneIsKept();
  }

  /** The text a null identity field reads as survives trimming. */
  lemma NoneIsKept()
    ensures Strip("None") == "None"
  {
    assert LeadingEnd("None", 0) == 0;
    assert TrailingStart("None", 0, 4) == 4;
  }

  // ---------------------------------------------------------------------
  // Error texts
  // ---------------------------------------------------------------------

  predicate EndsWith(s: string, suffix: string) {
    |suffix| <= |s| && s[|s| - |suffix|..] == suffix
  }

  /** The count a message reports in its closing "(got N)", if it has one. */
  function ReportedCount(msg: string): Option<nat> {
    if msg != [] && msg[|msg| - 1] == ')' then
      var body := msg[..|msg| - 1];
      var digits := TrailingDigits(body);
      if digits != [] && EndsWith(body[..|body| - |digits|], " (got ") then Some(DigitsValue(digits)) else None
    else None
  }

  /** The count an error carries, if it is a count error. */
  function CarriedCount(e: ValidationError): Option<nat> {
    match e
    case DanceOutOfRange(got) => Some(got)
    case CountMismatch(_, _, got) => Some(got)
    case _ => None
  }

  /** A text ending in " (got " followed by a rendered count and ")" reports it. */
  lemma ReportsRenderedCount(head: string, g: nat)
    requires EndsWith(head, " (got ")
    ensures ReportedCount(head + NatToString(g) + ")") == Some(g)
  {
    var digits := NatToString(g);
    var msg := head + digits + ")";
    assert msg[..|msg| - 1] == head + digits;
    assert head[|head| - 1] == ' ';
    TrailingDigitsOfSuffix(head, digits);
    assert (head + digits)[..|head + digits| - |digits|] == head;
    DecimalRoundTrip(g);
  }

  /** The text of the Dance error reports the count found. */
  lemma DanceMessageReportsCount(g: nat)
    ensures ReportedCount(Message(DanceOutOfRange(g))) == Some(g)
  {
    var head := "Dance must have between 5 and 7 participants (got ";
    assert Message(DanceOutOfRange(g)) == head + NatToString(g) + ")";
    ReportsRenderedCount(head, g);
  }

  /** The text of an exact-count error reports the count found. */
  lemma CountMessageReportsCount(event: string, required: nat, g: nat)
    ensures ReportedCount(Message(CountMismatch(event, required, g))) == Some(g)
  {
    var noun := if required == 1 then " participant" else " participants";
    var head := event + " must have exactly " + NatToString(required) + noun + " (got ";
    assert Message(CountMismatch(event, required, g)) == head + NatToString(g) + ")";
    assert head[|head| - 6..] == " (got ";
    ReportsRenderedCount(head, g);
  }

  /** Every count error's text reports the count actually found, and the
      texts of the identity errors report none. */
  lemma MessageReportsCount(e: ValidationError)
    ensures ReportedCount(Message(e)) == CarriedCount(e)
  {
    match e
    case DanceOutOfRange(g) => DanceMessageReportsCount(g);
    case CountMismatch(event, required, g) => CountMessageReportsCount(event, required, g);
    case _ =>
  }

  /** "9876543210" is a valid contact. */
  lemma ValidPhoneExamples()
    ensures IsValidPhone("9876543210")
  {
    var s := "9876543210";
    assert LeadingEnd(s, 0) == 0 && TrailingStart(s, 0, 10) == 10;
    assert Strip(s) == s;
  }

  /** White space around the number does not matter. */
  lemma PaddedPhoneExample()
    ensures IsValidPhone(" 9876543210\n")
  {
    var t := " 9876543210\n";
    assert LeadingEnd(t, 1) == 1 && LeadingEnd(t, 0) == 1;
    assert TrailingStart(t, 1, 11) == 11 && TrailingStart(t, 1, 12) == 11;
    assert Strip(t) == t[1..11] == "9876543210";
  }

  /** "98765-4321" (a separator), "987654321" (one digit too few) and the empty contact are all invalid. */
  lemma InvalidPhoneExamples()
    ensures !IsValidPhone("98765-4321")
    ensures !IsValidPhone("987654321")
    ensures !IsValidPhone("")
  {
    var s := "98765-4321";
    assert LeadingEnd(s, 0) == 0 && TrailingStart(s, 0, 10) == 10;
    assert Strip(s) == s && !IsDigit(s[5]);
    var t := "987654321";
    assert LeadingEnd(t, 0) == 0 && TrailingStart(t, 0, 9) == 9;
    assert Strip(t) == t;
  }
}
