/**
 * The error list of the validation pass: every check runs, each failing
 * check contributes exactly one error, the errors come in the order of the
 * checks, and a submission is accepted exactly when every check passes.
 */
module ErrorProperties {
  import opened Catalog
  import opened Validation

  // ---------------------------------------------------------------------
  // Which check produced an error
  // ---------------------------------------------------------------------

  /** The position of the first of `rules` from `i` on about `event`, or
      the number of rules if there is none. */
  function IndexFrom(rules: seq<CountRule>, event: string, i: nat): nat
    requires i <= |rules|
    decreases |rules| - i
  {
    if i == |rules| then i
    else if rules[i].event == event then i
    else IndexFrom(rules, event, i + 1)
  }

  /** The position of the rule about `event` among `rules`. */
  function RuleIndex(rules: seq<CountRule>, event: string): nat {
    IndexFrom(rules, event, 0)
  }

  /** The position among `rules` of the rule that reports `e`. */
  function RuleIndexOf(rules: seq<CountRule>, e: ValidationError): nat {
    if e.CountMismatch? then RuleIndex(rules, e.event) else |rules|
  }

  /** The position, among the fifteen checks, of the check that reports `e`:
      the three identity checks, the Dance check, then the exact-count rules. */
  function CheckIndex(e: ValidationError): nat {
    match e
    case CollegeNameRequired => 0
    case CoordinatorNameRequired => 1
    case InvalidContact => 2
    case DanceOutOfRange(_) => 3
    case CountMismatch(event, _, _) => 4 + RuleIndex(ExactRules, event)
  }

  /** The number of checks. */
  const CheckCount := 4 + |ExactRules|

  /** Searching from `j` on, the rule about the event of rule `i` is rule
      `i`, since no other rule is about that event. */
  lemma {:induction false} IndexFromRule(rules: seq<CountRule>, i: nat, j: nat)
    requires DistinctEvents(rules)
    requires j <= i < |rules|
    ensures IndexFrom(rules, rules[i].event, j) == i
    decreases i - j
  {
    if j < i {
      assert rules[j].event != rules[i].event;
      IndexFromRule(rules, i, j + 1);
    }
  }

  /** The first `k` rules report at most one error each. */
  lemma {:induction false} RuleErrorsBound(ps: seq<Entry>, rules: seq<CountRule>, k: nat)
    requires k <= |rules|
    ensures |RuleErrors(ps, rules, k)| <= k
  {
    if k > 0 {
      RuleErrorsBound(ps, rules, k - 1);
    }
  }

  /** The first `k` rules report count errors of rules below `k` only. */
  lemma {:induction false} RuleErrorsIndexRange(ps: seq<Entry>, rules: seq<CountRule>, k: nat)
    requires DistinctEvents(rules) && k <= |rules|
    ensures forall t | 0 <= t < |RuleErrors(ps, rules, k)| ::
      RuleErrors(ps, rules, k)[t].CountMismatch? && RuleIndexOf(rules, RuleErrors(ps, rules, k)[t]) < k
  {
    if k > 0 {
      var prev := RuleErrors(ps, rules, k - 1);
      RuleErrorsIndexRange(ps, rules, k - 1);
      var rule := rules[k - 1];
      var g := Count(ps, rule.event);
      if g != rule.required {
        var e := CountMismatch(rule.event, rule.required, g);
        IndexFromRule(rules, k - 1, 0);
        assert RuleErrors(ps, rules, k) == prev + [e];
        assert forall t | 0 <= t < |prev| :: (prev + [e])[t] == prev[t];
      } else {
        assert RuleErrors(ps, rules, k) == prev;
      }
    }
  }

  /** The first `k` rules report their errors in rule order. */
  lemma {:induction false} RuleErrorsOrdered(ps: seq<Entry>, rules: seq<CountRule>, k: nat)
    requires DistinctEvents(rules) && k <= |rules|
    ensures forall s, t | 0 <= s < t < |RuleErrors(ps, rules, k)| ::
      RuleIndexOf(rules, RuleErrors(ps, rules, k)[s]) < RuleIndexOf(rules, RuleErrors(ps, rules, k)[t])
  {
    if k > 0 {
      var prev := RuleErrors(ps, rules, k - 1);
      RuleErrorsOrdered(ps, rules, k - 1);
      RuleErrorsIndexRange(ps, rules, k - 1);
      var rule := rules[k - 1];
      var g := Count(ps, rule.event);
      if g != rule.required {
        var e := CountMismatch(rule.event, rule.required, g);
        IndexFromRule(rules, k - 1, 0);
        assert RuleErrors(ps, rules, k) == prev + [e];
        assert forall t | 0 <= t < |prev| :: (prev + [e])[t] == prev[t];
      } else {
        assert RuleErrors(ps, rules, k) == prev;
      }
    }
  }

  /** Rule `i` reports a count `g` exactly when `g` is the count of its event
      and differs from the required one. */
  lemma {:induction false} RuleErrorsReport(ps: seq<Entry>, rules: seq<CountRule>, k: nat, i: nat, g: nat)
    requires DistinctEvents(rules) && i < k <= |rules|
    ensures CountMismatch(rules[i].event, rules[i].required, g) in RuleErrors(ps, rules, k)
        <==> g == Count(ps, rules[i].event) && g != rules[i].required
  {
    var prev := RuleErrors(ps, rules, k - 1);
    var rule := rules[k - 1];
    var n := Count(ps, rule.event);
    var query := CountMismatch(rules[i].event, rules[i].required, g);
    IndexFromRule(rules, i, 0);
    if i < k - 1 {
      RuleErrorsReport(ps, rules, k - 1, i, g);
      IndexFromRule(rules, k - 1, 0);
    } else {
      RuleErrorsIndexRange(ps, rules, k - 1);
      assert query !in prev;
    }
    if n != rule.required {
      assert RuleErrors(ps, rules, k) == prev + [CountMismatch(rule.event, rule.required, n)];
    } else {
      assert RuleErrors(ps, rules, k) == prev;
    }
  }

  /** Every error of the first `k` rules is the mismatch of one of them
      that fails, with that rule's event and required count and the count
      actually found. */
  lemma {:induction false} RuleErrorsExact(ps: seq<Entry>, rules: seq<CountRule>, k: nat)
    requires k <= |rules|
    ensures forall e | e in RuleErrors(ps, rules, k) ::
      exists i | 0 <= i < k ::
        && Count(ps, rules[i].event) != rules[i].required
        && e == CountMismatch(rules[i].event, rules[i].required, Count(ps, rules[i].event))
  {
    if k > 0 {
      RuleErrorsExact(ps, rules, k - 1);
    }
  }

  // ---------------------------------------------------------------------
  // The whole error list
  // ---------------------------------------------------------------------

  /** The college name is reported missing exactly when it is empty after
      trimming, and likewise the coordinator name; the contact is reported
      exactly when it is not a valid phone number, whatever the reason. */
  lemma IdentityReport(c: string, n: string, p: string, ps: seq<Entry>)
    ensures CollegeNameRequired in CheckErrors(c, n, p, ps) <==> c == ""
    ensures CoordinatorNameRequired in CheckErrors(c, n, p, ps) <==> n == ""
    ensures InvalidContact in CheckErrors(c, n, p, ps) <==> !IsValidPhone(p)
  {
    var ie, de, re := IdentityErrors(c, n, p), DanceErrors(ps), RuleErrors(ps, ExactRules, |ExactRules|);
    RuleEventsDistinct();
    RuleErrorsIndexRange(ps, ExactRules, |ExactRules|);
    assert CollegeNameRequired !in de + re && CoordinatorNameRequired !in de + re && InvalidContact !in de + re;
  }

  /** Dance is reported, with its count, exactly when its count is out of range. */
  lemma DanceReport(c: string, n: string, p: string, ps: seq<Entry>, g: nat)
    ensures var d := Count(ps, DanceEvent);
      DanceOutOfRange(g) in CheckErrors(c, n, p, ps) <==> g == d && !(DanceMin <= d <= DanceMax)
  {
    RuleEventsDistinct();
    RuleErrorsIndexRange(ps, ExactRules, |ExactRules|);
  }

  /** Each exact-count rule is reported, with its count, exactly when its
      count differs from the required one. */
  lemma RuleReport(c: string, n: string, p: string, ps: seq<Entry>, i: nat, g: nat)
    requires i < |ExactRules|
    ensures var r := Count(ps, ExactRules[i].event);
      (CountMismatch(ExactRules[i].event, ExactRules[i].required, g) in CheckErrors(c, n, p, ps)
       <==> g == r && r != ExactRules[i].required)
  {
    RuleEventsDistinct();
    RuleErrorsReport(ps, ExactRules, |ExactRules|, i, g);
  }

  /** The errors come in strictly increasing check order. */
  predicate Ordered(errs: seq<ValidationError>) {
    forall s, t | 0 <= s < t < |errs| :: CheckIndex(errs[s]) < CheckIndex(errs[t])
  }

  /** The errors all come from checks `lo` up to `hi`. */
  predicate Within(errs: seq<ValidationError>, lo: nat, hi: nat) {
    forall t | 0 <= t < |errs| :: lo <= CheckIndex(errs[t]) < hi
  }

  /** Errors from earlier checks followed by errors from later checks are
      in check order. */
  lemma ConcatOrdered(a: seq<ValidationError>, b: seq<ValidationError>, lo: nat, mid: nat, hi: nat)
    requires lo <= mid <= hi
    requires Ordered(a) && Within(a, lo, mid) && Ordered(b) && Within(b, mid, hi)
    ensures Ordered(a + b) && Within(a + b, lo, hi)
  {
    var ab := a + b;
    forall t | 0 <= t < |ab|
      ensures lo <= CheckIndex(ab[t]) < hi
    {
      if t < |a| { assert ab[t] == a[t]; } else { assert ab[t] == b[t - |a|]; }
    }
    forall s, t | 0 <= s < t < |ab|
      ensures CheckIndex(ab[s]) < CheckIndex(ab[t])
    {
      if t < |a| {
        assert ab[s] == a[s] && ab[t] == a[t];
      } else if s < |a| {
        assert ab[s] == a[s] && ab[t] == b[t - |a|];
      } else {
        assert ab[s] == b[s - |a|] && ab[t] == b[t - |a|];
      }
    }
  }

  /** The identity checks report in their order, one error each at most. */
  lemma IdentityErrorsOrdered(c: string, n: string, p: string)
    ensures Ordered(IdentityErrors(c, n, p)) && Within(IdentityErrors(c, n, p), 0, 3)
  {
    var a: seq<ValidationError> := if c == "" then [CollegeNameRequired] else [];
    var b: seq<ValidationError> := if n == "" then [CoordinatorNameRequired] else [];
    var d: seq<ValidationError> := if IsValidPhone(p) then [] else [InvalidContact];
    assert IdentityErrors(c, n, p) == a + b + d;
    ConcatOrdered(a, b, 0, 1, 2);
    ConcatOrdered(a + b, d, 0, 2, 3);
  }

  /** At most fifteen errors, one per check, in the order the checks run:
      college name, coordinator name, contact, Dance, then the exact-count
      rules in rule order. */
  lemma ErrorsOrdered(c: string, n: string, p: string, ps: seq<Entry>)
    ensures Ordered(CheckErrors(c, n, p, ps))
    ensures Within(CheckErrors(c, n, p, ps), 0, CheckCount)
    ensures |CheckErrors(c, n, p, ps)| <= CheckCount
  {
    var ie, de, re := IdentityErrors(c, n, p), DanceErrors(ps), RuleErrors(ps, ExactRules, |ExactRules|);
    IdentityErrorsOrdered(c, n, p);
    RuleEventsDistinct();
    RuleErrorsIndexRange(ps, ExactRules, |ExactRules|);
    RuleErrorsOrdered(ps, ExactRules, |ExactRules|);
    RuleErrorsBound(ps, ExactRules, |ExactRules|);
    assert Ordered(re) && Within(re, 4, CheckCount);
    ConcatOrdered(ie, de, 0, 3, 4);
    ConcatOrdered(ie + de, re, 0, 4, CheckCount);
  }

  /** Every count error of the whole list is exact: a Dance error carries
      the Dance count, which is out of range, and every other count error is
      the mismatch of a failing exact-count rule, with that rule's event and
      required count and the count actually found. */
  lemma ErrorsCarryActualCounts(c: string, n: string, p: string, ps: seq<Entry>)
    ensures forall e | e in CheckErrors(c, n, p, ps) && e.DanceOutOfRange? ::
      e == DanceOutOfRange(Count(ps, DanceEvent)) && !(DanceMin <= Count(ps, DanceEvent) <= DanceMax)
    ensures forall e | e in CheckErrors(c, n, p, ps) && e.CountMismatch? ::
      exists i | 0 <= i < |ExactRules| ::
        && Count(ps, ExactRules[i].event) != ExactRules[i].required
        && e == CountMismatch(ExactRules[i].event, ExactRules[i].required, Count(ps, ExactRules[i].event))
  {
    var ie, de, re := IdentityErrors(c, n, p), DanceErrors(ps), RuleErrors(ps, ExactRules, |ExactRules|);
    assert CheckErrors(c, n, p, ps) == ie + de + re;
    RuleErrorsExact(ps, ExactRules, |ExactRules|);
    forall e: ValidationError | e in ie + de + re && e.DanceOutOfRange?
      ensures e == DanceOutOfRange(Count(ps, DanceEvent)) && !(DanceMin <= Count(ps, DanceEvent) <= DanceMax)
    {
      assert e !in ie && e !in re;
    }
    forall e: ValidationError | e in ie + de + re && e.CountMismatch?
      ensures exists i | 0 <= i < |ExactRules| ::
        && Count(ps, ExactRules[i].event) != ExactRules[i].required
        && e == CountMismatch(ExactRules[i].event, ExactRules[i].required, Count(ps, ExactRules[i].event))
    {
      assert e !in ie && e !in de;
      assert e in re;
    }
  }
}
