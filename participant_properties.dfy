/**
 * The participant list of the validation pass: one entry per slot that
 * names someone, in catalog order, each with a trimmed non-empty name; and
 * the handling of blank, null and unknown fields.
 */
module ParticipantProperties {
  import opened Wrappers
  import opened Text
  import opened Catalog
  import opened Validation

  // ---------------------------------------------------------------------
  // The participant list
  // ---------------------------------------------------------------------

  /** The positions of the slots of `fields` that name someone, in order. */
  function Filled(data: Submission, fields: seq<Slot>): seq<int> {
    if fields == [] then []
    else Filled(data, fields[..|fields| - 1])
         + (if SlotValue(data, fields[|fields| - 1].key) != "" then [|fields| - 1] else [])
  }

  /** The list has one entry per slot that names someone: the `t`-th entry
      is the event and trimmed name of the `t`-th such slot. */
  lemma {:induction false} CollectFollowsSlots(data: Submission, fields: seq<Slot>)
    ensures var ps, f := Collect(data, fields), Filled(data, fields);
      && |ps| == |f|
      && forall t | 0 <= t < |f| ::
           0 <= f[t] < |fields| && ps[t] == Entry(fields[f[t]].event, SlotValue(data, fields[f[t]].key))
  {
    if fields != [] {
      var init := fields[..|fields| - 1];
      CollectFollowsSlots(data, init);
      var ps0, f0 := Collect(data, init), Filled(data, init);
      var ps, f := Collect(data, fields), Filled(data, fields);
      forall t | 0 <= t < |f0|
        ensures 0 <= f[t] < |fields| && ps[t] == Entry(fields[f[t]].event, SlotValue(data, fields[f[t]].key))
      {
        assert ps[t] == ps0[t] && f[t] == f0[t] && fields[f0[t]] == init[f0[t]];
      }
    }
  }

  /** Every taken position is a slot position, so the list is never longer
      than the slot list. */
  lemma {:induction false} FilledBounded(data: Submission, fields: seq<Slot>)
    ensures |Filled(data, fields)| <= |fields|
    ensures forall t | 0 <= t < |Filled(data, fields)| :: 0 <= Filled(data, fields)[t] < |fields|
  {
    if fields != [] {
      FilledBounded(data, fields[..|fields| - 1]);
    }
  }

  /** The slots are taken in their order, each at most once. */
  lemma {:induction false} FilledIncreasing(data: Submission, fields: seq<Slot>)
    ensures forall s, t | 0 <= s < t < |Filled(data, fields)| :: Filled(data, fields)[s] < Filled(data, fields)[t]
  {
    if fields != [] {
      FilledIncreasing(data, fields[..|fields| - 1]);
      FilledBounded(data, fields[..|fields| - 1]);
    }
  }

  /** Each slot either adds its own position to the positions taken before
      it or adds nothing. */
  lemma FilledLast(data: Submission, fields: seq<Slot>)
    requires fields != []
    ensures var n := |fields| - 1;
      Filled(data, fields) == Filled(data, fields[..n]) + (if SlotValue(data, fields[n].key) != "" then [n] else [])
  {
  }

  /** Slot `j` is taken exactly when it names someone. */
  lemma {:induction false} FilledAt(data: Submission, fields: seq<Slot>, j: int)
    requires 0 <= j < |fields|
    ensures SlotValue(data, fields[j].key) != "" <==> j in Filled(data, fields)
  {
    var n := |fields| - 1;
    var init := fields[..n];
    FilledLast(data, fields);
    if j < n {
      FilledAt(data, init, j);
      assert fields[j] == init[j];
    } else {
      FilledBounded(data, init);
      assert j == n;
      assert n !in Filled(data, init);
      assert j in Filled(data, fields) <==> SlotValue(data, fields[n].key) != "";
    }
  }

  /** A slot is taken exactly when it names someone. */
  lemma FilledExactly(data: Submission, fields: seq<Slot>)
    ensures forall j | 0 <= j < |fields| :: SlotValue(data, fields[j].key) != "" <==> j in Filled(data, fields)
  {
    forall j | 0 <= j < |fields|
      ensures SlotValue(data, fields[j].key) != "" <==> j in Filled(data, fields)
    {
      FilledAt(data, fields, j);
    }
  }

  /** Every entry names someone by a trimmed, non-empty name, for an event
      that one of the slots belongs to. */
  lemma {:induction false} CollectEntriesWellFormed(data: Submission, fields: seq<Slot>, events: seq<string>)
    requires forall j | 0 <= j < |fields| :: fields[j].event in events
    ensures forall e | e in Collect(data, fields) :: e.name != "" && Strip(e.name) == e.name && e.event in events
  {
    if fields != [] {
      var init := fields[..|fields| - 1];
      var last := fields[|fields| - 1];
      assert forall j | 0 <= j < |init| :: init[j] == fields[j];
      CollectEntriesWellFormed(data, init, events);
      if SlotValue(data, last.key) != "" {
        StripIdempotent(data[last.key].value);
      }
    }
  }

  /** The catalog instance: every participant has a trimmed, non-empty name
      and a catalog event, and there are at most 27 participants. */
  lemma ParticipantsWellFormed(data: Submission)
    ensures forall e | e in Participants(data) :: e.name != "" && Strip(e.name) == e.name && e.event in EventNames
    ensures |Participants(data)| <= 27
  {
    forall j | 0 <= j < |EventFields|
      ensures EventFields[j].event in EventNames
    {
      SlotWellFormed(j);
    }
    CollectEntriesWellFormed(data, EventFields, EventNames);
    CollectFollowsSlots(data, EventFields);
    FilledBounded(data, EventFields);
    SlotWellFormed(0);
  }

  // ---------------------------------------------------------------------
  // Fields the walk does not read
  // ---------------------------------------------------------------------

  /** A key no slot names does not change the entries. */
  lemma {:induction false} CollectIgnoresKey(data: Submission, fields: seq<Slot>, key: string, v: Option<string>)
    requires forall j | 0 <= j < |fields| :: fields[j].key != key
    ensures Collect(data[key := v], fields) == Collect(data, fields)
  {
    if fields != [] {
      var init := fields[..|fields| - 1];
      assert forall j | 0 <= j < |init| :: init[j] == fields[j];
      CollectIgnoresKey(data, init, key, v);
    }
  }

  /** Two submissions whose identity keys read alike and whose catalog walks
      collect the same entries are validated alike. */
  lemma SameReadingsSameOutcome(d1: Submission, d2: Submission)
    requires IdentityText(d1, CollegeNameKey) == IdentityText(d2, CollegeNameKey)
    requires IdentityText(d1, CoordinatorNameKey) == IdentityText(d2, CoordinatorNameKey)
    requires IdentityText(d1, CoordinatorContactKey) == IdentityText(d2, CoordinatorContactKey)
    requires Participants(d1) == Participants(d2)
    ensures ValidationOutcome(d1) == ValidationOutcome(d2)
  {
  }

  /** Setting or removing one key leaves how every other identity key reads. */
  lemma IdentityTextIgnoresKey(data: Submission, key: string, v: Option<string>, k: string)
    requires k != key
    ensures IdentityText(data[key := v], k) == IdentityText(data, k)
    ensures IdentityText(data - {key}, k) == IdentityText(data, k)
  {
  }

  /** A key that is neither a catalog key nor an identity key never changes
      the outcome, whatever its value. */
  lemma UnknownKeysIgnored(data: Submission, key: string, v: Option<string>)
    requires !IsCatalogKey(key) && !IsIdentityKey(key)
    ensures ValidationOutcome(data[key := v]) == ValidationOutcome(data)
  {
    assert forall j | 0 <= j < |EventFields| :: EventFields[j].key != key;
    CollectIgnoresKey(data, EventFields, key, v);
    IdentityTextIgnoresKey(data, key, v, CollegeNameKey);
    IdentityTextIgnoresKey(data, key, v, CoordinatorNameKey);
    IdentityTextIgnoresKey(data, key, v, CoordinatorContactKey);
    SameReadingsSameOutcome(data[key := v], data);
  }

  /** A null value or one that is only white space reads like a missing key. */
  predicate Blank(v: Option<string>) {
    v.None? || AllSpace(v.value)
  }

  /** In the walk, a blank value and a missing key are the same. */
  lemma {:induction false} CollectBlankIsMissing(data: Submission, fields: seq<Slot>, key: string, v: Option<string>)
    requires Blank(v)
    ensures Collect(data[key := v], fields) == Collect(data - {key}, fields)
  {
    if fields != [] {
      var init := fields[..|fields| - 1];
      CollectBlankIsMissing(data, init, key, v);
      var k := fields[|fields| - 1].key;
      if k == key {
        if v.Some? {
          StripEmptyIff(v.value);
        }
        assert SlotValue(data[key := v], k) == "" == SlotValue(data - {key}, k);
      } else {
        assert SlotValue(data[key := v], k) == SlotValue(data - {key}, k);
      }
    }
  }

  /** For any key other than the identity keys, a null value, an empty or
      white-space value and a missing key give the same outcome. */
  lemma BlankValuesAreMissing(data: Submission, key: string, v: Option<string>)
    requires !IsIdentityKey(key) && Blank(v)
    ensures ValidationOutcome(data[key := v]) == ValidationOutcome(data - {key})
  {
    CollectBlankIsMissing(data, EventFields, key, v);
    IdentityTextIgnoresKey(data, key, v, CollegeNameKey);
    IdentityTextIgnoresKey(data, key, v, CoordinatorNameKey);
    IdentityTextIgnoresKey(data, key, v, CoordinatorContactKey);
    SameReadingsSameOutcome(data[key := v], data - {key});
  }
}
