/**
 * The fixed event catalog of the festival registration form: which
 * submission key names a participant of which event, and how many
 * participants each event takes.
 */
module Catalog {
  import opened Text

  /** One participant slot of the form: the submission key and its event. */
  datatype Slot = Slot(key: string, event: string)

  /** The slots, in the order the validator walks them. */
  const EventFields: seq<Slot> := [
    Slot("dance1", "Dance"), Slot("dance2", "Dance"), Slot("dance3", "Dance"),
    Slot("dance4", "Dance"), Slot("dance5", "Dance"), Slot("dance6", "Dance"),
    Slot("dance7", "Dance"),
    Slot("mockPress", "Mock Press"),
    Slot("quiz1", "Quiz"), Slot("quiz2", "Quiz"),
    Slot("treasureHunt", "Treasure Hunt"),
    Slot("madAd1", "Mad Ad"), Slot("madAd2", "Mad Ad"), Slot("madAd3", "Mad Ad"),
    Slot("madAd4", "Mad Ad"), Slot("madAd5", "Mad Ad"), Slot("madAd6", "Mad Ad"),
    Slot("marketing1", "Marketing"), Slot("marketing2", "Marketing"),
    Slot("bottleArt", "Bottle Art"),
    Slot("motorMouth", "Motor Mouth"),
    Slot("bestManager", "Best Manager"),
    Slot("sharkTank1", "Shark Tank"), Slot("sharkTank2", "Shark Tank"),
    Slot("mockCid1", "Mock CID"), Slot("mockCid2", "Mock CID"),
    Slot("reelsMaking", "Reels Making")
  ]

  /** Dance is the one event with a range rule. */
  const DanceEvent := "Dance"
  const DanceMin: nat := 5
  const DanceMax: nat := 7

  /** Mad Ad is counted by key prefix like Dance, but checked exactly. */
  const MadAdEvent := "Mad Ad"

  /** An event that needs exactly `required` participants. */
  datatype CountRule = CountRule(event: string, required: nat)

  /** The exact-count rules, in the order the validator checks them
      (Mad Ad first, then the single and dual events). */
  const ExactRules: seq<CountRule> := [
    CountRule("Mad Ad", 6),
    CountRule("Mock Press", 1),
    CountRule("Quiz", 2),
    CountRule("Treasure Hunt", 1),
    CountRule("Marketing", 2),
    CountRule("Bottle Art", 1),
    CountRule("Motor Mouth", 1),
    CountRule("Best Manager", 1),
    CountRule("Shark Tank", 2),
    CountRule("Mock CID", 2),
    CountRule("Reels Making", 1)
  ]

  /** Every event name of the catalog: Dance, then the exact-count events. */
  const EventNames: seq<string> := [
    "Dance", "Mad Ad", "Mock Press", "Quiz", "Treasure Hunt", "Marketing",
    "Bottle Art", "Motor Mouth", "Best Manager", "Shark Tank", "Mock CID", "Reels Making"
  ]

  /** The submission keys of the college's identity, read apart from the catalog. */
  const CollegeNameKey := "collegeName"
  const CoordinatorNameKey := "coordinatorName"
  const CoordinatorContactKey := "coordinatorContact"

  predicate Distinct<T(==)>(s: seq<T>) {
    forall i, j | 0 <= i < j < |s| :: s[i] != s[j]
  }

  predicate IsIdentityKey(key: string) {
    key == CollegeNameKey || key == CoordinatorNameKey || key == CoordinatorContactKey
  }

  predicate IsCatalogKey(key: string) {
    exists i | 0 <= i < |EventFields| :: EventFields[i].key == key
  }

  /** A key starts with "dance" exactly when its slot is a Dance slot and
      with "madAd" exactly when it is a Mad Ad slot. */
  predicate CountedByPrefix(s: Slot) {
    && (StartsWith(s.key, "dance") <==> s.event == DanceEvent)
    && (StartsWith(s.key, "madAd") <==> s.event == MadAdEvent)
  }

  /** What the validator relies on about each slot: a key starts with "dance"
      exactly when its slot is a Dance slot and with "madAd" exactly when it is
      a Mad Ad slot (so the prefix counters count events), the event is a
      catalog event, and the key is not one of the identity keys. */
  predicate WellFormedSlot(s: Slot) {
    && CountedByPrefix(s)
    && s.event in EventNames
    && !IsIdentityKey(s.key)
  }

  // The catalog is checked one run of slots at a time.

  /** Slots 0-6: dance1 to dance7. */
  lemma DanceSlotsWellFormed(i: nat)
    requires i < 7
    ensures WellFormedSlot(EventFields[i])
  {
  }

  /** Slots 7-10: mockPress, quiz1, quiz2, treasureHunt. */
  lemma MockPressToTreasureHuntSlotsWellFormed(i: nat)
    requires 7 <= i < 11
    ensures WellFormedSlot(EventFields[i])
  {
  }

  /** Slots 11-16: madAd1 to madAd6. */
  lemma MadAdSlotsWellFormed(i: nat)
    requires 11 <= i < 17
    ensures WellFormedSlot(EventFields[i])
  {
  }

  /** Slots 17-21: marketing1, marketing2, bottleArt, motorMouth, bestManager. */
  lemma MarketingToBestManagerSlotsWellFormed(i: nat)
    requires 17 <= i < 22
    ensures WellFormedSlot(EventFields[i])
  {
  }

  /** Slots 22-26: sharkTank1, sharkTank2, mockCid1, mockCid2, reelsMaking. */
  lemma SharkTankToReelsMakingSlotsWellFormed(i: nat)
    requires 22 <= i < 27
    ensures WellFormedSlot(EventFields[i])
  {
  }

  /** The catalog has 27 slots and every one of them is well formed. */
  lemma SlotWellFormed(i: nat)
    requires i < |EventFields|
    ensures |EventFields| == 27
    ensures WellFormedSlot(EventFields[i])
  {
    if i < 7 { DanceSlotsWellFormed(i); }
    else if i < 11 { MockPressToTreasureHuntSlotsWellFormed(i); }
    else if i < 17 { MadAdSlotsWellFormed(i); }
    else if i < 22 { MarketingToBestManagerSlotsWellFormed(i); }
    else { SharkTankToReelsMakingSlotsWellFormed(i); }
  }

  /** Every slot of the catalog is counted correctly by its key prefix. */
  lemma CatalogCountedByPrefix()
    ensures forall i | 0 <= i < |EventFields| :: CountedByPrefix(EventFields[i])
  {
    forall i | 0 <= i < |EventFields|
      ensures CountedByPrefix(EventFields[i])
    {
      SlotWellFormed(i);
    }
  }

  /** The twelve catalog events are distinct. */
  lemma EventNamesDistinct()
    ensures Distinct(EventNames)
  {
  }

  /** The catalog events are Dance followed by the events of the exact-count
      rules, in rule order. */
  lemma EventNamesMatchRules()
    ensures |EventNames| == |ExactRules| + 1 && EventNames[0] == DanceEvent
    ensures forall k | 0 <= k < |ExactRules| :: EventNames[k + 1] == ExactRules[k].event
  {
  }

  /** The exact-count rules, one by one. */
  lemma ExactRulesSpelledOut()
    ensures |ExactRules| == 11
    ensures ExactRules[0] == CountRule(MadAdEvent, 6)
    ensures ExactRules[1] == CountRule("Mock Press", 1)
    ensures ExactRules[2] == CountRule("Quiz", 2)
    ensures ExactRules[3] == CountRule("Treasure Hunt", 1)
    ensures ExactRules[4] == CountRule("Marketing", 2)
    ensures ExactRules[5] == CountRule("Bottle Art", 1)
    ensures ExactRules[6] == CountRule("Motor Mouth", 1)
    ensures ExactRules[7] == CountRule("Best Manager", 1)
    ensures ExactRules[8] == CountRule("Shark Tank", 2)
    ensures ExactRules[9] == CountRule("Mock CID", 2)
    ensures ExactRules[10] == CountRule("Reels Making", 1)
  {
  }

  /** No two of `rules` are about the same event. */
  predicate DistinctEvents(rules: seq<CountRule>) {
    forall i, j | 0 <= i < j < |rules| :: rules[i].event != rules[j].event
  }

  /** The exact-count rules are about distinct events, none of them Dance. */
  lemma RuleEventsDistinct()
    ensures DistinctEvents(ExactRules)
    ensures forall i | 0 <= i < |ExactRules| :: ExactRules[i].event != DanceEvent
  {
    EventNamesDistinct();
    EventNamesMatchRules();
    forall i, j | 0 <= i < j < |ExactRules|
      ensures ExactRules[i].event != ExactRules[j].event
    {
      assert EventNames[i + 1] != EventNames[j + 1];
    }
    forall i | 0 <= i < |ExactRules|
      ensures ExactRules[i].event != DanceEvent
    {
      assert EventNames[0] != EventNames[i + 1];
    }
  }

  /** The exact-count rules require 20 participants in all. */
  lemma RequiredTotalIsTwenty()
    ensures RequiredTotal(ExactRules) == 20
  {
  }

  /** The sum of the required counts of `rules`. */
  function RequiredTotal(rules: seq<CountRule>): nat {
    if rules == [] then 0 else rules[0].required + RequiredTotal(rules[1..])
  }
}
