/** The time-slot picker of the client (`components/TimeSlotsPicker.jsx`):
    the 15-minute slots from 08:00 to 20:00, the string comparison that
    decides which of today's slots are past, the counters shown above the
    slots, and the rule that disables a slot. The clock is not read here:
    today's ISO date and the current hour and minute are parameters. */
module TimeSlotsPicker {
  import opened JsValues
  import opened JsStrings
  import opened TimeGrid

  /** The first and the last slot, in minutes after midnight. */
  const FirstSlot: int := 8 * 60
  const LastSlot: int := 20 * 60

  /** The number of slots `buildSlots(15)` produces. */
  const SlotCount: int := 49

  /** `buildSlots(15)`: one zero-padded "HH:MM" text every 15 minutes from
      08:00 to 20:00 inclusive. */
  method BuildSlots() returns (slots: seq<string>)
    ensures |slots| == SlotCount
    ensures forall i :: 0 <= i < |slots| ==> slots[i] == Slot(i)
  {
    slots := [];
    var t := FirstSlot;
    while t <= LastSlot
      invariant t == 480 + 15 * |slots| && |slots| <= SlotCount
      invariant forall i :: 0 <= i < |slots| ==> slots[i] == Slot(i)
      decreases LastSlot - t
    {
      var hh := PadStart2(IntToString(t / 60));
      var mm := PadStart2(IntToString(t % 60));
      var text := hh + ":" + mm;
      SlotTextAt(t, |slots|, text);
      AppendSlot(slots, text);
      slots := slots + [text];
      t := t + Step;
    }
  }

  /** Appending the next slot to the first `|slots|` slots gives the first
      `|slots| + 1`. */
  lemma AppendSlot(slots: seq<string>, text: string)
    requires |slots| < SlotCount && text == Slot(|slots|)
    requires forall i :: 0 <= i < |slots| ==> slots[i] == Slot(i)
    ensures forall i :: 0 <= i < |slots| + 1 ==> (slots + [text])[i] == Slot(i)
  {
  }

  /** The text the loop of `buildSlots` builds at minute `t` is slot `k`. */
  lemma SlotTextAt(t: int, k: int, text: string)
    requires 0 <= k < SlotCount && t == 480 + 15 * k
    requires text == PadStart2(IntToString(t / 60)) + ":" + PadStart2(IntToString(t % 60))
    ensures text == Slot(k)
  {
    var a := SlotMinutes(k);
    ClockTextOfNatural(t, t / 60, t % 60);
  }

  /** The slot at position `i` of `buildSlots(15)`: `FirstSlot + Step * i`
      minutes after midnight, with the two constants written out. */
  function Slot(i: int): string
    requires 0 <= i < SlotCount
  {
    ClockText(480 + 15 * i)
  }

  /** Every slot is a point of the 15-minute grid: normalising it gives
      it back, so the picker never offers a time the backend would move. */
  lemma SlotIsGridPoint(i: int)
    requires 0 <= i < SlotCount
    ensures NormalizeToStep(Slot(i)) == Some(Slot(i))
  {
    var r := FirstSlot + Step * i;
    assert r % Step == 0 by {
      assert r == Step * (32 + i);
    }
    assert Slot(i) == ClockText(r);
    GridPointIsFixed(r);
  }

  /** The slots increase strictly, as strings and as times. */
  lemma SlotsIncrease(i: int, j: int)
    requires 0 <= i < j < SlotCount
    ensures Less(Slot(i), Slot(j))
  {
    var a := SlotMinutes(i);
    var b := SlotMinutes(j);
    ClockOrder(a, b);
  }

  /** The minutes after midnight of slot `i`, with the constants written
      out so that the arithmetic stays linear. */
  lemma SlotMinutes(i: int) returns (a: int)
    requires 0 <= i < SlotCount
    ensures a == 480 + 15 * i && Slot(i) == ClockText(a)
  {
    a := 480 + 15 * i;
    assert FirstSlot + Step * i == a;
  }

  /** The first slot is "08:00" and the last "20:00". */
  lemma SlotEnds()
    ensures Slot(0) == "08:00" && Slot(SlotCount - 1) == "20:00"
  {
    FirstSlotText();
    LastSlotText();
  }

  /** The first slot prints as "08:00". */
  lemma FirstSlotText()
    ensures Slot(0) == "08:00"
  {
    var a := SlotMinutes(0);
    ClockTextOfNatural(a, 8, 0);
    TwoDigits(8);
    TwoDigits(0);
  }

  /** The last slot prints as "20:00". */
  lemma LastSlotText()
    ensures Slot(SlotCount - 1) == "20:00"
  {
    var a := SlotMinutes(SlotCount - 1);
    ClockTextOfNatural(a, 20, 0);
    TwoDigits(20);
    TwoDigits(0);
  }

  /** `isBefore(a, b)`: plain string `<`. */
  predicate IsBefore(a: string, b: string) {
    Less(a, b)
  }

  /** `currentTimeHHMM()` for the current hour and minute. */
  function CurrentTimeHHMM(hours: nat, minutes: nat): string {
    PadStart2(NatToString(hours)) + ":" + PadStart2(NatToString(minutes))
  }

  /** String `<` between a slot and the current time is the order of the
      times themselves. */
  lemma IsBeforeIsChronological(i: int, hours: nat, minutes: nat)
    requires 0 <= i < SlotCount && hours < 24 && minutes < 60
    ensures IsBefore(Slot(i), CurrentTimeHHMM(hours, minutes)) <==> FirstSlot + Step * i < hours * 60 + minutes
  {
    var now := hours * 60 + minutes;
    ClockTextOfNatural(now, hours, minutes);
    ClockOrder(FirstSlot + Step * i, now);
  }

  /** `isToday && minTime && isBefore(t, minTime)`, where `minTime` is the
      current time on today's date and `null` on any other. */
  predicate IsPast(t: string, isToday: bool, minTime: Option<string>) {
    isToday && minTime.Some? && minTime.value != "" && IsBefore(t, minTime.value)
  }

  /** The disabled rule of a slot button: occupied or past. */
  predicate Disabled(t: string, occupied: set<string>, isToday: bool, minTime: Option<string>) {
    t in occupied || IsPast(t, isToday, minTime)
  }

  /** The slots offered for a date: none until a date is chosen. */
  function OfferedSlots(selectedDate: string, slots: seq<string>): (offered: seq<string>)
    ensures selectedDate == "" ==> offered == []
    ensures selectedDate != "" ==> offered == slots
  {
    if selectedDate == "" then [] else slots
  }

  /** On the chosen date, with the real clock, a slot is disabled exactly
      when it is booked or, on today's date, it started before now. */
  lemma DisabledSlot(i: int, occupied: set<string>, selectedDate: string, today: string, hours: nat, minutes: nat)
    requires 0 <= i < SlotCount && hours < 24 && minutes < 60
    ensures var isToday := selectedDate == today;
      var minTime := if isToday then Some(CurrentTimeHHMM(hours, minutes)) else None;
      Disabled(Slot(i), occupied, isToday, minTime) <==>
        Slot(i) in occupied || (isToday && FirstSlot + Step * i < hours * 60 + minutes)
  {
    IsBeforeIsChronological(i, hours, minutes);
  }

  // ---------------------------------------------------------------------
  // The counters
  // ---------------------------------------------------------------------

  /** How many flags are set. */
  function CountTrue(flags: seq<bool>): (n: nat)
    ensures n <= |flags|
  {
    if flags == [] then 0
    else CountTrue(flags[..|flags| - 1]) + (if flags[|flags| - 1] then 1 else 0)
  }

  function PastFlags(slots: seq<string>, isToday: bool, minTime: Option<string>): seq<bool> {
    seq(|slots|, i requires 0 <= i < |slots| => IsPast(slots[i], isToday, minTime))
  }

  function OccupiedFlags(slots: seq<string>, occupied: set<string>): seq<bool> {
    seq(|slots|, i requires 0 <= i < |slots| => slots[i] in occupied)
  }

  function DisabledFlags(slots: seq<string>, occupied: set<string>, isToday: bool, minTime: Option<string>): seq<bool> {
    seq(|slots|, i requires 0 <= i < |slots| => Disabled(slots[i], occupied, isToday, minTime))
  }

  function PastAndOccupiedFlags(slots: seq<string>, occupied: set<string>, isToday: bool, minTime: Option<string>): seq<bool> {
    seq(|slots|, i requires 0 <= i < |slots| => slots[i] in occupied && IsPast(slots[i], isToday, minTime))
  }

  /** The counting loop of the picker: `pastCount` counts the past slots
      and `occupiedCount` the slots found in `occupiedTimes`. */
  method CountSlots(slots: seq<string>, occupied: set<string>, isToday: bool, minTime: Option<string>)
    returns (pastCount: nat, occupiedCount: nat)
    ensures pastCount == CountTrue(PastFlags(slots, isToday, minTime))
    ensures occupiedCount == CountTrue(OccupiedFlags(slots, occupied))
  {
    pastCount, occupiedCount := 0, 0;
    var k := 0;
    while k < |slots|
      invariant 0 <= k <= |slots|
      invariant pastCount == CountTrue(PastFlags(slots[..k], isToday, minTime))
      invariant occupiedCount == CountTrue(OccupiedFlags(slots[..k], occupied))
    {
      var t := slots[k];
      assert PastFlags(slots[..k + 1], isToday, minTime)[..k] == PastFlags(slots[..k], isToday, minTime);
      assert OccupiedFlags(slots[..k + 1], occupied)[..k] == OccupiedFlags(slots[..k], occupied);
      var isPast := isToday && minTime.Some? && minTime.value != "" && IsBefore(t, minTime.value);
      if isPast {
        pastCount := pastCount + 1;
      }
      if t in occupied {
        occupiedCount := occupiedCount + 1;
      }
      k := k + 1;
    }
    assert slots[..k] == slots;
  }

  /** `Math.max(slots.length - occupiedCount - pastCount, 0)`, as written. */
  function AvailableCount(total: int, occupiedCount: int, pastCount: int): (n: int)
    ensures n >= 0
    ensures n >= total - occupiedCount - pastCount
    ensures n == 0 || n == total - occupiedCount - pastCount
  {
    if total - occupiedCount - pastCount > 0 then total - occupiedCount - pastCount else 0
  }

  /** The number of slots a user can actually pick: those not disabled. */
  function EnabledCount(slots: seq<string>, occupied: set<string>, isToday: bool, minTime: Option<string>): (n: nat)
    ensures n <= |slots|
  {
    |slots| - CountTrue(DisabledFlags(slots, occupied, isToday, minTime))
  }

  /** Counting past and occupied slots separately counts the slots that
      are both twice. */
  lemma {:induction false} InclusionExclusion(slots: seq<string>, occupied: set<string>, isToday: bool, minTime: Option<string>)
    ensures CountTrue(DisabledFlags(slots, occupied, isToday, minTime)) + CountTrue(PastAndOccupiedFlags(slots, occupied, isToday, minTime))
         == CountTrue(PastFlags(slots, isToday, minTime)) + CountTrue(OccupiedFlags(slots, occupied))
    decreases |slots|
  {
    if slots != [] {
      var n := |slots| - 1;
      var init := slots[..n];
      FlagPrefixes(slots, occupied, isToday, minTime);
      InclusionExclusion(init, occupied, isToday, minTime);
    }
  }

  /** The flags of a prefix of the slots are the prefix of their flags. */
  lemma FlagPrefixes(slots: seq<string>, occupied: set<string>, isToday: bool, minTime: Option<string>)
    requires slots != []
    ensures var n, init := |slots| - 1, slots[..|slots| - 1];
      && DisabledFlags(slots, occupied, isToday, minTime)[..n] == DisabledFlags(init, occupied, isToday, minTime)
      && PastAndOccupiedFlags(slots, occupied, isToday, minTime)[..n] == PastAndOccupiedFlags(init, occupied, isToday, minTime)
      && PastFlags(slots, isToday, minTime)[..n] == PastFlags(init, isToday, minTime)
      && OccupiedFlags(slots, occupied)[..n] == OccupiedFlags(init, occupied)
  {
    var n, init := |slots| - 1, slots[..|slots| - 1];
    assert DisabledFlags(slots, occupied, isToday, minTime)[..n] == DisabledFlags(init, occupied, isToday, minTime);
    assert PastAndOccupiedFlags(slots, occupied, isToday, minTime)[..n] == PastAndOccupiedFlags(init, occupied, isToday, minTime);
    assert PastFlags(slots, isToday, minTime)[..n] == PastFlags(init, isToday, minTime);
    assert OccupiedFlags(slots, occupied)[..n] == OccupiedFlags(init, occupied);
  }

  /** The displayed count as written never exceeds the enabled slots, is
      exact when no slot is both past and occupied, and falls short of
      them when some slot is both while some slot is still enabled. */
  lemma AvailableCountUndercounts(slots: seq<string>, occupied: set<string>, isToday: bool, minTime: Option<string>)
    ensures var shown := AvailableCount(|slots|, CountTrue(OccupiedFlags(slots, occupied)), CountTrue(PastFlags(slots, isToday, minTime)));
      var enabled := EnabledCount(slots, occupied, isToday, minTime);
      var both := CountTrue(PastAndOccupiedFlags(slots, occupied, isToday, minTime));
      && shown <= enabled
      && (both == 0 ==> shown == enabled)
      && (both > 0 && enabled > 0 ==> shown < enabled)
  {
    InclusionExclusion(slots, occupied, isToday, minTime);
  }

  /** Each enabled slot is counted once by the corrected count: it is the
      number of slots the user can pick, and never negative. */
  lemma {:induction false} EnabledCountCountsEnabledSlots(slots: seq<string>, occupied: set<string>, isToday: bool, minTime: Option<string>)
    ensures EnabledCount(slots, occupied, isToday, minTime)
         == CountTrue(seq(|slots|, i requires 0 <= i < |slots| => !Disabled(slots[i], occupied, isToday, minTime)))
    decreases |slots|
  {
    if slots != [] {
      var n := |slots| - 1;
      var init := slots[..n];
      var enabled := seq(|slots|, i requires 0 <= i < |slots| => !Disabled(slots[i], occupied, isToday, minTime));
      assert DisabledFlags(slots, occupied, isToday, minTime)[..n] == DisabledFlags(init, occupied, isToday, minTime);
      assert enabled[..n] == seq(|init|, i requires 0 <= i < |init| => !Disabled(init[i], occupied, isToday, minTime));
      EnabledCountCountsEnabledSlots(init, occupied, isToday, minTime);
    }
  }
}
