/** The exam screen's schedule resolver: given the current instant and the slot
    list, whether the exam is upcoming, active or over, and which slot applies. */
module Schedule {
  import opened Wrappers
  import opened Records

  datatype Status = Upcoming | Active | Ended

  datatype Resolution = Resolution(status: Status, slot: Option<Slot>)

  /** The slot's window includes `now`, both ends included. */
  predicate Contains(slot: Slot, now: int) {
    slot.start <= now <= slot.end
  }

  /** `slots.some(...)`: some slot's window includes `now`. */
  predicate SomeSlotContains(slots: seq<Slot>, now: int) {
    exists i :: 0 <= i < |slots| && Contains(slots[i], now)
  }

  /** `Math.min(...starts)`. Over no slots the minimum is +Infinity, and
      `new Date(Infinity)` is an invalid date, which is `None` here. */
  function EarliestStart(slots: seq<Slot>): (r: Option<int>)
    ensures r.None? <==> |slots| == 0
    ensures r.Some? ==> forall i :: 0 <= i < |slots| ==> r.value <= slots[i].start
    ensures r.Some? ==> exists i :: 0 <= i < |slots| && slots[i].start == r.value
  {
    if |slots| == 0 then None
    else
      match EarliestStart(slots[1..])
      case None => Some(slots[0].start)
      case Some(m) => Some(if slots[0].start <= m then slots[0].start else m)
  }

  /** `Math.max(...ends)`; `None` (an invalid date) over no slots. */
  function LatestEnd(slots: seq<Slot>): (r: Option<int>)
    ensures r.None? <==> |slots| == 0
    ensures r.Some? ==> forall i :: 0 <= i < |slots| ==> slots[i].end <= r.value
    ensures r.Some? ==> exists i :: 0 <= i < |slots| && slots[i].end == r.value
  {
    if |slots| == 0 then None
    else
      match LatestEnd(slots[1..])
      case None => Some(slots[0].end)
      case Some(m) => Some(if m <= slots[0].end then slots[0].end else m)
  }

  /** `slots.find(...)`: the index of the first slot, in declared order, whose
      window includes `now`. */
  function FindSlot(slots: seq<Slot>, now: int): (r: Option<nat>)
    ensures r.Some? ==> r.value < |slots| && Contains(slots[r.value], now)
    ensures r.Some? ==> forall j :: 0 <= j < r.value ==> !Contains(slots[j], now)
    ensures r.None? <==> forall j :: 0 <= j < |slots| ==> !Contains(slots[j], now)
  {
    if |slots| == 0 then None
    else if Contains(slots[0], now) then Some(0)
    else
      match FindSlot(slots[1..], now)
      case None => None
      case Some(k) => Some(k + 1)
  }

  /** `checkSchedule`'s decision. A comparison with an invalid date is false in
      JavaScript, so with no slots neither bound test fires and the empty search
      yields `Upcoming`. */
  function Resolve(now: int, slots: seq<Slot>): (r: Resolution)
    // active exactly when some slot includes now, and then with the first such slot
    ensures r.status == Active <==> SomeSlotContains(slots, now)
    ensures r.status == Active ==>
              exists i :: 0 <= i < |slots| && r.slot == Some(slots[i]) && Contains(slots[i], now) &&
                          forall j :: 0 <= j < i ==> !Contains(slots[j], now)
    ensures r.status != Active ==> r.slot == None
    // ended exactly when some slot has begun and every slot is over
    ensures r.status == Ended <==>
              (exists i :: 0 <= i < |slots| && slots[i].start <= now) &&
              (forall i :: 0 <= i < |slots| ==> slots[i].end < now)
  {
    var earliest := EarliestStart(slots);
    var latest := LatestEnd(slots);
    if earliest.Some? && now < earliest.value then Resolution(Upcoming, None)
    else if latest.Some? && now > latest.value then Resolution(Ended, None)
    else
      match FindSlot(slots, now)
      case Some(i) => Resolution(Active, Some(slots[i]))
      case None => Resolution(Upcoming, None)
  }

  /** Before every slot's start the exam is upcoming with no slot; with no slots
      at all it is upcoming too. */
  lemma BeforeAllSlots(now: int, slots: seq<Slot>)
    requires forall i :: 0 <= i < |slots| ==> now < slots[i].start
    ensures Resolve(now, slots) == Resolution(Upcoming, None)
  {
  }

  /** After every slot's end (with some slot already begun) the exam has ended,
      with no slot. */
  lemma AfterAllSlots(now: int, slots: seq<Slot>)
    requires |slots| > 0 && slots[0].start <= now
    requires forall i :: 0 <= i < |slots| ==> slots[i].end < now
    ensures Resolve(now, slots) == Resolution(Ended, None)
  {
  }

  /** Inside the overall window but in a gap between slots the exam is upcoming. */
  lemma GapBetweenSlots(now: int, slots: seq<Slot>, i: nat)
    requires i < |slots| && slots[i].start <= now
    requires forall j :: 0 <= j < |slots| ==> !Contains(slots[j], now)
    requires exists j :: 0 <= j < |slots| && now <= slots[j].end
    ensures Resolve(now, slots) == Resolution(Upcoming, None)
  {
  }

  /** Overlapping slots: the one declared first wins. */
  lemma OverlapFirstDeclaredWins(now: int, a: Slot, b: Slot)
    requires Contains(a, now) && Contains(b, now)
    ensures Resolve(now, [a, b]) == Resolution(Active, Some(a))
  {
    var r := Resolve(now, [a, b]);
    assert r.status == Active by { assert Contains([a, b][0], now); }
  }

  /** The course a slot selects; a slot without one selects `web`. */
  function CourseOf(slot: Slot): (course: string)
    ensures course != ""
    ensures slot.course != "" ==> course == slot.course
    ensures slot.course == "" ==> course == "web"
  {
    if slot.course == "" then "web" else slot.course
  }

  /** The three compiled-in question banks. */
  datatype Banks = Banks(web: seq<Question>, newAi: seq<Question>, oldAi: seq<Question>)

  /** `mcqModules[course] || mcqModules.web`: an unknown course falls back to web. */
  function BankFor(banks: Banks, course: string): (qs: seq<Question>)
    ensures course == "new_ai" ==> qs == banks.newAi
    ensures course == "old_ai" ==> qs == banks.oldAi
    ensures course == "web" ==> qs == banks.web
    ensures course !in {"web", "new_ai", "old_ai"} ==> qs == banks.web
  {
    if course == "new_ai" then banks.newAi
    else if course == "old_ai" then banks.oldAi
    else banks.web
  }

  /** `schedule.duration || 60`: a missing or zero duration means 60 minutes. */
  function DurationMinutes(duration: Option<int>): (minutes: int)
    ensures minutes != 0
    ensures duration.Some? && duration.value != 0 ==> minutes == duration.value
    ensures duration.None? || duration == Some(0) ==> minutes == 60
  {
    match duration
    case None => 60
    case Some(d) => if d == 0 then 60 else d
  }
}
