/**
 * The "Today's Special" badge (res.js:119-140, 392-396). On Fridays and at the
 * weekend two timers are set at page load: one shows the badge after two
 * seconds and one hides it again after twelve. A click on the badge, or the
 * Escape key anywhere on the page, hides it. The day of the week is an input
 * here, and time is the order in which timers fire and the user acts.
 */
module SpecialBadge {

  /** `Date.prototype.getDay`: 0 is Sunday, 6 is Saturday. */
  type Weekday = d: int | 0 <= d < 7

  const ShowDelayMs := 2000
  const HideDelayMs := 12000

  /** The days the badge is scheduled on: Friday, Saturday and Sunday. */
  predicate IsSpecialDay(day: Weekday)
    ensures !IsSpecialDay(day) <==> 1 <= day <= 4
  {
    day == 5 || day == 6 || day == 0
  }

  /** What a timer does to the badge's `show` class. */
  datatype Action = Show | Hide

  datatype Timer = Timer(delayMs: nat, action: Action)

  /** Something that changes the badge: a timer firing, a click on it, or Escape. */
  datatype Event = Fire(action: Action) | Click | EscapeKey

  /** The timers `initTodaysSpecial` sets, in the order it sets them. */
  function Schedule(day: Weekday): (timers: seq<Timer>)
    ensures timers != [] <==> IsSpecialDay(day)
  {
    if IsSpecialDay(day) then [Timer(ShowDelayMs, Show), Timer(HideDelayMs, Hide)] else []
  }

  /** The timers that have fired t milliseconds after page load, as events in firing order. */
  function FiredBy(timers: seq<Timer>, t: nat): seq<Event> {
    if timers == [] then []
    else (if timers[0].delayMs <= t then [Fire(timers[0].action)] else []) + FiredBy(timers[1..], t)
  }

  /** Whether the badge carries `show` after one event. */
  function Step(shown: bool, e: Event): (next: bool)
    ensures next <==> e == Fire(Show)
  {
    match e
    case Fire(Show) => true
    case Fire(Hide) => false
    case Click => false
    // The Escape handler removes `show` only when present, which leaves the same state.
    case EscapeKey => false
  }

  /** Whether the badge carries `show` after a run of events. */
  function Replay(shown: bool, events: seq<Event>): bool
    decreases events
  {
    if events == [] then shown else Replay(Step(shown, events[0]), events[1..])
  }

  /** Every event decides the badge on its own: it is shown exactly when the last event is a show. */
  lemma {:induction false} ReplayLast(shown: bool, events: seq<Event>)
    ensures Replay(shown, events) == if events == [] then shown else events[|events| - 1] == Fire(Show)
    decreases events
  {
    if events != [] {
      ReplayLast(Step(shown, events[0]), events[1..]);
    }
  }

  /** A run with no show event never shows a hidden badge. */
  lemma {:induction false} HiddenWithoutShow(events: seq<Event>)
    requires forall k :: 0 <= k < |events| ==> events[k] != Fire(Show)
    ensures !Replay(false, events)
  {
    if events != [] {
      HiddenWithoutShow(events[1..]);
    }
  }

  /**
   * Left to its timers, the badge is visible t milliseconds after page load
   * exactly on a special day with 2000 <= t < 12000.
   */
  lemma TimersAlone(day: Weekday, t: nat)
    ensures Replay(false, FiredBy(Schedule(day), t)) <==>
      IsSpecialDay(day) && ShowDelayMs <= t < HideDelayMs
  {
    var fired := FiredBy(Schedule(day), t);
    ReplayLast(false, fired);
    if IsSpecialDay(day) {
      var timers := Schedule(day);
      assert FiredBy(timers[1..][1..], t) == [];
      assert FiredBy(timers[1..], t) == (if HideDelayMs <= t then [Fire(Hide)] else []);
      assert fired == (if ShowDelayMs <= t then [Fire(Show)] else [])
                    + (if HideDelayMs <= t then [Fire(Hide)] else []);
    }
  }

  /**
   * On any other day the badge never shows, whatever the user does in between:
   * any run made of fired timers and user dismissals leaves it hidden.
   */
  lemma NeverOnOtherDays(day: Weekday, t: nat, events: seq<Event>)
    requires !IsSpecialDay(day)
    requires forall k :: 0 <= k < |events| ==>
      events[k] in FiredBy(Schedule(day), t) || events[k] == Click || events[k] == EscapeKey
    ensures !Replay(false, events)
  {
    assert FiredBy(Schedule(day), t) == [];
    HiddenWithoutShow(events);
  }

  /** Whatever the day, a click or Escape hides the badge until a timer shows it again. */
  lemma DismissHides(shown: bool, events: seq<Event>)
    requires events != [] && (events[|events| - 1] == Click || events[|events| - 1] == EscapeKey)
    ensures !Replay(shown, events)
  {
    ReplayLast(shown, events);
  }
}
