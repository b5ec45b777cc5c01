/**
 * The typing monitor behind zen mode: every input event marks the user as typing, switches
 * the `zen` class on when the zen toggle is checked, and (re)starts a 700 ms timer whose
 * expiry marks the user idle again. Clearing the pending timer before starting the next one
 * debounces the idle signal: only the last keystroke's timer can fire.
 */
module TypingMonitor {
  import opened Wrappers

  const QuietPeriod: nat := 700
  const TypingSignal: string := "Typing\U{00E2}\U{20AC}\U{00A6} Deep Work Active"
  const IdleSignal: string := "Idle"

  /**
   * What the page holds: whether the signal says typing, when the pending timer fires
   * (None when no timer is pending), and whether the body carries the `zen` class.
   */
  datatype State = State(typing: bool, deadline: Option<int>, zen: bool)

  /** The user is typing exactly while a timer is pending, and zen mode needs typing. */
  predicate Consistent(s: State) {
    (s.typing <==> s.deadline.Some?) && (s.zen ==> s.typing)
  }

  /** The page before any input: idle, no timer, no `zen` class. */
  const Initial: State := State(false, None, false)

  /** `zenTypingState(isTyping)`: the class follows `toggles.zen.checked && isTyping`. */
  function ZenTypingState(s: State, isTyping: bool, zenChecked: bool): (t: State)
    ensures t.typing == isTyping && t.deadline == s.deadline
    ensures t.zen <==> zenChecked && isTyping
  {
    State(isTyping, s.deadline, zenChecked && isTyping)
  }

  /** The input handler at time now: typing, and a fresh timer replacing any pending one. */
  function AfterInput(s: State, now: int, zenChecked: bool): (t: State)
    ensures t.typing && t.deadline == Some(now + QuietPeriod) && (t.zen <==> zenChecked)
  {
    var shown := ZenTypingState(s, true, zenChecked);
    shown.(deadline := Some(now + QuietPeriod))
  }

  /** The event loop at time now: a pending timer whose time has come fires and clears the state. */
  function AfterTick(s: State, now: int): (t: State)
    ensures s.deadline.Some? && now >= s.deadline.value ==> t == Initial
    ensures !(s.deadline.Some? && now >= s.deadline.value) ==> t == s
  {
    if s.deadline.Some? && now >= s.deadline.value then
      ZenTypingState(s, false, false).(deadline := None)
    else s
  }

  /** The text of the typing signal. */
  function Signal(s: State): (text: string)
    ensures text == TypingSignal <==> s.typing
    ensures text == IdleSignal <==> !s.typing
  {
    if s.typing then TypingSignal else IdleSignal
  }

  lemma InitialConsistent()
    ensures Consistent(Initial) && Signal(Initial) == IdleSignal
  {
  }

  /** Both events keep the state consistent. */
  lemma EventsKeepConsistent(s: State, now: int, zenChecked: bool)
    requires Consistent(s)
    ensures Consistent(AfterInput(s, now, zenChecked))
    ensures Consistent(AfterTick(s, now))
  {
  }

  /** After an input at time t the signal stays on typing until t + 700 and goes idle from then on. */
  lemma QuietPeriodAfterInput(s: State, t: int, zenChecked: bool, now: int)
    ensures AfterTick(AfterInput(s, t, zenChecked), now).typing <==> now < t + QuietPeriod
    ensures now >= t + QuietPeriod ==>
      Signal(AfterTick(AfterInput(s, t, zenChecked), now)) == IdleSignal
      && !AfterTick(AfterInput(s, t, zenChecked), now).zen
  {
  }

  /**
   * Debouncing: a second input at t2 cancels the first input's timer, so a tick at any time
   * before t2 + 700, even one past the first deadline, leaves the user typing.
   */
  lemma SecondInputPostponesIdle(s: State, t1: int, t2: int, z1: bool, z2: bool, now: int)
    requires t1 <= t2 && now < t2 + QuietPeriod
    ensures var after := AfterInput(AfterInput(s, t1, z1), t2, z2);
      AfterTick(after, now) == after && Signal(AfterTick(after, now)) == TypingSignal
  {
  }

  /** A tick with no timer pending changes nothing, so ticks repeat harmlessly. */
  lemma TickIdempotent(s: State, now: int)
    ensures AfterTick(AfterTick(s, now), now) == AfterTick(s, now)
  {
  }

  /** An input event sequence for the run below. */
  datatype Event = Input(time: int, zenChecked: bool) | Tick(time: int)

  /** The state after the events, in order. */
  function Run(s: State, events: seq<Event>): State
    decreases |events|
  {
    if events == [] then s
    else
      var e := events[0];
      var next := match e
        case Input(t, z) => AfterInput(s, t, z)
        case Tick(t) => AfterTick(s, t);
      Run(next, events[1..])
  }

  /** Every run of events from a consistent state ends consistent. */
  lemma {:induction false} RunKeepsConsistent(s: State, events: seq<Event>)
    requires Consistent(s)
    ensures Consistent(Run(s, events))
    decreases |events|
  {
    if events != [] {
      match events[0]
      case Input(t, z) =>
        EventsKeepConsistent(s, t, z);
        RunKeepsConsistent(AfterInput(s, t, z), events[1..]);
      case Tick(t) =>
        EventsKeepConsistent(s, t, false);
        RunKeepsConsistent(AfterTick(s, t), events[1..]);
    }
  }

  /** The page's own state: the signal, the pending `typingTimer` and the body's class. */
  class Monitor {
    var typing: bool
    var deadline: Option<int>
    var zen: bool

    function Current(): State
      reads this
    {
      State(typing, deadline, zen)
    }

    /** The page is consistent: the signal says typing exactly while a timer is pending, and the `zen` class is on only while typing. */
    ghost predicate Valid()
      reads this
    {
      Consistent(Current())
    }

    constructor ()
      ensures Current() == Initial && Valid()
    {
      typing := false;
      deadline := None;
      zen := false;
    }

    /** The editor's `input` listener at time now. */
    method OnInput(now: int, zenChecked: bool)
      modifies this
      ensures Current() == AfterInput(old(Current()), now, zenChecked)
      ensures Valid()
    {
      typing := true;
      zen := zenChecked;
      deadline := None;
      deadline := Some(now + QuietPeriod);
    }

    /** The event loop reaching time now: the pending timer fires when its time has come. A tick that fires nothing leaves the page as it was, so it stays consistent only if it was. */
    method OnTick(now: int)
      requires Valid()
      modifies this
      ensures Current() == AfterTick(old(Current()), now)
      ensures Valid()
    {
      if deadline.Some? && now >= deadline.value {
        typing := false;
        zen := false;
        deadline := None;
      }
    }
  }
}
