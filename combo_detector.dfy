/**
 * The activity's gamepad shortcut: holding Start together with Select (or Back) opens the in-game menu once
 * per chord, and the slot an intent asks to load at start-up.
 */
module ComboDetector {
  import opened Wrappers
  import opened SnapshotFiles

  // Android key codes, key actions and input-source bits.
  const KeycodeBack := 4
  const KeycodeButtonStart := 108
  const KeycodeButtonSelect := 109
  const ActionDown := 0
  const ActionUp := 1
  const SourceGamepad: bv32 := 0x0000_0401
  const SourceJoystick: bv32 := 0x0100_0010

  /** The parts of an Android `KeyEvent` the shortcut looks at; `source` is the `Int` bit set, as 32 bits. */
  datatype KeyEvent = KeyEvent(keyCode: int, action: int, source: bv32, repeatCount: int)

  /**
   * `isGamepadKeyEvent`: every gamepad bit, or every joystick bit, is set in the event's source. Either way the
   * source is of the button class (bit 0x1) or of the joystick class (bit 0x10).
   */
  predicate IsGamepadKeyEvent(e: KeyEvent): (b: bool)
    ensures b <==> (e.source & 0x400 != 0 && e.source & 0x1 != 0) || (e.source & 0x0100_0000 != 0 && e.source & 0x10 != 0)
    ensures b ==> e.source & 0x11 != 0
  {
    (e.source & SourceGamepad) == SourceGamepad || (e.source & SourceJoystick) == SourceJoystick
  }

  /** More source bits never turn a gamepad event into something else. */
  lemma GamepadEventMoreBits(e: KeyEvent, extra: bv32)
    requires IsGamepadKeyEvent(e)
    ensures IsGamepadKeyEvent(e.(source := e.source | extra))
  {
  }

  /** A keyboard (`SOURCE_KEYBOARD`) or d-pad (`SOURCE_DPAD`) key is not a gamepad event: both lack bit 0x400. */
  lemma KeyboardAndDpadAreNotGamepad(e: KeyEvent)
    requires e.source == 0x0000_0101 || e.source == 0x0000_0201
    ensures !IsGamepadKeyEvent(e)
  {
  }

  predicate IsStartKey(e: KeyEvent) { e.keyCode == KeycodeButtonStart }

  /** Back counts as Select, for controllers that report their Select button as Back. */
  predicate IsSelectKey(e: KeyEvent) { e.keyCode == KeycodeButtonSelect || e.keyCode == KeycodeBack }

  /** A press or release of a chord button on a gamepad: the only events the shortcut reacts to. */
  predicate IsChordEvent(e: KeyEvent) {
    IsGamepadKeyEvent(e) && (IsStartKey(e) || IsSelectKey(e))
  }

  /** The three flags `handleGamepadMenuCombo` keeps between events. */
  datatype ComboState = ComboState(startDown: bool, selectDown: bool, triggered: bool)

  const Released := ComboState(false, false, false)

  /** The chord only counts as triggered while both of its buttons are held. */
  predicate Consistent(s: ComboState) {
    s.triggered ==> s.startDown && s.selectDown
  }

  /** What one event does: the new flags, the handler's return value, and whether the menu is shown. */
  datatype ComboOutcome = ComboOutcome(state: ComboState, handled: bool, menuShown: bool)

  /** The reference step of the shortcut, one event at a time. */
  function ComboStep(s: ComboState, e: KeyEvent): ComboOutcome {
    if !IsChordEvent(e) then ComboOutcome(s, false, false)
    else if e.action == ActionDown then
      var start := s.startDown || IsStartKey(e);
      var select := s.selectDown || IsSelectKey(e);
      if !s.triggered && e.repeatCount == 0 && start && select then ComboOutcome(ComboState(start, select, true), true, true)
      else ComboOutcome(ComboState(start, select, s.triggered), s.triggered, false)
    else if e.action == ActionUp then
      var start := s.startDown && !IsStartKey(e);
      var select := s.selectDown && !IsSelectKey(e);
      var triggered := s.triggered && start && select;
      ComboOutcome(ComboState(start, select, triggered), triggered, false)
    else ComboOutcome(s, s.triggered, false)
  }

  /** Events other than gamepad Start/Select/Back are passed on untouched. */
  lemma NonChordEventsIgnored(s: ComboState, e: KeyEvent)
    requires !IsChordEvent(e)
    ensures ComboStep(s, e) == ComboOutcome(s, false, false)
  {
  }

  /** Every step keeps the flags consistent. */
  lemma ComboStepConsistent(s: ComboState, e: KeyEvent)
    requires Consistent(s)
    ensures Consistent(ComboStep(s, e).state)
  {
  }

  /**
   * The menu opens exactly on the first (non-repeated) press of one chord button while the other one is held
   * and the chord has not fired yet.
   */
  lemma MenuOpensExactlyOnChordPress(s: ComboState, e: KeyEvent)
    ensures ComboStep(s, e).menuShown <==>
      && IsGamepadKeyEvent(e) && e.action == ActionDown && e.repeatCount == 0 && !s.triggered
      && ((IsStartKey(e) && s.selectDown) || (IsSelectKey(e) && s.startDown))
  {
  }

  /** The event is consumed exactly when it is a chord event and the chord stands fired afterwards. */
  lemma HandledMeansChordHeld(s: ComboState, e: KeyEvent)
    requires Consistent(s)
    ensures ComboStep(s, e).handled <==> IsChordEvent(e) && ComboStep(s, e).state.triggered
    ensures ComboStep(s, e).handled ==> ComboStep(s, e).state.startDown && ComboStep(s, e).state.selectDown
  {
  }

  /** Releasing either chord button re-arms the shortcut. */
  lemma ReleaseRearms(s: ComboState, e: KeyEvent)
    requires IsChordEvent(e) && e.action == ActionUp
    ensures !ComboStep(s, e).state.triggered && !ComboStep(s, e).handled
  {
  }

  /** The flags after a run of events, and how many times the menu was shown. */
  function Run(s: ComboState, events: seq<KeyEvent>): (ComboState, nat)
    decreases |events|
  {
    if events == [] then (s, 0)
    else
      var step := ComboStep(s, events[0]);
      var (final, shown) := Run(step.state, events[1..]);
      (final, shown + if step.menuShown then 1 else 0)
  }

  /** No release of a chord button among the events. */
  predicate NoChordRelease(events: seq<KeyEvent>) {
    forall i :: 0 <= i < |events| ==> !(IsChordEvent(events[i]) && events[i].action == ActionUp)
  }

  /** Once the chord has fired, holding it (key repeats, presses of the same buttons, other keys) never reopens the menu. */
  lemma {:induction false} HeldChordOpensMenuOnce(s: ComboState, events: seq<KeyEvent>)
    requires Consistent(s) && s.triggered
    requires NoChordRelease(events)
    ensures Run(s, events).1 == 0 && Run(s, events).0.triggered
    decreases |events|
  {
    if events != [] {
      var step := ComboStep(s, events[0]);
      assert step.state.triggered && !step.menuShown;
      ComboStepConsistent(s, events[0]);
      assert NoChordRelease(events[1..]) by {
        forall i | 0 <= i < |events[1..]|
          ensures !(IsChordEvent(events[1..][i]) && events[1..][i].action == ActionUp)
        {
          assert events[1..][i] == events[i + 1];
        }
      }
      HeldChordOpensMenuOnce(step.state, events[1..]);
    }
  }

  /** The activity's state this model covers. */
  class MainActivity {
    var startButtonDown: bool
    var selectButtonDown: bool
    var comboTriggered: bool
    var startupSnapshotSlot: Option<int>

    /** The combo flags as a value. */
    function Combo(): ComboState
      reads this
    {
      ComboState(startButtonDown, selectButtonDown, comboTriggered)
    }

    /** A fresh activity: no button held, no chord fired, no start-up slot. */
    constructor ()
      ensures Combo() == Released && startupSnapshotSlot.None?
    {
      startButtonDown := false;
      selectButtonDown := false;
      comboTriggered := false;
      startupSnapshotSlot := None;
    }

    /**
     * The slot handling of `onCreate`: the intent's auto-load extra (0 when the intent or the extra is missing)
     * is kept only when it names one of the ten slots.
     */
    method OnCreate(slotExtra: Option<int>)
      modifies this
      ensures var requested := if slotExtra.Some? then slotExtra.value else 0;
        if 1 <= requested <= TotalSnapshotSlots then startupSnapshotSlot == Some(requested)
        else startupSnapshotSlot == old(startupSnapshotSlot)
      ensures Combo() == old(Combo())
    {
      var requestedSlot := if slotExtra.Some? then slotExtra.value else 0;
      if 1 <= requestedSlot <= TotalSnapshotSlots {
        startupSnapshotSlot := Some(requestedSlot);
      }
    }

    /**
     * `handleGamepadMenuCombo`: updates the held-button flags, shows the menu when the chord completes, and
     * reports whether the event was consumed. `menuShown` stands for the call to `showInGameMenu`.
     */
    method HandleGamepadMenuCombo(e: KeyEvent) returns (handled: bool, menuShown: bool)
      modifies this
      ensures ComboStep(old(Combo()), e) == ComboOutcome(Combo(), handled, menuShown)
      ensures startupSnapshotSlot == old(startupSnapshotSlot)
    {
      menuShown := false;
      if !IsGamepadKeyEvent(e) {
        return false, menuShown;
      }
      var isStartKey := e.keyCode == KeycodeButtonStart;
      var isSelectKey := e.keyCode == KeycodeButtonSelect || e.keyCode == KeycodeBack;
      if !isStartKey && !isSelectKey {
        return false, menuShown;
      }
      if e.action == ActionDown {
        if isStartKey {
          startButtonDown := true;
        }
        if isSelectKey {
          selectButtonDown := true;
        }
        if !comboTriggered && e.repeatCount == 0 && startButtonDown && selectButtonDown {
          comboTriggered := true;
          menuShown := true;
          return true, menuShown;
        }
      } else if e.action == ActionUp {
        if isStartKey {
          startButtonDown := false;
        }
        if isSelectKey {
          selectButtonDown := false;
        }
        if !startButtonDown || !selectButtonDown {
          comboTriggered := false;
        }
      }
      return comboTriggered, menuShown;
    }
  }
}
