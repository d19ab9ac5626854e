/** The side-key actions of App/app/action.c: which configured action a
    key event selects (ACTION_Handle), the DTMF input box's delete key, and
    the actions that step or toggle radio settings: output power,
    demodulation, VOX, the receive-mode cycle and "main only".

    The action table call itself, and every action that only calls into
    the radio, FM, scanner or settings drivers, is outside the model:
    ACTION_Handle returns the id of the action it would run. */
module Action {
  import opened Common
  import Display

  /* The enumerations live in headers that are not part of this model; the
     values are those of the firmware's enum order: OUTPUT_POWER_USER,
     LOW1 .. LOW5, MID, HIGH and MODULATION_FM, AM, USB, UKNOWN. The fields
     are stored as uint8_t, so ++ wraps at 256. */
  const PowerLow1: nat := 1
  const PowerHigh: nat := 7
  const ModulationFm: nat := 0
  const ModulationUnknown: nat := 3
  const OptNone: nat := 0          // ACTION_OPT_NONE

  /** ++ on a uint8_t. */
  function Increment(n: nat): (r: nat)
    ensures r < 256 && (n < 255 ==> r == n + 1)
  {
    (n + 1) % 256
  }

  /** C's ! on a uint8_t setting. */
  function Not(n: nat): (r: nat)
    ensures r <= 1 && (r == 1 <==> n == 0)
  {
    if n == 0 then 1 else 0
  }

  /** ACTION_Power's new OUTPUT_POWER: one step up, back to LOW1 past HIGH. */
  function NextPower(p: nat): (r: nat)
    ensures PowerLow1 <= p < PowerHigh ==> r == p + 1
    ensures PowerHigh <= p < 255 ==> r == PowerLow1
    ensures PowerLow1 <= p <= PowerHigh ==> PowerLow1 <= r <= PowerHigh
  {
    var q := Increment(p);
    if q > PowerHigh then PowerLow1 else q
  }

  /** ACTION_SwitchDemodul's new Modulation: one step up, back to FM on
      reaching UKNOWN. */
  function NextModulation(m: nat): (r: nat)
    ensures m + 1 < ModulationUnknown ==> r == m + 1
    ensures m + 1 == ModulationUnknown ==> r == ModulationFm
    ensures m < ModulationUnknown ==> r < ModulationUnknown
  {
    var q := Increment(m);
    if q == ModulationUnknown then ModulationFm else q
  }

  /** f applied k times. */
  function Repeat(f: nat -> nat, k: nat, x: nat): nat
  {
    if k == 0 then x else f(Repeat(f, k - 1, x))
  }

  /** From LOW1, k power steps (k up to 6) reach LOW1 + k: every level is
      visited in order. */
  lemma {:induction false} PowerSteps(k: nat)
    requires k <= PowerHigh - PowerLow1
    ensures Repeat(NextPower, k, PowerLow1) == PowerLow1 + k
  {
    if k > 0 {
      PowerSteps(k - 1);
    }
  }

  /** Seven power steps lead back to LOW1. */
  lemma PowerCycle()
    ensures Repeat(NextPower, PowerHigh - PowerLow1 + 1, PowerLow1) == PowerLow1
  {
    PowerSteps(PowerHigh - PowerLow1);
  }

  /** From FM, k demodulation steps (k below UKNOWN) reach mode k, and
      UKNOWN steps lead back to FM: UKNOWN itself is never selected. */
  lemma {:induction false} ModulationSteps(k: nat)
    requires k <= ModulationUnknown
    ensures k < ModulationUnknown ==> Repeat(NextModulation, k, ModulationFm) == k
    ensures k == ModulationUnknown ==> Repeat(NextModulation, k, ModulationFm) == ModulationFm
  {
    if k > 0 {
      ModulationSteps(k - 1);
    }
  }

  /** The configured actions of the side keys and the long MENU press. */
  datatype Bindings = Bindings(side1Short: nat, side1Long: nat, side2Short: nat, side2Long: nat, menuLong: nat)

  /** The short- and long-press actions bound to a key. */
  function ShortAction(key: Key, b: Bindings): nat
  {
    match key
    case Side1 => b.side1Short
    case Side2 => b.side2Short
    case _ => OptNone
  }

  function LongAction(key: Key, b: Bindings): nat
  {
    match key
    case Side1 => b.side1Long
    case Side2 => b.side2Long
    case Menu => b.menuLong
    case _ => OptNone
  }

  /** The three key events ACTION_Handle tells apart, after the press-down
      (pressed and not held), which never runs anything. */
  predicate PressDown(pressed: bool, held: bool) { pressed && !held }
  predicate HeldDown(pressed: bool, held: bool) { pressed && held }
  predicate ReleasedAfterHold(pressed: bool, held: bool) { !pressed && held }
  predicate ReleasedAfterShort(pressed: bool, held: bool) { !pressed && !held }

  /** The action ACTION_Handle runs outside DTMF input. */
  function Selected(key: Key, pressed: bool, held: bool, b: Bindings): Option<nat>
  {
    if !held && pressed then None
    else if held || pressed then (if !pressed then None else Some(LongAction(key, b)))
    else Some(ShortAction(key, b))
  }

  /** Whether ACTION_Handle asks for the key beep outside DTMF input. */
  predicate Beeps(pressed: bool, held: bool)
  {
    !(!held && pressed) && !(held && !pressed)
  }

  /** The selection, event by event: a press-down runs nothing, holding
      runs the long-press action, releasing after a hold runs nothing,
      releasing after a short press runs the short-press action; the beep
      sounds when holding and on a short release only. */
  lemma SelectionTable(key: Key, pressed: bool, held: bool, b: Bindings)
    ensures PressDown(pressed, held) ==> Selected(key, pressed, held, b) == None && !Beeps(pressed, held)
    ensures HeldDown(pressed, held) ==> Selected(key, pressed, held, b) == Some(LongAction(key, b)) && Beeps(pressed, held)
    ensures ReleasedAfterHold(pressed, held) ==> Selected(key, pressed, held, b) == None && !Beeps(pressed, held)
    ensures ReleasedAfterShort(pressed, held) ==> Selected(key, pressed, held, b) == Some(ShortAction(key, b)) && Beeps(pressed, held)
  {
  }

  /** An action runs exactly when the event is a hold or a short release. */
  lemma RunsIffHeldOrShort(key: Key, pressed: bool, held: bool, b: Bindings)
    ensures Selected(key, pressed, held, b).Some? <==> HeldDown(pressed, held) || ReleasedAfterShort(pressed, held)
    ensures Selected(key, pressed, held, b).Some? <==> Beeps(pressed, held)
  {
  }

  /* ---------------------------------------------------------------------
     The state the actions change.
     --------------------------------------------------------------------- */

  /** gDTMF_InputMode, gDTMF_InputBox and gDTMF_InputBox_Index. */
  datatype Dtmf = Dtmf(inputMode: bool, box: seq<char>, index: nat)

  /** The fields of gTxVfo the actions step. */
  datatype Vfo = Vfo(outputPower: nat, modulation: nat)

  /** The gEeprom fields the actions toggle. */
  datatype Settings = Settings(dualWatch: nat, crossBand: nat, vox: bool)

  /** The request flags the actions raise for the main loop:
      gRequestSaveChannel, gRequestSaveSettings, gFlagReconfigureVfos,
      gUpdateStatus, gSaveRxMode, gPttWasReleased, the key beep and
      gRequestDisplayScreen. */
  datatype Requests = Requests(saveChannel: bool, saveSettings: bool, reconfigureVfos: bool, updateStatus: bool,
                               saveRxMode: bool, pttWasReleased: bool, beep: bool, display: Display.Screen)

  /** The statics of ACTION_RxMode (cycle) and ACTION_MainOnly (cycle, dw,
      cb). */
  datatype Cycles = Cycles(rxMode: bool, mainOnly: bool, savedDualWatch: nat, savedCrossBand: nat)

  /** All of it, as one value. */
  datatype Radio = Radio(dtmf: Dtmf, vfo: Vfo, settings: Settings, requests: Requests, cycles: Cycles)

  /** ACTION_Handle's effect on the radio, the DTMF branch included. */
  function Handled(s: Radio, key: Key, pressed: bool, held: bool, screen: Display.Screen): (r: Radio)
  {
    if screen == Display.Main && s.dtmf.inputMode then
      var s1 := s.(requests := s.requests.(pttWasReleased := true));
      if key != Side1 || held || !pressed then s1
      else
        var s2 := s1.(requests := s1.requests.(beep := true, display := Display.Main));
        if s.dtmf.index == 0 then s2.(dtmf := s.dtmf.(inputMode := false))
        else if s.dtmf.index <= |s.dtmf.box| then
          s2.(dtmf := s.dtmf.(box := s.dtmf.box[s.dtmf.index - 1 := '-'], index := s.dtmf.index - 1))
        else s2.(dtmf := s.dtmf.(index := s.dtmf.index - 1))
    else if Beeps(pressed, held) then s.(requests := s.requests.(beep := true))
    else s
  }

  /** The action ACTION_Handle runs: none while typing DTMF on the main
      screen. */
  function HandledAction(s: Radio, key: Key, pressed: bool, held: bool, screen: Display.Screen, b: Bindings): Option<nat>
  {
    if screen == Display.Main && s.dtmf.inputMode then None else Selected(key, pressed, held, b)
  }

  /** In DTMF input on the main screen only a SIDE1 press-down acts: it
      leaves input mode when the box is empty, otherwise it blanks the last
      code and steps back; nothing else changes but the request flags. */
  lemma DtmfDeleteKey(s: Radio, key: Key, pressed: bool, held: bool, screen: Display.Screen)
    requires screen == Display.Main && s.dtmf.inputMode
    requires 0 < s.dtmf.index <= |s.dtmf.box| || s.dtmf.index == 0
    ensures var r := Handled(s, key, pressed, held, screen);
      r.vfo == s.vfo && r.settings == s.settings && r.cycles == s.cycles && r.requests.pttWasReleased
      && (key != Side1 || !PressDown(pressed, held) ==> r.dtmf == s.dtmf && r.requests.beep == s.requests.beep)
      && (key == Side1 && PressDown(pressed, held) && s.dtmf.index == 0 ==> !r.dtmf.inputMode && r.dtmf.box == s.dtmf.box)
      && (key == Side1 && PressDown(pressed, held) && s.dtmf.index > 0 ==>
            r.dtmf.inputMode && r.dtmf.index == s.dtmf.index - 1 && |r.dtmf.box| == |s.dtmf.box|
            && r.dtmf.box[r.dtmf.index] == '-'
            && forall i :: 0 <= i < |s.dtmf.box| && i != r.dtmf.index ==> r.dtmf.box[i] == s.dtmf.box[i])
  {
  }

  /** ACTION_Power. */
  function Powered(s: Radio, screen: Display.Screen): Radio
  {
    s.(vfo := s.vfo.(outputPower := NextPower(s.vfo.outputPower)),
       requests := s.requests.(saveChannel := true, display := screen))
  }

  /** ACTION_SwitchDemodul. */
  function Demodulated(s: Radio): Radio
  {
    s.(vfo := s.vfo.(modulation := NextModulation(s.vfo.modulation)),
       requests := s.requests.(saveChannel := true))
  }

  /** ACTION_Vox. */
  function VoxToggled(s: Radio): Radio
  {
    s.(settings := s.settings.(vox := !s.settings.vox),
       requests := s.requests.(saveSettings := true, reconfigureVfos := true, updateStatus := true))
  }

  /** ACTION_Update. */
  function Updated(s: Radio): Radio
  {
    s.(requests := s.requests.(saveRxMode := false, reconfigureVfos := true, updateStatus := true))
  }

  /** ACTION_RxMode: toggle DUAL_WATCH, next time CROSS_BAND_RX_TX. */
  function RxModeStep(s: Radio): Radio
  {
    Updated(
      if !s.cycles.rxMode then
        s.(settings := s.settings.(dualWatch := Not(s.settings.dualWatch)), cycles := s.cycles.(rxMode := true))
      else
        s.(settings := s.settings.(crossBand := Not(s.settings.crossBand)), cycles := s.cycles.(rxMode := false)))
  }

  /** ACTION_MainOnly: save both settings and zero them, next time put the
      saved values back. */
  function MainOnlyStep(s: Radio): Radio
  {
    Updated(
      if !s.cycles.mainOnly then
        s.(settings := s.settings.(dualWatch := 0, crossBand := 0),
           cycles := s.cycles.(mainOnly := true, savedDualWatch := s.settings.dualWatch,
                               savedCrossBand := s.settings.crossBand))
      else
        s.(settings := s.settings.(dualWatch := s.cycles.savedDualWatch, crossBand := s.cycles.savedCrossBand),
           cycles := s.cycles.(mainOnly := false)))
  }

  /** Two VOX toggles give the setting back. */
  lemma VoxTwice(s: Radio)
    ensures VoxToggled(VoxToggled(s)).settings == s.settings
  {
  }

  /** Main-only and back: the second call restores both settings, and the
      first leaves a single receiver with cross-band off. */
  lemma MainOnlyTwice(s: Radio)
    requires !s.cycles.mainOnly
    ensures MainOnlyStep(s).settings.dualWatch == 0 && MainOnlyStep(s).settings.crossBand == 0
    ensures MainOnlyStep(MainOnlyStep(s)).settings == s.settings
    ensures MainOnlyStep(MainOnlyStep(s)).cycles.mainOnly == s.cycles.mainOnly
  {
  }

  /** Four receive-mode steps give both settings back when they hold C
      booleans (0 or 1). */
  lemma RxModeFour(s: Radio)
    requires s.settings.dualWatch <= 1 && s.settings.crossBand <= 1
    ensures Repeat4(s).settings == s.settings && Repeat4(s).cycles == s.cycles
  {
  }

  /** A dual-watch setting on channel B (2) comes back as channel A (1):
      the toggle is C's !, which knows only zero and non-zero. */
  lemma RxModeForgetsChannel(s: Radio)
    requires s.settings.dualWatch == 2 && !s.cycles.rxMode
    ensures Repeat4(s).settings.dualWatch == 1
  {
  }

  function Repeat4(s: Radio): Radio
  {
    RxModeStep(RxModeStep(RxModeStep(RxModeStep(s))))
  }

  /** The globals and statics of action.c, grouped as in the source. */
  class Actions {
    var dtmf: Dtmf
    var vfo: Vfo
    var settings: Settings
    var requests: Requests
    var cycles: Cycles

    function State(): Radio
      reads this
    {
      Radio(dtmf, vfo, settings, requests, cycles)
    }

    constructor (initial: Radio)
      ensures State() == initial
    {
      dtmf, vfo, settings, requests, cycles := initial.dtmf, initial.vfo, initial.settings, initial.requests, initial.cycles;
    }

    /** ACTION_Handle: returns the id of the action the table call would
        run, None when it returns early. */
    method Handle(key: Key, pressed: bool, held: bool, screen: Display.Screen, b: Bindings) returns (run: Option<nat>)
      modifies this
      ensures State() == Handled(old(State()), key, pressed, held, screen)
      ensures run == HandledAction(old(State()), key, pressed, held, screen, b)
    {
      if screen == Display.Main && dtmf.inputMode {
        requests := requests.(pttWasReleased := true);
        if key != Side1 || held || !pressed {
          return None;
        }
        requests := requests.(beep := true, display := Display.Main);
        if dtmf.index <= 0 {
          dtmf := dtmf.(inputMode := false);
          return None;
        }
        var index := dtmf.index - 1;
        if index < |dtmf.box| {
          dtmf := dtmf.(box := dtmf.box[index := '-']);
        }
        dtmf := dtmf.(index := index);
        return None;
      }
      var funcShort := OptNone;
      var funcLong := OptNone;
      match key {
        case Side1 =>
          funcShort, funcLong := b.side1Short, b.side1Long;
        case Side2 =>
          funcShort, funcLong := b.side2Short, b.side2Long;
        case Menu =>
          funcLong := b.menuLong;
        case _ =>
      }
      if !held && pressed {
        return None;
      }
      if !(held && !pressed) {
        requests := requests.(beep := true);
      }
      if held || pressed {
        funcShort := funcLong;
        if !pressed {
          return None;
        }
      }
      run := Some(funcShort);
    }

    /** ACTION_Power. */
    method Power(screen: Display.Screen)
      modifies this
      ensures State() == Powered(old(State()), screen)
    {
      vfo := vfo.(outputPower := Increment(vfo.outputPower));
      if vfo.outputPower > PowerHigh {
        vfo := vfo.(outputPower := PowerLow1);
      }
      requests := requests.(saveChannel := true, display := screen);
    }

    /** ACTION_SwitchDemodul. */
    method SwitchDemodul()
      modifies this
      ensures State() == Demodulated(old(State()))
    {
      requests := requests.(saveChannel := true);
      vfo := vfo.(modulation := Increment(vfo.modulation));
      if vfo.modulation == ModulationUnknown {
        vfo := vfo.(modulation := ModulationFm);
      }
    }

    /** ACTION_Vox. */
    method Vox()
      modifies this
      ensures State() == VoxToggled(old(State()))
    {
      settings := settings.(vox := !settings.vox);
      requests := requests.(saveSettings := true, reconfigureVfos := true, updateStatus := true);
    }

    /** ACTION_Update. */
    method Update()
      modifies this
      ensures State() == Updated(old(State()))
    {
      requests := requests.(saveRxMode := false, reconfigureVfos := true, updateStatus := true);
    }

    /** ACTION_RxMode. */
    method RxMode()
      modifies this
      ensures State() == RxModeStep(old(State()))
    {
      if !cycles.rxMode {
        settings := settings.(dualWatch := Not(settings.dualWatch));
        cycles := cycles.(rxMode := true);
      } else {
        settings := settings.(crossBand := Not(settings.crossBand));
        cycles := cycles.(rxMode := false);
      }
      Update();
    }

    /** ACTION_MainOnly. */
    method MainOnly()
      modifies this
      ensures State() == MainOnlyStep(old(State()))
    {
      if !cycles.mainOnly {
        cycles := cycles.(savedDualWatch := settings.dualWatch, savedCrossBand := settings.crossBand);
        settings := settings.(dualWatch := 0, crossBand := 0);
        cycles := cycles.(mainOnly := true);
      } else {
        settings := settings.(dualWatch := cycles.savedDualWatch, crossBand := cycles.savedCrossBand);
        cycles := cycles.(mainOnly := false);
      }
      Update();
    }
  }
}
