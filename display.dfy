/** The screen-selection step of the user interface (App/ui/ui.c):
    GUI_SelectNextDisplay switches the screen to be drawn and, when the screen
    really changes, abandons every half-finished interaction of the old one. */
module Display {

  /** The displays of GUI_DisplayType_t; Invalid is DISPLAY_INVALID, the
      "no request" value. */
  datatype Screen = Main | Menu | Scanner | Fm | Aircopy | Aprs | Invalid

  /** gScanStateDir == SCAN_OFF and gFM_ScanState == FM_SCAN_OFF. */
  const ScanOff: int := 0

  /** The globals that hold a half-finished interaction of the current
      screen, all of which a change of screen abandons. DTMF_clear_input_box
      closes the DTMF input box and empties it: its index goes to 0. */
  datatype Interaction = Interaction(
    dtmfInputMode: bool,          // gDTMF_InputMode
    dtmfInputBoxIndex: nat,       // gDTMF_InputBox_Index
    inputBoxIndex: nat,           // gInputBoxIndex
    isInSubMenu: bool,            // gIsInSubMenu
    cssBackgroundScan: bool,      // gCssBackgroundScan
    scanStateDir: int,            // gScanStateDir
    fmScanState: int,             // gFM_ScanState
    askForConfirmation: nat,      // gAskForConfirmation
    askToSave: bool,              // gAskToSave
    askToDelete: bool,            // gAskToDelete
    wasFKeyPressed: bool)         // gWasFKeyPressed

  /** No prompt, scan, sub-menu, pending input or F-key is left over. */
  const Idle := Interaction(false, 0, 0, false, false, ScanOff, ScanOff, 0, false, false, false)

  /** The global flags GUI_SelectNextDisplay reads and writes, as one value. */
  datatype GuiState = GuiState(
    screen: Screen,               // gScreenToDisplay
    updateDisplay: bool,          // gUpdateDisplay
    updateStatus: bool,           // gUpdateStatus
    pending: Interaction)

  /** The state GUI_SelectNextDisplay(d) leaves behind when it starts in s. */
  function NextDisplay(s: GuiState, d: Screen): (r: GuiState)
    ensures d == Invalid ==> r == s
    ensures d != Invalid ==> r.screen == d && r.updateDisplay
    ensures d != Invalid && d != s.screen ==> r.pending == Idle && r.updateStatus
    ensures d != Invalid && d != s.screen ==> !r.pending.dtmfInputMode && r.pending.dtmfInputBoxIndex == 0
    ensures d != Invalid && d == s.screen ==> r == s.(updateDisplay := true)
  {
    if d == Invalid then s
    else if s.screen != d then GuiState(d, true, true, Idle)
    else s.(updateDisplay := true)
  }

  /** Selecting the same display twice in a row is the same as selecting it once. */
  lemma {:induction false} SelectTwiceIsSelectOnce(s: GuiState, d: Screen)
    ensures NextDisplay(NextDisplay(s, d), d) == NextDisplay(s, d)
  {
  }

  /** The globals of App/ui/ui.c and the flags it shares with the rest of the UI. */
  class Gui {
    var screenToDisplay: Screen
    var updateDisplay: bool
    var updateStatus: bool
    var pending: Interaction

    ghost function State(): GuiState
      reads this
    {
      GuiState(screenToDisplay, updateDisplay, updateStatus, pending)
    }

    /** Globals start zeroed: gScreenToDisplay is DISPLAY_MAIN (value 0). */
    constructor ()
      ensures State() == GuiState(Main, false, false, Idle)
    {
      screenToDisplay := Main;
      updateDisplay, updateStatus := false, false;
      pending := Idle;
    }

    /** GUI_SelectNextDisplay. */
    method SelectNextDisplay(display: Screen)
      modifies this
      ensures State() == NextDisplay(old(State()), display)
    {
      if display == Invalid {
        return;
      }
      if screenToDisplay != display {
        pending := Idle;
        updateStatus := true;
      }
      screenToDisplay, updateDisplay := display, true;
    }
  }
}
