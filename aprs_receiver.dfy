/** The APRS receiver of App/app/aprs.c in the source's own shape: fixed
    arrays for the frame buffer and the packet log, and one method per
    function of the module, each proved to perform the matching transition
    of AprsSession. */
module AprsReceiver {
  import opened Common
  import opened Display
  import opened Aprs
  import opened AprsSession

  /** An all-zero AprsPacket_t. */
  const EmptyPacket := Packet("", "", "", "", 0, 0)

  /** The struct gAprsState; the bytes of frame.data live in Receiver.frame. */
  datatype AprsState = AprsState(
    active: bool,
    detailView: bool,
    length: nat,        // frame.length
    inFrame: bool,      // frame.inFrame
    sequence: nat)

  /** The globals of the user interface that the APRS module writes. */
  datatype UiFlags = UiFlags(
    requestScreen: Screen,    // gRequestDisplayScreen
    updateDisplay: bool,      // gUpdateDisplay
    updateStatus: bool,       // gUpdateStatus
    wasFKeyPressed: bool)     // gWasFKeyPressed

  class Receiver {
    const frame: array<bv8>       // gAprsState.frame.data
    const log: array<Packet>      // gAprsLog
    var state: AprsState          // gAprsState
    var head: nat                 // gAprsLogHead
    var count: nat                // gAprsLogCount
    var selection: nat            // gAprsSelection
    var frameRssi: int            // gAprsFrameRssi
    var ui: UiFlags

    ghost function Model(): Session
      reads this, frame, log
      requires state.length <= frame.Length
    {
      Session(state.active, state.detailView, state.inFrame, frame[..state.length], state.sequence,
              log[..], head, count, selection, frameRssi,
              ui.requestScreen, ui.updateDisplay, ui.updateStatus, ui.wasFKeyPressed)
    }

    ghost predicate Valid()
      reads this, frame, log
    {
      frame.Length == MaxFrameLen && log.Length == LogCapacity && state.length <= MaxFrameLen
      && Invariant(Model())
    }

    /** The zero-initialised globals. */
    constructor ()
      ensures Valid() && !state.active && !state.inFrame && count == 0 && state.sequence == 0
    {
      frame := new bv8[MaxFrameLen];
      log := new Packet[LogCapacity](_ => EmptyPacket);
      state := AprsState(false, false, 0, false, 0);
      head, count, selection, frameRssi := 0, 0, 0, 0;
      ui := UiFlags(Screen.Invalid, false, false, false);
    }

    /** APRS_ResetState. */
    method ResetState()
      requires Valid()
      modifies this
      ensures Valid() && Model() == ResetFramer(old(Model()))
    {
      state, frameRssi := state.(length := 0, inFrame := false), 0;
    }

    /** APRS_ClearLog. */
    method ClearLog()
      requires Valid()
      modifies this
      ensures Valid() && Model() == AprsSession.ClearLog(old(Model()))
    {
      count, selection, head, ui := 0, 0, LogCapacity - 1, ui.(updateDisplay := true);
    }

    /** APRS_ToggleDetail. */
    method ToggleDetail()
      requires Valid()
      modifies this
      ensures Valid() && Model() == AprsSession.ToggleDetail(old(Model()))
    {
      state, ui := state.(detailView := !state.detailView), ui.(updateDisplay := true);
    }

    /** APRS_MoveSelection; delta is an int8_t. */
    method MoveSelection(delta: int)
      requires Valid() && -128 <= delta < 128
      modifies this
      ensures Valid() && Model() == AprsSession.MoveSelection(old(Model()), delta)
    {
      if count == 0 {
        return;
      }
      var next := selection + delta;
      if next < 0 {
        next := 0;
      } else if next >= count {
        next := count - 1;
      }
      if next != selection {
        selection, ui := next, ui.(updateDisplay := true);
      }
    }

    /** APRS_GetPacket. */
    method GetPacket(index: nat) returns (r: Option<Packet>)
      requires Valid()
      ensures r == PacketAt(Model(), index)
    {
      if index >= count {
        return None;
      }
      r := Some(log[(head + LogCapacity - index) % LogCapacity]);
    }

    /** APRS_Enter; the radio set-up calls are not modelled. */
    method Enter()
      requires Valid()
      modifies this
      ensures Valid() && Model() == AprsSession.Enter(old(Model()))
    {
      if state.active {
        return;
      }
      state := state.(active := true, detailView := false, sequence := 0);
      ResetState();
      ClearLog();
      ui := ui.(requestScreen := Aprs, updateDisplay := true, updateStatus := true);
    }

    /** APRS_Leave; the chip reset is not modelled. */
    method Leave()
      requires Valid()
      modifies this
      ensures Valid() && Model() == AprsSession.Leave(old(Model()))
    {
      if !state.active {
        return;
      }
      state := state.(active := false);
      ResetState();
      ui := ui.(requestScreen := Main, updateDisplay := true);
    }

    /** APRS_ProcessKeys. */
    method ProcessKeys(key: Key, pressed: bool, held: bool)
      requires Valid()
      modifies this
      ensures Valid() && Model() == AprsSession.ProcessKeys(old(Model()), key, pressed, held)
    {
      if !pressed || held {
        return;
      }
      match key
      case Exit => Leave();
      case Up => MoveSelection(-1);
      case Down => MoveSelection(1);
      case Menu => ToggleDetail();
      case Digit(d) =>
        if d == 7 && ui.wasFKeyPressed {
          ui := ui.(wasFKeyPressed := false);
          ClearLog();
        }
      case _ =>
    }

    /** APRS_StorePacket. */
    method StorePacket(p: Packet)
      requires Valid()
      modifies this, log
      ensures Valid() && Model() == Store(old(Model()), p)
    {
      var h := (head + 1) % LogCapacity;
      log[h] := p;
      head := h;
      if count < LogCapacity {
        count := count + 1;
      }
      selection, ui := 0, ui.(updateDisplay := true);
    }

    /** The end of APRS_DecodeFrame: number a decoded packet and log it. */
    method LogPacket(decoded: Option<Packet>)
      requires Valid()
      modifies this, log
      ensures Valid() && Model() == Logged(old(Model()), decoded)
    {
      if decoded.Some? {
        state := state.(sequence := (state.sequence + 1) % SequenceModulus);
        StorePacket(decoded.value);
      }
    }

    /** APRS_DecodeFrame on the collected bytes, then logging its packet. */
    method CloseFrame()
      requires Valid()
      modifies this, log
      ensures Valid() && Model() == AprsSession.CloseFrame(old(Model()))
    {
      ghost var s := Model();
      var bytes, next := frame[..state.length], (state.sequence + 1) % SequenceModulus;
      assert bytes == s.buffered && next == NextSequence(s) && frameRssi == s.frameRssi;
      var decoded := DecodeFrame(bytes, next, frameRssi);
      LogPacket(decoded);
      assert Model() == Logged(s, decoded);
    }

    /** APRS_HandleByte; rssi is what BK4819_GetRSSI_dBm would report. */
    method HandleByte(b: bv8, rssi: int)
      requires Valid()
      modifies this, frame, log
      ensures Valid() && Model() == AprsSession.HandleByte(old(Model()), b, rssi)
    {
      if b == Flag {
        if state.inFrame && state.length >= MinFrameLen {
          CloseFrame();
        }
        state, frameRssi := state.(inFrame := true, length := 0), rssi;
        return;
      }
      if !state.inFrame {
        return;
      }
      var length := state.length;
      if length >= MaxFrameLen {
        state := state.(inFrame := false, length := 0);
        return;
      }
      frame[length] := ReverseByte(b);
      state := state.(length := length + 1);
      assert frame[..length + 1] == old(frame[..length]) + [ReverseByte(b)];
    }

    /** APRS_HandleFskBurst; words are the eight reads of the FIFO register,
        levels the RSSI BK4819_GetRSSI_dBm reports at each of their bytes. */
    method HandleFskBurst(words: seq<bv16>, levels: seq<int>)
      requires Valid() && |words| == WordsPerInterrupt && |levels| == 2 * WordsPerInterrupt
      modifies this, frame, log
      ensures Valid() && Model() == HandleBurst(old(Model()), words, levels)
    {
      if !state.active {
        return;
      }
      ghost var start := Model();
      for i := 0 to WordsPerInterrupt
        invariant Valid()
        invariant Model() == HandleBytes(start, BurstBytes(words[..i]), levels[..2 * i])
      {
        var word := words[i];
        ghost var before := BurstBytes(words[..i]);
        HandleByte((word & 0xFF) as bv8, levels[2 * i]);
        HandleByte((word >> 8) as bv8, levels[2 * i + 1]);
        HandleBytesPair(start, before, (word & 0xFF) as bv8, (word >> 8) as bv8, levels[..2 * i], levels[2 * i], levels[2 * i + 1]);
        assert words[..i + 1][..i] == words[..i];
        assert levels[..2 * (i + 1)] == levels[..2 * i] + [levels[2 * i], levels[2 * i + 1]];
      }
      assert words[..WordsPerInterrupt] == words;
      assert levels[..2 * WordsPerInterrupt] == levels;
    }
  }
}
