/** The commands of App/app/uart.c that arrive through the programming
    cable: 0x0514 opens a session and answers with the firmware version,
    0x051B reads and 0x051D writes the EEPROM inside that session, 0x05DD
    resets the radio. The EEPROM contents, the radio's lock state and the
    version record are inputs; EEPROM writes, the settings reload and the
    reset are returned as an outcome. */
module HostCommands {
  import opened Common
  import opened HostSerial

  const SessionOpen: nat := 0x0514
  const ReadRequest: nat := 0x051B
  const WriteRequest: nat := 0x051D
  const ResetRequest: nat := 0x05DD

  const SerialConfigCountdown: nat := 12   // gSerialConfigCountDown_500ms, 6 s
  const LockScreenshot: nat := 20          // gUART_LockScreenshot

  /** Writes to the password bytes need bAllowPassword while the lock
      screen is up; writes to the settings range reload the settings. */
  const PasswordStart: nat := 0x0E98
  const PasswordEnd: nat := 0x0EA0
  const ReloadStart: nat := 0x0F30
  const ReloadEnd: nat := 0x0F40
  const BlockSize: nat := 8

  /** Where the data of a write request starts: after the header, offset,
      size, bAllowPassword and timestamp. */
  const WriteDataStart: nat := 12

  /** A little-endian 32-bit field. */
  function Field32(b: seq<bv8>): (r: nat)
    requires |b| == 4
    ensures r < 0x1_0000_0000
  {
    Field16(b[0], b[1]) + 0x1_0000 * Field16(b[2], b[3])
  }

  /** Header.ID of a command. */
  function CommandId(cmd: seq<bv8>): nat
    requires |cmd| >= 2
  {
    Field16(cmd[0], cmd[1])
  }

  /** The radio state the commands read: the version record as copied into
      the reply (16 bytes, including whatever strcpy leaves after the
      terminator), bHasCustomAesKey, gIsLocked, bIsInLockScreen, the two
      padding bytes the version reply leaves uninitialised, gChallenge as
      16 bytes, and fm_radio_countdown_500ms. */
  datatype Radio = Radio(version: seq<bv8>, hasCustomAesKey: bool, isLocked: bool, inLockScreen: bool,
                         padding: seq<bv8>, challenge: seq<bv8>, fmRadioCountdown: nat)
  {
    predicate Valid()
    {
      |version| == 16 && |padding| == 2 && |challenge| == 16
    }
  }

  /** The countdowns the handlers restart and the backlight they turn off. */
  datatype Timers = Timers(fmRadio: nat, serialConfig: nat, lockScreenshot: nat, backlightOn: bool)

  /** One EEPROM_WriteBuffer call. */
  datatype Write = Write(offset: nat, data: seq<bv8>)

  /** What a command leaves for the rest of the radio: the reply handed to
      SendReply (header included), the EEPROM writes in order, whether
      SETTINGS_InitEEPROM runs, whether NVIC_SystemReset runs. */
  datatype Outcome = Outcome(reply: Option<seq<bv8>>, writes: seq<Write>, reload: bool, reset: bool)

  const Nothing := Outcome(None, [], false, false)

  /** A handler's effect on the port's session timestamp and the timers. */
  datatype Step = Step(timestamp: nat, timers: Timers, outcome: Outcome)

  function Flag(b: bool): bv8
  {
    if b then 1 else 0
  }

  /** Whether the reply's header describes the bytes after it: its size
      field is their number. */
  predicate Described(reply: seq<bv8>)
  {
    |reply| >= 4 && Field16(reply[2], reply[3]) == |reply| - 4
  }

  /** Header_t of a reply: its ID and the size of the data after it. */
  function ReplyHeader(id: nat, size: nat): (r: seq<bv8>)
    requires id < 0x1_0000 && size < 0x1_0000
    ensures |r| == 4 && Field16(r[0], r[1]) == id && Field16(r[2], r[3]) == size
  {
    Field16RoundTrip(id);
    Field16RoundTrip(size);
    [Lo(id), Hi(id), Lo(size), Hi(size)]
  }

  /** SendVersion: REPLY_0514_t with ID 0x0515 and a 36-byte body. */
  function VersionReply(radio: Radio): (r: seq<bv8>)
    requires radio.Valid()
    ensures |r| == 40 && Described(r)
    ensures CommandId(r) == 0x0515
  {
    ReplyHeader(0x0515, 36) + radio.version + [Flag(radio.hasCustomAesKey), Flag(radio.inLockScreen)]
      + radio.padding + radio.challenge
  }

  /** The EEPROM is readable over the cable unless a custom AES key is set
      and the radio is locked. */
  predicate Locked(radio: Radio)
  {
    radio.hasCustomAesKey && radio.isLocked
  }

  /** CMD_051B's reply: ID 0x051C, size field Size + 4, the request's
      offset and size, a zero padding byte, then Size data bytes: the
      EEPROM from the offset on, or zeros when locked. */
  function ReadReply(cmd: seq<bv8>, radio: Radio, eeprom: nat -> bv8): (r: seq<bv8>)
    requires |cmd| >= 12
    ensures |r| == cmd[6] as nat + 8 && Described(r)
    ensures CommandId(r) == 0x051C
  {
    var size := cmd[6] as nat;
    var header := ReplyHeader(0x051C, size + 4);
    var data := ReadData(Field16(cmd[4], cmd[5]), size, radio, eeprom);
    header + [cmd[4], cmd[5], cmd[6], 0] + data
  }

  /** The data bytes of a read reply: zeros when locked (the reply is
      cleared first), else what EEPROM_ReadBuffer reads. */
  function ReadData(offset: nat, size: nat, radio: Radio, eeprom: nat -> bv8): (r: seq<bv8>)
    ensures |r| == size
    ensures Locked(radio) ==> forall k :: 0 <= k < size ==> r[k] == 0
    ensures !Locked(radio) ==> forall k :: 0 <= k < size ==> r[k] == eeprom(offset + k)
  {
    if Locked(radio) then seq(size, _ => 0) else seq(size, k requires 0 <= k < size => eeprom(offset + k))
  }

  /** CMD_051D's reply: ID 0x051E, size field 2, the request's offset. */
  function WriteReply(cmd: seq<bv8>): (r: seq<bv8>)
    requires |cmd| >= 12
    ensures |r| == 6 && Described(r) && r[4..] == cmd[4..6]
    ensures CommandId(r) == 0x051E
  {
    ReplyHeader(0x051E, 2) + [cmd[4], cmd[5]]
  }

  /** The 16-bit EEPROM offset of block i: the addition wraps. */
  function BlockOffset(base: nat, i: nat): (r: nat)
    ensures r < 0x1_0000
  {
    (base + BlockSize * i) % 0x1_0000
  }

  /** The eight data bytes of block i of a write request. */
  function Block(cmd: seq<bv8>, i: nat): (r: seq<bv8>)
    requires WriteDataStart + BlockSize * (i + 1) <= |cmd|
    ensures |r| == BlockSize
  {
    cmd[WriteDataStart + BlockSize * i .. WriteDataStart + BlockSize * (i + 1)]
  }

  /** The write filter: the password bytes are written only outside the
      lock screen or with bAllowPassword. */
  predicate Allowed(offset: nat, radio: Radio, allowPassword: bool)
  {
    offset < PasswordStart || offset >= PasswordEnd || !radio.inLockScreen || allowPassword
  }

  /** A block in the settings range asks for a reload, unless gIsLocked. */
  predicate Reloads(offset: nat, radio: Radio)
  {
    ReloadStart <= offset < ReloadEnd && !radio.isLocked
  }

  /** The writes of the first count blocks. */
  function Writes(cmd: seq<bv8>, base: nat, count: nat, radio: Radio, allowPassword: bool): (r: seq<Write>)
    requires WriteDataStart + BlockSize * count <= |cmd|
    ensures |r| <= count
  {
    if count == 0 then []
    else
      var i := count - 1;
      Writes(cmd, base, i, radio, allowPassword)
        + (if Allowed(BlockOffset(base, i), radio, allowPassword) then [Write(BlockOffset(base, i), Block(cmd, i))] else [])
  }

  /** Whether one of the first count blocks asks for a reload. */
  function Reload(base: nat, count: nat, radio: Radio): bool
  {
    count > 0 && (Reload(base, count - 1, radio) || Reloads(BlockOffset(base, count - 1), radio))
  }

  /** The blocks of a write request lie inside the command buffer. */
  predicate BlocksInside(cmd: seq<bv8>)
    requires |cmd| >= 7
  {
    WriteDataStart + BlockSize * (cmd[6] as nat / BlockSize) <= |cmd|
  }

  /** CMD_051D reads its blocks only for a request in the port's session
      on an unlocked radio; only there must they lie inside the buffer. */
  predicate BlockLoopInside(cmd: seq<bv8>, timestamp: nat, radio: Radio)
    requires |cmd| >= 12
  {
    Field32(cmd[8..12]) == timestamp && !Locked(radio) ==> BlocksInside(cmd)
  }

  /** A command that UART_HandleCommand handles without reading past the
      command buffer: every command but a write whose block loop would. */
  predicate CommandInside(cmd: seq<bv8>, timestamp: nat, radio: Radio)
    requires |cmd| >= 12
  {
    CommandId(cmd) == WriteRequest ==> BlockLoopInside(cmd, timestamp, radio)
  }

  /** The countdowns every accepted command restarts. */
  function Refreshed(timers: Timers, radio: Radio): Timers
  {
    timers.(fmRadio := radio.fmRadioCountdown, serialConfig := SerialConfigCountdown)
  }

  /** CMD_0514: take the command's timestamp as the port's session, restart
      the countdowns, turn the backlight off and send the version. */
  function SessionStep(cmd: seq<bv8>, timers: Timers, radio: Radio): Step
    requires |cmd| >= 12 && radio.Valid()
  {
    Step(Field32(cmd[4..8]), Refreshed(timers, radio).(backlightOn := false),
         Outcome(Some(VersionReply(radio)), [], false, false))
  }

  /** CMD_051B: nothing outside the port's session. */
  function ReadStep(cmd: seq<bv8>, timestamp: nat, timers: Timers, radio: Radio, eeprom: nat -> bv8): Step
    requires |cmd| >= 12
  {
    if Field32(cmd[8..12]) != timestamp then Step(timestamp, timers, Nothing)
    else Step(timestamp, Refreshed(timers, radio), Outcome(Some(ReadReply(cmd, radio, eeprom)), [], false, false))
  }

  /** CMD_051D: nothing outside the port's session; no write and no reload
      when locked; the reply in any case. */
  function WriteStep(cmd: seq<bv8>, timestamp: nat, timers: Timers, radio: Radio): Step
    requires |cmd| >= 12 && BlockLoopInside(cmd, timestamp, radio)
  {
    if Field32(cmd[8..12]) != timestamp then Step(timestamp, timers, Nothing)
    else
      var count := cmd[6] as nat / BlockSize;
      var base := Field16(cmd[4], cmd[5]);
      var allow := cmd[7] != 0;
      var locked := Locked(radio);
      Step(timestamp, Refreshed(timers, radio),
           Outcome(Some(WriteReply(cmd)), if locked then [] else Writes(cmd, base, count, radio, allow),
                   !locked && Reload(base, count, radio), false))
  }

  /** The switch of UART_HandleCommand: 0x051F, 0x0521 and unknown IDs do
      nothing. */
  function Dispatch(cmd: seq<bv8>, timestamp: nat, timers: Timers, radio: Radio, eeprom: nat -> bv8): Step
    requires |cmd| == CommandSize && radio.Valid() && CommandInside(cmd, timestamp, radio)
  {
    var id := CommandId(cmd);
    if id == SessionOpen then SessionStep(cmd, timers, radio)
    else if id == ReadRequest then ReadStep(cmd, timestamp, timers, radio, eeprom)
    else if id == WriteRequest then WriteStep(cmd, timestamp, timers, radio)
    else if id == ResetRequest then Step(timestamp, timers, Nothing.(reset := true))
    else Step(timestamp, timers, Nothing)
  }

  /** UART_HandleCommand: the switch, then the screenshot lock for 20
      ticks; a reset request never returns from the switch, so it leaves
      the lock as it was. */
  function Handle(cmd: seq<bv8>, timestamp: nat, timers: Timers, radio: Radio, eeprom: nat -> bv8): Step
    requires |cmd| == CommandSize && radio.Valid() && CommandInside(cmd, timestamp, radio)
  {
    var s := Dispatch(cmd, timestamp, timers, radio, eeprom);
    if s.outcome.reset then s else s.(timers := s.timers.(lockScreenshot := LockScreenshot))
  }

  /* ---------------------------------------------------------------------
     What the handlers promise.
     --------------------------------------------------------------------- */

  /** A write request writes exactly the blocks the filter lets through,
      each at its wrapped offset with its own eight bytes. */
  lemma {:induction false} WritesExactly(cmd: seq<bv8>, base: nat, count: nat, radio: Radio, allowPassword: bool)
    requires WriteDataStart + BlockSize * count <= |cmd|
    ensures forall w :: w in Writes(cmd, base, count, radio, allowPassword) ==>
      exists i :: 0 <= i < count && Allowed(BlockOffset(base, i), radio, allowPassword)
        && w == Write(BlockOffset(base, i), Block(cmd, i))
    ensures forall i :: 0 <= i < count && Allowed(BlockOffset(base, i), radio, allowPassword) ==>
      Write(BlockOffset(base, i), Block(cmd, i)) in Writes(cmd, base, count, radio, allowPassword)
  {
    if count > 0 {
      WritesExactly(cmd, base, count - 1, radio, allowPassword);
    }
  }

  /** In the lock screen, without bAllowPassword, no write touches the
      password bytes. */
  lemma PasswordKept(cmd: seq<bv8>, base: nat, count: nat, radio: Radio, allowPassword: bool)
    requires WriteDataStart + BlockSize * count <= |cmd|
    requires radio.inLockScreen && !allowPassword
    ensures forall w :: w in Writes(cmd, base, count, radio, allowPassword) ==>
      !(PasswordStart <= w.offset < PasswordEnd)
  {
    WritesExactly(cmd, base, count, radio, allowPassword);
  }

  /** The settings are reloaded exactly when some block lands in the
      settings range while the radio is not locked. */
  lemma {:induction false} ReloadExactly(base: nat, count: nat, radio: Radio)
    ensures Reload(base, count, radio) <==> exists i :: 0 <= i < count && Reloads(BlockOffset(base, i), radio)
  {
    if count > 0 {
      ReloadExactly(base, count - 1, radio);
      if Reloads(BlockOffset(base, count - 1), radio) {
      } else if exists i :: 0 <= i < count && Reloads(BlockOffset(base, i), radio) {
        var i :| 0 <= i < count && Reloads(BlockOffset(base, i), radio);
        assert i < count - 1;
      }
    }
  }

  /** A read or write request outside the port's session is ignored: no
      reply, no write, the timers as they were but for the screenshot
      lock. */
  lemma StaleRequestIgnored(cmd: seq<bv8>, timestamp: nat, timers: Timers, radio: Radio, eeprom: nat -> bv8)
    requires |cmd| == CommandSize && radio.Valid()
    requires CommandId(cmd) == ReadRequest || CommandId(cmd) == WriteRequest
    requires Field32(cmd[8..12]) != timestamp
    ensures Handle(cmd, timestamp, timers, radio, eeprom)
      == Step(timestamp, timers.(lockScreenshot := LockScreenshot), Nothing)
  {
  }

  /** Opening a session with a timestamp lets the read and write requests
      that carry it through, whatever timestamp the port had before. */
  lemma SessionAdmits(open: seq<bv8>, cmd: seq<bv8>, timestamp: nat, timers: Timers, radio: Radio, eeprom: nat -> bv8)
    requires |open| == CommandSize && |cmd| == CommandSize && radio.Valid()
    requires CommandId(open) == SessionOpen && CommandInside(cmd, Field32(open[4..8]), radio)
    requires CommandId(cmd) == ReadRequest || CommandId(cmd) == WriteRequest
    requires cmd[8..12] == open[4..8]
    ensures var started := Handle(open, timestamp, timers, radio, eeprom);
      var s := Handle(cmd, started.timestamp, started.timers, radio, eeprom);
      s.outcome.reply.Some? && s.timestamp == started.timestamp
      && s.timers.serialConfig == SerialConfigCountdown
  {
  }

  /** Only a session request changes the port's timestamp, and every
      command but a reset sets the screenshot lock. */
  lemma OnlySessionSetsTimestamp(cmd: seq<bv8>, timestamp: nat, timers: Timers, radio: Radio, eeprom: nat -> bv8)
    requires |cmd| == CommandSize && radio.Valid() && CommandInside(cmd, timestamp, radio)
    ensures var s := Handle(cmd, timestamp, timers, radio, eeprom);
      (s.timestamp != timestamp ==> CommandId(cmd) == SessionOpen)
      && (CommandId(cmd) == SessionOpen ==> s.timestamp == Field32(cmd[4..8]))
      && (s.outcome.reset <==> CommandId(cmd) == ResetRequest)
      && s.timers.lockScreenshot == (if CommandId(cmd) == ResetRequest then timers.lockScreenshot else LockScreenshot)
  {
  }

  /** With a custom key set and the radio locked, the cable can neither
      read nor write the EEPROM: reads come back as zeros, nothing is
      written, the settings are not reloaded. */
  lemma LockedRadioSealed(cmd: seq<bv8>, timestamp: nat, timers: Timers, radio: Radio, eeprom: nat -> bv8)
    requires |cmd| == CommandSize && radio.Valid()
    requires Locked(radio)
    ensures var s := Handle(cmd, timestamp, timers, radio, eeprom);
      s.outcome.writes == [] && !s.outcome.reload
      && (CommandId(cmd) == ReadRequest && s.outcome.reply.Some? ==>
            forall k :: 8 <= k < |s.outcome.reply.value| ==> s.outcome.reply.value[k] == 0)
  {
  }

  /** A reload happens only for a write request in session, with the radio
      unlocked, one of whose blocks lands in the settings range. */
  lemma ReloadOnlyForSettings(cmd: seq<bv8>, timestamp: nat, timers: Timers, radio: Radio, eeprom: nat -> bv8)
    requires |cmd| == CommandSize && radio.Valid() && CommandInside(cmd, timestamp, radio)
    requires Handle(cmd, timestamp, timers, radio, eeprom).outcome.reload
    ensures CommandId(cmd) == WriteRequest && Field32(cmd[8..12]) == timestamp && !radio.isLocked
    ensures exists i :: 0 <= i < cmd[6] as nat / BlockSize && Reloads(BlockOffset(Field16(cmd[4], cmd[5]), i), radio)
  {
    ReloadExactly(Field16(cmd[4], cmd[5]), cmd[6] as nat / BlockSize, radio);
  }

  /** Every reply's header describes the bytes after it. */
  lemma RepliesDescribed(cmd: seq<bv8>, timestamp: nat, timers: Timers, radio: Radio, eeprom: nat -> bv8)
    requires |cmd| == CommandSize && radio.Valid() && CommandInside(cmd, timestamp, radio)
    requires Handle(cmd, timestamp, timers, radio, eeprom).outcome.reply.Some?
    ensures Described(Handle(cmd, timestamp, timers, radio, eeprom).outcome.reply.value)
  {
  }

  /** Over USB a read reply is dropped exactly when more than 136 bytes
      were asked for; the session and write replies always go out. */
  lemma UsbDropsLongReads(cmd: seq<bv8>, radio: Radio, eeprom: nat -> bv8)
    requires |cmd| >= 12 && radio.Valid()
    ensures SentReply(Vcp, ReadReply(cmd, radio, eeprom)).None? <==> cmd[6] as nat > MaxReplySize - 8
    ensures SentReply(Vcp, VersionReply(radio)).Some? && SentReply(Vcp, WriteReply(cmd)).Some?
  {
  }

  /* ---------------------------------------------------------------------
     The handlers.
     --------------------------------------------------------------------- */

  /** The block loop of CMD_051D. */
  method WriteBlocks(cmd: seq<bv8>, base: nat, count: nat, radio: Radio, allowPassword: bool)
    returns (writes: seq<Write>, reload: bool)
    requires WriteDataStart + BlockSize * count <= |cmd|
    ensures writes == Writes(cmd, base, count, radio, allowPassword)
    ensures reload == Reload(base, count, radio)
  {
    writes, reload := [], false;
    for i := 0 to count
      invariant writes == Writes(cmd, base, i, radio, allowPassword)
      invariant reload == Reload(base, i, radio)
    {
      var offset := (base + i * BlockSize) % 0x1_0000;
      if ReloadStart <= offset < ReloadEnd {
        if !radio.isLocked {
          reload := true;
        }
      }
      if offset < PasswordStart || offset >= PasswordEnd || !radio.inLockScreen || allowPassword {
        writes := writes + [Write(offset, cmd[WriteDataStart + i * BlockSize .. WriteDataStart + (i + 1) * BlockSize])];
      }
    }
  }

  /** The statics the handlers update besides the ports' timestamps. */
  class CommandHandler {
    var timers: Timers

    constructor (initial: Timers)
      ensures timers == initial
    {
      timers := initial;
    }

    /** UART_HandleCommand for the port whose command buffer holds the
        frame just taken. */
    method HandleCommand(port: SerialPort, radio: Radio, eeprom: nat -> bv8) returns (out: Outcome)
      requires port.Valid() && radio.Valid() && CommandInside(port.command[..], port.timestamp, radio)
      modifies this, port`timestamp
      ensures port.Valid()
      ensures var s := Handle(port.command[..], old(port.timestamp), old(timers), radio, eeprom);
        port.timestamp == s.timestamp && timers == s.timers && out == s.outcome
    {
      out := Switch(port, radio, eeprom);
      if !out.reset {
        timers := timers.(lockScreenshot := LockScreenshot);
      }
    }

    /** The switch on the command ID. */
    method Switch(port: SerialPort, radio: Radio, eeprom: nat -> bv8) returns (out: Outcome)
      requires port.Valid() && radio.Valid() && CommandInside(port.command[..], port.timestamp, radio)
      modifies this, port`timestamp
      ensures port.Valid()
      ensures var s := Dispatch(port.command[..], old(port.timestamp), old(timers), radio, eeprom);
        port.timestamp == s.timestamp && timers == s.timers && out == s.outcome
    {
      var cmd := port.command[..];
      var id := Field16(cmd[0], cmd[1]);
      if id == SessionOpen {
        out := OpenSession(port, cmd, radio);
      } else if id == ReadRequest {
        out := ReadEeprom(port, cmd, radio, eeprom);
      } else if id == WriteRequest {
        out := WriteEeprom(port, cmd, radio);
      } else if id == ResetRequest {
        out := Nothing.(reset := true);
      } else {
        out := Nothing;
      }
    }

    /** CMD_0514. */
    method OpenSession(port: SerialPort, cmd: seq<bv8>, radio: Radio) returns (out: Outcome)
      requires port.Valid() && radio.Valid() && |cmd| == CommandSize
      modifies this, port`timestamp
      ensures port.Valid()
      ensures var s := SessionStep(cmd, old(timers), radio);
        port.timestamp == s.timestamp && timers == s.timers && out == s.outcome
    {
      port.timestamp := Field32(cmd[4..8]);
      timers := timers.(fmRadio := radio.fmRadioCountdown, serialConfig := SerialConfigCountdown);
      timers := timers.(backlightOn := false);
      out := Outcome(Some(VersionReply(radio)), [], false, false);
    }

    /** CMD_051B. */
    method ReadEeprom(port: SerialPort, cmd: seq<bv8>, radio: Radio, eeprom: nat -> bv8) returns (out: Outcome)
      requires port.Valid() && |cmd| == CommandSize
      modifies this
      ensures var s := ReadStep(cmd, port.timestamp, old(timers), radio, eeprom);
        timers == s.timers && out == s.outcome
    {
      if Field32(cmd[8..12]) != port.timestamp {
        return Nothing;
      }
      timers := timers.(fmRadio := radio.fmRadioCountdown, serialConfig := SerialConfigCountdown);
      out := Outcome(Some(ReadReply(cmd, radio, eeprom)), [], false, false);
    }

    /** CMD_051D. */
    method WriteEeprom(port: SerialPort, cmd: seq<bv8>, radio: Radio) returns (out: Outcome)
      requires port.Valid() && |cmd| == CommandSize && BlockLoopInside(cmd, port.timestamp, radio)
      modifies this
      ensures var s := WriteStep(cmd, port.timestamp, old(timers), radio);
        timers == s.timers && out == s.outcome
    {
      if Field32(cmd[8..12]) != port.timestamp {
        return Nothing;
      }
      timers := timers.(fmRadio := radio.fmRadioCountdown, serialConfig := SerialConfigCountdown);
      var writes: seq<Write> := [];
      var reload := false;
      if !Locked(radio) {
        writes, reload := WriteBlocks(cmd, Field16(cmd[4], cmd[5]), cmd[6] as nat / BlockSize, radio, cmd[7] != 0);
      }
      out := Outcome(Some(WriteReply(cmd)), writes, reload, false);
    }
  }
}
