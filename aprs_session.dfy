/** The stateful side of the APRS receiver (App/app/aprs.c): the flag-delimited
    frame collector fed by the FSK chip, the eight-entry packet log kept as a
    ring buffer, the list selection, and the key handling of the APRS screen.

    Session is the whole state as a value and the functions below are its
    transitions; class AprsReceiver.Receiver holds the same state in the
    source's shape and is proved to perform these transitions. */
module AprsSession {
  import opened Common
  import opened Display
  import opened Aprs

  /** The receiver's globals: gAprsState, the log and its indices,
      gAprsFrameRssi, and the UI flags the module writes. */
  datatype Session = Session(
    active: bool,             // gAprsState.active
    detailView: bool,         // gAprsState.detailView
    inFrame: bool,            // gAprsState.frame.inFrame
    buffered: seq<bv8>,       // gAprsState.frame.data[..length]
    sequence: nat,            // gAprsState.sequence
    log: seq<Packet>,         // gAprsLog
    head: nat,                // gAprsLogHead
    count: nat,               // gAprsLogCount
    selection: nat,           // gAprsSelection
    frameRssi: int,           // gAprsFrameRssi
    requestScreen: Screen,    // gRequestDisplayScreen
    updateDisplay: bool,      // gUpdateDisplay
    updateStatus: bool,       // gUpdateStatus
    wasFKeyPressed: bool)     // gWasFKeyPressed

  /** What the receiver keeps true between calls: the frame buffer within
      its 330 bytes, the ring indices within the log, the selection on a
      logged packet, the sequence within 32 bits. */
  predicate Invariant(s: Session)
  {
    && |s.buffered| <= MaxFrameLen
    && (!s.inFrame ==> s.buffered == [])
    && |s.log| == LogCapacity
    && s.head < LogCapacity
    && s.count <= LogCapacity
    && (if s.count == 0 then s.selection == 0 else s.selection < s.count)
    && s.sequence < SequenceModulus
  }

  /* ---------------------------------------------------------------------
     The packet log: a ring whose head is the newest entry.
     --------------------------------------------------------------------- */

  /** The slot of the index-th newest packet. */
  function Slot(head: nat, index: nat): (r: nat)
    requires head < LogCapacity && index <= LogCapacity
    ensures r < LogCapacity
  {
    (head + LogCapacity - index) % LogCapacity
  }

  /** APRS_GetPacket: the index-th newest packet, or nothing past the count. */
  function PacketAt(s: Session, index: nat): (r: Option<Packet>)
    requires Invariant(s)
    ensures r.Some? <==> index < s.count
  {
    if index >= s.count then None
    else Some(s.log[Slot(s.head, index)])
  }

  /** The n newest packets of a ring whose newest slot is head, newest first. */
  function Newest(log: seq<Packet>, head: nat, n: nat): (r: seq<Packet>)
    requires |log| == LogCapacity && head < LogCapacity && n <= LogCapacity
    ensures |r| == n
    ensures forall i :: 0 <= i < n ==> r[i] == log[Slot(head, i)]
  {
    if n == 0 then [] else Newest(log, head, n - 1) + [log[Slot(head, n - 1)]]
  }

  /** The logged packets as a list, newest first: APRS_GetPacket(i) is the
      i-th of them. */
  function Entries(s: Session): (r: seq<Packet>)
    requires Invariant(s)
    ensures |r| == s.count
    ensures forall i :: 0 <= i < s.count ==> PacketAt(s, i) == Some(r[i])
  {
    Newest(s.log, s.head, s.count)
  }

  /** APRS_StorePacket. */
  function Store(s: Session, p: Packet): (r: Session)
    requires Invariant(s)
    ensures Invariant(r)
    ensures r.count == Min(s.count + 1, LogCapacity) && r.selection == 0 && r.updateDisplay
  {
    var head := (s.head + 1) % LogCapacity;
    s.(head := head, log := s.log[head := p],
       count := if s.count < LogCapacity then s.count + 1 else s.count,
       selection := 0, updateDisplay := true)
  }

  lemma SlotAfterStore(head: nat, index: nat)
    requires head < LogCapacity && 1 <= index < LogCapacity
    ensures Slot((head + 1) % LogCapacity, index) == Slot(head, index - 1)
    ensures Slot((head + 1) % LogCapacity, index) != (head + 1) % LogCapacity
  {
    if head == LogCapacity - 1 {
      assert (head + 1) % LogCapacity == 0;
    } else {
      assert (head + 1) % LogCapacity == head + 1;
    }
  }

  /** The ring is a bounded newest-first list: storing puts the packet in
      front and, once eight are kept, drops the oldest. */
  lemma {:induction false} StoreEntries(s: Session, p: Packet)
    requires Invariant(s)
    ensures Entries(Store(s, p)) == ([p] + Entries(s))[..Min(s.count + 1, LogCapacity)]
  {
    var t := Store(s, p);
    var old_ := [p] + Entries(s);
    var e := Entries(t);
    forall i | 0 <= i < t.count
      ensures e[i] == old_[i]
    {
      if i == 0 {
        assert Slot(t.head, 0) == t.head;
      } else {
        SlotAfterStore(s.head, i);
      }
    }
  }

  /** APRS_ClearLog. */
  function ClearLog(s: Session): (r: Session)
    requires Invariant(s)
    ensures Invariant(r) && Entries(r) == [] && r.updateDisplay
  {
    s.(count := 0, selection := 0, head := LogCapacity - 1, updateDisplay := true)
  }

  /** APRS_MoveSelection: moves by delta, clamped to the logged packets;
      the screen is redrawn only when the selection really changes. */
  function MoveSelection(s: Session, delta: int): (r: Session)
    requires Invariant(s)
    ensures Invariant(r)
  {
    if s.count == 0 then s
    else
      var next := s.selection + delta;
      var clamped := if next < 0 then 0 else if next >= s.count then s.count - 1 else next;
      if clamped != s.selection then s.(selection := clamped, updateDisplay := true)
      else s
  }

  /** The selection moves by delta but stays on a logged packet, without
      wrapping round; an empty log is left alone, and nothing but the
      selection and the redraw flag changes. */
  lemma MoveSelectionClamps(s: Session, delta: int)
    requires Invariant(s)
    ensures s.count == 0 ==> MoveSelection(s, delta) == s
    ensures s.count > 0 ==>
      var r := MoveSelection(s, delta);
      && r.selection == Max(0, Min(s.selection + delta, s.count - 1))
      && r.updateDisplay == (s.updateDisplay || r.selection != s.selection)
      && r == s.(selection := r.selection, updateDisplay := r.updateDisplay)
  {
  }

  /** Pressing DOWN n times walks to the n-th next packet, stopping at the
      oldest one; nothing but the selection and the redraw flag changes. */
  lemma {:induction false} MoveDownRepeatedly(s: Session, n: nat)
    requires Invariant(s) && s.count > 0
    ensures MovedDown(s, n).selection == Min(s.selection + n, s.count - 1)
    ensures MovedDown(s, n) == s.(selection := MovedDown(s, n).selection,
                                  updateDisplay := MovedDown(s, n).updateDisplay)
  {
    if n > 0 {
      MoveDownRepeatedly(s, n - 1);
    }
  }

  /** n presses of DOWN. */
  function MovedDown(s: Session, n: nat): (r: Session)
    requires Invariant(s)
    ensures Invariant(r) && r.count == s.count
  {
    if n == 0 then s else MoveSelection(MovedDown(s, n - 1), 1)
  }

  /** APRS_ToggleDetail. */
  function ToggleDetail(s: Session): (r: Session)
    ensures r.detailView == !s.detailView && r.updateDisplay
  {
    s.(detailView := !s.detailView, updateDisplay := true)
  }

  /* ---------------------------------------------------------------------
     Entering and leaving the screen.
     --------------------------------------------------------------------- */

  /** APRS_ResetState: drop any frame in progress. */
  function ResetFramer(s: Session): (r: Session)
    ensures !r.inFrame && r.buffered == [] && r.frameRssi == 0
  {
    s.(buffered := [], inFrame := false, frameRssi := 0)
  }

  /** APRS_Enter: a no-op when already active; otherwise starts a fresh
      session with an empty log and asks for the APRS screen. */
  function Enter(s: Session): (r: Session)
    requires Invariant(s)
    ensures Invariant(r) && r.active
    ensures s.active ==> r == s
    ensures !s.active ==> && Entries(r) == [] && r.sequence == 0 && !r.detailView && !r.inFrame
                          && r.requestScreen == Aprs && r.updateDisplay && r.updateStatus
  {
    if s.active then s
    else ClearLog(ResetFramer(s.(active := true, detailView := false, sequence := 0)))
           .(requestScreen := Aprs, updateStatus := true)
  }

  /** APRS_Leave: a no-op when inactive; otherwise stops collecting frames
      and asks for the main screen. The log is kept. */
  function Leave(s: Session): (r: Session)
    requires Invariant(s)
    ensures Invariant(r) && !r.active
    ensures !s.active ==> r == s
    ensures s.active ==> && Entries(r) == Entries(s) && !r.inFrame
                         && r.requestScreen == Main && r.updateDisplay
  {
    if !s.active then s
    else ResetFramer(s.(active := false)).(requestScreen := Main, updateDisplay := true)
  }

  /** Entering twice is entering once, and so is leaving. */
  lemma EnterLeaveIdempotent(s: Session)
    requires Invariant(s)
    ensures Enter(Enter(s)) == Enter(s)
    ensures Leave(Leave(s)) == Leave(s)
  {
  }

  /* ---------------------------------------------------------------------
     Keys.
     --------------------------------------------------------------------- */

  /** APRS_ProcessKeys. KEY_7 after the F key clears the log. */
  function ProcessKeys(s: Session, key: Key, pressed: bool, held: bool): (r: Session)
    requires Invariant(s)
    ensures Invariant(r)
    ensures !pressed || held ==> r == s
  {
    if !pressed || held then s
    else
      match key
      case Exit => Leave(s)
      case Up => MoveSelection(s, -1)
      case Down => MoveSelection(s, 1)
      case Menu => ToggleDetail(s)
      case Digit(d) =>
        if d == 7 && s.wasFKeyPressed then ClearLog(s.(wasFKeyPressed := false)) else s
      case _ => s
  }

  /** What a fresh press does on the APRS screen: EXIT leaves it with the
      log kept, UP and DOWN step the selection one packet without leaving
      the log, MENU flips the detail view, F then 7 empties the log and
      consumes the F; every other key changes nothing. */
  lemma ProcessKeysEffect(s: Session, key: Key)
    requires Invariant(s)
    ensures var r := ProcessKeys(s, key, true, false);
      && (key == Exit ==> !r.active && Entries(r) == Entries(s))
      && (key == Up && s.count > 0 ==> r.selection == Max(0, s.selection - 1))
      && (key == Down && s.count > 0 ==> r.selection == Min(s.selection + 1, s.count - 1))
      && (key == Key.Menu ==> r.detailView == !s.detailView && Entries(r) == Entries(s))
      && (key == Digit(7) && s.wasFKeyPressed ==> Entries(r) == [] && !r.wasFKeyPressed)
      && (key !in {Exit, Up, Down, Key.Menu, Digit(7)} ==> r == s)
      && (key == Digit(7) && !s.wasFKeyPressed ==> r == s)
  {
    MoveSelectionClamps(s, -1);
    MoveSelectionClamps(s, 1);
  }

  /* ---------------------------------------------------------------------
     Frame collection.
     --------------------------------------------------------------------- */

  /** The sequence number the next decoded packet gets (a uint32_t pre-increment). */
  function NextSequence(s: Session): (r: nat)
    ensures r < SequenceModulus
  {
    (s.sequence + 1) % SequenceModulus
  }

  /** The outcome of a decode: a packet is numbered and logged, a failure
      leaves everything as it was. */
  function Logged(s: Session, decoded: Option<Packet>): (r: Session)
    requires Invariant(s)
    ensures Invariant(r)
  {
    match decoded
    case None => s
    case Some(p) => Store(s.(sequence := NextSequence(s)), p)
  }

  /** A closing flag: decode what was collected, with the next sequence
      number and the level read at the opening flag. */
  function CloseFrame(s: Session): (r: Session)
    requires Invariant(s)
    ensures Invariant(r)
  {
    Logged(s, Decode(s.buffered, NextSequence(s), s.frameRssi))
  }

  /** APRS_HandleByte for one byte as the chip delivers it; rssi is the level
      BK4819_GetRSSI_dBm reports if the byte is a flag. */
  function HandleByte(s: Session, b: bv8, rssi: int): (r: Session)
    requires Invariant(s)
    ensures Invariant(r)
  {
    if b == Flag then
      var t := if s.inFrame && |s.buffered| >= MinFrameLen then CloseFrame(s) else s;
      t.(inFrame := true, buffered := [], frameRssi := rssi)
    else if !s.inFrame then s
    else if |s.buffered| >= MaxFrameLen then s.(inFrame := false, buffered := [])
    else s.(buffered := s.buffered + [ReverseByte(b)])
  }

  /** Bytes handled one after the other; levels[k] is what
      BK4819_GetRSSI_dBm reports when byte k arrives, read only if it is a
      flag. */
  function HandleBytes(s: Session, bytes: seq<bv8>, levels: seq<int>): (r: Session)
    requires Invariant(s) && |levels| == |bytes|
    ensures Invariant(r)
    decreases |bytes|
  {
    if bytes == [] then s else HandleBytes(HandleByte(s, bytes[0], levels[0]), bytes[1..], levels[1..])
  }

  /** The bytes of the FSK FIFO words, low byte first. */
  function BurstBytes(words: seq<bv16>): (r: seq<bv8>)
    ensures |r| == 2 * |words|
  {
    if words == [] then []
    else
      var w := words[|words| - 1];
      BurstBytes(words[..|words| - 1]) + [(w & 0xFF) as bv8, (w >> 8) as bv8]
  }

  /** Each FIFO word gives two bytes in place, its low byte first. */
  lemma {:induction false} BurstByteOrder(words: seq<bv16>, k: nat)
    requires k < |words|
    ensures BurstBytes(words)[2 * k] == (words[k] & 0xFF) as bv8
    ensures BurstBytes(words)[2 * k + 1] == (words[k] >> 8) as bv8
    decreases |words|
  {
    var init := words[..|words| - 1];
    if k < |words| - 1 {
      BurstByteOrder(init, k);
      assert init[k] == words[k];
    }
  }

  /** APRS_HandleFskBurst: eight FIFO words, ignored while inactive;
      levels holds the RSSI at each of the sixteen bytes. */
  function HandleBurst(s: Session, words: seq<bv16>, levels: seq<int>): (r: Session)
    requires Invariant(s) && |words| == WordsPerInterrupt && |levels| == 2 * WordsPerInterrupt
    ensures Invariant(r)
    ensures !s.active ==> r == s
  {
    if !s.active then s else HandleBytes(s, BurstBytes(words), levels)
  }

  /** The bytes the chip delivers for a frame body: each octet bit-reversed. */
  function Received(body: seq<bv8>): (r: seq<bv8>)
    ensures |r| == |body|
  {
    if body == [] then [] else [ReverseByte(body[0])] + Received(body[1..])
  }

  lemma {:induction false} HandleBytesAppend(s: Session, a: seq<bv8>, b: seq<bv8>, la: seq<int>, lb: seq<int>)
    requires Invariant(s) && |la| == |a| && |lb| == |b|
    ensures HandleBytes(s, a + b, la + lb) == HandleBytes(HandleBytes(s, a, la), b, lb)
    decreases |a|
  {
    if a == [] {
      assert a + b == b && la + lb == lb;
    } else {
      assert (a + b)[0] == a[0] && (a + b)[1..] == a[1..] + b;
      assert (la + lb)[0] == la[0] && (la + lb)[1..] == la[1..] + lb;
      HandleBytesAppend(HandleByte(s, a[0], la[0]), a[1..], b, la[1..], lb);
    }
  }

  /** Inside a frame, body bytes (none of them a flag) are collected
      bit-reversed back into their octets, up to the 330-byte limit; the
      levels are not read. */
  lemma {:induction false} CollectBody(s: Session, body: seq<bv8>, levels: seq<int>)
    requires Invariant(s) && s.inFrame && |s.buffered| + |body| <= MaxFrameLen && Flag !in body
    requires |levels| == |body|
    ensures HandleBytes(s, Received(body), levels) == s.(buffered := s.buffered + body)
    decreases |body|
  {
    if body != [] {
      var raw := Received(body);
      ReverseByteInvolution(body[0]);
      assert raw[0] != Flag;
      var t := HandleByte(s, raw[0], levels[0]);
      assert t == s.(buffered := s.buffered + [body[0]]);
      assert raw[1..] == Received(body[1..]);
      CollectBody(t, body[1..], levels[1..]);
      assert s.buffered + [body[0]] + body[1..] == s.buffered + body;
    }
  }

  /** Closing a frame: a good one is numbered with the next sequence number
      and put in front of the log, a bad one changes nothing. */
  lemma CloseFrameLogs(s: Session)
    requires Invariant(s)
    ensures match Decode(s.buffered, NextSequence(s), s.frameRssi)
      case Some(p) => && CloseFrame(s).sequence == NextSequence(s)
                      && Entries(CloseFrame(s)) == ([p] + Entries(s))[..Min(s.count + 1, LogCapacity)]
      case None => CloseFrame(s) == s
  {
    match Decode(s.buffered, NextSequence(s), s.frameRssi)
    case Some(p) =>
      StoreEntries(s.(sequence := NextSequence(s)), p);
    case None =>
  }

  /** A frame of 18 to 330 octets between two flags is collected and closed
      when the closing flag arrives (see CloseFrameLogs), and the closing
      flag opens the next frame with the level read at that flag. */
  lemma ReceiveFrame(s: Session, body: seq<bv8>, levels: seq<int>, closing: int)
    requires Invariant(s) && s.inFrame && s.buffered == []
    requires MinFrameLen <= |body| <= MaxFrameLen && Flag !in body && |levels| == |body|
    ensures HandleBytes(s, Received(body) + [Flag], levels + [closing])
         == CloseFrame(s.(buffered := body)).(inFrame := true, buffered := [], frameRssi := closing)
  {
    var raw := Received(body);
    HandleBytesAppend(s, raw, [Flag], levels, [closing]);
    CollectBody(s, body, levels);
    assert s.buffered + body == body;
    var collected := s.(buffered := body);
    assert HandleBytes(s, raw, levels) == collected;
    var closed := HandleByte(collected, Flag, closing);
    assert HandleBytes(closed, [], []) == closed;
    assert HandleBytes(collected, [Flag], [closing]) == closed;
    assert closed == CloseFrame(collected).(inFrame := true, buffered := [], frameRssi := closing);
  }

  /** A frame that runs past 330 octets is abandoned: collection stops until
      the next flag, and nothing is decoded. */
  lemma {:induction false} OverlongFrameDropped(s: Session, body: seq<bv8>, levels: seq<int>)
    requires Invariant(s) && s.inFrame && |s.buffered| + |body| > MaxFrameLen && Flag !in body
    requires |levels| == |body|
    ensures HandleBytes(s, Received(body), levels) == s.(inFrame := false, buffered := [])
    decreases |body|
  {
    var raw := Received(body);
    ReverseByteInvolution(body[0]);
    assert raw[0] != Flag;
    assert raw[1..] == Received(body[1..]);
    var t := HandleByte(s, raw[0], levels[0]);
    if |s.buffered| >= MaxFrameLen {
      IgnoredOutsideFrame(t, body[1..], levels[1..]);
    } else {
      OverlongFrameDropped(t, body[1..], levels[1..]);
    }
  }

  /** Outside a frame everything but a flag is ignored. */
  lemma {:induction false} IgnoredOutsideFrame(s: Session, body: seq<bv8>, levels: seq<int>)
    requires Invariant(s) && !s.inFrame && Flag !in body && |levels| == |body|
    ensures HandleBytes(s, Received(body), levels) == s
    decreases |body|
  {
    if body != [] {
      var raw := Received(body);
      ReverseByteInvolution(body[0]);
      assert raw[0] != Flag;
      assert raw[1..] == Received(body[1..]);
      IgnoredOutsideFrame(s, body[1..], levels[1..]);
    }
  }

  lemma HandleBytesPair(s: Session, before: seq<bv8>, lo: bv8, hi: bv8, levels: seq<int>, loLevel: int, hiLevel: int)
    requires Invariant(s) && |levels| == |before|
    ensures HandleBytes(s, before + [lo, hi], levels + [loLevel, hiLevel])
         == HandleByte(HandleByte(HandleBytes(s, before, levels), lo, loLevel), hi, hiLevel)
  {
    HandleBytesAppend(s, before, [lo, hi], levels, [loLevel, hiLevel]);
    var t := HandleBytes(s, before, levels);
    assert [lo, hi][1..] == [hi] && [loLevel, hiLevel][1..] == [hiLevel];
    assert HandleBytes(t, [lo, hi], [loLevel, hiLevel]) == HandleBytes(HandleByte(t, lo, loLevel), [hi], [hiLevel]);
  }
}
