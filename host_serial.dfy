/** The programming-cable protocol of App/app/uart.c: frames "AB CD size
    body DC BA" whose body (and the CRC after a command body) is XORed with
    a fixed 16-byte key, found by scanning a circular receive buffer; and
    the commands that open a session and read or write the EEPROM.

    DMA and USB access, the EEPROM, the settings reload, the backlight and
    the system reset are outside the model: the DMA position is a parameter,
    CRC_Calculate (driver/crc.c is not part of this model) is a function
    parameter, and the effects on the EEPROM and the radio are returned as
    values. */
module HostSerial {
  import opened Common

  /* ---------------------------------------------------------------------
     Obfuscation.
     --------------------------------------------------------------------- */

  /** Obfuscation[16]. */
  const Key: seq<bv8> := [0x16, 0x6C, 0x14, 0xE6, 0x2E, 0x91, 0x0D, 0x40,
                          0x21, 0x35, 0xD5, 0x40, 0x13, 0x03, 0xE9, 0x80]

  /** Byte i XORed with Obfuscation[i % 16]. */
  function Obfuscate(data: seq<bv8>): (r: seq<bv8>)
    ensures |r| == |data|
  {
    seq(|data|, i requires 0 <= i < |data| => data[i] ^ Key[i % 16])
  }

  /** The obfuscation undoes itself. */
  lemma ObfuscateTwice(data: seq<bv8>)
    ensures Obfuscate(Obfuscate(data)) == data
  {
    var once := Obfuscate(data);
    forall i | 0 <= i < |data|
      ensures Obfuscate(once)[i] == data[i]
    {
      assert (data[i] ^ Key[i % 16]) ^ Key[i % 16] == data[i];
    }
  }

  /** Obfuscating a longer text does not change the obfuscation of its
      start. */
  lemma ObfuscateAppend(a: seq<bv8>, b: seq<bv8>)
    ensures Obfuscate(a + b) == Obfuscate(a) + seq(|b|, j requires 0 <= j < |b| => b[j] ^ Key[(|a| + j) % 16])
  {
  }

  /** The in-place XOR loops of SendReply, SendReply_VCP and
      UART_IsCommandAvailable over the n bytes from a[at]. */
  method ObfuscateAt(a: array<bv8>, at: nat, n: nat)
    requires at + n <= a.Length
    modifies a
    ensures a[at..at + n] == Obfuscate(old(a[at..at + n]))
    ensures a[..at] == old(a[..at]) && a[at + n..] == old(a[at + n..])
  {
    ghost var data := a[at..at + n];
    for i := 0 to n
      invariant forall k :: 0 <= k < i ==> a[at + k] == data[k] ^ Key[k % 16]
      invariant forall k :: i <= k < n ==> a[at + k] == data[k]
      invariant a[..at] == old(a[..at]) && a[at + n..] == old(a[at + n..])
    {
      a[at + i] := a[at + i] ^ Key[i % 16];
    }
    assert a[at..at + n] == Obfuscate(data);
  }

  /* ---------------------------------------------------------------------
     Frames.
     --------------------------------------------------------------------- */

  const HeaderId0: bv8 := 0xAB     // Header_t.ID 0xCDAB, little-endian
  const HeaderId1: bv8 := 0xCD
  const FooterId0: bv8 := 0xDC     // Footer_t.ID 0xBADC, little-endian
  const FooterId1: bv8 := 0xBA
  const MaxReplySize: nat := 144   // MAX_REPLY_SIZE

  /** The low and high byte of a 16-bit field. */
  function Lo(n: nat): bv8
  {
    (n % 256) as bv8
  }

  function Hi(n: nat): bv8
    requires n < 0x1_0000
  {
    (n / 256) as bv8
  }

  /** A little-endian 16-bit field read as a number. */
  function Field16(lo: bv8, hi: bv8): (r: nat)
    ensures r < 0x1_0000
  {
    hi as int * 256 + lo as int
  }

  lemma Field16RoundTrip(n: nat)
    requires n < 0x1_0000
    ensures Field16(Lo(n), Hi(n)) == n
  {
    var lo, hi := n % 256, n / 256;
    ByteValue(lo);
    ByteValue(hi);
    assert n == hi * 256 + lo;
  }

  /** A 16-bit value as its two bytes, low first, and back. */
  function Bytes16(v: bv16): seq<bv8>
  {
    [(v & 0xFF) as bv8, (v >> 8) as bv8]
  }

  function Value16(lo: bv8, hi: bv8): bv16
  {
    ((hi as bv16) << 8) | (lo as bv16)
  }

  lemma Bytes16RoundTrip(v: bv16)
    ensures Value16(Bytes16(v)[0], Bytes16(v)[1]) == v
  {
  }

  /** A frame on the wire: header, size, the obfuscated payload, footer.
      A command's payload is its body followed by its CRC. */
  function Frame(size: nat, payload: seq<bv8>): (r: seq<bv8>)
    requires size < 0x1_0000
    ensures |r| == |payload| + 6
  {
    Header(size) + Obfuscate(payload) + [FooterId0, FooterId1]
  }

  /** A command frame with the given body and CRC field. */
  function CommandFrame(body: seq<bv8>, crc: bv16): (r: seq<bv8>)
    requires |body| < 0x1_0000
    ensures |r| == |body| + 8
  {
    Frame(|body|, body + Bytes16(crc))
  }

  /** The bytes SendReply and SendReply_VCP put on the wire for a reply of
      Size bytes: the obfuscated body, then padding bytes that are the key
      bytes Size and Size + 1, complemented. */
  function ReplyFrame(body: seq<bv8>): (r: seq<bv8>)
    requires |body| < 0x1_0000
    ensures |r| == |body| + 8
  {
    Header(|body|) + Obfuscate(body) + ReplyFooter(|body|)
  }

  function Header(size: nat): seq<bv8>
    requires size < 0x1_0000
  {
    [HeaderId0, HeaderId1, Lo(size), Hi(size)]
  }

  function ReplyFooter(size: nat): seq<bv8>
  {
    [Key[size % 16] ^ 0xFF, Key[(size + 1) % 16] ^ 0xFF, FooterId0, FooterId1]
  }

  /** A reply is framed exactly like a command whose CRC field is 0xFFFF:
      the padding is the obfuscation of two 0xFF bytes. */
  lemma ReplyIsCommandFrame(body: seq<bv8>)
    requires |body| < 0x1_0000
    ensures ReplyFrame(body) == CommandFrame(body, 0xFFFF)
  {
    ObfuscateAppend(body, [0xFF, 0xFF]);
  }

  /** The two ports the commands can arrive on. */
  datatype Port = Uart | Vcp

  /** What SendReply transmits: nothing for a USB reply above 144 bytes. */
  function SentReply(port: Port, body: seq<bv8>): (r: Option<seq<bv8>>)
    requires |body| < 0x1_0000
    ensures r.None? <==> port == Vcp && |body| > MaxReplySize
    ensures r.Some? ==> r.value == ReplyFrame(body)
  {
    if port == Vcp && |body| > MaxReplySize then None else Some(ReplyFrame(body))
  }

  /** SendReply(Port, pReply, Size) on the first size bytes of reply. The
      UART path obfuscates the caller's buffer in place; the USB path
      obfuscates a copy in VCP_ReplyBuf. */
  method SendReply(port: Port, reply: array<bv8>, size: nat) returns (sent: Option<seq<bv8>>)
    requires size <= reply.Length && size < 0x1_0000
    modifies reply
    ensures sent == SentReply(port, old(reply[..size]))
    ensures port == Uart ==> reply[..size] == Obfuscate(old(reply[..size])) && reply[size..] == old(reply[size..])
    ensures port == Vcp ==> reply[..] == old(reply[..])
  {
    if port == Vcp {
      if size > MaxReplySize {
        return None;
      }
      var buffer := new bv8[MaxReplySize + 8];
      CopyInto(reply, size, buffer, 4);
      var frame := Framed(buffer, size);
      sent := Some(frame);
    } else {
      ObfuscateAt(reply, 0, size);
      sent := Some(Header(size) + reply[..size] + ReplyFooter(size));
    }
  }

  /** memcpy(dest + at, src, n). */
  method CopyInto(src: array<bv8>, n: nat, dest: array<bv8>, at: nat)
    requires n <= src.Length && at + n <= dest.Length && src != dest
    modifies dest
    ensures dest[at..at + n] == src[..n]
  {
    for i := 0 to n
      invariant dest[at..at + i] == src[..i]
    {
      dest[at + i] := src[i];
    }
  }

  /** The rest of SendReply_VCP once the reply is copied to buffer[4..]:
      obfuscate it in place; the frame sent is the header, that copy and
      the footer. */
  method Framed(buffer: array<bv8>, size: nat) returns (frame: seq<bv8>)
    requires 4 + size <= buffer.Length && size < 0x1_0000
    modifies buffer
    ensures frame == ReplyFrame(old(buffer[4..4 + size]))
  {
    ghost var body := buffer[4..4 + size];
    assert |body| == size;
    ObfuscateAt(buffer, 4, size);
    var obfuscated := buffer[4..4 + size];
    assert obfuscated == Obfuscate(body);
    frame := Header(size) + obfuscated + ReplyFooter(size);
  }

  /* ---------------------------------------------------------------------
     The receive buffer: UART_IsCommandAvailable.
     --------------------------------------------------------------------- */

  const CommandSize: nat := 256    // sizeof(UART_Command_t)
  const MinFrame: nat := 8         // header, size and footer

  /** DMA_INDEX(i, k, n), the remainder of i + k by n; every call steps an
      index inside the ring by at most the ring's length, where that
      remainder is one subtraction. */
  function Ahead(i: nat, k: nat, n: nat): (r: nat)
    requires i < n && k <= n
    ensures r < n
  {
    if i + k < n then i + k else i + k - n
  }

  /** The bytes written by the DMA and not yet consumed: CommandLength. */
  function Pending(p: nat, dma: nat, n: nat): (r: nat)
    requires p < n && dma < n
    ensures r < n && (r == 0 <==> p == dma)
  {
    if p <= dma then dma - p else dma + n - p
  }

  lemma PendingStep(p: nat, dma: nat, n: nat)
    requires p < n && dma < n && p != dma
    ensures Pending(Ahead(p, 1, n), dma, n) == Pending(p, dma, n) - 1
  {
    if p + 1 < n {
      assert Ahead(p, 1, n) == p + 1;
    } else {
      assert Ahead(p, 1, n) == 0;
    }
  }

  /** Where the search for "AB CD" stops. */
  datatype Seek = Found(at: nat) | NotFound(at: nat)

  /** The while (1) loop: skip to the next 0xAB; give up at the DMA position
      or with fewer than 8 bytes pending; accept it when 0xCD follows,
      otherwise step over it and search on. */
  function FindHeader(buf: seq<bv8>, p: nat, dma: nat): (r: Seek)
    requires p < |buf| && dma < |buf|
    ensures r.at < |buf|
    decreases Pending(p, dma, |buf|)
  {
    var n := |buf|;
    if p == dma then NotFound(p)
    else if buf[p] != HeaderId0 then
      PendingStep(p, dma, n);
      FindHeader(buf, Ahead(p, 1, n), dma)
    else if Pending(p, dma, n) < MinFrame then NotFound(p)
    else if buf[Ahead(p, 1, n)] == HeaderId1 then Found(p)
    else
      PendingStep(p, dma, n);
      FindHeader(buf, Ahead(p, 1, n), dma)
  }

  /** The count bytes of the ring from index from on. */
  function Circular(buf: seq<bv8>, from: nat, count: nat): (r: seq<bv8>)
    requires from < |buf| && count <= |buf|
    ensures |r| == count
  {
    seq(count, k requires 0 <= k < count => buf[Ahead(from, k, |buf|)])
  }

  /** Whether index i lies in the count bytes of the ring from from on. */
  predicate InRegion(i: nat, from: nat, count: nat, n: nat)
  {
    (if i >= from then i - from else i + n - from) < count
  }

  /** The ring with the count bytes from from on set to zero. */
  function ZeroCircular(buf: seq<bv8>, from: nat, count: nat): (r: seq<bv8>)
    ensures |r| == |buf|
  {
    seq(|buf|, i requires 0 <= i < |buf| => if InRegion(i, from, count, |buf|) then 0 else buf[i])
  }

  /** What one call leaves behind: the result, the read pointer, the ring,
      and the command bytes copied out (None when nothing was copied). */
  datatype ScanResult = ScanResult(ok: bool, readIndex: nat, buffer: seq<bv8>, command: Option<seq<bv8>>)

  /** The frame size field of a header at p. */
  function SizeField(buf: seq<bv8>, p: nat): nat
    requires p < |buf| && MinFrame < |buf|
  {
    var index := Ahead(p, 2, |buf|);
    Field16(buf[index], buf[Ahead(index, 1, |buf|)])
  }

  /** UART_IsCommandAvailable on a ring whose read pointer is ptr and whose
      DMA position is dma. */
  function Scan(buf: seq<bv8>, ptr: nat, dma: nat, crc: seq<bv8> -> bv16): (r: ScanResult)
    requires MinFrame < |buf| && ptr < |buf| && dma < |buf|
  {
    match FindHeader(buf, ptr, dma)
    case NotFound(p) => ScanResult(false, p, buf, None)
    case Found(p) => TakeFrame(buf, p, dma, crc)
  }

  /** The rest of the call once a header stands at p: reject an oversized
      frame by dropping all pending input, wait for an incomplete one, drop
      input whose footer is wrong, otherwise copy out the payload, zero the
      frame in the ring, move past it and check the CRC. */
  function TakeFrame(buf: seq<bv8>, p: nat, dma: nat, crc: seq<bv8> -> bv16): (r: ScanResult)
    requires MinFrame < |buf| && p < |buf| && dma < |buf|
  {
    var n := |buf|;
    var size := SizeField(buf, p);
    if size + MinFrame > n then ScanResult(false, dma, buf, None)
    else if Pending(p, dma, n) < size + MinFrame then ScanResult(false, p, buf, None)
    else Complete(buf, p, dma, size, crc)
  }

  /** A frame of size bytes at p that has fully arrived: drop all pending
      input when its footer is wrong, otherwise accept it. */
  function Complete(buf: seq<bv8>, p: nat, dma: nat, size: nat, crc: seq<bv8> -> bv16): (r: ScanResult)
    requires p < |buf| && size + MinFrame < |buf|
  {
    var n := |buf|;
    var index := Ahead(Ahead(p, 2, n), 2, n);
    var tail := Ahead(index, size + 2, n);
    if buf[tail] != FooterId0 || buf[Ahead(tail, 1, n)] != FooterId1 then ScanResult(false, dma, buf, None)
    else Accepted(buf, p, index, size, crc)
  }

  /** A complete frame at p whose payload starts at index: the payload and
      CRC copied out and de-obfuscated, the frame cleared in the ring, the
      read pointer just past its footer. */
  function Accepted(buf: seq<bv8>, p: nat, index: nat, size: nat, crc: seq<bv8> -> bv16): (r: ScanResult)
    requires p < |buf| && index < |buf| && size + MinFrame < |buf|
  {
    var n := |buf|;
    var command := Obfuscate(Circular(buf, index, size + 2));
    ScanResult(crc(command[..size]) == Value16(command[size], command[size + 1]),
               Ahead(Ahead(index, size + 2, n), 2, n), ZeroCircular(buf, p, size + MinFrame), Some(command))
  }

  /** Two steps through the ring are one step of their sum. */
  lemma AheadAdd(i: nat, a: nat, b: nat, n: nat)
    requires i < n && a + b <= n
    ensures Ahead(Ahead(i, a, n), b, n) == Ahead(i, a + b, n)
  {
  }

  /** Stepping k bytes into the pending input leaves k fewer pending. */
  lemma PendingAdvance(p: nat, k: nat, dma: nat, n: nat)
    requires p < n && dma < n && k <= Pending(p, dma, n)
    ensures Pending(Ahead(p, k, n), dma, n) == Pending(p, dma, n) - k
  {
  }

  /** Whether the two bytes "AB CD" of a header start at index j. */
  predicate HeaderAt(buf: seq<bv8>, j: nat)
    requires j < |buf|
  {
    buf[j] == HeaderId0 && buf[Ahead(j, 1, |buf|)] == HeaderId1
  }

  /** The search stops at the first header with at least 8 bytes pending,
      never beyond the DMA position; every byte it steps over starts no
      header; when it finds nothing it stops at the DMA position or at an
      0xAB with fewer than 8 bytes pending behind it. */
  lemma {:induction false} FindHeaderSound(buf: seq<bv8>, p: nat, dma: nat)
    requires p < |buf| && dma < |buf|
    ensures var n := |buf|;
      var r := FindHeader(buf, p, dma);
      Pending(r.at, dma, n) <= Pending(p, dma, n)
      && (forall d :: 0 <= d < Pending(p, dma, n) - Pending(r.at, dma, n) ==> !HeaderAt(buf, Ahead(p, d, n)))
      && (r.Found? ==> HeaderAt(buf, r.at) && MinFrame <= Pending(r.at, dma, n))
      && (r.NotFound? ==> r.at == dma || (buf[r.at] == HeaderId0 && Pending(r.at, dma, n) < MinFrame))
    decreases Pending(p, dma, |buf|)
  {
    var n := |buf|;
    if p == dma || (buf[p] == HeaderId0 && (Pending(p, dma, n) < MinFrame || buf[Ahead(p, 1, n)] == HeaderId1)) {
    } else {
      var q := Ahead(p, 1, n);
      PendingStep(p, dma, n);
      FindHeaderSound(buf, q, dma);
      var r := FindHeader(buf, p, dma);
      assert r == FindHeader(buf, q, dma);
      forall d | 0 <= d < Pending(p, dma, n) - Pending(r.at, dma, n)
        ensures !HeaderAt(buf, Ahead(p, d, n))
      {
        if d > 0 {
          AheadAdd(p, 1, d - 1, n);
        }
      }
    }
  }

  /** The read pointer never passes the DMA position: whatever a call
      does, at most the pending bytes are consumed. */
  lemma ScanStaysBehind(buf: seq<bv8>, ptr: nat, dma: nat, crc: seq<bv8> -> bv16)
    requires MinFrame < |buf| && ptr < |buf| && dma < |buf|
    ensures Scan(buf, ptr, dma, crc).readIndex < |buf|
    ensures Pending(Scan(buf, ptr, dma, crc).readIndex, dma, |buf|) <= Pending(ptr, dma, |buf|)
  {
    var n := |buf|;
    FindHeaderSound(buf, ptr, dma);
    var r := FindHeader(buf, ptr, dma);
    if r.Found? {
      var p := r.at;
      var size := SizeField(buf, p);
      if size + MinFrame <= n && Pending(p, dma, n) >= size + MinFrame {
        AheadAdd(p, 2, 2, n);
        AheadAdd(p, 4, size + 2, n);
        AheadAdd(p, size + 6, 2, n);
        PendingAdvance(p, size + MinFrame, dma, n);
      }
    }
  }

  /** The bytes of a frame laid into the ring from ptr on, one by one. */
  lemma CircularAt(buf: seq<bv8>, ptr: nat, frame: seq<bv8>, k: nat)
    requires ptr < |buf| && |frame| <= |buf| && k < |frame|
    requires Circular(buf, ptr, |frame|) == frame
    ensures buf[Ahead(ptr, k, |buf|)] == frame[k]
  {
    assert Circular(buf, ptr, |frame|)[k] == buf[Ahead(ptr, k, |buf|)];
  }

  /** A header identifier at the read pointer with a whole minimal frame
      pending is found where it is. */
  lemma HeaderHere(buf: seq<bv8>, p: nat, dma: nat)
    requires p < |buf| && dma < |buf| && MinFrame < |buf|
    requires buf[p] == HeaderId0 && buf[Ahead(p, 1, |buf|)] == HeaderId1
    requires Pending(p, dma, |buf|) >= MinFrame
    ensures FindHeader(buf, p, dma) == Found(p)
  {
  }

  /** The header and size of a command frame laid into the ring are read
      back as such. */
  lemma CommandFrameHeader(buf: seq<bv8>, ptr: nat, body: seq<bv8>, c: bv16)
    requires ptr < |buf| && |body| + MinFrame < |buf| && |body| < 0x1_0000
    requires Circular(buf, ptr, |body| + MinFrame) == CommandFrame(body, c)
    ensures FindHeader(buf, ptr, Ahead(ptr, |body| + MinFrame, |buf|)) == Found(ptr)
    ensures SizeField(buf, ptr) == |body|
  {
    var n, size, frame := |buf|, |body|, CommandFrame(body, c);
    CommandFrameFront(body, c);
    assert buf[ptr] == HeaderId0 && buf[Ahead(ptr, 1, n)] == HeaderId1 by {
      CircularAt(buf, ptr, frame, 0);
      CircularAt(buf, ptr, frame, 1);
    }
    assert Pending(ptr, Ahead(ptr, size + MinFrame, n), n) == size + MinFrame;
    HeaderHere(buf, ptr, Ahead(ptr, size + MinFrame, n));
    assert buf[Ahead(ptr, 2, n)] == Lo(size) && buf[Ahead(Ahead(ptr, 2, n), 1, n)] == Hi(size) by {
      CircularAt(buf, ptr, frame, 2);
      CircularAt(buf, ptr, frame, 3);
      AheadAdd(ptr, 2, 1, n);
    }
    Field16RoundTrip(size);
  }

  /** A command frame starts with the header identifier and its size. */
  lemma CommandFrameFront(body: seq<bv8>, c: bv16)
    requires |body| < 0x1_0000
    ensures var frame := CommandFrame(body, c);
      frame[0] == HeaderId0 && frame[1] == HeaderId1 && frame[2] == Lo(|body|) && frame[3] == Hi(|body|)
  {
    var payload := Obfuscate(body + Bytes16(c));
    assert CommandFrame(body, c) == Header(|body|) + payload + [FooterId0, FooterId1];
  }

  /** The footer of a command frame laid into the ring is found where the
      size says, and the frame ends at the DMA position. */
  lemma CommandFrameFooter(buf: seq<bv8>, ptr: nat, body: seq<bv8>, c: bv16)
    requires ptr < |buf| && |body| + MinFrame < |buf| && |body| < 0x1_0000
    requires Circular(buf, ptr, |body| + MinFrame) == CommandFrame(body, c)
    ensures var n := |buf|;
      var tail := Ahead(Ahead(Ahead(ptr, 2, n), 2, n), |body| + 2, n);
      buf[tail] == FooterId0 && buf[Ahead(tail, 1, n)] == FooterId1
      && Ahead(tail, 2, n) == Ahead(ptr, |body| + MinFrame, n)
  {
    var n, size, frame := |buf|, |body|, CommandFrame(body, c);
    AheadAdd(ptr, 2, 2, n);
    AheadAdd(ptr, 4, size + 2, n);
    AheadAdd(ptr, size + 6, 1, n);
    AheadAdd(ptr, size + 6, 2, n);
    CircularAt(buf, ptr, frame, size + 6);
    CircularAt(buf, ptr, frame, size + 7);
  }

  /** Between its four header bytes and its footer, a command frame holds
      the obfuscated body and CRC. */
  lemma CommandFrameMiddle(body: seq<bv8>, c: bv16)
    requires |body| < 0x1_0000
    ensures CommandFrame(body, c)[4..|body| + 6] == Obfuscate(body + Bytes16(c))
  {
    var payload := Obfuscate(body + Bytes16(c));
    assert CommandFrame(body, c) == Header(|body|) + payload + [FooterId0, FooterId1];
  }

  /** The bytes between the size and the footer of a command frame laid
      into the ring are its obfuscated body and CRC. */
  lemma CommandFramePayload(buf: seq<bv8>, ptr: nat, body: seq<bv8>, c: bv16)
    requires ptr < |buf| && |body| + MinFrame < |buf| && |body| < 0x1_0000
    requires Circular(buf, ptr, |body| + MinFrame) == CommandFrame(body, c)
    ensures Circular(buf, Ahead(Ahead(ptr, 2, |buf|), 2, |buf|), |body| + 2) == Obfuscate(body + Bytes16(c))
  {
    var n, size, frame := |buf|, |body|, CommandFrame(body, c);
    AheadAdd(ptr, 2, 2, n);
    var payload := Obfuscate(body + Bytes16(c));
    CommandFrameMiddle(body, c);
    var copied := Circular(buf, Ahead(ptr, 4, n), size + 2);
    forall k | 0 <= k < size + 2
      ensures copied[k] == payload[k]
    {
      AheadAdd(ptr, 4, k, n);
      CircularAt(buf, ptr, frame, 4 + k);
      assert frame[4 + k] == frame[4..size + 6][k];
    }
  }

  /** A command frame that has arrived whole at the read pointer, with the
      DMA position right behind it, is taken: its body and CRC land in the
      command buffer in the clear, the frame is cleared from the ring, the
      read pointer moves to the DMA position, and the result is whether the
      CRC matches. */
  lemma ScanCommandFrame(buf: seq<bv8>, ptr: nat, body: seq<bv8>, c: bv16, crc: seq<bv8> -> bv16)
    requires ptr < |buf| && |body| + MinFrame < |buf| && |body| < 0x1_0000
    requires Circular(buf, ptr, |body| + MinFrame) == CommandFrame(body, c)
    ensures var dma := Ahead(ptr, |body| + MinFrame, |buf|);
      Scan(buf, ptr, dma, crc)
      == ScanResult(crc(body) == c, dma, ZeroCircular(buf, ptr, |body| + MinFrame), Some(body + Bytes16(c)))
  {
    var n, size := |buf|, |body|;
    var dma := Ahead(ptr, size + MinFrame, n);
    CommandFrameHeader(buf, ptr, body, c);
    assert Scan(buf, ptr, dma, crc) == TakeFrame(buf, ptr, dma, crc);
    assert TakeFrame(buf, ptr, dma, crc) == Complete(buf, ptr, dma, size, crc);
    CommandFrameComplete(buf, ptr, body, c, crc);
    CommandFrameAccepted(buf, ptr, body, c, crc);
  }

  /** The footer of a command frame that has arrived whole is where
      Complete looks, so the frame is accepted. */
  lemma CommandFrameComplete(buf: seq<bv8>, ptr: nat, body: seq<bv8>, c: bv16, crc: seq<bv8> -> bv16)
    requires ptr < |buf| && |body| + MinFrame < |buf| && |body| < 0x1_0000
    requires Circular(buf, ptr, |body| + MinFrame) == CommandFrame(body, c)
    ensures var n := |buf|;
      Complete(buf, ptr, Ahead(ptr, |body| + MinFrame, n), |body|, crc)
      == Accepted(buf, ptr, Ahead(Ahead(ptr, 2, n), 2, n), |body|, crc)
  {
    CommandFrameFooter(buf, ptr, body, c);
  }

  /** Accepting a command frame gives back its body and CRC in the clear,
      with the read pointer just behind the frame. */
  lemma CommandFrameAccepted(buf: seq<bv8>, ptr: nat, body: seq<bv8>, c: bv16, crc: seq<bv8> -> bv16)
    requires ptr < |buf| && |body| + MinFrame < |buf| && |body| < 0x1_0000
    requires Circular(buf, ptr, |body| + MinFrame) == CommandFrame(body, c)
    ensures var n := |buf|;
      Accepted(buf, ptr, Ahead(Ahead(ptr, 2, n), 2, n), |body|, crc)
      == ScanResult(crc(body) == c, Ahead(ptr, |body| + MinFrame, n), ZeroCircular(buf, ptr, |body| + MinFrame),
                    Some(body + Bytes16(c)))
  {
    var n, size, payload := |buf|, |body|, body + Bytes16(c);
    CommandFramePayload(buf, ptr, body, c);
    ObfuscateTwice(payload);
    Bytes16RoundTrip(c);
    assert payload[..size] == body;
    assert payload[size] == Bytes16(c)[0] && payload[size + 1] == Bytes16(c)[1];
    AheadConsumed(ptr, size, n);
  }

  /** A frame exactly as long as the ring is never taken: at most one byte
      less than the ring can be pending, so the call waits at its header
      until newer input overwrites it. */
  lemma RingSizedFrameWaits(buf: seq<bv8>, ptr: nat, dma: nat, crc: seq<bv8> -> bv16)
    requires MinFrame < |buf| && ptr < |buf| && dma < |buf|
    requires FindHeader(buf, ptr, dma).Found?
    requires SizeField(buf, FindHeader(buf, ptr, dma).at) + MinFrame == |buf|
    ensures Scan(buf, ptr, dma, crc) == ScanResult(false, FindHeader(buf, ptr, dma).at, buf, None)
  {
  }

  /** The command buffer after a call: the copied bytes in front, the rest
      as it was. */
  function Copied(before: seq<bv8>, copied: Option<seq<bv8>>): seq<bv8>
  {
    match copied
    case None => before
    case Some(c) => if |c| <= |before| then c + before[|c|..] else c
  }

  /** The end of the frame whose header is at p, reached the way the source
      steps through it: past the header, past size and CRC, past the footer. */
  lemma AheadConsumed(p: nat, size: nat, n: nat)
    requires p < n && size + MinFrame < n
    ensures Ahead(Ahead(Ahead(Ahead(p, 2, n), 2, n), size + 2, n), 2, n) == Ahead(p, size + MinFrame, n)
  {
  }

  /** The largest ring whose frames fit the 256-byte command buffer. */
  const MaxRing: nat := CommandSize + 6

  /** memcpy: count bytes of src from from on to dst at at. */
  method CopyRange(src: array<bv8>, from: nat, count: nat, dst: array<bv8>, at: nat)
    requires from + count <= src.Length && at + count <= dst.Length && src != dst
    modifies dst
    ensures dst[at..at + count] == src[from..from + count]
    ensures dst[..at] == old(dst[..at]) && dst[at + count..] == old(dst[at + count..])
  {
    for k := 0 to count
      invariant forall i :: at <= i < at + k ==> dst[i] == src[i - at + from]
      invariant dst[..at] == old(dst[..at]) && dst[at + count..] == old(dst[at + count..])
    {
      dst[at + k] := src[from + k];
    }
  }

  /** memset(a + from, 0, count). */
  method ZeroRange(a: array<bv8>, from: nat, count: nat)
    requires from + count <= a.Length
    modifies a
    ensures forall i :: 0 <= i < a.Length ==> a[i] == if from <= i < from + count then 0 else old(a[i])
  {
    for k := 0 to count
      invariant forall i :: 0 <= i < a.Length ==> a[i] == if from <= i < from + k then 0 else old(a[i])
    {
      a[from + k] := 0;
    }
  }

  /** One serial port's receive side: the DMA ring, the command buffer the
      frames are copied into, the read pointer (gUART_WriteIndex or
      VCP_ReadIndex) and the session timestamp set by command 0x0514. */
  class SerialPort {
    const ring: array<bv8>
    const command: array<bv8>
    var readIndex: nat
    var timestamp: nat

    ghost predicate Valid()
      reads this
    {
      MinFrame < ring.Length <= MaxRing && command.Length == CommandSize
      && ring != command && readIndex < ring.Length && timestamp < 0x1_0000_0000
    }

    constructor (n: nat)
      requires MinFrame < n <= MaxRing
      ensures Valid() && fresh(ring) && fresh(command)
      ensures ring.Length == n && readIndex == 0 && timestamp == 0
    {
      ring := new bv8[n](_ => 0);
      command := new bv8[CommandSize](_ => 0);
      readIndex, timestamp := 0, 0;
    }

    /** The while (1) loop of UART_IsCommandAvailable. */
    method SeekHeader(dma: nat) returns (found: bool)
      requires Valid() && dma < ring.Length
      modifies this`readIndex
      ensures Valid()
      ensures FindHeader(ring[..], old(readIndex), dma) == if found then Found(readIndex) else NotFound(readIndex)
      ensures found ==> readIndex != dma
    {
      var n := ring.Length;
      ghost var buf := ring[..];
      while true
        invariant readIndex < n
        invariant FindHeader(buf, readIndex, dma) == FindHeader(buf, old(readIndex), dma)
        decreases Pending(readIndex, dma, n)
      {
        if readIndex == dma {
          return false;
        }
        ghost var before := Pending(readIndex, dma, n);
        while readIndex != dma && ring[readIndex] != HeaderId0
          invariant readIndex < n && Pending(readIndex, dma, n) <= before
          invariant FindHeader(buf, readIndex, dma) == FindHeader(buf, old(readIndex), dma)
          decreases Pending(readIndex, dma, n)
        {
          PendingStep(readIndex, dma, n);
          readIndex := Ahead(readIndex, 1, n);
        }
        if readIndex == dma {
          return false;
        }
        var commandLength := if readIndex < dma then dma - readIndex else dma + n - readIndex;
        if commandLength < MinFrame {
          return false;
        }
        if ring[Ahead(readIndex, 1, n)] == HeaderId1 {
          return true;
        }
        PendingStep(readIndex, dma, n);
        readIndex := Ahead(readIndex, 1, n);
      }
    }

    /** The two memcpy calls: the count bytes from index on, wrapping at the
        end of the ring, into the front of the command buffer. */
    method CopyFrame(index: nat, tail: nat, count: nat)
      requires Valid() && index < ring.Length && count < ring.Length && count <= CommandSize
      requires tail == Ahead(index, count, ring.Length)
      modifies command
      ensures command[..count] == Circular(ring[..], index, count)
      ensures command[count..] == old(command[count..])
    {
      var n := ring.Length;
      if tail < index {
        var chunk := n - index;
        CopyRange(ring, index, chunk, command, 0);
        ghost var first := command[..chunk];
        CopyRange(ring, 0, tail, command, chunk);
        assert command[..chunk] == first;
        forall k | 0 <= k < count
          ensures command[k] == ring[Ahead(index, k, n)]
        {
          if k < chunk {
            assert command[k] == first[k];
          } else {
            assert command[k] == command[chunk..chunk + tail][k - chunk];
          }
        }
      } else {
        CopyRange(ring, index, tail - index, command, 0);
        forall k | 0 <= k < count
          ensures command[k] == ring[Ahead(index, k, n)]
        {
          assert command[k] == command[..count][k];
        }
      }
    }

    /** The two memset calls: the consumed frame, wrapping at the end of the
        ring, is cleared. */
    method ZeroFrame(p: nat, tail: nat, count: nat)
      requires Valid() && p < ring.Length && count < ring.Length
      requires tail == Ahead(p, count, ring.Length)
      modifies ring
      ensures ring[..] == ZeroCircular(old(ring[..]), p, count)
    {
      var n := ring.Length;
      if tail < p {
        ZeroRange(ring, p, n - p);
        ZeroRange(ring, 0, tail);
      } else {
        ZeroRange(ring, p, tail - p);
      }
    }

    /** UART_IsCommandAvailable for this port, with the DMA position and
        CRC_Calculate as parameters. */
    method IsCommandAvailable(dma: nat, crc: seq<bv8> -> bv16) returns (ok: bool)
      requires Valid() && dma < ring.Length
      modifies this`readIndex, ring, command
      ensures Valid() && timestamp == old(timestamp)
      ensures var r := Scan(old(ring[..]), old(readIndex), dma, crc);
        ok == r.ok && readIndex == r.readIndex && ring[..] == r.buffer
        && command[..] == Copied(old(command[..]), r.command)
    {
      var found := SeekHeader(dma);
      if !found {
        return false;
      }
      ok := TakeFrameAt(dma, crc);
    }

    /** The part after the header search: size, completeness and footer
        checks, copy, clear, de-obfuscate and CRC check. */
    method TakeFrameAt(dma: nat, crc: seq<bv8> -> bv16) returns (ok: bool)
      requires Valid() && dma < ring.Length && readIndex != dma
      modifies this`readIndex, ring, command
      ensures Valid() && timestamp == old(timestamp)
      ensures var r := TakeFrame(old(ring[..]), old(readIndex), dma, crc);
        ok == r.ok && readIndex == r.readIndex && ring[..] == r.buffer
        && command[..] == Copied(old(command[..]), r.command)
    {
      var n := ring.Length;
      var p := readIndex;
      ghost var buf := ring[..];
      ghost var before := command[..];
      var commandLength := if p < dma then dma - p else dma + n - p;
      assert commandLength == Pending(p, dma, n);
      var index := Ahead(p, 2, n);
      var size := Field16(ring[index], ring[Ahead(index, 1, n)]);
      assert size == SizeField(buf, p);
      if size + MinFrame > n {
        readIndex := dma;
        return false;
      }
      if commandLength < size + MinFrame {
        return false;
      }
      ok := CompleteFrame(dma, size, crc);
    }

    /** A fully arrived frame: the footer check, then acceptance. */
    method CompleteFrame(dma: nat, size: nat, crc: seq<bv8> -> bv16) returns (ok: bool)
      requires Valid() && dma < ring.Length && size + MinFrame < ring.Length
      modifies this`readIndex, ring, command
      ensures Valid() && timestamp == old(timestamp)
      ensures var r := Complete(old(ring[..]), old(readIndex), dma, size, crc);
        ok == r.ok && readIndex == r.readIndex && ring[..] == r.buffer
        && command[..] == Copied(old(command[..]), r.command)
    {
      var n := ring.Length;
      var p := readIndex;
      ghost var buf := ring[..];
      var index := Ahead(p, 2, n);
      index := Ahead(index, 2, n);
      var tail := Ahead(index, size + 2, n);
      assert Complete(buf, p, dma, size, crc) ==
        if buf[tail] != FooterId0 || buf[Ahead(tail, 1, n)] != FooterId1 then ScanResult(false, dma, buf, None)
        else Accepted(buf, p, index, size, crc);
      if ring[tail] != FooterId0 || ring[Ahead(tail, 1, n)] != FooterId1 {
        readIndex := dma;
        return false;
      }
      ok := AcceptFrame(p, index, tail, size, crc);
    }

    /** The accepting path: copy, clear, move on, de-obfuscate, check. */
    method AcceptFrame(p: nat, index: nat, tail: nat, size: nat, crc: seq<bv8> -> bv16) returns (ok: bool)
      requires Valid() && p < ring.Length && index < ring.Length && size + MinFrame < ring.Length
      requires tail == Ahead(index, size + 2, ring.Length)
      requires index == Ahead(Ahead(p, 2, ring.Length), 2, ring.Length)
      modifies this`readIndex, ring, command
      ensures Valid() && timestamp == old(timestamp)
      ensures var r := Accepted(old(ring[..]), p, index, size, crc);
        ok == r.ok && readIndex == r.readIndex && ring[..] == r.buffer
        && command[..] == Copied(old(command[..]), r.command)
    {
      var n := ring.Length;
      ghost var before := command[..];
      CopyFrame(index, tail, size + 2);
      ghost var copied := command[..size + 2];
      AheadConsumed(p, size, n);
      var next := Ahead(tail, 2, n);
      ZeroFrame(p, next, size + MinFrame);
      readIndex := next;
      ObfuscateAt(command, 0, size + 2);
      ghost var received := command[..size + 2];
      assert received == Obfuscate(copied);
      assert command[..] == received + before[size + 2..] by {
        assert command[..] == command[..size + 2] + command[size + 2..];
      }
      var crcField := Value16(command[size], command[size + 1]);
      assert command[..size] == received[..size];
      ok := crc(command[..size]) == crcField;
    }
  }
}
