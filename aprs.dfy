/** The APRS receive path of App/app/aprs.c: the radio chip's FSK FIFO hands
    over whole bytes; a byte framer collects them between 0x7E flags, and an
    AX.25 decoder checks the frame-check sequence, walks the address chain and
    cleans the information field before the packet enters an eight-slot log.

    This module holds the byte-level and text-level functions; the stateful
    part (framer, log, session) is the class Receiver in aprs_receiver.dfy. */
module Aprs {
  import opened Common

  // Sizes from App/app/aprs.h and App/app/aprs.c.
  const MaxInfoLen: nat := 96          // APRS_MAX_INFO_LEN, size of AprsPacket_t.info
  const LogCapacity: nat := 8          // APRS_LOG_CAPACITY
  const AddressFieldSize: nat := 12    // AprsPacket_t.source / .destination
  const PathFieldSize: nat := 48       // AprsPacket_t.path
  const MaxFrameLen: nat := 330        // APRS_MAX_FRAME_LEN
  const MinFrameLen: nat := 18         // APRS_MIN_FRAME_LEN
  const MaxDigis: nat := 4             // APRS_MAX_DIGIS
  const MaxAddresses: nat := 6         // 2 + APRS_MAX_DIGIS
  const WordsPerInterrupt: nat := 8    // APRS_WORDS_PER_INTERRUPT
  const Flag: bv8 := 0x7E              // the AX.25 frame delimiter
  const SequenceModulus: nat := 0x1_0000_0000   // AprsPacket_t.sequence is a uint32_t

  /* ---------------------------------------------------------------------
     Bit order. AX.25 sends every octet least significant bit first, the
     chip delivers it most significant bit first, so each byte is reversed.
     --------------------------------------------------------------------- */

  /** Bit i of x, counting from the least significant bit. */
  predicate Bit(x: bv8, i: nat)
    requires i < 8
  {
    (x >> i) & 1 == 1
  }

  /** APRS_ReverseByte: three swap steps (nibbles, pairs, neighbours). */
  function ReverseByte(value: bv8): (r: bv8)
    ensures forall i :: 0 <= i < 8 ==> Bit(r, i) == Bit(value, 7 - i)
  {
    var v1 := ((value & 0xF0) >> 4) | ((value & 0x0F) << 4);
    var v2 := ((v1 & 0xCC) >> 2) | ((v1 & 0x33) << 2);
    ((v2 & 0xAA) >> 1) | ((v2 & 0x55) << 1)
  }

  /** Reversing twice gives the byte back, and the flag reads the same either way. */
  lemma ReverseByteInvolution(value: bv8)
    ensures ReverseByte(ReverseByte(value)) == value
    ensures ReverseByte(value) == Flag <==> value == Flag
  {
  }

  /* ---------------------------------------------------------------------
     Frame-check sequence: CRC-16/X.25 (section 3.7 of AX.25 v2.2), reflected
     polynomial 0x8408, initial value 0xFFFF, complemented at the end.
     --------------------------------------------------------------------- */

  const CrcPolynomial: bv16 := 0x8408
  const CrcInit: bv16 := 0xFFFF

  /** One round of the inner loop of APRS_CalculateCrc. */
  function CrcRound(crc: bv16): bv16
  {
    if crc & 1 == 1 then (crc >> 1) ^ CrcPolynomial else crc >> 1
  }

  /** n rounds. */
  function CrcShift(crc: bv16, n: nat): bv16
    decreases n
  {
    if n == 0 then crc else CrcShift(CrcRound(crc), n - 1)
  }

  /** One byte of the outer loop: XOR into the low byte, then eight rounds. */
  function CrcUpdate(crc: bv16, b: bv8): bv16
  {
    CrcShift(crc ^ (b as bv16), 8)
  }

  /** The register after the bytes of data, fed in order. */
  function CrcRegister(data: seq<bv8>): bv16
  {
    if data == [] then CrcInit
    else CrcUpdate(CrcRegister(data[..|data| - 1]), data[|data| - 1])
  }

  /** The frame-check sequence of data. */
  function Crc(data: seq<bv8>): bv16
  {
    !CrcRegister(data)
  }

  lemma CrcRegisterSnoc(data: seq<bv8>, b: bv8)
    ensures CrcRegister(data + [b]) == CrcUpdate(CrcRegister(data), b)
  {
    assert (data + [b])[..|data|] == data;
  }

  /** The standard check value of CRC-16/X.25: the nine bytes "123456789" give 0x906E. */
  lemma CrcCheckValue()
    ensures Crc([0x31, 0x32, 0x33, 0x34, 0x35, 0x36, 0x37, 0x38, 0x39]) == 0x906E
  {
    assert CrcUpdate(0xFFFF, 0x31) == 0x2F8D;
    assert CrcUpdate(0x2F8D, 0x32) == 0x4D53;
    assert CrcUpdate(0x4D53, 0x33) == 0x634B;
    assert CrcUpdate(0x634B, 0x34) == 0x8B13;
    assert CrcUpdate(0x8B13, 0x35) == 0x44BF;
    assert CrcUpdate(0x44BF, 0x36) == 0x198D;
    assert CrcUpdate(0x198D, 0x37) == 0x1AC8;
    assert CrcUpdate(0x1AC8, 0x38) == 0xF795;
    assert CrcUpdate(0xF795, 0x39) == 0x6F91;
    var s: seq<bv8> := [];
    CrcRegisterSnoc(s, 0x31);
    s := s + [0x31];
    CrcRegisterSnoc(s, 0x32);
    s := s + [0x32];
    CrcRegisterSnoc(s, 0x33);
    s := s + [0x33];
    CrcRegisterSnoc(s, 0x34);
    s := s + [0x34];
    CrcRegisterSnoc(s, 0x35);
    s := s + [0x35];
    CrcRegisterSnoc(s, 0x36);
    s := s + [0x36];
    CrcRegisterSnoc(s, 0x37);
    s := s + [0x37];
    CrcRegisterSnoc(s, 0x38);
    s := s + [0x38];
    CrcRegisterSnoc(s, 0x39);
    s := s + [0x39];
    assert s == [0x31, 0x32, 0x33, 0x34, 0x35, 0x36, 0x37, 0x38, 0x39];
  }

  /** The body of the outer loop of APRS_CalculateCrc: XOR the byte into
      the register, then eight shift-and-XOR rounds. */
  method UpdateCrc(start: bv16, b: bv8) returns (crc: bv16)
    ensures crc == CrcUpdate(start, b)
  {
    crc := start ^ (b as bv16);
    var j := 0;
    while j < 8
      invariant j <= 8
      invariant CrcShift(crc, 8 - j) == CrcUpdate(start, b)
    {
      if crc & 1 == 1 {
        crc := (crc >> 1) ^ CrcPolynomial;
      } else {
        crc := crc >> 1;
      }
      j := j + 1;
    }
  }

  /** APRS_CalculateCrc over the first length bytes of data. */
  method CalculateCrc(data: seq<bv8>, length: nat) returns (crc: bv16)
    requires length <= |data|
    ensures crc == Crc(data[..length])
  {
    crc := CrcInit;
    var i := 0;
    while i < length
      invariant i <= length
      invariant crc == CrcRegister(data[..i])
    {
      CrcRegisterSnoc(data[..i], data[i]);
      crc := UpdateCrc(crc, data[i]);
      assert data[..i + 1] == data[..i] + [data[i]];
      i := i + 1;
    }
    assert data[..length] == data[..i];
    crc := !crc;
  }

  /** Two bytes read little-endian, as the received FCS is. */
  function LittleEndian16(lo: bv8, hi: bv8): bv16
  {
    (lo as bv16) | ((hi as bv16) << 8)
  }

  /** The low and high byte of a 16-bit value, in wire order. */
  function LittleEndianBytes(v: bv16): seq<bv8>
  {
    [(v & 0xFF) as bv8, (v >> 8) as bv8]
  }

  lemma LittleEndianRoundTrip(v: bv16)
    ensures LittleEndian16(LittleEndianBytes(v)[0], LittleEndianBytes(v)[1]) == v
  {
  }

  /** The frame's last two bytes are the FCS of everything before them. */
  predicate FcsValid(frame: seq<bv8>)
    requires |frame| >= 2
  {
    Crc(frame[..|frame| - 2]) == LittleEndian16(frame[|frame| - 2], frame[|frame| - 1])
  }

  /** A sender that appends the FCS of its bytes, low byte first, produces a
      frame that passes the check. */
  lemma {:induction false} AppendedFcsIsValid(body: seq<bv8>)
    ensures FcsValid(body + LittleEndianBytes(Crc(body)))
  {
    var frame := body + LittleEndianBytes(Crc(body));
    assert frame[..|frame| - 2] == body;
    LittleEndianRoundTrip(Crc(body));
  }

  /* ---------------------------------------------------------------------
     Addresses (section 3.12 of AX.25 v2.2): six shifted-ASCII characters,
     then an SSID octet whose bit 0 marks the last address of the chain.
     --------------------------------------------------------------------- */

  /** APRS_Address: the six callsign characters and the SSID. */
  /** The SSID is a four-bit field. */
  type Ssid = n: nat | n < 16

  datatype Address = Address(text: seq<char>, ssid: Ssid)

  /** (b >> 1) & 0x7F, as a character. */
  function AddressChar(b: bv8): (c: char)
    ensures c as int < 128
  {
    (((b >> 1) & 0x7F) as int) as char
  }

  /** APRS_ParseAddress: the address at offset, and whether it is the last;
      None when fewer than seven bytes remain before length. */
  function ParseAddress(frame: seq<bv8>, length: nat, offset: nat): (r: Option<(Address, bool)>)
    requires length <= |frame|
    ensures r.Some? <==> offset + 7 <= length
    ensures r.Some? ==> |r.value.0.text| == 6
  {
    if offset + 7 > length then None
    else
      var text := [AddressChar(frame[offset]), AddressChar(frame[offset + 1]), AddressChar(frame[offset + 2]),
                   AddressChar(frame[offset + 3]), AddressChar(frame[offset + 4]), AddressChar(frame[offset + 5])];
      var ssidField := frame[offset + 6];
      Some((Address(text, (((ssidField >> 1) & 0x0F) as int)), ssidField & 1 == 1))
  }

  /** The while loop of APRS_DecodeFrame that fills addresses[]: it stops at
      the last-address bit, after six addresses, or when fewer than seven
      bytes remain. Returns the addresses and the offset after them. */
  function ParseAddresses(frame: seq<bv8>, length: nat, offset: nat, parsed: seq<Address>, isLast: bool)
    : (r: Option<(seq<Address>, nat)>)
    requires length <= |frame| && offset <= length && |parsed| <= MaxAddresses
    decreases MaxAddresses - |parsed|
    ensures r.Some?
    ensures |parsed| <= |r.value.0| <= MaxAddresses && r.value.0[..|parsed|] == parsed
    ensures r.value.1 == offset + 7 * (|r.value.0| - |parsed|) <= length
    ensures forall k :: |parsed| <= k < |r.value.0| ==> |r.value.0[k].text| == 6
  {
    if isLast || |parsed| >= MaxAddresses || offset + 7 > length then Some((parsed, offset))
    else
      match ParseAddress(frame, length, offset)
      case None => None
      case Some((address, last)) => ParseAddresses(frame, length, offset + 7, parsed + [address], last)
  }

  /** An address as a sender puts it on the air: six 7-bit character codes
      and a 4-bit SSID. */
  datatype Station = Station(codes: seq<bv8>, ssid: bv8)

  predicate Encodable(st: Station)
  {
    |st.codes| == 6 && (forall i :: 0 <= i < 6 ==> st.codes[i] < 0x80) && st.ssid < 16
  }

  /** The character a 7-bit code stands for. */
  function CodeChar(code: bv8): char
    requires code < 0x80
  {
    (code as int) as char
  }

  /** The address a receiver should read back for a station. */
  function StationAddress(st: Station): (a: Address)
    requires Encodable(st)
    ensures |a.text| == 6
  {
    Address([CodeChar(st.codes[0]), CodeChar(st.codes[1]), CodeChar(st.codes[2]),
             CodeChar(st.codes[3]), CodeChar(st.codes[4]), CodeChar(st.codes[5])],
            ((st.ssid & 0x0F) as int))
  }

  function StationAddresses(stations: seq<Station>): (r: seq<Address>)
    requires forall k :: 0 <= k < |stations| ==> Encodable(stations[k])
    ensures |r| == |stations|
  {
    if stations == [] then []
    else [StationAddress(stations[0])] + StationAddresses(stations[1..])
  }

  /** The seven octets of an address in the AX.25 layout: each code shifted
      left one bit, then the SSID octet, whose bits 5 and 6 are the reserved
      bits, sent as ones, and whose bit 0 marks the last address. */
  function EncodeAddress(st: Station, last: bool): (r: seq<bv8>)
    requires Encodable(st)
    ensures |r| == 7
  {
    [st.codes[0] << 1, st.codes[1] << 1, st.codes[2] << 1,
     st.codes[3] << 1, st.codes[4] << 1, st.codes[5] << 1,
     0x60 | (st.ssid << 1) | (if last then 1 else 0)]
  }

  lemma ShiftBack(b: bv8)
    requires b < 0x80
    ensures ((b << 1) >> 1) & 0x7F == b
  {
  }

  /** The SSID octet gives back the SSID and the last-address bit it was built from. */
  lemma SsidOctetRoundTrip(ssid: bv8, last: bool)
    requires ssid < 16
    ensures var octet := 0x60 | (ssid << 1) | (if last then 1 else 0);
            (octet >> 1) & 0x0F == ssid & 0x0F && (octet & 1 == 1) == last
  {
  }

  /** ParseAddress inverts EncodeAddress wherever the seven octets sit. */
  lemma ParseEncodedAddress(frame: seq<bv8>, length: nat, offset: nat, st: Station, last: bool)
    requires Encodable(st) && offset + 7 <= length <= |frame|
    requires frame[offset..offset + 7] == EncodeAddress(st, last)
    ensures ParseAddress(frame, length, offset) == Some((StationAddress(st), last))
  {
    var e := EncodeAddress(st, last);
    assert frame[offset] == e[0] && frame[offset + 1] == e[1] && frame[offset + 2] == e[2];
    assert frame[offset + 3] == e[3] && frame[offset + 4] == e[4] && frame[offset + 5] == e[5];
    assert frame[offset + 6] == e[6];
    CodeRoundTrip(st.codes[0]);
    CodeRoundTrip(st.codes[1]);
    CodeRoundTrip(st.codes[2]);
    CodeRoundTrip(st.codes[3]);
    CodeRoundTrip(st.codes[4]);
    CodeRoundTrip(st.codes[5]);
    SsidOctetRoundTrip(st.ssid, last);
  }

  /** A code shifted into an address octet reads back as its character. */
  lemma CodeRoundTrip(code: bv8)
    requires code < 0x80
    ensures AddressChar(code << 1) == CodeChar(code)
  {
    ShiftBack(code);
  }

  /** An address chain as sent: each address, with the last-address bit on
      the final one only. */
  function EncodeChain(stations: seq<Station>): (r: seq<bv8>)
    requires forall k :: 0 <= k < |stations| ==> Encodable(stations[k])
    ensures |r| == 7 * |stations|
  {
    if stations == [] then []
    else EncodeAddress(stations[0], |stations| == 1) + EncodeChain(stations[1..])
  }

  /** ParseAddress reads the given addresses one after another from offset,
      with the last-address bit on the final one only. */
  predicate ParsesAs(frame: seq<bv8>, length: nat, offset: nat, addresses: seq<Address>)
    requires length <= |frame|
    decreases |addresses|
  {
    addresses != [] ==>
      && ParseAddress(frame, length, offset) == Some((addresses[0], |addresses| == 1))
      && ParsesAs(frame, length, offset + 7, addresses[1..])
  }

  lemma {:induction false} EncodedChainParses(frame: seq<bv8>, length: nat, offset: nat, stations: seq<Station>)
    requires forall k :: 0 <= k < |stations| ==> Encodable(stations[k])
    requires offset + 7 * |stations| <= length <= |frame|
    requires frame[offset..offset + 7 * |stations|] == EncodeChain(stations)
    ensures ParsesAs(frame, length, offset, StationAddresses(stations))
    decreases |stations|
  {
    if stations != [] {
      var chain := EncodeChain(stations);
      var rest := stations[1..];
      assert frame[offset..offset + 7] == chain[..7];
      ParseEncodedAddress(frame, length, offset, stations[0], |stations| == 1);
      assert frame[offset + 7..offset + 7 + 7 * |rest|] == chain[7..];
      EncodedChainParses(frame, length, offset + 7, rest);
      assert StationAddresses(stations)[1..] == StationAddresses(rest);
    }
  }

  /** The address loop collects a chain of at most six addresses and stops
      right after it. */
  lemma {:induction false} ParseChainAt(frame: seq<bv8>, length: nat, offset: nat, parsed: seq<Address>,
                                        addresses: seq<Address>)
    requires 1 <= |addresses| && |parsed| + |addresses| <= MaxAddresses
    requires offset + 7 * |addresses| <= length <= |frame|
    requires ParsesAs(frame, length, offset, addresses)
    ensures ParseAddresses(frame, length, offset, parsed, false) == Some((parsed + addresses, offset + 7 * |addresses|))
    decreases |addresses|
  {
    var last := |addresses| == 1;
    var next := parsed + [addresses[0]];
    assert ParseAddresses(frame, length, offset, parsed, false)
        == ParseAddresses(frame, length, offset + 7, next, last);
    if last {
      assert next == parsed + addresses;
      var after: nat := offset + 7;
      assert ParseAddresses(frame, length, after, next, true) == Some((next, after));
    } else {
      var rest := addresses[1..];
      ParseChainAt(frame, length, offset + 7, next, rest);
      assert next + rest == parsed + addresses;
    }
  }

  /** The address loop inverts EncodeChain. */
  lemma ParseEncodedChain(frame: seq<bv8>, length: nat, stations: seq<Station>)
    requires forall k :: 0 <= k < |stations| ==> Encodable(stations[k])
    requires 1 <= |stations| <= MaxAddresses
    requires 7 * |stations| <= length <= |frame|
    requires frame[..7 * |stations|] == EncodeChain(stations)
    ensures ParseAddresses(frame, length, 0, [], false) == Some((StationAddresses(stations), 7 * |stations|))
  {
    EncodedChainParses(frame, length, 0, stations);
    ParseChainAt(frame, length, 0, [], StationAddresses(stations));
  }

  /* ---------------------------------------------------------------------
     Address formatting (APRS_FormatAddress).
     --------------------------------------------------------------------- */

  /** The characters strlen counts: everything before the first NUL. */
  function CString(s: seq<char>): (r: seq<char>)
    ensures |r| <= |s|
  {
    if s == [] || s[0] == '\0' then [] else [s[0]] + CString(s[1..])
  }

  /** strlen's string is a prefix free of NUL, and a NUL follows it unless
      it is the whole buffer. */
  lemma {:induction false} CStringIsPrefix(s: seq<char>)
    ensures CString(s) <= s && '\0' !in CString(s)
    ensures |CString(s)| < |s| ==> s[|CString(s)|] == '\0'
  {
    if s != [] && s[0] != '\0' {
      CStringIsPrefix(s[1..]);
      assert CString(s) == [s[0]] + CString(s[1..]);
    }
  }

  /** A NUL at n with none before it: strlen is n. */
  lemma {:induction false} CStringAt(s: seq<char>, n: nat)
    requires n < |s| && s[n] == '\0' && '\0' !in s[..n]
    ensures CString(s) == s[..n]
  {
    if n > 0 {
      assert s[0] in s[..n];
      assert s[1..][..n - 1] == s[1..n];
      assert forall c :: c in s[1..n] ==> c in s[..n];
      CStringAt(s[1..], n - 1);
    }
  }

  /** strlen on a NUL-terminated char array. */
  method StrLen(s: array<char>) returns (n: nat)
    requires '\0' in s[..]
    ensures n < s.Length && s[n] == '\0' && '\0' !in s[..n]
    ensures s[..n] == CString(s[..])
  {
    n := 0;
    while s[n] != '\0'
      invariant n < s.Length && '\0' in s[n..] && '\0' !in s[..n]
      decreases s.Length - n
    {
      assert s[n + 1..] == s[n..][1..];
      assert s[..n + 1] == s[..n] + [s[n]];
      n := n + 1;
    }
    CStringAt(s[..], n);
    assert s[..][..n] == s[..n];
  }

  /** The loop that overwrites trailing spaces with NULs. */
  function TrimTrailingSpaces(s: seq<char>): (r: seq<char>)
    ensures |r| <= |s|
  {
    if s == [] || s[|s| - 1] != ' ' then s else TrimTrailingSpaces(s[..|s| - 1])
  }

  /** Trimming keeps a prefix that does not end in a space and drops only spaces. */
  lemma {:induction false} TrimmedIsPrefix(s: seq<char>)
    ensures TrimTrailingSpaces(s) <= s
    ensures TrimTrailingSpaces(s) == [] || TrimTrailingSpaces(s)[|TrimTrailingSpaces(s)| - 1] != ' '
    ensures forall i :: |TrimTrailingSpaces(s)| <= i < |s| ==> s[i] == ' '
  {
    if s != [] && s[|s| - 1] == ' ' {
      TrimmedIsPrefix(s[..|s| - 1]);
    }
  }

  /** The callsign as printed: NUL-terminated text without trailing spaces, or "?". */
  function Callsign(text: seq<char>): seq<char>
  {
    var trimmed := TrimTrailingSpaces(CString(text));
    if trimmed == [] then "?" else trimmed
  }

  function DigitChar(d: nat): char
    requires d < 10
  {
    ('0' as int + d) as char
  }

  /** printf's "%u" for an SSID: one or two decimal digits. */
  function SsidDecimal(n: Ssid): (r: string)
    ensures 1 <= |r| <= 2 && '\0' !in r
  {
    if n < 10 then [DigitChar(n)] else ['1', DigitChar(n - 10)]
  }

  /** snprintf into a buffer of destLen bytes keeps at most destLen - 1 characters. */
  function Snprintf(text: string, destLen: nat): (r: string)
    requires destLen >= 1
    ensures |r| <= destLen - 1
    ensures |text| <= destLen - 1 ==> r == text
  {
    text[..Min(|text|, destLen - 1)]
  }

  /** The text "%s-%u" or "%s" would produce without a size limit. */
  function AddressText(a: Address): string
  {
    if a.ssid > 0 then Callsign(a.text) + "-" + SsidDecimal(a.ssid) else Callsign(a.text)
  }

  /** APRS_FormatAddress into a buffer of destLen bytes. */
  function FormatAddress(a: Address, destLen: nat): string
    requires destLen >= 1
  {
    Snprintf(AddressText(a), destLen)
  }

  /** A parsed address formats to at most nine characters (six of callsign,
      a dash, two digits), never empty and with no NUL, so it fits the 12-byte
      source and destination fields without truncation. */
  lemma {:induction false} FormattedAddressFits(a: Address)
    requires |a.text| <= 6
    ensures 1 <= |AddressText(a)| <= 9 && '\0' !in AddressText(a)
    ensures FormatAddress(a, AddressFieldSize) == AddressText(a)
  {
    CStringIsPrefix(a.text);
    TrimmedIsPrefix(CString(a.text));
    var trimmed := TrimTrailingSpaces(CString(a.text));
    assert |Callsign(a.text)| <= 6;
    assert '\0' !in Callsign(a.text) by {
      assert forall i :: 0 <= i < |trimmed| ==> trimmed[i] == CString(a.text)[i];
    }
  }

  /** The seven bytes 96 82 64 86 A0 40 E0 parse to the callsign "KA2CP "
      with SSID 0 and the last-address bit clear. */
  lemma SampleAddressParsed()
    ensures ParseAddress([0x96, 0x82, 0x64, 0x86, 0xA0, 0x40, 0xE0], 7, 0) == Some((Address("KA2CP ", 0), false))
  {
    assert AddressChar(0x96) == 'K' && AddressChar(0x82) == 'A' && AddressChar(0x64) == '2';
    assert AddressChar(0x86) == 'C' && AddressChar(0xA0) == 'P' && AddressChar(0x40) == ' ';
    assert ((0xE0 as bv8 >> 1) & 0x0F) as int == 0 && 0xE0 as bv8 & 1 == 0;
  }

  /** That address prints as "KA2CP": the trailing space goes and SSID 0
      adds no suffix. */
  lemma SampleAddressPrinted()
    ensures FormatAddress(Address("KA2CP ", 0), AddressFieldSize) == "KA2CP"
  {
    var text := "KA2CP ";
    CStringIsPrefix(text);
    assert CString(text) == text;
    assert TrimTrailingSpaces(text) == TrimTrailingSpaces("KA2CP") by {
      assert text[..5] == "KA2CP";
    }
    assert Callsign(text) == "KA2CP";
  }

  /* ---------------------------------------------------------------------
     Digipeater path (APRS_AppendPath) on a NUL-terminated char buffer.
     --------------------------------------------------------------------- */

  /** The string APRS_AppendPath leaves in a buffer of pathLen bytes that held
      path: a comma unless the path is empty, then as much of the fragment as
      fits before the final NUL. Nothing changes for an empty fragment or a
      full buffer. */
  function AppendFragment(path: string, fragment: string, pathLen: nat): (r: string)
    requires 1 <= pathLen
    ensures |path| <= |r|
    ensures |path| <= pathLen - 1 ==> |r| <= pathLen - 1
  {
    if fragment == [] then path
    else if |path| > 0 && |path| >= pathLen - 1 then path
    else
      var base := if |path| > 0 then path + "," else path;
      base + fragment[..Min(|fragment|, pathLen - 1 - |base|)]
  }

  /** APRS_AppendPath on a NUL-terminated buffer; fragment is the formatted
      address before its NUL. (The source also returns when no byte remains
      after the comma; that cannot happen for a buffer of at least one byte,
      so the test is left out.) */
  method AppendPath(path: array<char>, fragment: string)
    requires path.Length >= 1 && '\0' in path[..] && '\0' !in fragment
    modifies path
    ensures '\0' in path[..]
    ensures CString(path[..]) == AppendFragment(old(CString(path[..])), fragment, path.Length)
  {
    if |fragment| == 0 {
      return;
    }
    var used := StrLen(path);
    ghost var before := path[..used];
    if used > 0 {
      if used < path.Length - 1 {
        path[used], path[used + 1] := ',', '\0';
        used := used + 1;
      } else {
        return;
      }
    }
    ghost var base := path[..used];
    assert base == if |before| > 0 then before + "," else before;
    CopyFragment(path, used, fragment);
  }

  /** The strncpy of the remaining bytes and the closing NUL: the buffer
      then holds its first at characters followed by as much of the
      fragment as fits. */
  method CopyFragment(path: array<char>, at: nat, fragment: string)
    requires at < path.Length && '\0' !in path[..at] && '\0' !in fragment
    modifies path
    ensures '\0' in path[..]
    ensures CString(path[..]) == old(path[..at]) + fragment[..Min(|fragment|, path.Length - 1 - at)]
  {
    ghost var base := path[..at];
    var remaining := path.Length - at;
    StrNCopy(path, at, fragment, remaining - 1);
    path[path.Length - 1] := '\0';
    assert path[..] == base + Padded(fragment, remaining - 1) + ['\0'];
    PaddedCString(base, fragment, remaining - 1);
  }

  /** strncpy(&dest[at], source, n): the n bytes from at receive the source
      string and then NULs; nothing else changes. */
  method StrNCopy(dest: array<char>, at: nat, source: string, n: nat)
    requires at + n <= dest.Length
    modifies dest
    ensures dest[..] == old(dest[..at]) + Padded(source, n) + old(dest[at + n..])
  {
    var k := 0;
    while k < n
      invariant 0 <= k <= n
      invariant dest[..at] == old(dest[..at])
      invariant dest[at..at + k] == Padded(source, k)
      invariant dest[at + n..] == old(dest[at + n..])
    {
      dest[at + k] := if k < |source| then source[k] else '\0';
      assert dest[at..at + k + 1] == dest[at..at + k] + [dest[at + k]];
      k := k + 1;
    }
    assert dest[..] == dest[..at] + dest[at..at + n] + dest[at + n..];
  }

  /** strncpy's n bytes: the fragment, then NULs. */
  function Padded(fragment: string, n: nat): (r: string)
    ensures |r| == n
    ensures forall j :: 0 <= j < n ==> r[j] == if j < |fragment| then fragment[j] else '\0'
  {
    if n == 0 then []
    else Padded(fragment, n - 1) + [if n - 1 < |fragment| then fragment[n - 1] else '\0']
  }

  lemma PaddedCString(base: string, fragment: string, n: nat)
    requires '\0' !in base && '\0' !in fragment
    ensures CString(base + Padded(fragment, n) + ['\0']) == base + fragment[..Min(|fragment|, n)]
  {
    var s := base + Padded(fragment, n) + ['\0'];
    var m := |base| + Min(|fragment|, n);
    assert s[..m] == base + fragment[..Min(|fragment|, n)];
    assert '\0' !in fragment[..Min(|fragment|, n)] by {
      assert forall c :: c in fragment[..Min(|fragment|, n)] ==> c in fragment;
    }
    CStringAt(s, m);
  }

  /** The path field built by appending each formatted digipeater in wire order. */
  function BuildPath(fragments: seq<string>): (r: string)
    ensures |r| <= PathFieldSize - 1
  {
    if fragments == [] then []
    else AppendFragment(BuildPath(fragments[..|fragments| - 1]), fragments[|fragments| - 1], PathFieldSize)
  }

  /** The fragments joined with commas: the path a reader expects. */
  function JoinWithCommas(fragments: seq<string>): string
  {
    if fragments == [] then []
    else if |fragments| == 1 then fragments[0]
    else JoinWithCommas(fragments[..|fragments| - 1]) + "," + fragments[|fragments| - 1]
  }

  /** With at most four non-empty fragments of at most nine characters, the
      path is exactly the comma-joined fragments, at most 39 characters long:
      the 48-byte path field never truncates a decoded path. */
  lemma {:induction false} PathFits(fragments: seq<string>)
    requires |fragments| <= MaxDigis
    requires forall i :: 0 <= i < |fragments| ==> 1 <= |fragments[i]| <= 9
    ensures BuildPath(fragments) == JoinWithCommas(fragments)
    ensures |JoinWithCommas(fragments)| <= 10 * |fragments| - 1 <= 39 || fragments == []
  {
    if fragments != [] {
      var init := fragments[..|fragments| - 1];
      PathFits(init);
      var last := fragments[|fragments| - 1];
      assert last[..Min(|last|, PathFieldSize - 1 - |BuildPath(init)| - (if init == [] then 0 else 1))] == last;
    }
  }

  /* ---------------------------------------------------------------------
     Information field.
     --------------------------------------------------------------------- */

  /** CR and LF become a space, any other byte outside 0x20..0x7E becomes '.'. */
  function CleanChar(b: bv8): (c: char)
    ensures ' ' <= c <= '~'
    ensures 0x20 <= b <= 0x7E ==> c == (b as int) as char
  {
    if b == 0x0D || b == 0x0A then ' '
    else if b < 0x20 || b > 0x7E then '.'
    else (b as int) as char
  }

  /** The for loop that copies the information field into packet.info. */
  function CleanInfo(bytes: seq<bv8>): (r: string)
    ensures |r| == |bytes|
    ensures forall i :: 0 <= i < |r| ==> r[i] == CleanChar(bytes[i])
  {
    if bytes == [] then []
    else CleanInfo(bytes[..|bytes| - 1]) + [CleanChar(bytes[|bytes| - 1])]
  }

  /* ---------------------------------------------------------------------
     The decoder.
     --------------------------------------------------------------------- */

  /** AprsPacket_t, with each char array given as the string before its NUL. */
  datatype Packet = Packet(
    source: string,
    destination: string,
    path: string,
    info: string,
    sequence: nat,
    rssi: int)

  /** The formatted fragments of the digipeater addresses. */
  function Fragments(digis: seq<Address>): (r: seq<string>)
    ensures |r| == |digis|
  {
    if digis == [] then []
    else Fragments(digis[..|digis| - 1]) + [FormatAddress(digis[|digis| - 1], AddressFieldSize)]
  }

  /** The i-th fragment is the i-th digipeater, formatted. */
  lemma {:induction false} FragmentAt(digis: seq<Address>, i: nat)
    requires i < |digis|
    ensures Fragments(digis)[i] == FormatAddress(digis[i], AddressFieldSize)
  {
    if i < |digis| - 1 {
      var init := digis[..|digis| - 1];
      FragmentAt(init, i);
    }
  }

  /** The address chain ends with at least two addresses and two bytes
      (control and PID) left before the FCS. */
  predicate ChainOk(frame: seq<bv8>)
    requires |frame| >= 2
  {
    var chain := ParseAddresses(frame, |frame| - 2, 0, [], false).value;
    |chain.0| >= 2 && chain.1 + 2 <= |frame| - 2
  }

  /** APRS_DecodeFrame up to the call of APRS_StorePacket: the packet a frame
      decodes to, or None when the frame is rejected. (The source's second
      length test, length < 3, is implied by the first and left out.) */
  function Decode(frame: seq<bv8>, sequence: nat, rssi: int): Option<Packet>
  {
    if |frame| < MinFrameLen then None
    else if !FcsValid(frame) then None
    else DecodeAddresses(frame, sequence, rssi)
  }

  /** Decode once the FCS has matched: walk the address chain, then finish. */
  function DecodeAddresses(frame: seq<bv8>, sequence: nat, rssi: int): Option<Packet>
    requires |frame| >= 2
  {
    var chain := ParseAddresses(frame, |frame| - 2, 0, [], false).value;
    DecodeChain(frame, chain.0, chain.1, sequence, rssi)
  }

  /** The rest of APRS_DecodeFrame once the address loop has stopped at
      offset: at least two addresses and control and PID must remain. */
  function DecodeChain(frame: seq<bv8>, addresses: seq<Address>, offset: nat, sequence: nat, rssi: int)
    : Option<Packet>
    requires |frame| >= 2
  {
    var payloadLength := |frame| - 2;
    if |addresses| < 2 || offset + 2 > payloadLength then None
    else Some(BuildPacket(frame, payloadLength, addresses, offset + 2, sequence, rssi))
  }

  /** The packet assembled from a well-formed address chain; the information
      field starts after control and PID at infoStart and is cut to 95 bytes. */
  function BuildPacket(frame: seq<bv8>, payloadLength: nat, addresses: seq<Address>, infoStart: nat,
                       sequence: nat, rssi: int): Packet
    requires payloadLength <= |frame| && infoStart <= payloadLength && |addresses| >= 2
  {
    var infoLength := Min(payloadLength - infoStart, MaxInfoLen - 1);
    Packet(
      FormatAddress(addresses[1], AddressFieldSize),
      FormatAddress(addresses[0], AddressFieldSize),
      BuildPath(Fragments(addresses[2..])),
      CleanInfo(frame[infoStart..infoStart + infoLength]),
      sequence,
      rssi)
  }

  /** A frame is accepted exactly when it is at least 18 bytes long, its FCS
      matches and its address chain is well formed. */
  lemma DecodeAcceptance(frame: seq<bv8>, sequence: nat, rssi: int)
    ensures Decode(frame, sequence, rssi).Some? <==>
              |frame| >= MinFrameLen && FcsValid(frame) && ChainOk(frame)
  {
  }

  /** Every field of a decoded packet fits its char array in AprsPacket_t
      with room for the NUL: 9 of 12, 9 of 12, 39 of 48 and 95 of 96 bytes.
      The destination is the first address and the source the second. */
  lemma DecodedPacketFits(frame: seq<bv8>, sequence: nat, rssi: int)
    requires Decode(frame, sequence, rssi).Some?
    ensures var p := Decode(frame, sequence, rssi).value;
      && 1 <= |p.source| <= 9 && 1 <= |p.destination| <= 9
      && |p.path| <= 39 && |p.info| <= MaxInfoLen - 1
      && p.sequence == sequence && p.rssi == rssi
  {
    var chain := ParseAddresses(frame, |frame| - 2, 0, [], false).value;
    var addresses := chain.0;
    FormattedAddressFits(addresses[0]);
    FormattedAddressFits(addresses[1]);
    var digis := addresses[2..];
    forall i | 0 <= i < |digis|
      ensures 1 <= |Fragments(digis)[i]| <= 9
    {
      FragmentAt(digis, i);
      FormattedAddressFits(digis[i]);
    }
    PathFits(Fragments(digis));
  }

  /** The address loop of APRS_DecodeFrame over the payload (the frame
      without its FCS). */
  method ParseAddressChain(frame: seq<bv8>, payloadLength: nat) returns (addresses: seq<Address>, offset: nat)
    requires payloadLength <= |frame|
    ensures ParseAddresses(frame, payloadLength, 0, [], false) == Some((addresses, offset))
  {
    addresses := [];
    offset := 0;
    var isLast := false;
    while !isLast && |addresses| < MaxAddresses && offset + 7 <= payloadLength
      invariant |addresses| <= MaxAddresses && offset == 7 * |addresses| <= payloadLength
      invariant ParseAddresses(frame, payloadLength, offset, addresses, isLast)
             == ParseAddresses(frame, payloadLength, 0, [], false)
      decreases MaxAddresses - |addresses|
    {
      var parsed := ParseAddress(frame, payloadLength, offset);
      isLast := parsed.value.1;
      addresses := addresses + [parsed.value.0];
      offset := offset + 7;
    }
  }

  /** The loop of APRS_DecodeFrame that appends each digipeater to packet.path. */
  method FormatPath(digis: seq<Address>) returns (path: string)
    requires forall k :: 0 <= k < |digis| ==> |digis[k].text| <= 6
    ensures path == BuildPath(Fragments(digis))
  {
    var buffer := new char[PathFieldSize](_ => '\0');
    assert buffer[..][0] == '\0';
    CStringAt(buffer[..], 0);
    var i := 0;
    while i < |digis|
      invariant i <= |digis|
      invariant '\0' in buffer[..]
      invariant CString(buffer[..]) == BuildPath(Fragments(digis[..i]))
    {
      var fragment := FormatAddress(digis[i], AddressFieldSize);
      FormattedAddressFits(digis[i]);
      AppendPath(buffer, fragment);
      BuildPathStep(digis, i);
      i := i + 1;
    }
    assert digis[..i] == digis;
    var n := StrLen(buffer);
    path := buffer[..n];
  }

  /** One more digipeater appends its formatted fragment to the path. */
  lemma BuildPathStep(digis: seq<Address>, i: nat)
    requires i < |digis|
    ensures BuildPath(Fragments(digis[..i + 1]))
         == AppendFragment(BuildPath(Fragments(digis[..i])), FormatAddress(digis[i], AddressFieldSize), PathFieldSize)
  {
    assert digis[..i + 1][..i] == digis[..i];
    var f := Fragments(digis[..i + 1]);
    assert f[..i] == Fragments(digis[..i]);
  }

  /** The loop of APRS_DecodeFrame that copies and cleans the information field. */
  method CopyInfo(frame: seq<bv8>, start: nat, infoLength: nat) returns (info: string)
    requires start + infoLength <= |frame|
    ensures info == CleanInfo(frame[start..start + infoLength])
  {
    info := [];
    var j := 0;
    while j < infoLength
      invariant j <= infoLength
      invariant info == CleanInfo(frame[start..start + j])
    {
      assert frame[start..start + j + 1][..j] == frame[start..start + j];
      info := info + [CleanChar(frame[start + j])];
      j := j + 1;
    }
  }

  /** The formatting calls of APRS_DecodeFrame: source, destination and the
      digipeater path. */
  method FormatHeader(addresses: seq<Address>) returns (source: string, destination: string, path: string)
    requires |addresses| >= 2
    requires forall k :: 0 <= k < |addresses| ==> |addresses[k].text| <= 6
    ensures source == FormatAddress(addresses[1], AddressFieldSize)
    ensures destination == FormatAddress(addresses[0], AddressFieldSize)
    ensures path == BuildPath(Fragments(addresses[2..]))
  {
    source := FormatAddress(addresses[1], AddressFieldSize);
    destination := FormatAddress(addresses[0], AddressFieldSize);
    path := FormatPath(addresses[2..]);
  }

  /** The end of APRS_DecodeFrame: skip control and PID, cut the information
      field to 95 bytes, format the addresses and copy the information. */
  method AssemblePacket(frame: seq<bv8>, payloadLength: nat, addresses: seq<Address>,
                        infoStart: nat, sequence: nat, rssi: int) returns (packet: Packet)
    requires payloadLength <= |frame| && infoStart <= payloadLength && |addresses| >= 2
    requires forall k :: 0 <= k < |addresses| ==> |addresses[k].text| <= 6
    ensures packet == BuildPacket(frame, payloadLength, addresses, infoStart, sequence, rssi)
  {
    var infoLength := payloadLength - infoStart;
    if infoLength >= MaxInfoLen {
      infoLength := MaxInfoLen - 1;
    }
    var source, destination, path := FormatHeader(addresses);
    var info := CopyInfo(frame, infoStart, infoLength);
    packet := Packet(source, destination, path, info, sequence, rssi);
  }

  /** APRS_DecodeFrame after the address loop stopped at offset. */
  method FinishDecode(frame: seq<bv8>, addresses: seq<Address>, offset: nat,
                      sequence: nat, rssi: int) returns (r: Option<Packet>)
    requires 2 <= |frame|
    requires forall k :: 0 <= k < |addresses| ==> |addresses[k].text| <= 6
    ensures r == DecodeChain(frame, addresses, offset, sequence, rssi)
  {
    var payloadLength := |frame| - 2;
    if |addresses| < 2 || offset + 2 > payloadLength {
      return None;
    }
    var packet := AssemblePacket(frame, payloadLength, addresses, offset + 2, sequence, rssi);
    r := Some(packet);
  }

  /** APRS_DecodeFrame on the bytes of a frame between two flags, given the
      sequence number and RSSI the packet will carry. */
  method DecodeFrame(frame: seq<bv8>, sequence: nat, rssi: int) returns (r: Option<Packet>)
    ensures r == Decode(frame, sequence, rssi)
  {
    var length := |frame|;
    if length < MinFrameLen {
      return None;
    }
    var payloadLength := length - 2;
    var expectedCrc := CalculateCrc(frame, payloadLength);
    var receivedCrc := LittleEndian16(frame[payloadLength], frame[payloadLength + 1]);
    if expectedCrc != receivedCrc {
      assert !FcsValid(frame);
      return None;
    }
    assert FcsValid(frame);
    r := DecodeAddressChain(frame, sequence, rssi);
  }

  /** APRS_DecodeFrame from the address loop on, once the FCS has matched. */
  method DecodeAddressChain(frame: seq<bv8>, sequence: nat, rssi: int) returns (r: Option<Packet>)
    requires |frame| >= 2
    ensures r == DecodeAddresses(frame, sequence, rssi)
  {
    var addresses, offset := ParseAddressChain(frame, |frame| - 2);
    r := FinishDecode(frame, addresses, offset, sequence, rssi);
  }
}
