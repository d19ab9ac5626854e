/** The APRS monitor screen of App/ui/aprs.c: which packets the list view
    shows, the text lines of the list and of the detail view, and how the
    information field is broken into display lines. The status-line header
    (frequency, battery) and the pixel drawing are not part of this model. */
module AprsView {
  import opened Common
  import opened Aprs
  import opened AprsSession

  const ListRows: nat := 3          // APRS_LIST_ROWS
  const PathDisplayLen: nat := 24   // APRS_PATH_DISPLAY_LEN
  const LineBufferSize: nat := 32   // char line[32]
  const SnippetMax: nat := 21       // sizeof(snippet) - 1
  const FirstInfoLine: nat := 6     // the first display line of the info text
  const EndLine: nat := 10          // info lines stop before display line 10
  const WaitingMessage: string := "Waiting for packets..."

  /** One call of UI_PrintString / UI_PrintStringSmallNormal: a text on a
      display line. */
  datatype Printed = Printed(text: string, line: nat)

  /* ---------------------------------------------------------------------
     The list window.
     --------------------------------------------------------------------- */

  /** The first listed index in UI_DisplayAprsList: scrolled so that the
      selection is on the last row, then pulled back to fill the window. */
  function ListStart(selection: nat, count: nat): (start: nat)
    ensures selection < count ==> start <= selection <= start + ListRows - 1
    ensures count >= ListRows ==> start + ListRows <= count
    ensures count <= ListRows ==> start == 0
  {
    var scrolled := if selection >= ListRows then selection - (ListRows - 1) else 0;
    if scrolled + ListRows > count then
      (if count > ListRows then count - ListRows else 0)
    else scrolled
  }

  /** The indices the row loop reaches before it breaks at the count. */
  function Listed(start: nat, count: nat): (r: seq<nat>)
    ensures |r| <= ListRows
    ensures forall k :: 0 <= k < |r| ==> r[k] == start + k && r[k] < count
    ensures start < count ==> |r| == Min(ListRows, count - start)
  {
    var n := if start < count then Min(ListRows, count - start) else 0;
    seq(n, k => start + k)
  }

  /** The selected packet is always one of the listed rows, and every row
      shows a logged packet. */
  lemma SelectionIsListed(s: Session)
    requires Invariant(s) && s.count > 0
    ensures var rows := Listed(ListStart(s.selection, s.count), s.count);
      && s.selection in rows
      && forall k :: 0 <= k < |rows| ==> PacketAt(s, rows[k]).Some?
  {
    var start := ListStart(s.selection, s.count);
    var rows := Listed(start, s.count);
    assert rows[s.selection - start] == s.selection;
  }

  /* ---------------------------------------------------------------------
     The text lines.
     --------------------------------------------------------------------- */

  /** "%s>%s" of source and destination. */
  function Heading(p: Packet): string
  {
    p.source + ">" + p.destination
  }

  /** "via %.*s": the path cut to its first 24 characters. */
  function PathLine(p: Packet): (r: string)
    ensures 4 <= |r| <= 4 + PathDisplayLen
    ensures r[..4] == "via " && r[4..] <= p.path
    ensures |p.path| >= PathDisplayLen ==> |r| == 4 + PathDisplayLen
    ensures |p.path| < PathDisplayLen ==> r[4..] == p.path
  {
    "via " + p.path[..Min(|p.path|, PathDisplayLen)]
  }

  /** One list row: the heading marked when selected, then the path or,
      when there is none, the start of the information field. */
  function ListRow(p: Packet, selected: bool, row: nat): (r: seq<Printed>)
    ensures 1 <= |r| <= 2 && r[0].line == 4 + 2 * row
    ensures |r[0].text| >= 1 && (r[0].text[0] == '>' || r[0].text[0] == ' ')
    ensures |r| == 2 ==> r[1].line == 5 + 2 * row
  {
    var marker := if selected then '>' else ' ';
    var top := Printed(Snprintf([marker] + Heading(p), LineBufferSize), 4 + 2 * row);
    if p.path != "" then [top, Printed(Snprintf(PathLine(p), LineBufferSize), 5 + 2 * row)]
    else if p.info != "" then [top, Printed(Snprintf(p.info, LineBufferSize), 5 + 2 * row)]
    else [top]
  }

  /** The first n rows of a list window starting at start. */
  function ListLines(s: Session, start: nat, n: nat): (r: seq<Printed>)
    requires Invariant(s) && (n == 0 || start + n <= s.count)
    ensures n <= |r| <= 2 * n
    ensures n > 0 ==> r[0].line == 4 && |r[0].text| >= 1 && (r[0].text[0] == '>' || r[0].text[0] == ' ')
  {
    if n == 0 then [] else ListLines(s, start, n - 1) + RowAt(s, start, n - 1)
  }

  /** The lines of list row row, which shows the packet at start + row. */
  function RowAt(s: Session, start: nat, row: nat): (r: seq<Printed>)
    requires Invariant(s) && start + row < s.count
    ensures 1 <= |r| <= 2 && r[0].line == 4 + 2 * row
    ensures |r[0].text| >= 1 && (r[0].text[0] == '>' || r[0].text[0] == ' ')
  {
    ListRow(PacketAt(s, start + row).value, start + row == s.selection, row)
  }

  /** One turn of the row loop in UI_DisplayAprsList: stops at the count,
      otherwise prints the row for index start + row. */
  method ListRowStep(s: Session, start: nat, row: nat, out: seq<Printed>) returns (next: seq<Printed>, stop: bool)
    requires Invariant(s) && row < ListRows && row <= |Listed(start, s.count)|
    requires out == ListLines(s, start, row)
    ensures stop <==> row == |Listed(start, s.count)|
    ensures stop ==> next == out
    ensures !stop ==> next == ListLines(s, start, row + 1)
  {
    var index := start + row;
    var packet := PacketAt(s, index);
    if index >= s.count || packet.None? {
      return out, true;
    }
    var shown := ListRow(packet.value, index == s.selection, row);
    assert shown == RowAt(s, start, row);
    next, stop := out + shown, false;
  }

  /** UI_DisplayAprsList. */
  method DisplayList(s: Session) returns (out: seq<Printed>)
    requires Invariant(s)
    ensures var start := ListStart(s.selection, s.count);
      out == ListLines(s, start, |Listed(start, s.count)|)
  {
    var start := ListStart(s.selection, s.count);
    out := [];
    var row := 0;
    while row < ListRows
      invariant row <= |Listed(start, s.count)|
      invariant out == ListLines(s, start, row)
    {
      var stop;
      out, stop := ListRowStep(s, start, row, out);
      if stop {
        break;
      }
      row := row + 1;
    }
  }

  /** "RSSI %d dBm". */
  function RssiLine(rssi: int): string
  {
    "RSSI " + Decimal(rssi) + " dBm"
  }

  /** UI_DisplayAprsDetail: heading, path or RSSI, then the info snippets
      on lines 6 to 9. */
  function DetailLines(p: Packet): (r: seq<Printed>)
    ensures |r| >= 2 && r[0].line == 4 && r[1].line == 5
  {
    var second := if p.path != "" then PathLine(p) else RssiLine(p.rssi);
    [Printed(Snprintf(Heading(p), LineBufferSize), 4), Printed(Snprintf(second, LineBufferSize), 5)]
      + Numbered(Snippets(p.info, EndLine - FirstInfoLine), FirstInfoLine)
  }

  /** Texts printed on consecutive lines from first on. */
  function Numbered(texts: seq<string>, first: nat): (r: seq<Printed>)
    ensures |r| == |texts|
    ensures forall k :: 0 <= k < |r| ==> r[k] == Printed(texts[k], first + k)
  {
    if texts == [] then []
    else Numbered(texts[..|texts| - 1], first) + [Printed(texts[|texts| - 1], first + |texts| - 1)]
  }

  /** UI_DisplayAprs below the header: the waiting message on an empty log,
      otherwise the detail of the selected packet or the list. */
  function Screen(s: Session): (r: seq<Printed>)
    requires Invariant(s)
    ensures s.count == 0 <==> r == [Printed(WaitingMessage, 4)]
    ensures s.count > 0 && s.detailView ==> r == DetailLines(Entries(s)[s.selection])
  {
    if s.count == 0 then [Printed(WaitingMessage, 4)]
    else if s.detailView then
      (match PacketAt(s, s.selection)
       case Some(p) => DetailLines(p)
       case None => [])
    else
      var start := ListStart(s.selection, s.count);
      ListLines(s, start, |Listed(start, s.count)|)
  }

  /* ---------------------------------------------------------------------
     Decimal numbers.
     --------------------------------------------------------------------- */

  predicate IsDigit(c: char)
  {
    '0' <= c <= '9'
  }

  /** The decimal digits of n, most significant first. */
  function Digits(n: nat): (r: string)
    ensures |r| >= 1 && forall i :: 0 <= i < |r| ==> IsDigit(r[i])
  {
    if n < 10 then [DigitChar(n)] else Digits(n / 10) + [DigitChar(n % 10)]
  }

  /** printf's "%d". */
  function Decimal(n: int): (r: string)
    ensures |r| >= 1
  {
    if n < 0 then "-" + Digits(-n) else Digits(n)
  }

  /** The number a string of decimal digits denotes. */
  function DigitsValue(r: string): nat
    requires forall i :: 0 <= i < |r| ==> IsDigit(r[i])
  {
    if r == [] then 0
    else
      var last := r[|r| - 1];
      assert IsDigit(last);
      DigitsValue(r[..|r| - 1]) * 10 + (last as int - '0' as int)
  }

  /** Reading the digits back gives the number printed. */
  lemma {:induction false} DigitsRoundTrip(n: nat)
    ensures DigitsValue(Digits(n)) == n
  {
    if n >= 10 {
      var r := Digits(n);
      assert r[..|r| - 1] == Digits(n / 10);
      DigitsRoundTrip(n / 10);
    }
  }

  /* ---------------------------------------------------------------------
     The information text in the detail view.
     --------------------------------------------------------------------- */

  /** How far the inner loop copies: up to the end, a newline, or 21
      characters, whichever comes first. */
  function SnippetLength(info: string, max: nat): (n: nat)
    ensures n <= |info| && n <= max
    ensures forall i :: 0 <= i < n ==> info[i] != '\n'
    ensures n < |info| && n < max ==> info[n] == '\n'
  {
    if max == 0 || |info| == 0 || info[0] == '\n' then 0
    else 1 + SnippetLength(info[1..], max - 1)
  }

  /** The characters one snippet consumes: its text, and the newline after
      it when there is one. */
  function Consumed(info: string): (c: nat)
    requires info != []
    ensures 1 <= c <= |info|
  {
    var n := SnippetLength(info, SnippetMax);
    if n < |info| && info[n] == '\n' then n + 1 else n
  }

  /** The snippets the outer loop prints when it may print at most lines
      of them. */
  function Snippets(info: string, lines: nat): (r: seq<string>)
    ensures |r| <= lines
    ensures forall k :: 0 <= k < |r| ==> |r[k]| <= SnippetMax && '\n' !in r[k]
    decreases |info|
  {
    if info == [] || lines == 0 then []
    else
      var n := SnippetLength(info, SnippetMax);
      [info[..n]] + Snippets(info[Consumed(info)..], lines - 1)
  }

  /** The text with its newlines removed. */
  function WithoutNewlines(info: string): (r: string)
  {
    if info == [] then []
    else (if info[0] == '\n' then [] else [info[0]]) + WithoutNewlines(info[1..])
  }

  lemma {:induction false} WithoutNewlinesAppend(a: string, b: string)
    ensures WithoutNewlines(a + b) == WithoutNewlines(a) + WithoutNewlines(b)
  {
    if a == [] {
      assert a + b == b;
    } else {
      assert (a + b)[0] == a[0] && (a + b)[1..] == a[1..] + b;
      WithoutNewlinesAppend(a[1..], b);
    }
  }

  lemma {:induction false} NoNewlineKept(a: string)
    requires forall i :: 0 <= i < |a| ==> a[i] != '\n'
    ensures WithoutNewlines(a) == a
  {
    if a != [] {
      NoNewlineKept(a[1..]);
    }
  }

  function Concat(texts: seq<string>): string
  {
    if texts == [] then [] else texts[0] + Concat(texts[1..])
  }

  /** What one snippet consumes is its text plus at most a newline. */
  lemma ConsumedPiece(info: string)
    requires info != []
    ensures WithoutNewlines(info[..Consumed(info)]) == info[..SnippetLength(info, SnippetMax)]
  {
    var n := SnippetLength(info, SnippetMax);
    var c := Consumed(info);
    assert info[..c] == info[..n] + info[n..c];
    WithoutNewlinesAppend(info[..n], info[n..c]);
    NoNewlineKept(info[..n]);
    if c > n {
      assert info[n..c] == ['\n'];
      assert WithoutNewlines(info[n..c]) == [] + WithoutNewlines(info[n..c][1..]);
    }
  }

  /** Given lines enough, the snippets together hold every character of the
      text except its newlines, in order: nothing is lost or repeated. */
  lemma {:induction false} SnippetsCoverText(info: string, lines: nat)
    requires lines >= |info|
    ensures Concat(Snippets(info, lines)) == WithoutNewlines(info)
    decreases |info|
  {
    if info != [] {
      var c := Consumed(info);
      var n := SnippetLength(info, SnippetMax);
      var rest := info[c..];
      var tail := Snippets(rest, lines - 1);
      assert WithoutNewlines(info) == info[..n] + WithoutNewlines(rest) by {
        assert info == info[..c] + rest;
        WithoutNewlinesAppend(info[..c], rest);
        ConsumedPiece(info);
      }
      assert Concat(Snippets(info, lines)) == info[..n] + Concat(tail) by {
        assert Snippets(info, lines) == [info[..n]] + tail;
        ConcatCons(info[..n], tail);
      }
      SnippetsCoverText(rest, lines - 1);
    }
  }

  lemma ConcatCons(text: string, texts: seq<string>)
    ensures Concat([text] + texts) == text + Concat(texts)
  {
    assert ([text] + texts)[1..] == texts;
  }

  /** The four display lines show the first four of the snippets an
      unlimited screen would show. */
  lemma {:induction false} SnippetsPrefix(info: string, few: nat, many: nat)
    requires few <= many
    ensures |Snippets(info, few)| <= |Snippets(info, many)|
    ensures Snippets(info, few) == Snippets(info, many)[..|Snippets(info, few)|]
    decreases |info|
  {
    if info != [] && few > 0 {
      SnippetsPrefix(info[Consumed(info)..], few - 1, many - 1);
    }
  }

  /** Text without newlines, as every decoded information field is, is cut
      into full 21-character snippets with only the last one shorter. */
  lemma {:induction false} PlainTextSnippets(info: string, lines: nat)
    requires forall i :: 0 <= i < |info| ==> info[i] != '\n'
    ensures var r := Snippets(info, lines);
      forall k :: 0 <= k < |r| - 1 ==> |r[k]| == SnippetMax
    decreases |info|
  {
    if info != [] && lines > 0 {
      var n := SnippetLength(info, SnippetMax);
      PlainTextSnippets(info[Consumed(info)..], lines - 1);
      var r := Snippets(info, lines);
      assert n < |info| ==> info[n] != '\n';
      assert forall k :: 1 <= k < |r| ==> r[k] == Snippets(info[Consumed(info)..], lines - 1)[k - 1];
    }
  }

  /** The inner loop of UI_DisplayAprsDetail: the length of the snippet
      that starts at pos. */
  method SnippetEnd(info: string, pos: nat) returns (len: nat)
    requires pos <= |info|
    ensures len == SnippetLength(info[pos..], SnippetMax)
  {
    len := 0;
    while pos + len < |info| && info[pos + len] != '\n' && len < SnippetMax
      invariant pos + len <= |info| && len <= SnippetMax
      invariant SnippetLength(info[pos..], SnippetMax) == len + SnippetLength(info[pos + len..], SnippetMax - len)
    {
      assert info[pos + len..][1..] == info[pos + len + 1..];
      len := len + 1;
    }
  }

  /** One turn of the outer loop prints the snippet at pos and resumes
      after it and its newline. */
  lemma SnippetStep(info: string, pos: nat, len: nat, next: nat, lines: nat)
    requires pos < |info| && lines > 0 && len == SnippetLength(info[pos..], SnippetMax)
    requires next == if pos + len < |info| && info[pos + len] == '\n' then pos + len + 1 else pos + len
    ensures pos < next <= |info|
    ensures Snippets(info[pos..], lines) == [info[pos..pos + len]] + Snippets(info[next..], lines - 1)
  {
    var rest := info[pos..];
    assert rest[..len] == info[pos..pos + len];
    assert rest[Consumed(rest)..] == info[next..];
  }

  /** The outer loop's invariant: the snippets printed so far and those
      still to come from pos, with remaining lines left, make all of them. */
  ghost predicate SoFarShown(info: string, pos: nat, remaining: nat, printed: seq<string>)
  {
    pos <= |info| && printed + Snippets(info[pos..], remaining) == Snippets(info, EndLine - FirstInfoLine)
  }

  /** The invariant carries over one turn of the outer loop. */
  lemma SnippetsSoFar(info: string, pos: nat, len: nat, next: nat, remaining: nat, printed: seq<string>)
    requires pos < |info| && remaining > 0 && len == SnippetLength(info[pos..], SnippetMax)
    requires next == if pos + len < |info| && info[pos + len] == '\n' then pos + len + 1 else pos + len
    requires SoFarShown(info, pos, remaining, printed)
    ensures pos < next <= |info|
    ensures SoFarShown(info, next, remaining - 1, printed + [info[pos..pos + len]])
  {
    SnippetStep(info, pos, len, next, remaining);
    var rest := Snippets(info[next..], remaining - 1);
    assert (printed + [info[pos..pos + len]]) + rest == printed + ([info[pos..pos + len]] + rest);
  }

  /** The invariant at the start and at the end of the outer loop. */
  lemma PrintedBounds(info: string, pos: nat, remaining: nat, printed: seq<string>)
    ensures pos == 0 && remaining == EndLine - FirstInfoLine && printed == [] ==> SoFarShown(info, pos, remaining, printed)
    ensures SoFarShown(info, pos, remaining, printed) && (pos == |info| || remaining == 0) ==>
      printed == Snippets(info, EndLine - FirstInfoLine)
  {
    assert info[0..] == info;
    if pos == |info| {
      assert info[pos..] == [];
    }
  }

  /** The outer loop of UI_DisplayAprsDetail: one snippet per display line
      from line 6 until the text or the screen runs out. */
  method InfoSnippets(info: string) returns (lines: seq<string>)
    ensures lines == Snippets(info, EndLine - FirstInfoLine)
  {
    lines := [];
    var pos := 0;
    var lineIndex := FirstInfoLine;
    PrintedBounds(info, pos, EndLine - lineIndex, lines);
    while pos < |info| && lineIndex < EndLine
      invariant FirstInfoLine <= lineIndex <= EndLine
      invariant SoFarShown(info, pos, EndLine - lineIndex, lines)
      decreases |info| - pos
    {
      var len := SnippetEnd(info, pos);
      var next := if pos + len < |info| && info[pos + len] == '\n' then pos + len + 1 else pos + len;
      SnippetsSoFar(info, pos, len, next, EndLine - lineIndex, lines);
      lines := lines + [info[pos..pos + len]];
      lineIndex := lineIndex + 1;
      pos := next;
    }
    PrintedBounds(info, pos, EndLine - lineIndex, lines);
  }

}
