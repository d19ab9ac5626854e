/** scripts/refactor_conditionals.py: resolves the firmware's ENABLE_*
    conditional compilation in a source file. Each pass copies the lines,
    and at every #ifdef / #ifndef / #if defined directive on ENABLE_
    features whose value it knows, keeps the then-block or the else-block
    of that conditional and drops the directive lines; passes repeat until
    one changes nothing, at most ten times.

    The regular expressions are replaced by a classification of each line
    (Kind); file reading and writing are not part of this model. */
module Conditionals {
  import opened Common

  /** The joining operator of an #if defined line: it contains &&, else
      it contains ||, else neither. */
  datatype Op = And | Or | Single

  /** What the script's regular expressions make of a line:
      HeaderGuard   #ifndef NAME_H (capitals and underscores, nothing after);
      Ifdef(f)      #ifdef ENABLE...;
      Ifndef(f)     #ifndef ENABLE... that is not a header guard;
      IfDefined     #if defined ... mentioning ENABLE, with the ENABLE
                    words it contains and its operator;
      OtherIf       any other #if, #ifdef or #ifndef followed by a blank;
      Else          #else alone on its line;
      Endif         #endif, whatever follows;
      Plain         everything else, #elif and a commented #else included. */
  datatype Kind =
    | HeaderGuard
    | Ifdef(feature: string)
    | Ifndef(feature: string)
    | IfDefined(features: seq<string>, op: Op)
    | OtherIf
    | Else
    | Endif
    | Plain

  datatype Line = Line(text: string, kind: Kind)

  const MaxPasses: nat := 10

  /** ENABLED: the features this build turns on. */
  const Enabled: set<string> := {
    "ENABLE_UART", "ENABLE_USB", "ENABLE_VOX", "ENABLE_TX1750", "ENABLE_FLASHLIGHT",
    "ENABLE_SPECTRUM", "ENABLE_BIG_FREQ", "ENABLE_SMALL_BOLD", "ENABLE_CUSTOM_MENU_LAYOUT",
    "ENABLE_KEEP_MEM_NAME", "ENABLE_WIDE_RX", "ENABLE_NO_CODE_SCAN_TIMEOUT",
    "ENABLE_SQUELCH_MORE_SENSITIVE", "ENABLE_FASTER_CHANNEL_SCAN", "ENABLE_RSSI_BAR",
    "ENABLE_AUDIO_BAR", "ENABLE_COPY_CHAN_TO_VFO", "ENABLE_SCAN_RANGES",
    "ENABLE_FEAT_F4HWN", "ENABLE_FEAT_F4HWN_SPECTRUM", "ENABLE_FEAT_F4HWN_RX_TX_TIMER",
    "ENABLE_FEAT_F4HWN_SLEEP", "ENABLE_FEAT_F4HWN_RESUME_STATE", "ENABLE_FEAT_F4HWN_NARROWER",
    "ENABLE_FEAT_F4HWN_INV", "ENABLE_FEAT_F4HWN_CTR", "ENABLE_FEAT_F4HWN_CA",
    "ENABLE_NAVIG_LEFT_RIGHT", "ENABLE_FMRADIO", "ENABLE_AIRCOPY",
    "ENABLE_FEAT_F4HWN_SCREENSHOT", "ENABLE_FEAT_F4HWN_GAME", "ENABLE_FEAT_F4HWN_PMR",
    "ENABLE_FEAT_F4HWN_GMRS_FRS_MURS", "ENABLE_FEAT_F4HWN_RESCUE_OPS",
    "ENABLE_SWD", "ENABLE_ALARM", "ENABLED_AIRCOPY"
  }

  /** DISABLED: the features this build turns off. */
  const Disabled: set<string> := {
    "ENABLE_NOAA", "ENABLE_VOICE", "ENABLE_PWRON_PASSWORD", "ENABLE_DTMF_CALLING",
    "ENABLE_TX_WHEN_AM", "ENABLE_F_CAL_MENU", "ENABLE_CTCSS_TAIL_PHASE_SHIFT",
    "ENABLE_BOOT_BEEPS", "ENABLE_SHOW_CHARGE_LEVEL", "ENABLE_REVERSE_BAT_SYMBOL",
    "ENABLE_AM_FIX", "ENABLE_REDUCE_LOW_MID_TX_POWER", "ENABLE_BYP_RAW_DEMODULATORS",
    "ENABLE_BLMIN_TMP_OFF", "ENABLE_REGA", "ENABLE_EXTRA_UART_CMD",
    "ENABLE_FEAT_F4HWN_CHARGING_C", "ENABLE_FEAT_F4HWN_VOL", "ENABLE_FEAT_F4HWN_RESET_CHANNEL",
    "ENABLE_FEAT_F4HWN_DEBUG", "ENABLE_AM_FIX_SHOW_DATA", "ENABLE_AGC_SHOW_DATA",
    "ENABLE_UART_RW_BK_REGS", "ENABLE_OVERLAY"
  }

  predicate Known(f: string)
  {
    f in Enabled || f in Disabled
  }

  /** is_header_guard. */
  predicate IsHeaderGuard(line: Line)
  {
    line.kind == HeaderGuard
  }

  /** How a line counts while a block is collected: the nesting regular
      expression #(ifdef|ifndef|if)\s matches every conditional opener,
      header guards included. */
  predicate Opens(k: Kind)
  {
    k.HeaderGuard? || k.Ifdef? || k.Ifndef? || k.IfDefined? || k.OtherIf?
  }

  /** The outer loop's evaluation of a line: None when the line is copied
      as it is, Some(is_enabled) when it opens a conditional the script
      resolves. */
  function Decide(k: Kind): Option<bool>
  {
    match k
    case Ifdef(f) => Some(f in Enabled)
    case Ifndef(f) => Some(f in Disabled)
    case IfDefined(fs, op) =>
      if |fs| == 0 then None
      else if !(forall f :: f in fs ==> Known(f)) then None
      else (
        match op
        case And => Some(forall f :: f in fs ==> f in Enabled)
        case Or => Some(exists f :: f in fs && f in Enabled)
        case Single => if |fs| == 1 then Some(fs[0] in Enabled) else None)
    case _ => None
  }

  predicate Evaluable(line: Line)
  {
    Decide(line.kind).Some?
  }

  /** A block being collected: where the scan stopped, the then-block and
      the else-block. */
  datatype Collected = Collected(next: nat, block: seq<Line>, elseBlock: seq<Line>)

  /** The inner loop from line i, at the given depth: openers nest and are
      kept, the matching #endif ends the block and is dropped, a depth-1
      #else switches to the else-block and is dropped, every other line is
      kept in the current block. */
  function Collect(lines: seq<Line>, i: nat, depth: nat, inElse: bool, block: seq<Line>, elseBlock: seq<Line>): (c: Collected)
    requires i <= |lines|
    ensures i <= c.next <= |lines|
    decreases |lines| - i
  {
    if i == |lines| || depth == 0 then Collected(i, block, elseBlock)
    else
      var line := lines[i];
      if Opens(line.kind) then
        if !inElse then Collect(lines, i + 1, depth + 1, inElse, block + [line], elseBlock)
        else Collect(lines, i + 1, depth + 1, inElse, block, elseBlock + [line])
      else if line.kind == Endif then
        if depth - 1 == 0 then Collect(lines, i + 1, 0, inElse, block, elseBlock)
        else if !inElse then Collect(lines, i + 1, depth - 1, inElse, block + [line], elseBlock)
        else Collect(lines, i + 1, depth - 1, inElse, block, elseBlock + [line])
      else if line.kind == Else && depth == 1 then
        Collect(lines, i + 1, depth, true, block, elseBlock)
      else if !inElse then Collect(lines, i + 1, depth, inElse, block + [line], elseBlock)
      else Collect(lines, i + 1, depth, inElse, block, elseBlock + [line])
  }

  /** One pass from line i on. */
  function PassFrom(lines: seq<Line>, i: nat): seq<Line>
    requires i <= |lines|
    decreases |lines| - i
  {
    if i == |lines| then []
    else
      match Decide(lines[i].kind)
      case None => [lines[i]] + PassFrom(lines, i + 1)
      case Some(enabled) =>
        var c := Collect(lines, i + 1, 1, false, [], []);
        (if enabled then c.block else c.elseBlock) + PassFrom(lines, c.next)
  }

  /** One whole pass over a file's lines. */
  function Resolve(lines: seq<Line>): seq<Line>
  {
    PassFrom(lines, 0)
  }

  /** a is b with some lines left out: a[j] is b[m[j]], m increasing. */
  ghost predicate Embeds(a: seq<Line>, b: seq<Line>, m: seq<nat>)
  {
    |m| == |a|
    && (forall j :: 0 <= j < |m| ==> m[j] < |b| && a[j] == b[m[j]])
    && (forall j, k :: 0 <= j < k < |m| ==> m[j] < m[k])
  }

  /** Leaving lines out twice is leaving lines out once. */
  lemma EmbedsTrans(a: seq<Line>, b: seq<Line>, c: seq<Line>, m: seq<nat>, n: seq<nat>) returns (mn: seq<nat>)
    requires Embeds(a, b, m) && Embeds(b, c, n)
    ensures Embeds(a, c, mn)
  {
    mn := seq(|m|, j requires 0 <= j < |m| => n[m[j]]);
  }

  /** An embedding never has more lines than it embeds into. */
  lemma {:induction false} EmbedsShorter(a: seq<Line>, b: seq<Line>, m: seq<nat>)
    requires Embeds(a, b, m)
    ensures |a| <= |b|
    decreases |a|
  {
    if |a| > 0 {
      var n := |a| - 1;
      assert Embeds(a[..n], b[..m[n]], m[..n]);
      EmbedsShorter(a[..n], b[..m[n]], m[..n]);
    }
  }

  /** One pass of process_file: returns the new lines and changes_made,
      and (ghost) where each kept line came from. */
  method Pass(lines: seq<Line>) returns (result: seq<Line>, changed: bool, ghost kept: seq<nat>)
    ensures result == Resolve(lines)
    ensures changed <==> exists j :: 0 <= j < |lines| && Evaluable(lines[j])
    ensures Embeds(result, lines, kept)
    ensures changed ==> |result| < |lines|
  {
    result := [];
    changed := false;
    kept := [];
    var i := 0;
    while i < |lines|
      invariant PassSoFar(lines, i, result, changed, kept)
      decreases |lines| - i
    {
      i, result, changed, kept := PassLine(lines, i, result, changed, kept);
    }
  }

  /** The outer loop's state after the lines before i: the pass so far
      and the rest of the pass make the whole pass. */
  ghost predicate PassSoFar(lines: seq<Line>, i: nat, result: seq<Line>, changed: bool, kept: seq<nat>)
  {
    i <= |lines|
    && result + PassFrom(lines, i) == Resolve(lines)
    && (changed <==> exists j :: 0 <= j < i && Evaluable(lines[j]))
    && Embeds(result, lines, kept) && (forall j :: 0 <= j < |kept| ==> kept[j] < i)
    && |result| + (if changed then 1 else 0) <= i
  }

  /** One round of the outer loop: copy line i, or resolve the conditional
      it opens. */
  method PassLine(lines: seq<Line>, i: nat, result: seq<Line>, changed: bool, ghost kept: seq<nat>)
    returns (i': nat, result': seq<Line>, changed': bool, ghost kept': seq<nat>)
    requires i < |lines| && PassSoFar(lines, i, result, changed, kept)
    ensures i < i' && PassSoFar(lines, i', result', changed', kept')
  {
    var line := lines[i];
    var decision := Decide(line.kind);
    if decision.None? {
      PassCopies(lines, i);
      assert (result + [line]) + PassFrom(lines, i + 1) == result + PassFrom(lines, i);
      result', kept' := Append(lines, result, kept, [line], [i], i);
      i', changed' := i + 1, changed;
      return;
    }
    var c, keptBlock, keptElse := CollectBlock(lines, i + 1);
    PassResolves(lines, i);
    var chosen := if decision.value then c.block else c.elseBlock;
    ghost var from := if decision.value then keptBlock else keptElse;
    assert (result + chosen) + PassFrom(lines, c.next) == result + PassFrom(lines, i);
    result', kept' := Append(lines, result, kept, chosen, from, i);
    i', changed' := c.next, true;
  }

  /** A line the outer loop copies. */
  lemma PassCopies(lines: seq<Line>, i: nat)
    requires i < |lines| && !Evaluable(lines[i])
    ensures PassFrom(lines, i) == [lines[i]] + PassFrom(lines, i + 1)
  {
  }

  /** A directive the outer loop resolves. */
  lemma PassResolves(lines: seq<Line>, i: nat)
    requires i < |lines| && Evaluable(lines[i])
    ensures var c := Collect(lines, i + 1, 1, false, [], []);
      PassFrom(lines, i) == (if Decide(lines[i].kind).value then c.block else c.elseBlock) + PassFrom(lines, c.next)
  {
  }

  /** result.extend(more), tracking where the new lines came from. */
  method Append(lines: seq<Line>, result: seq<Line>, ghost kept: seq<nat>, more: seq<Line>, ghost from: seq<nat>, bound: nat)
    returns (r: seq<Line>, ghost k: seq<nat>)
    requires Embeds(result, lines, kept) && Embeds(more, lines, from)
    requires forall j :: 0 <= j < |kept| ==> kept[j] < bound
    requires forall j :: 0 <= j < |from| ==> bound <= from[j]
    ensures r == result + more && k == kept + from
    ensures Embeds(r, lines, k)
  {
    r := result + more;
    k := kept + from;
  }

  /** The inner while loop of process_file: collects the block of the
      directive just before line start; (ghost) where each collected line
      came from. */
  method CollectBlock(lines: seq<Line>, start: nat) returns (c: Collected, ghost keptBlock: seq<nat>, ghost keptElse: seq<nat>)
    requires 0 < start <= |lines|
    ensures c == Collect(lines, start, 1, false, [], [])
    ensures |c.block| + |c.elseBlock| + start <= c.next
    ensures Embeds(c.block, lines, keptBlock) && Embeds(c.elseBlock, lines, keptElse)
    ensures forall j :: 0 <= j < |keptBlock| ==> start <= keptBlock[j] < c.next
    ensures forall j :: 0 <= j < |keptElse| ==> start <= keptElse[j] < c.next
  {
    var i := start;
    var depth := 1;
    var block: seq<Line> := [];
    var elseBlock: seq<Line> := [];
    var inElse := false;
    keptBlock, keptElse := [], [];
    while i < |lines| && depth > 0
      invariant start <= i <= |lines|
      invariant Collect(lines, i, depth, inElse, block, elseBlock) == Collect(lines, start, 1, false, [], [])
      invariant |block| + |elseBlock| + start <= i
      invariant Embeds(block, lines, keptBlock) && Embeds(elseBlock, lines, keptElse)
      invariant forall j :: 0 <= j < |keptBlock| ==> start <= keptBlock[j] < i
      invariant forall j :: 0 <= j < |keptElse| ==> start <= keptElse[j] < i
      decreases |lines| - i
    {
      var curr := lines[i];
      var keep := true;
      if Opens(curr.kind) {
        depth := depth + 1;
      } else if curr.kind == Endif {
        depth := depth - 1;
        keep := depth > 0;
      } else if curr.kind == Else && depth == 1 {
        inElse := true;
        keep := false;
      }
      if keep {
        if !inElse {
          block := block + [curr];
          keptBlock := keptBlock + [i];
        } else {
          elseBlock := elseBlock + [curr];
          keptElse := keptElse + [i];
        }
      }
      i := i + 1;
    }
    c := Collected(i, block, elseBlock);
  }

  /** The lines content.split('\n') gives: none holds a newline. */
  predicate SplitLines(lines: seq<Line>)
  {
    forall j :: 0 <= j < |lines| ==> '\n' !in lines[j].text
  }

  /** '\n'.join of the lines' texts. */
  function Join(lines: seq<Line>): string
  {
    if |lines| == 0 then ""
    else if |lines| == 1 then lines[0].text
    else Join(lines[..|lines| - 1]) + "\n" + lines[|lines| - 1].text
  }

  /** str.count('\n'). */
  function CountNewlines(s: string): nat
  {
    if |s| == 0 then 0 else CountNewlines(s[..|s| - 1]) + if s[|s| - 1] == '\n' then 1 else 0
  }

  lemma {:induction false} CountNewlinesAppend(a: string, b: string)
    ensures CountNewlines(a + b) == CountNewlines(a) + CountNewlines(b)
    decreases |b|
  {
    if |b| > 0 {
      var n := |b| - 1;
      assert (a + b)[..|a + b| - 1] == a + b[..n];
      CountNewlinesAppend(a, b[..n]);
    } else {
      assert a + b == a;
    }
  }

  lemma {:induction false} NoNewlineCounted(s: string)
    requires '\n' !in s
    ensures CountNewlines(s) == 0
    decreases |s|
  {
    if |s| > 0 {
      var front := s[..|s| - 1];
      assert '\n' !in front by {
        forall k | 0 <= k < |front| ensures front[k] != '\n' {
          assert front[k] == s[k];
        }
      }
      NoNewlineCounted(front);
    }
  }

  /** The joined text holds one newline between each two lines, and none
      for no line at all. */
  lemma {:induction false} JoinNewlines(lines: seq<Line>)
    requires SplitLines(lines)
    ensures CountNewlines(Join(lines)) == if |lines| == 0 then 0 else |lines| - 1
    decreases |lines|
  {
    if |lines| == 1 {
      NoNewlineCounted(lines[0].text);
    } else if |lines| > 1 {
      var n := |lines| - 1;
      assert SplitLines(lines[..n]) by {
        forall j | 0 <= j < n ensures '\n' !in lines[..n][j].text {
          assert lines[..n][j] == lines[j];
        }
      }
      JoinNewlines(lines[..n]);
      CountNewlinesAppend(Join(lines[..n]), "\n");
      CountNewlinesAppend(Join(lines[..n]) + "\n", lines[n].text);
      assert CountNewlines("\n") == 1 by {
        assert "\n"[..0] == "";
      }
      NoNewlineCounted(lines[n].text);
    }
  }

  /** lines_removed counts lines, except that a file every line of which
      is removed still leaves one empty line: '\n'.join([]) is "". */
  lemma LinesRemovedCount(original: seq<Line>, content: seq<Line>)
    requires SplitLines(original) && SplitLines(content) && |original| > 0
    ensures CountNewlines(Join(original)) - CountNewlines(Join(content))
            == |original| - if |content| == 0 then 1 else |content|
  {
    JoinNewlines(original);
    JoinNewlines(content);
  }

  /** A pass keeps the lines it copies, so none of them gains a newline. */
  lemma EmbedsSplit(a: seq<Line>, b: seq<Line>, m: seq<nat>)
    requires Embeds(a, b, m) && SplitLines(b)
    ensures SplitLines(a)
  {
    forall j | 0 <= j < |a| ensures '\n' !in a[j].text {
      assert a[j] == b[m[j]];
    }
  }

  /** process_file on a file's lines: passes until one changes nothing, at
      most ten; returns the new lines, lines_removed (the drop in the
      newline count of the joined text) and the number of passes, and
      (ghost) where each remaining line came from. */
  method ProcessFile(original: seq<Line>) returns (content: seq<Line>, linesRemoved: int, passes: nat, ghost kept: seq<nat>)
    requires SplitLines(original)
    ensures 1 <= passes <= MaxPasses
    ensures passes < MaxPasses ==> Resolve(content) == content
    ensures Embeds(content, original, kept)
    ensures linesRemoved == CountNewlines(Join(original)) - CountNewlines(Join(content)) && linesRemoved >= 0
  {
    content := original;
    kept := seq(|original|, j requires 0 <= j < |original| => j);
    passes := 0;
    while passes < MaxPasses
      invariant passes <= MaxPasses
      invariant Embeds(content, original, kept)
    {
      passes := passes + 1;
      var result, changed, step := Pass(content);
      kept := EmbedsTrans(result, content, original, step, kept);
      if !changed {
        NothingToResolve(content);
        content := result;
        break;
      }
      content := result;
    }
    EmbedsShorter(content, original, kept);
    EmbedsSplit(content, original, kept);
    JoinNewlines(original);
    JoinNewlines(content);
    var before := if |original| == 0 then 0 else |original| - 1;
    var after := if |content| == 0 then 0 else |content| - 1;
    linesRemoved := before - after;
  }

  /** Lines before the first evaluable directive are copied unchanged and
      in order. */
  lemma {:induction false} PrefixKept(lines: seq<Line>, n: nat)
    requires n <= |lines|
    requires forall j :: 0 <= j < n ==> !Evaluable(lines[j])
    ensures Resolve(lines) == lines[..n] + PassFrom(lines, n)
  {
    if n > 0 {
      PrefixKept(lines, n - 1);
      assert lines[..n] == lines[..n - 1] + [lines[n - 1]];
    }
  }

  /** Without an evaluable directive a pass changes nothing: the fixpoint
      process_file stops at. */
  lemma NothingToResolve(lines: seq<Line>)
    requires forall j :: 0 <= j < |lines| ==> !Evaluable(lines[j])
    ensures Resolve(lines) == lines
  {
    PrefixKept(lines, |lines|);
    assert lines[..|lines|] == lines;
  }

  /** A header guard before any evaluable directive survives the pass in
      place, even one named like a feature (#ifndef ENABLE_X_H). */
  lemma HeaderGuardKept(lines: seq<Line>, n: nat)
    requires n < |lines| && IsHeaderGuard(lines[n])
    requires forall j :: 0 <= j < n ==> !Evaluable(lines[j])
    ensures |Resolve(lines)| > n && Resolve(lines)[n] == lines[n]
  {
    PrefixKept(lines, n + 1);
  }

  /** Lines of no directive kind go to the current block. */
  predicate Flat(lines: seq<Line>)
  {
    forall j :: 0 <= j < |lines| ==> lines[j].kind == Plain
  }

  lemma {:induction false} CollectFlat(lines: seq<Line>, i: nat, n: nat, depth: nat, inElse: bool, block: seq<Line>, elseBlock: seq<Line>)
    requires i + n <= |lines| && 0 < depth && Flat(lines[i..i + n])
    ensures !inElse ==>
              Collect(lines, i, depth, inElse, block, elseBlock)
                     == Collect(lines, i + n, depth, inElse, block + lines[i..i + n], elseBlock)
    ensures inElse ==>
              Collect(lines, i, depth, inElse, block, elseBlock)
                    == Collect(lines, i + n, depth, inElse, block, elseBlock + lines[i..i + n])
    decreases n
  {
    if n == 0 {
      assert block + lines[i..i] == block;
      assert elseBlock + lines[i..i] == elseBlock;
    } else {
      assert lines[i].kind == lines[i..i + n][0].kind;
      assert lines[i + 1..i + n] == lines[i..i + n][1..];
      assert lines[i..i + n] == [lines[i]] + lines[i + 1..i + n];
      if inElse {
        CollectFlat(lines, i + 1, n - 1, depth, inElse, block, elseBlock + [lines[i]]);
        assert elseBlock + [lines[i]] + lines[i + 1..i + n] == elseBlock + lines[i..i + n];
      } else {
        CollectFlat(lines, i + 1, n - 1, depth, inElse, block + [lines[i]], elseBlock);
        assert block + [lines[i]] + lines[i + 1..i + n] == block + lines[i..i + n];
      }
    }
  }

  /** Where the pass goes on after a flat conditional: past the directive,
      the then-block, the #else and else-block when there is one, and the
      #endif. */
  function Span(thenBlock: seq<Line>, elseBlock: seq<Line>, hasElse: bool): nat
  {
    |thenBlock| + |elseBlock| + if hasElse then 3 else 2
  }

  /** The conditional a line opens, followed by a then-block, then either
      an #else, an else-block and an #endif, or the #endif alone with an
      empty else-block; none of the block lines is a directive. */
  ghost predicate Conditional(lines: seq<Line>, thenBlock: seq<Line>, elseBlock: seq<Line>, hasElse: bool)
  {
    |lines| >= Span(thenBlock, elseBlock, hasElse)
    && Flat(thenBlock) && Flat(elseBlock)
    && lines[1..|thenBlock| + 1] == thenBlock
    && if hasElse then
         lines[|thenBlock| + 1].kind == Else
         && lines[|thenBlock| + 2..|thenBlock| + 2 + |elseBlock|] == elseBlock
         && lines[|thenBlock| + 2 + |elseBlock|].kind == Endif
       else
         elseBlock == [] && lines[|thenBlock| + 1].kind == Endif
  }

  /** Collecting a flat conditional: the then-block up to #else or #endif,
      the else-block from #else up to #endif. */
  lemma CollectConditional(lines: seq<Line>, thenBlock: seq<Line>, elseBlock: seq<Line>, hasElse: bool)
    requires Conditional(lines, thenBlock, elseBlock, hasElse)
    ensures Collect(lines, 1, 1, false, [], []) == Collected(Span(thenBlock, elseBlock, hasElse), thenBlock, elseBlock)
  {
    var t := |thenBlock|;
    CollectFlat(lines, 1, t, 1, false, [], []);
    assert [] + lines[1..1 + t] == thenBlock;
    if hasElse {
      assert Collect(lines, t + 1, 1, false, thenBlock, []) == Collect(lines, t + 2, 1, true, thenBlock, []);
      CollectElse(lines, thenBlock, elseBlock);
    } else {
      assert Collect(lines, t + 1, 1, false, thenBlock, []) == Collect(lines, t + 2, 0, false, thenBlock, []);
    }
  }

  lemma CollectElse(lines: seq<Line>, thenBlock: seq<Line>, elseBlock: seq<Line>)
    requires Conditional(lines, thenBlock, elseBlock, true)
    ensures Collect(lines, |thenBlock| + 2, 1, true, thenBlock, []) == Collected(|thenBlock| + |elseBlock| + 3, thenBlock, elseBlock)
  {
    var t := |thenBlock|;
    var e := |elseBlock|;
    CollectFlat(lines, t + 2, e, 1, true, thenBlock, []);
    assert [] + lines[t + 2..t + 2 + e] == elseBlock;
    assert Collect(lines, t + 2 + e, 1, true, thenBlock, elseBlock) == Collected(t + e + 3, thenBlock, elseBlock);
  }

  /** An evaluable conditional at the top of the file is replaced by its
      then-block when it evaluates true and by its else-block (empty
      without #else) otherwise; its directive lines go, and the pass goes
      on after #endif. */
  lemma ConditionalResolved(lines: seq<Line>, thenBlock: seq<Line>, elseBlock: seq<Line>, hasElse: bool)
    requires Conditional(lines, thenBlock, elseBlock, hasElse) && Evaluable(lines[0])
    ensures Resolve(lines) == (if Decide(lines[0].kind).value then thenBlock else elseBlock)
                              + PassFrom(lines, Span(thenBlock, elseBlock, hasElse))
  {
    CollectConditional(lines, thenBlock, elseBlock, hasElse);
    PassResolves(lines, 0);
  }

  /** The shape NestedKept is about: a directive, an opener, a then-block,
      an #else, an else-block, the inner #endif and the outer #endif. */
  ghost predicate Nested(lines: seq<Line>, a: nat, b: nat)
  {
    |lines| >= a + b + 5 && Opens(lines[1].kind)
    && Flat(lines[2..2 + a]) && lines[2 + a].kind == Else
    && Flat(lines[3 + a..3 + a + b]) && lines[3 + a + b].kind == Endif
    && lines[4 + a + b].kind == Endif
  }

  /** Collecting a nested conditional up to its inner #else: all kept. */
  lemma NestedThen(lines: seq<Line>, a: nat, b: nat)
    requires Nested(lines, a, b)
    ensures Collect(lines, 1, 1, false, [], []) == Collect(lines, 3 + a, 2, false, lines[1..3 + a], [])
  {
    assert Collect(lines, 1, 1, false, [], []) == Collect(lines, 2, 2, false, [lines[1]], []) by {
      assert [] + [lines[1]] == [lines[1]];
    }
    CollectFlat(lines, 2, a, 2, false, [lines[1]], []);
    assert [lines[1]] + lines[2..2 + a] == lines[1..2 + a];
    assert lines[1..2 + a] + [lines[2 + a]] == lines[1..3 + a];
  }

  /** From the inner #else to the outer #endif: kept up to the inner
      #endif, then the block ends. */
  lemma NestedElse(lines: seq<Line>, a: nat, b: nat)
    requires Nested(lines, a, b)
    ensures Collect(lines, 3 + a, 2, false, lines[1..3 + a], []) == Collected(5 + a + b, lines[1..4 + a + b], [])
  {
    CollectFlat(lines, 3 + a, b, 2, false, lines[1..3 + a], []);
    assert lines[1..3 + a] + lines[3 + a..3 + a + b] == lines[1..3 + a + b];
    assert Collect(lines, 3 + a + b, 2, false, lines[1..3 + a + b], []) == Collect(lines, 4 + a + b, 1, false, lines[1..4 + a + b], []) by {
      assert lines[1..3 + a + b] + [lines[3 + a + b]] == lines[1..4 + a + b];
    }
    assert Collect(lines, 4 + a + b, 1, false, lines[1..4 + a + b], []) == Collected(5 + a + b, lines[1..4 + a + b], []);
  }

  /** A conditional nested in a resolved one is kept whole: its opener,
      its #else (at depth 2 it does not switch blocks) and its #endif stay,
      and only the outer #endif is dropped. */
  lemma NestedKept(lines: seq<Line>, a: nat, b: nat)
    requires Nested(lines, a, b) && Evaluable(lines[0])
    ensures Resolve(lines) == (if Decide(lines[0].kind).value then lines[1..4 + a + b] else []) + PassFrom(lines, 5 + a + b)
  {
    NestedThen(lines, a, b);
    NestedElse(lines, a, b);
    PassResolves(lines, 0);
  }

  /** #ifdef F keeps the then-block exactly when F is enabled; without
      #else the block is dropped otherwise. */
  lemma IfdefResolved(lines: seq<Line>, thenBlock: seq<Line>, elseBlock: seq<Line>, hasElse: bool)
    requires Conditional(lines, thenBlock, elseBlock, hasElse) && lines[0].kind.Ifdef?
    ensures Resolve(lines) == (if lines[0].kind.feature in Enabled then thenBlock else elseBlock)
                              + PassFrom(lines, Span(thenBlock, elseBlock, hasElse))
    ensures !hasElse && lines[0].kind.feature !in Enabled ==> Resolve(lines) == PassFrom(lines, |thenBlock| + 2)
  {
    ConditionalResolved(lines, thenBlock, elseBlock, hasElse);
  }

  /** #ifndef F keeps the then-block exactly when F is disabled; without
      #else the block is dropped otherwise. */
  lemma IfndefResolved(lines: seq<Line>, thenBlock: seq<Line>, elseBlock: seq<Line>, hasElse: bool)
    requires Conditional(lines, thenBlock, elseBlock, hasElse) && lines[0].kind.Ifndef?
    ensures Resolve(lines) == (if lines[0].kind.feature in Disabled then thenBlock else elseBlock)
                              + PassFrom(lines, Span(thenBlock, elseBlock, hasElse))
    ensures !hasElse && lines[0].kind.feature !in Disabled ==> Resolve(lines) == PassFrom(lines, |thenBlock| + 2)
  {
    ConditionalResolved(lines, thenBlock, elseBlock, hasElse);
  }

  /** An #if defined line over known features: with && all must be
      enabled, with || one suffices, a lone feature must be enabled; a line
      naming an unknown feature, or several features with neither
      operator, is left as it is. */
  lemma IfDefinedDecision(fs: seq<string>, op: Op)
    ensures (|fs| == 0 || exists f :: f in fs && !Known(f)) ==> Decide(IfDefined(fs, op)) == None
    ensures |fs| > 0 && (forall f :: f in fs ==> Known(f)) ==>
      (op == And ==> Decide(IfDefined(fs, op)) == Some(forall f :: f in fs ==> f in Enabled))
      && (op == Or ==> Decide(IfDefined(fs, op)) == Some(exists f :: f in fs && f in Enabled))
      && (op == Single ==> (Decide(IfDefined(fs, op)).Some? <==> |fs| == 1))
      && (op == Single && |fs| == 1 ==> Decide(IfDefined(fs, op)) == Some(fs[0] in Enabled))
  {
  }

  /** An #if defined line that is left as it is stays in place, and the
      pass carries on with the very next line. */
  lemma UnresolvedKept(lines: seq<Line>, i: nat)
    requires i < |lines| && lines[i].kind.IfDefined? && exists f :: f in lines[i].kind.features && !Known(f)
    ensures PassFrom(lines, i) == [lines[i]] + PassFrom(lines, i + 1)
  {
  }

  /** A feature in neither list drops the then-block under #ifdef and
      under #ifndef alike: the script counts it as undefined for the one
      and as defined for the other. */
  lemma UnknownFeatureDropsBothWays(f: string)
    requires !Known(f)
    ensures Decide(Ifdef(f)) == Some(false) && Decide(Ifndef(f)) == Some(false)
  {
  }
}
