/**
 * The streaming markup-to-ANSI translator: a greedy per-character automaton
 * that buffers literal text, parses opening tags `{<options>--` into a delta
 * mask, pushes the merged absolute format on a stack, and pops it again on
 * the closing marker `--}`.
 *
 * `Machine` is the whole state of one automaton as a value and `Step` is one
 * call of `accept`; the class `FormatterAutomaton` holds the same state in
 * fields and its `Accept` is proved to perform exactly `Step`. The output
 * stream (stdout) is modelled as the string `out` that the automaton appends to.
 */
module Formatter {
  import opened Wrappers
  import opened FormatMask

  datatype Phase = DefaultState | ParseOpeningBracket | SkipLeadingPadding

  /** isspace in the C locale */
  predicate IsSpace(c: char) {
    c == ' ' || c == '\t' || c == '\n' || c == '\U{0B}' || c == '\U{0C}' || c == '\r'
  }

  /** isupper in the C locale */
  predicate IsUpper(c: char) { 'A' <= c <= 'Z' }

  /** The option alphabet: colours 0-7, '-' 8, 'd' and ';' 9-10, light colours 11-18, symbols 19-29. */
  const FORMAT_CHARS: string := "krgybmcw-d;KRGYBMCW%!*/_^=~.#0"

  /** formatChars.find(c) from position i on. */
  function FindFormatCharFrom(c: char, i: nat): (r: Option<nat>)
    requires i <= |FORMAT_CHARS|
    ensures r.Some? ==> i <= r.value < |FORMAT_CHARS| && FORMAT_CHARS[r.value] == c
    ensures r.Some? ==> forall j :: i <= j < r.value ==> FORMAT_CHARS[j] != c
    ensures r.None? ==> forall j :: i <= j < |FORMAT_CHARS| ==> FORMAT_CHARS[j] != c
    decreases |FORMAT_CHARS| - i
  {
    if i == |FORMAT_CHARS| then None
    else if FORMAT_CHARS[i] == c then Some(i)
    else FindFormatCharFrom(c, i + 1)
  }

  /** formatChars.find(c): the first position of c in the option alphabet, or None for npos. */
  function FindFormatChar(c: char): Option<nat> { FindFormatCharFrom(c, 0) }

  /** The colour an option letter at position `found` (at most 18) stands for: upper case is the light variant of found - 11. */
  function OptionColour(c: char, found: nat): (r: Mask)
    requires found <= 18 && FORMAT_CHARS[found] == c
    ensures r < 0x20
  {
    OptionLetterCase(c, found);
    if IsUpper(c) then Lighter((found - 11) as Mask) else found as Mask
  }

  /** The upper-case option letters are exactly the light colours, positions 11 to 18. */
  lemma OptionLetterCase(c: char, found: nat)
    requires found <= 18 && FORMAT_CHARS[found] == c
    ensures IsUpper(c) <==> 11 <= found
  {
  }

  /** The mask bit of a symbol option: never a colour bit. */
  function SymbolMask(c: char): (r: Mask)
    ensures r & (FG_MASK | BG_MASK) == 0
  {
    match c
    case '%' => REVERSED
    case '!' => BLINK
    case '*' => BOLD
    case '/' => ITALIC
    case '_' => UNDERLINE
    case '^' => OVERLINE
    case '=' => DOUBLE_UNDERLINE
    case '~' => STRIKETHROUGH
    case '.' => DIM
    case '#' => TRIM
    case _ => RESET
  }

  predicate EndsWith(s: string, suffix: string) {
    |suffix| <= |s| && s[|s| - |suffix|..] == suffix
  }

  /** s less its longest run of trailing whitespace */
  function DropTrailingSpace(s: string): (r: string)
    ensures r <= s
    ensures |r| == 0 || !IsSpace(r[|r| - 1])
    ensures forall k :: |r| <= k < |s| ==> IsSpace(s[k])
  {
    if |s| > 0 && IsSpace(s[|s| - 1]) then DropTrailingSpace(s[..|s| - 1]) else s
  }

  /** regex_replace of `--}$` (or of `\s*--}$` when trimming) by the empty string, on a store that ends with "--}". */
  function CutClosing(store: string, trim: bool): (r: string)
    requires EndsWith(store, "--}")
    ensures r <= store[..|store| - 3]
    ensures !trim ==> r == store[..|store| - 3]
    ensures trim ==> (|r| == 0 || !IsSpace(r[|r| - 1]))
    ensures trim ==> forall k :: |r| <= k < |store| - 3 ==> IsSpace(store[k])
  {
    var body := store[..|store| - 3];
    if trim then DropTrailingSpace(body) else body
  }

  /** The whole state of a FormatterAutomaton, including what it has written so far. */
  datatype Machine = Machine(
    strip: bool,
    stack: seq<Mask>,        // formatStack, bottom first
    store: string,
    state: Phase,
    bracketMask: Mask,
    parsedColorParts: int,
    out: string)

  /**
   * What every reachable machine satisfies: the stack is never empty, its bottom is INITIAL,
   * every entry is an absolute format, the pending tag mask is a delta, and at most two
   * colour parts have been parsed.
   */
  ghost predicate Inv(m: Machine) {
    FormatStack(m.stack) && Delta(m.bracketMask) && 0 <= m.parsedColorParts <= 2
  }

  /** A well-formed format stack: never empty, INITIAL at the bottom, absolute formats only. */
  ghost predicate FormatStack(stack: seq<Mask>) {
    |stack| >= 1 && stack[0] == INITIAL_FORMAT_MASK && forall i :: 0 <= i < |stack| ==> Absolute(stack[i])
  }

  function Top(m: Machine): Mask
    requires |m.stack| >= 1
  {
    m.stack[|m.stack| - 1]
  }

  /** printANSI: nothing is written in strip mode. */
  function Emit(m: Machine, ansi: string): Machine {
    if m.strip then m else m.(out := m.out + ansi)
  }

  /** flushStore */
  function Flush(m: Machine): Machine {
    m.(out := m.out + m.store, store := "")
  }

  /** The constructor: the stack holds INITIAL and its rendering is written. */
  function Initial(strip: bool): (m: Machine)
    ensures Inv(m)
  {
    InitialIsAbsolute();
    EmptyIsDelta();
    Emit(Machine(strip, [INITIAL_FORMAT_MASK], "", DefaultState, EMPTY_FORMAT_MASK, 0, ""),
         FormatToAnsi(INITIAL_FORMAT_MASK))
  }

  /** pushFormat(mask), without the write of its result: the merged format becomes the new top. */
  function Pushed(m: Machine, mask: Mask): (r: Machine)
    requires |m.stack| >= 1
    ensures |r.stack| == |m.stack| + 1 && r.stack[..|m.stack|] == m.stack
  {
    var r := m.(stack := m.stack + [Merge(Top(m), mask)]);
    assert r.stack[..|m.stack|] == m.stack;
    r
  }

  /** popFormat, without the write of its result: the bottom entry is never removed. */
  function Popped(m: Machine): (r: Machine)
    requires |m.stack| >= 1
    ensures |r.stack| >= 1
  {
    if |m.stack| > 1 then m.(stack := m.stack[..|m.stack| - 1]) else m
  }

  /** cleanAfterBracketParse */
  function Cleaned(m: Machine, success: bool): (r: Machine)
    ensures r.stack == m.stack && r.strip == m.strip
  {
    var m' := if success then m.(store := "") else Flush(m);
    m'.(parsedColorParts := 0,
        state := if success && Has(m.bracketMask, TRIM) then SkipLeadingPadding else DefaultState,
        bracketMask := EMPTY_FORMAT_MASK)
  }

  /** Whitespace: kept in the store, except while skipping leading padding outside strip mode. */
  function AcceptSpace(m: Machine, c: char): (r: Machine)
    ensures r.stack == m.stack && r.strip == m.strip
  {
    if m.state != SkipLeadingPadding || m.strip then m.(store := m.store + [c]) else m
  }

  /** '{': the pending text is written and a new tag starts with an empty delta. */
  function AcceptOpen(m: Machine): (r: Machine)
    ensures r.stack == m.stack && r.strip == m.strip
  {
    Flush(m).(store := "{", bracketMask := EMPTY_FORMAT_MASK, state := ParseOpeningBracket)
  }

  /** The character '-': completes an opening tag on "--" while parsing one, else leaves padding-skipping. */
  function AcceptDash(m: Machine): (r: Machine)
    requires |m.stack| >= 1
    ensures |r.stack| >= 1 && r.strip == m.strip
  {
    var m := m.(store := m.store + "-");
    if m.state == ParseOpeningBracket then
      if EndsWith(m.store, "--") then
        var pushed := Pushed(m, m.bracketMask);
        Cleaned(Emit(pushed, FormatToAnsi(Top(pushed))), true)
      else m
    else m.(state := DefaultState)
  }

  /** A colour option: recorded as the next colour part, or the tag is abandoned when two were parsed already. */
  function AcceptColour(m: Machine, c: char, found: nat): (r: Machine)
    requires found <= 18 && FORMAT_CHARS[found] == c
    ensures r.stack == m.stack && r.strip == m.strip
  {
    var m := m.(store := m.store + [c]);
    if m.parsedColorParts < 2 then
      m.(bracketMask := WithColor(m.bracketMask, OptionColour(c, found), m.parsedColorParts),
         parsedColorParts := m.parsedColorParts + 1)
    else
      Cleaned(m, false)
  }

  /** A symbol option: set in the tag mask, or the tag is abandoned when it is already there. */
  function AcceptSymbol(m: Machine, c: char): (r: Machine)
    ensures r.stack == m.stack && r.strip == m.strip
  {
    var m := m.(store := m.store + [c]);
    var op := SymbolMask(c);
    if Has(m.bracketMask, op) then Cleaned(m, false) else m.(bracketMask := m.bracketMask | op)
  }

  /** The character '}': closes the innermost tag on "--}", else is literal text. */
  function AcceptClose(m: Machine): (r: Machine)
    requires |m.stack| >= 1
    ensures |r.stack| >= 1 && r.strip == m.strip
  {
    var m := m.(store := m.store + "}");
    if EndsWith(m.store, "--}") then CloseTag(m) else Flush(m).(state := DefaultState)
  }

  /**
   * A store ending in "--}": above the bottom entry the marker is cut (with the whitespace
   * before it in a trimmed region outside strip mode); the store is written, the top popped
   * and the new top rendered.
   */
  function CloseTag(m: Machine): (r: Machine)
    requires |m.stack| >= 1 && EndsWith(m.store, "--}")
    ensures |r.stack| >= 1 && r.strip == m.strip
  {
    var cut := if |m.stack| > 1 then m.(store := CutClosing(m.store, Has(Top(m), TRIM) && !m.strip)) else m;
    var popped := Popped(Flush(cut));
    Emit(popped, FormatToAnsi(Top(popped))).(state := DefaultState)
  }

  /** Any other character is literal text and ends whatever was being parsed. */
  function AcceptLiteral(m: Machine, c: char): (r: Machine)
    ensures r.stack == m.stack && r.strip == m.strip
  {
    Flush(m.(store := m.store + [c])).(state := DefaultState)
  }

  /** accept(c): one character of input. */
  function Step(m: Machine, c: char): (r: Machine)
    requires |m.stack| >= 1
    ensures |r.stack| >= 1 && r.strip == m.strip
  {
    if IsSpace(c) then AcceptSpace(m, c)
    else if c == '{' then AcceptOpen(m)
    else if c == '-' then AcceptDash(m)
    else if m.state == ParseOpeningBracket && FindFormatChar(c).Some? then
      var found := FindFormatChar(c).value;
      if found <= 18 then AcceptColour(m, c, found) else AcceptSymbol(m, c)
    else if c == '}' then AcceptClose(m)
    else AcceptLiteral(m, c)
  }

  /** Feeding a whole input, character by character. */
  function Run(m: Machine, input: string): (r: Machine)
    requires |m.stack| >= 1
    ensures |r.stack| >= 1 && r.strip == m.strip
    decreases |input|
  {
    if |input| == 0 then m else Run(Step(m, input[0]), input[1..])
  }

  /** The destructor: the store is flushed and the initial format is rendered. */
  function Finished(m: Machine): Machine {
    Emit(Flush(m), FormatToAnsi(INITIAL_FORMAT_MASK))
  }

  /** The output of one automaton over one input, from construction to destruction. */
  function Translate(strip: bool, input: string): string {
    Finished(Run(Initial(strip), input)).out
  }

  // ---------------------------------------------------------------------------
  // The invariant is kept by every transition

  lemma PushedInv(m: Machine, mask: Mask)
    requires Inv(m) && Delta(mask)
    ensures Inv(Pushed(m, mask))
  {
    MergeAbsolute(Top(m), mask);
  }

  lemma PoppedInv(m: Machine)
    requires Inv(m)
    ensures Inv(Popped(m))
  {
  }

  lemma CleanedInv(m: Machine, success: bool)
    requires Inv(m)
    ensures Inv(Cleaned(m, success))
  {
    EmptyIsDelta();
  }

  /** The colour an option letter at position `found` (at most 18, not '-') stands for is a delta colour. */
  lemma OptionColourIsDelta(c: char, found: nat)
    requires found <= 18 && FORMAT_CHARS[found] == c && c != '-'
    ensures DeltaColor(OptionColour(c, found) & FG_COLOR, Has(OptionColour(c, found), FG_LIGHT))
  {
    OptionLetterCase(c, found);
    assert found != 8;
  }

  lemma ColourInv(m: Machine, c: char, found: nat)
    requires Inv(m) && found <= 18 && FORMAT_CHARS[found] == c && c != '-'
    ensures Inv(AcceptColour(m, c, found))
  {
    var m1 := m.(store := m.store + [c]);
    if m.parsedColorParts < 2 {
      OptionColourIsDelta(c, found);
      WithColorDelta(m.bracketMask, OptionColour(c, found), m.parsedColorParts);
    } else {
      CleanedInv(m1, false);
    }
  }

  lemma SymbolInv(m: Machine, c: char)
    requires Inv(m)
    ensures Inv(AcceptSymbol(m, c))
  {
    var m1 := m.(store := m.store + [c]);
    if Has(m.bracketMask, SymbolMask(c)) {
      CleanedInv(m1, false);
    } else {
      OrKeepsDelta(m.bracketMask, SymbolMask(c));
    }
  }

  lemma DashInv(m: Machine)
    requires Inv(m)
    ensures Inv(AcceptDash(m))
  {
    var m1 := m.(store := m.store + "-");
    if m1.state == ParseOpeningBracket && EndsWith(m1.store, "--") {
      var pushed := Pushed(m1, m1.bracketMask);
      PushedInv(m1, m1.bracketMask);
      CleanedInv(Emit(pushed, FormatToAnsi(Top(pushed))), true);
    }
  }

  lemma CloseTagInv(m: Machine)
    requires Inv(m) && EndsWith(m.store, "--}")
    ensures Inv(CloseTag(m))
  {
    var cut := if |m.stack| > 1 then m.(store := CutClosing(m.store, Has(Top(m), TRIM) && !m.strip)) else m;
    PoppedInv(Flush(cut));
  }

  lemma CloseInv(m: Machine)
    requires Inv(m)
    ensures Inv(AcceptClose(m))
  {
    var m1 := m.(store := m.store + "}");
    if EndsWith(m1.store, "--}") {
      CloseTagInv(m1);
    }
  }

  /** accept keeps the invariant. */
  lemma StepInv(m: Machine, c: char)
    requires Inv(m)
    ensures Inv(Step(m, c))
  {
    if IsSpace(c) || c == '{' {
      EmptyIsDelta();
    } else if c == '-' {
      DashInv(m);
    } else if m.state == ParseOpeningBracket && FindFormatChar(c).Some? {
      var found := FindFormatChar(c).value;
      if found <= 18 {
        ColourInv(m, c, found);
      } else {
        SymbolInv(m, c);
      }
    } else if c == '}' {
      CloseInv(m);
    }
  }

  /** ... and so does any input. */
  lemma {:induction false} RunInv(m: Machine, input: string)
    requires Inv(m)
    ensures Inv(Run(m, input))
    decreases |input|
  {
    if |input| > 0 {
      StepInv(m, input[0]);
      RunInv(Step(m, input[0]), input[1..]);
    }
  }

  /** Feeding one more character is one more step. */
  lemma {:induction false} RunAppend(m: Machine, input: string, c: char)
    requires |m.stack| >= 1
    ensures Run(m, input + [c]) == Step(Run(m, input), c)
    decreases |input|
  {
    if |input| == 0 {
      assert (input + [c])[1..] == [];
    } else {
      assert (input + [c])[1..] == input[1..] + [c];
      RunAppend(Step(m, input[0]), input[1..], c);
    }
  }

  /** RunAppend on a prefix of one input, the form a character-by-character loop uses. */
  lemma RunPrefix(m: Machine, input: string, i: nat)
    requires |m.stack| >= 1 && i < |input|
    ensures Run(m, input[..i + 1]) == Step(Run(m, input[..i]), input[i])
  {
    assert input[..i + 1] == input[..i] + [input[i]];
    RunAppend(m, input[..i], input[i]);
  }

  /** Every format on the stack, the top included, satisfies formatToAnsi's assertion ... */
  lemma TopRenders(m: Machine)
    requires Inv(m)
    ensures Has(Top(m), VALID) && Has(Top(m), RESET)
  {
    assert Absolute(m.stack[|m.stack| - 1]);
  }

  /** ... so every sequence the automaton writes starts by resetting the terminal. */
  lemma RenderingResets(m: Machine)
    requires Inv(m)
    ensures FormatToAnsi(Top(m))[..4] == "\U{1B}[0;"
  {
    TopRenders(m);
    FormatToAnsiResets(Top(m));
  }

  // ---------------------------------------------------------------------------
  // Behaviour of the automaton

  /** The rendering of the initial format, written by the constructor and the destructor. */
  const INITIAL_ANSI: string := "\U{1B}[0;39;49m"

  lemma InitialControlCodes()
    ensures ControlCodes(INITIAL_FORMAT_MASK) == [0]
  {
    var m := INITIAL_FORMAT_MASK;
    assert ControlCodesFrom(m, 10) == [];
    assert ControlCodesFrom(m, 9) == [];
    assert ControlCodesFrom(m, 8) == [];
    assert ControlCodesFrom(m, 7) == [];
    assert ControlCodesFrom(m, 6) == [];
    assert ControlCodesFrom(m, 5) == [];
    assert ControlCodesFrom(m, 4) == [];
    assert ControlCodesFrom(m, 3) == [];
    assert ControlCodesFrom(m, 2) == [];
    assert ControlCodesFrom(m, 1) == [];
  }

  lemma InitialRendering()
    ensures FormatToAnsi(INITIAL_FORMAT_MASK) == INITIAL_ANSI
    ensures Initial(false).out == INITIAL_ANSI && Initial(true).out == ""
  {
    InitialCodes();
    InitialTagged();
  }

  lemma InitialCodes()
    ensures Codes(INITIAL_FORMAT_MASK) == [0, 39, 49]
  {
    InitialControlCodes();
  }

  lemma InitialTagged()
    ensures Tagged([0, 39, 49]) == ";0;39;49"
  {
    TaggedColours();
    assert [0, 39, 49][1..] == [39, 49];
  }

  lemma TaggedColours()
    ensures Tagged([39, 49]) == ";39;49"
  {
    TaggedBg();
    assert NatToString(39) == "39";
    assert [39, 49][1..] == [49];
  }

  lemma TaggedBg()
    ensures Tagged([49]) == ";49"
  {
    assert NatToString(49) == "49";
  }

  /** formatChars.find gives the first position of a character ... */
  lemma FindFormatCharAt(c: char, i: nat)
    requires i < |FORMAT_CHARS| && FORMAT_CHARS[i] == c
    requires forall j :: 0 <= j < i ==> FORMAT_CHARS[j] != c
    ensures FindFormatChar(c) == Some(i)
  {
  }

  /** ... and npos for a character outside the alphabet. */
  lemma FindFormatCharNone(c: char)
    requires c !in FORMAT_CHARS
    ensures FindFormatChar(c) == None
  {
  }

  /** Pushing then popping leaves the stack, and so the rendered format, as it was. */
  lemma PushPopRestores(m: Machine, mask: Mask)
    requires |m.stack| >= 1
    ensures Popped(Pushed(m, mask)).stack == m.stack
    ensures Top(Popped(Pushed(m, mask))) == Top(m)
  {
  }

  /**
   * The "--" that completes an opening tag: the merged format is pushed and (unless stripping)
   * rendered, the store is discarded, and the automaton skips leading padding iff the tag had '#'.
   */
  lemma OpeningTag(m: Machine)
    requires |m.stack| >= 1 && m.state == ParseOpeningBracket && EndsWith(m.store + "-", "--")
    ensures var r, top := Step(m, '-'), Merge(Top(m), m.bracketMask);
      r.stack == m.stack + [top]
      && r.out == m.out + (if m.strip then "" else FormatToAnsi(top))
      && r.store == "" && r.bracketMask == EMPTY_FORMAT_MASK && r.parsedColorParts == 0
      && r.state == (if Has(m.bracketMask, TRIM) then SkipLeadingPadding else DefaultState)
  {
    assert Step(m, '-') == AcceptDash(m);
    DashCompletes(m);
  }

  lemma DashCompletes(m: Machine)
    requires |m.stack| >= 1 && m.state == ParseOpeningBracket && EndsWith(m.store + "-", "--")
    ensures var r, top := AcceptDash(m), Merge(Top(m), m.bracketMask);
      r.stack == m.stack + [top]
      && r.out == m.out + (if m.strip then "" else FormatToAnsi(top))
      && r.store == "" && r.bracketMask == EMPTY_FORMAT_MASK && r.parsedColorParts == 0
      && r.state == (if Has(m.bracketMask, TRIM) then SkipLeadingPadding else DefaultState)
  {
    var top := Merge(Top(m), m.bracketMask);
    var m1 := m.(store := m.store + "-");
    var pushed := Pushed(m1, m1.bracketMask);
    assert pushed.stack == m.stack + [top] && pushed.out == m.out;
    var e := Emit(pushed, FormatToAnsi(Top(pushed)));
    assert e.out == m.out + (if m.strip then "" else FormatToAnsi(top)) && e.stack == pushed.stack;
    assert AcceptDash(m) == Cleaned(e, true);
  }

  /** A '-' outside a tag is text, and ends padding-skipping. */
  lemma DashOutsideTag(m: Machine)
    requires |m.stack| >= 1 && m.state != ParseOpeningBracket
    ensures Step(m, '-') == m.(store := m.store + "-", state := DefaultState)
  {
    assert Step(m, '-') == AcceptDash(m);
  }

  /**
   * The '}' that completes "--}" above the bottom entry: the marker (and, in a trimmed
   * region outside strip mode, the whitespace before it: see CutClosing) is cut, the rest of
   * the store is written, the top is popped and the new top is rendered.
   */
  lemma ClosingTag(m: Machine)
    requires |m.stack| > 1 && EndsWith(m.store + "}", "--}")
    ensures var r, trim := Step(m, '}'), Has(Top(m), TRIM) && !m.strip;
      r.stack == m.stack[..|m.stack| - 1]
      && r.out == m.out + CutClosing(m.store + "}", trim)
                  + (if m.strip then "" else FormatToAnsi(m.stack[|m.stack| - 2]))
      && r.store == "" && r.state == DefaultState
  {
    assert Step(m, '}') == AcceptClose(m) by { StepCloses(m); }
    CloseNested(m);
  }

  lemma CloseNested(m: Machine)
    requires |m.stack| > 1 && EndsWith(m.store + "}", "--}")
    ensures var r, trim := AcceptClose(m), Has(Top(m), TRIM) && !m.strip;
      r.stack == m.stack[..|m.stack| - 1]
      && r.out == m.out + CutClosing(m.store + "}", trim)
                  + (if m.strip then "" else FormatToAnsi(m.stack[|m.stack| - 2]))
      && r.store == "" && r.state == DefaultState
  {
    var m1 := m.(store := m.store + "}");
    var trim := Has(Top(m1), TRIM) && !m1.strip;
    var text := CutClosing(m1.store, trim);
    var cut := m1.(store := text);
    var flushed := Flush(cut);
    assert flushed.out == m.out + text && flushed.store == "";
    var popped := Popped(flushed);
    assert popped.out == flushed.out && popped.store == "";
    assert popped.stack == m.stack[..|m.stack| - 1];
    assert Top(popped) == m.stack[|m.stack| - 2];
    var e := Emit(popped, FormatToAnsi(Top(popped)));
    assert e.out == m.out + text + (if m.strip then "" else FormatToAnsi(m.stack[|m.stack| - 2]));
    assert AcceptClose(m) == e.(state := DefaultState);
  }

  /** Which branch of accept a character takes. */
  lemma StepCloses(m: Machine)
    requires |m.stack| >= 1
    ensures Step(m, '}') == AcceptClose(m)
  {
    FindFormatCharNone('}');
  }

  /** A "--}" with no open tag is literal text: nothing is cut and INITIAL is rendered again. */
  lemma UnbalancedClosingTag(m: Machine)
    requires Inv(m) && |m.stack| == 1 && EndsWith(m.store + "}", "--}")
    ensures var r := Step(m, '}');
      r.stack == [INITIAL_FORMAT_MASK] && r.store == "" && r.state == DefaultState
      && r.out == m.out + m.store + "}" + (if m.strip then "" else FormatToAnsi(INITIAL_FORMAT_MASK))
  {
    assert Step(m, '}') == AcceptClose(m) by { StepCloses(m); }
    CloseUnbalanced(m);
  }

  lemma CloseUnbalanced(m: Machine)
    requires Inv(m) && |m.stack| == 1 && EndsWith(m.store + "}", "--}")
    ensures var r := AcceptClose(m);
      r.stack == [INITIAL_FORMAT_MASK] && r.store == "" && r.state == DefaultState
      && r.out == m.out + m.store + "}" + (if m.strip then "" else FormatToAnsi(INITIAL_FORMAT_MASK))
  {
    var s := m.store + "}";
    var flushed := Flush(m.(store := s));
    assert flushed.out == m.out + m.store + "}" && flushed.store == "";
    var popped := Popped(flushed);
    assert popped == flushed;
    assert AcceptClose(m) == Emit(popped, FormatToAnsi(Top(popped))).(state := DefaultState);
  }

  /** While skipping padding outside strip mode, whitespace is dropped; in strip mode it is always kept. */
  lemma LeadingPadding(m: Machine, c: char)
    requires |m.stack| >= 1 && IsSpace(c)
    ensures m.state == SkipLeadingPadding && !m.strip ==> Step(m, c) == m
    ensures m.strip || m.state != SkipLeadingPadding ==> Step(m, c) == m.(store := m.store + [c])
  {
  }

  /** A third colour letter abandons the tag: its text, this letter included, becomes literal output. */
  lemma ThirdColourAbandons(m: Machine, c: char, found: nat)
    requires |m.stack| >= 1 && m.state == ParseOpeningBracket && c != '-' && !IsSpace(c) && c != '{'
    requires FindFormatChar(c) == Some(found) && found <= 18 && m.parsedColorParts == 2
    ensures Step(m, c) == m.(out := m.out + m.store + [c], store := "", state := DefaultState,
                            bracketMask := EMPTY_FORMAT_MASK, parsedColorParts := 0)
  {
  }

  /** A repeated symbol abandons the tag in the same way. */
  lemma RepeatedSymbolAbandons(m: Machine, c: char, found: nat)
    requires |m.stack| >= 1 && m.state == ParseOpeningBracket && c != '-' && !IsSpace(c) && c != '{'
    requires FindFormatChar(c) == Some(found) && found > 18 && Has(m.bracketMask, SymbolMask(c))
    ensures Step(m, c) == m.(out := m.out + m.store + [c], store := "", state := DefaultState,
                            bracketMask := EMPTY_FORMAT_MASK, parsedColorParts := 0)
  {
  }

  /**
   * '{' does not reset the colour count: only a completed or abandoned tag does. A tag that
   * follows an unterminated one therefore starts with the stale count (see StaleColourCount).
   */
  lemma OpenKeepsColourCount(m: Machine)
    requires |m.stack| >= 1
    ensures Step(m, '{').parsedColorParts == m.parsedColorParts
    ensures Step(m, '{').state == ParseOpeningBracket && Step(m, '{').store == "{"
    ensures Step(m, '{').out == m.out + m.store
  {
    assert Step(m, '{') == AcceptOpen(m);
  }

  /** A character that is neither whitespace, a tag character nor an option is literal text; the colour count is left as it was. */
  lemma LiteralKeepsColourCount(m: Machine, c: char)
    requires |m.stack| >= 1 && !IsSpace(c) && c != '{' && c != '-' && c != '}' && FindFormatChar(c).None?
    ensures Step(m, c) == m.(out := m.out + m.store + [c], store := "", state := DefaultState)
  {
    assert Step(m, c) == AcceptLiteral(m, c);
  }

  /** No option character is whitespace or a brace. */
  lemma OptionNotSpecial(found: nat)
    requires found < |FORMAT_CHARS|
    ensures var c := FORMAT_CHARS[found]; !IsSpace(c) && c != '{' && c != '}'
  {
  }

  /**
   * The stale colour count: after an unterminated tag that parsed two colours (for instance
   * "{rg" followed by a literal, see LiteralKeepsColourCount), the next tag is abandoned at its
   * first colour letter, though that letter is well-formed.
   */
  lemma StaleColourCount(m: Machine, c: char, found: nat)
    requires |m.stack| >= 1 && m.parsedColorParts == 2 && c != '-'
    requires FindFormatChar(c) == Some(found) && found <= 18
    ensures var r := Step(Step(m, '{'), c);
      r.stack == m.stack && r.out == m.out + m.store + "{" + [c] && r.store == ""
      && r.state == DefaultState && r.parsedColorParts == 0
  {
    var m1 := AcceptOpen(m);
    assert Step(m, '{') == m1;
    assert m1.state == ParseOpeningBracket && m1.parsedColorParts == 2;
    assert m1.store == "{" && m1.out == m.out + m.store;
    OptionNotSpecial(found);
    assert Step(m1, c) == AcceptColour(m1, c, found);
    assert AcceptColour(m1, c, found) == Cleaned(m1.(store := "{" + [c]), false);
  }

  // ---------------------------------------------------------------------------
  // Strip mode writes no escape sequence

  const ESC: char := '\U{1B}'

  ghost predicate EscapeFree(m: Machine) {
    ESC !in m.out && ESC !in m.store
  }

  lemma StripCloseTag(m: Machine)
    requires |m.stack| >= 1 && EndsWith(m.store, "--}") && m.strip && EscapeFree(m)
    ensures EscapeFree(CloseTag(m))
  {
    var cut := if |m.stack| > 1 then m.(store := CutClosing(m.store, Has(Top(m), TRIM) && !m.strip)) else m;
    assert cut.store <= m.store;
    var popped := Popped(Flush(cut));
    assert popped.out == m.out + cut.store && popped.store == "";
    assert CloseTag(m) == popped.(state := DefaultState);
  }

  lemma StripDash(m: Machine)
    requires |m.stack| >= 1 && m.strip && EscapeFree(m)
    ensures EscapeFree(AcceptDash(m))
  {
    var m1 := m.(store := m.store + "-");
    if m1.state == ParseOpeningBracket && EndsWith(m1.store, "--") {
      var pushed := Pushed(m1, m1.bracketMask);
      assert Emit(pushed, FormatToAnsi(Top(pushed))) == pushed;
      assert AcceptDash(m) == Cleaned(pushed, true);
    }
  }

  lemma StripClose(m: Machine)
    requires |m.stack| >= 1 && m.strip && EscapeFree(m)
    ensures EscapeFree(AcceptClose(m))
  {
    var m1 := m.(store := m.store + "}");
    if EndsWith(m1.store, "--}") {
      StripCloseTag(m1);
    }
  }

  /** In strip mode a character other than ESC never brings an escape character into the output. */
  lemma StripStep(m: Machine, c: char)
    requires |m.stack| >= 1 && m.strip && EscapeFree(m) && c != ESC
    ensures EscapeFree(Step(m, c))
  {
    if IsSpace(c) {
      assert Step(m, c) == AcceptSpace(m, c);
    } else if c == '{' {
      assert Step(m, c) == AcceptOpen(m);
    } else if c == '-' {
      assert Step(m, c) == AcceptDash(m);
      StripDash(m);
    } else if m.state == ParseOpeningBracket && FindFormatChar(c).Some? {
      var found := FindFormatChar(c).value;
      if found <= 18 {
        assert Step(m, c) == AcceptColour(m, c, found);
      } else {
        assert Step(m, c) == AcceptSymbol(m, c);
      }
    } else if c == '}' {
      assert Step(m, c) == AcceptClose(m) by { StepCloses(m); }
      StripClose(m);
    } else {
      assert Step(m, c) == AcceptLiteral(m, c);
    }
  }

  lemma {:induction false} StripRun(m: Machine, input: string)
    requires |m.stack| >= 1 && m.strip && EscapeFree(m) && ESC !in input
    ensures EscapeFree(Run(m, input))
    decreases |input|
  {
    if |input| > 0 {
      StripStep(m, input[0]);
      StripRun(Step(m, input[0]), input[1..]);
    }
  }

  /** With strip on, printANSI writes nothing: the output holds no escape character the input did not. */
  lemma StripWritesNoEscape(input: string)
    requires ESC !in input
    ensures ESC !in Translate(true, input)
  {
    var m0 := Initial(true);
    assert m0.out == "" && m0.store == "";
    StripRun(m0, input);
  }

  /** The loop of formatToAnsi that appends ";" and the decimal digits of every code. */
  method JoinCodes(codes: seq<nat>) returns (joined: string)
    ensures joined == Tagged(codes)
  {
    joined := "";
    var k := 0;
    while k < |codes|
      invariant k <= |codes|
      invariant joined == Tagged(codes[..k])
    {
      TaggedAppend(codes[..k], codes[k]);
      assert codes[..k + 1] == codes[..k] + [codes[k]];
      joined := joined + ";" + NatToString(codes[k]);
      k := k + 1;
    }
    assert codes[..k] == codes;
  }

  /**
   * The automaton object itself: its fields are updated in place by accept, and the text it
   * writes is appended to `out`. Each method is proved to perform the corresponding function
   * on the snapshot of its fields.
   */
  class FormatterAutomaton {
    const strip: bool
    var formatStack: seq<Mask>   // bottom first
    var store: string
    var state: Phase
    var bracketMask: Mask
    var parsedColorParts: int
    var out: string

    function Snapshot(): Machine
      reads this
    {
      Machine(strip, formatStack, store, state, bracketMask, parsedColorParts, out)
    }

    ghost predicate Valid()
      reads this
    {
      Inv(Snapshot())
    }

    /** FormatterAutomaton(strip): INITIAL is pushed and rendered. */
    constructor(strip: bool)
      ensures Valid() && Snapshot() == Initial(strip)
    {
      this.strip := strip;
      formatStack := [INITIAL_FORMAT_MASK];
      store := "";
      state := DefaultState;
      bracketMask := EMPTY_FORMAT_MASK;
      parsedColorParts := 0;
      out := "";
      new;
      var ansi := FormatToAnsi(INITIAL_FORMAT_MASK);
      PrintAnsi(ansi);
    }

    method PrintAnsi(ansi: string)
      modifies this
      ensures Snapshot() == Emit(old(Snapshot()), ansi)
    {
      if !strip {
        out := out + ansi;
      }
    }

    method StoreChar(c: char)
      modifies this
      ensures Snapshot() == old(Snapshot()).(store := old(store) + [c])
    {
      store := store + [c];
    }

    method ClearStore()
      modifies this
      ensures Snapshot() == old(Snapshot()).(store := "")
    {
      store := "";
    }

    method FlushStore()
      modifies this
      ensures Snapshot() == Flush(old(Snapshot()))
    {
      if |store| > 0 {
        out := out + store;
      } else {
        assert out + store == out;
      }
      ClearStore();
    }

    /** formatToAnsi: the parameters of the mask, joined with ';' between ESC '[' and 'm'. */
    method FormatToAnsi(format: Mask) returns (ansi: string)
      ensures ansi == FormatMask.FormatToAnsi(format)
    {
      var codes := Codes(format);
      var joined := JoinCodes(codes);
      ansi := "\U{1B}[" + joined[1..] + "m";
    }

    /** pushFormat(mask): the merge of mask onto the top is pushed and its rendering returned. */
    method PushFormat(mask: Mask) returns (ansi: string)
      requires |formatStack| >= 1
      modifies this
      ensures Snapshot() == Pushed(old(Snapshot()), mask)
      ensures ansi == FormatMask.FormatToAnsi(Top(Snapshot()))
    {
      ghost var m0 := Snapshot();
      var format := Merge(formatStack[|formatStack| - 1], mask);
      formatStack := formatStack + [format];
      ghost var m := Snapshot();
      assert m == Pushed(m0, mask);
      ansi := FormatToAnsi(format);
      assert Snapshot() == m;
    }

    /** popFormat: the top is removed unless it is the bottom entry, and the new top's rendering returned. */
    method PopFormat() returns (ansi: string)
      requires |formatStack| >= 1
      modifies this
      ensures Snapshot() == Popped(old(Snapshot()))
      ensures ansi == FormatMask.FormatToAnsi(Top(Snapshot()))
    {
      if |formatStack| > 1 {
        formatStack := formatStack[..|formatStack| - 1];
      }
      ghost var m := Snapshot();
      var top := formatStack[|formatStack| - 1];
      assert top == Top(m);
      ansi := FormatToAnsi(top);
      assert Snapshot() == m;
    }

    method CleanAfterBracketParse(parseSuccess: bool)
      modifies this
      ensures Snapshot() == Cleaned(old(Snapshot()), parseSuccess)
    {
      if parseSuccess {
        ClearStore();
      } else {
        FlushStore();
      }
      parsedColorParts := 0;
      state := if parseSuccess && Has(bracketMask, TRIM) then SkipLeadingPadding else DefaultState;
      bracketMask := EMPTY_FORMAT_MASK;
    }

    /** accept(c): dispatches on the character exactly as the chain of tests in the source. */
    method Accept(c: char)
      requires Valid()
      modifies this
      ensures Valid() && Snapshot() == Step(old(Snapshot()), c)
    {
      ghost var m := Snapshot();
      if IsSpace(c) {
        if state != SkipLeadingPadding || strip {
          StoreChar(c);
        }
        assert Snapshot() == AcceptSpace(m, c);
      } else if c == '{' {
        FlushStore();
        StoreChar(c);
        bracketMask := EMPTY_FORMAT_MASK;
        state := ParseOpeningBracket;
        assert Snapshot() == AcceptOpen(m);
      } else if c == '-' {
        AcceptDashChar();
      } else if state == ParseOpeningBracket && FindFormatChar(c).Some? {
        var found := FindFormatChar(c).value;
        if found <= 18 {
          AcceptColourOption(c, found);
        } else {
          AcceptSymbolOption(c);
        }
      } else if c == '}' {
        AcceptCloseChar();
      } else {
        StoreChar(c);
        FlushStore();
        state := DefaultState;
        assert Snapshot() == AcceptLiteral(m, c);
      }
      StepInv(m, c);
    }

    /** The '-' branch of accept. */
    method AcceptDashChar()
      requires |formatStack| >= 1
      modifies this
      ensures Snapshot() == AcceptDash(old(Snapshot()))
    {
      ghost var m := Snapshot();
      StoreChar('-');
      if state == ParseOpeningBracket {
        if EndsWith(store, "--") {
          var ansi := PushFormat(bracketMask);
          PrintAnsi(ansi);
          CleanAfterBracketParse(true);
        }
      } else {
        state := DefaultState;
      }
    }

    /** The colour-option branch of accept. */
    method AcceptColourOption(c: char, found: nat)
      requires found <= 18 && FORMAT_CHARS[found] == c
      modifies this
      ensures Snapshot() == AcceptColour(old(Snapshot()), c, found)
    {
      StoreChar(c);
      if parsedColorParts < 2 {
        bracketMask := WithColor(bracketMask, OptionColour(c, found), parsedColorParts);
        parsedColorParts := parsedColorParts + 1;
      } else {
        CleanAfterBracketParse(false);
      }
    }

    /** The symbol-option branch of accept. */
    method AcceptSymbolOption(c: char)
      modifies this
      ensures Snapshot() == AcceptSymbol(old(Snapshot()), c)
    {
      StoreChar(c);
      var opMask := SymbolMask(c);
      if Has(bracketMask, opMask) {
        CleanAfterBracketParse(false);
      } else {
        bracketMask := bracketMask | opMask;
      }
    }

    /** The '}' branch of accept. */
    method AcceptCloseChar()
      requires |formatStack| >= 1
      modifies this
      ensures Snapshot() == AcceptClose(old(Snapshot()))
    {
      StoreChar('}');
      if EndsWith(store, "--}") {
        CloseTagChars();
      } else {
        FlushStore();
        state := DefaultState;
      }
    }

    /** A complete closing tag: the trimmed content is flushed, the stack popped and the new top rendered. */
    method CloseTagChars()
      requires |formatStack| >= 1 && EndsWith(store, "--}")
      modifies this
      ensures Snapshot() == CloseTag(old(Snapshot()))
    {
      ghost var m := Snapshot();
      CutClosingStore();
      ghost var cut := Snapshot();
      FlushStore();
      var ansi := PopFormat();
      assert Snapshot() == Popped(Flush(cut));
      PrintAnsi(ansi);
      state := DefaultState;
    }

    /** Inside a nested region, the closing marker and the padding before it are dropped from the store. */
    method CutClosingStore()
      requires |formatStack| >= 1 && EndsWith(store, "--}")
      modifies this
      ensures var m := old(Snapshot());
        Snapshot() == if |m.stack| > 1 then m.(store := CutClosing(m.store, Has(Top(m), TRIM) && !m.strip)) else m
    {
      if |formatStack| > 1 {
        store := CutClosing(store, Has(formatStack[|formatStack| - 1], TRIM) && !strip);
      }
    }

    /** ~FormatterAutomaton: the store is flushed and INITIAL rendered. */
    method Close()
      modifies this
      ensures Snapshot() == Finished(old(Snapshot()))
    {
      FlushStore();
      ghost var m := Snapshot();
      var ansi := FormatToAnsi(INITIAL_FORMAT_MASK);
      assert Snapshot() == m;
      PrintAnsi(ansi);
    }
  }

  /** One automaton's whole life over one input: construction, one accept per character, destruction. */
  method FormatArgument(strip: bool, arg: string) returns (output: string)
    ensures output == Translate(strip, arg)
  {
    var automaton := new FormatterAutomaton(strip);
    var i := 0;
    while i < |arg|
      invariant 0 <= i <= |arg|
      invariant automaton.Valid() && automaton.Snapshot() == Run(Initial(strip), arg[..i])
    {
      automaton.Accept(arg[i]);
      RunPrefix(Initial(strip), arg, i);
      i := i + 1;
    }
    assert arg[..i] == arg;
    automaton.Close();
    output := automaton.out;
  }
}
