/**
 * The packed 32-bit format mask of the markup-to-ANSI formatter and the pure
 * operations over it: the colour and attribute macros, WITH_COLOR, the merge
 * that pushFormat performs, and the rendering of a mask as an SGR sequence
 * (Select Graphic Rendition, section 8.3.117 of ECMA-48).
 *
 * Layout, most significant bit first:
 *   VALID | RESET | TRIM | dim ~ = ^ _ / * ! % (bits 28..20) | padding | bg light, bg | fg light, fg
 */
module FormatMask {

  type Mask = bv32

  //-COLOR-MASKS----------
  const FG_LIGHT: Mask := 0x10
  const FG_COLOR: Mask := 0x0f
  const FG_MASK: Mask := 0x1f      // FG_LIGHT | FG_COLOR
  const BG_LIGHT: Mask := 0x200    // FG_LIGHT << 5
  const BG_COLOR: Mask := 0x1e0    // FG_COLOR << 5
  const BG_MASK: Mask := 0x3e0     // BG_LIGHT | BG_COLOR

  const BLACK: Mask := 0
  const WHITE: Mask := 7

  //-COLOR-SPECIAL--------
  /** default terminal colour: ANSI colour base + 9 */
  const DEFAULT_COLOR: Mask := 9
  /** the colour of the enclosing format; legal only inside a delta */
  const CURRENT_COLOR: Mask := 10

  //-FORMAT---------------
  const FORMAT_MASK: Mask := 0x1ff0_0000        // 0x1ff << 20
  const REVERSED: Mask := 0x0010_0000           // 1 << 20
  const BLINK: Mask := 0x0020_0000              // 1 << 21
  const BOLD: Mask := 0x0040_0000               // 1 << 22
  const ITALIC: Mask := 0x0080_0000             // 1 << 23
  const UNDERLINE: Mask := 0x0100_0000          // 1 << 24
  const OVERLINE: Mask := 0x0200_0000           // 1 << 25
  const DOUBLE_UNDERLINE: Mask := 0x0400_0000   // 1 << 26
  const STRIKETHROUGH: Mask := 0x0800_0000      // 1 << 27
  const DIM: Mask := 0x1000_0000                // 1 << 28

  //-CONTROL--------------
  const TRIM: Mask := 0x2000_0000   // 1 << 29
  const RESET: Mask := 0x4000_0000  // 1 << 30
  const VALID: Mask := 0x8000_0000  // 1 << 31

  //-SPECIAL-MASKS--------
  const INITIAL_FORMAT_MASK: Mask := 0xc000_0129  // VALID | RESET | DEFAULT_COLOR << 5 | DEFAULT_COLOR
  const EMPTY_FORMAT_MASK: Mask := 0x8000_014a    // VALID | CURRENT_COLOR << 5 | CURRENT_COLOR

  predicate Has(m: Mask, bit: Mask) { m & bit != 0 }

  /** GET_FG: the 4-bit foreground colour code */
  function GetFg(m: Mask): Mask { m & FG_COLOR }

  /** GET_BG: the 4-bit background colour code */
  function GetBg(m: Mask): Mask { (m & BG_COLOR) >> 5 }

  /** LIGHTER: the colour with its light bit set */
  function Lighter(color: Mask): Mask { color | 0x10 }  // color | 1 << 4

  /** OVERRIDE: `target` with the bits of `submask` taken from `source` */
  function Override(target: Mask, submask: Mask, source: Mask): (r: Mask)
    ensures r & submask == source & submask
    ensures r & !submask == target & !submask
  {
    (target & !submask) | (source & submask)
  }

  /** WITH_COLOR: sets the foreground (part 0) or background (any other part) colour and light bit */
  function WithColor(mask: Mask, color: Mask, part: int): (r: Mask)
    requires color < 0x20
    ensures part == 0 ==> GetFg(r) == color & FG_COLOR && (Has(r, FG_LIGHT) <==> Has(color, FG_LIGHT))
    ensures part == 0 ==> r & !FG_MASK == mask & !FG_MASK
    ensures part != 0 ==> GetBg(r) == color & FG_COLOR && (Has(r, BG_LIGHT) <==> Has(color, FG_LIGHT))
    ensures part != 0 ==> r & !BG_MASK == mask & !BG_MASK
  {
    Override(mask, if part == 0 then FG_MASK else BG_MASK, color | (color << 5))
  }

  /** MASK_TO_FG_ANSI */
  function FgAnsi(m: Mask): nat { GetFg(m) as nat + 30 + (if Has(m, FG_LIGHT) then 60 else 0) }

  /** MASK_TO_BG_ANSI */
  function BgAnsi(m: Mask): nat { GetBg(m) as nat + 40 + (if Has(m, BG_LIGHT) then 60 else 0) }

  /** A colour field that may stand in an absolute format: a base colour, or DEFAULT without the light bit. */
  predicate ConcreteColor(color: Mask, light: bool) {
    color <= WHITE || (color == DEFAULT_COLOR && !light)
  }

  /** A colour field a parsed tag may carry: a concrete colour, or CURRENT without the light bit. */
  predicate DeltaColor(color: Mask, light: bool) {
    ConcreteColor(color, light) || (color == CURRENT_COLOR && !light)
  }

  /** An absolute format, as held on the format stack. */
  predicate Absolute(m: Mask) {
    Has(m, VALID) && Has(m, RESET)
    && ConcreteColor(GetFg(m), Has(m, FG_LIGHT)) && ConcreteColor(GetBg(m), Has(m, BG_LIGHT))
  }

  /** A delta format, as built from the options of one opening tag. */
  predicate Delta(m: Mask) {
    Has(m, VALID) && DeltaColor(GetFg(m), Has(m, FG_LIGHT)) && DeltaColor(GetBg(m), Has(m, BG_LIGHT))
  }

  /** The format pushFormat starts from: INITIAL when the delta carries RESET, else the current top. */
  function MergeBase(top: Mask, delta: Mask): Mask {
    if Has(delta, RESET) then INITIAL_FORMAT_MASK else top
  }

  /** The attribute bits of the delta toggle those of the format. */
  function Toggle(format: Mask, delta: Mask): Mask {
    format ^ (delta & FORMAT_MASK)
  }

  /** The delta's fg and bg replace the format's, each unless it is CURRENT. */
  function Recolour(format: Mask, delta: Mask): Mask {
    var format := if GetFg(delta) != CURRENT_COLOR then Override(format, FG_MASK, delta) else format;
    if GetBg(delta) != CURRENT_COLOR then Override(format, BG_MASK, delta) else format
  }

  /**
   * Step 1 of pushFormat: the absolute format obtained by applying `delta` to `top`. pushFormat
   * asserts that the delta is VALID; the lemmas below assume it.
   */
  function Merge(top: Mask, delta: Mask): Mask {
    Recolour(Toggle(Override(MergeBase(top, delta), TRIM, delta), delta), delta)
  }

  lemma InitialIsAbsolute()
    ensures Absolute(INITIAL_FORMAT_MASK)
    ensures GetFg(INITIAL_FORMAT_MASK) == DEFAULT_COLOR && GetBg(INITIAL_FORMAT_MASK) == DEFAULT_COLOR
    ensures INITIAL_FORMAT_MASK & (FORMAT_MASK | TRIM) == 0
  {
  }

  lemma EmptyIsDelta()
    ensures Delta(EMPTY_FORMAT_MASK)
    ensures GetFg(EMPTY_FORMAT_MASK) == CURRENT_COLOR && GetBg(EMPTY_FORMAT_MASK) == CURRENT_COLOR
    ensures EMPTY_FORMAT_MASK & (FORMAT_MASK | TRIM | RESET) == 0
  {
  }

  /** Taking TRIM from the delta leaves the other fields alone. */
  lemma TakeTrimFields(base: Mask, delta: Mask)
    ensures var f := Override(base, TRIM, delta);
      f & TRIM == delta & TRIM && f & (VALID | RESET) == base & (VALID | RESET)
      && f & FORMAT_MASK == base & FORMAT_MASK && f & FG_MASK == base & FG_MASK && f & BG_MASK == base & BG_MASK
  {
  }

  /** The toggle changes only the attribute bits. */
  lemma ToggleFields(format: Mask, delta: Mask)
    ensures var f := Toggle(format, delta);
      f & TRIM == format & TRIM && f & (VALID | RESET) == format & (VALID | RESET)
      && f & FORMAT_MASK == (format ^ delta) & FORMAT_MASK
      && f & FG_MASK == format & FG_MASK && f & BG_MASK == format & BG_MASK
  {
  }

  /** Recolouring changes only the colour fields. */
  lemma RecolourFields(format: Mask, delta: Mask)
    ensures var f := Recolour(format, delta);
      f & TRIM == format & TRIM && f & (VALID | RESET) == format & (VALID | RESET)
      && f & FORMAT_MASK == format & FORMAT_MASK
      && f & FG_MASK == (if GetFg(delta) != CURRENT_COLOR then delta else format) & FG_MASK
      && f & BG_MASK == (if GetBg(delta) != CURRENT_COLOR then delta else format) & BG_MASK
  {
  }

  /** The merge keeps VALID and RESET of its base: the delta's own RESET only selects INITIAL as the base. */
  lemma MergeControl(top: Mask, delta: Mask)
    requires Has(delta, VALID)
    ensures Merge(top, delta) & (VALID | RESET) == MergeBase(top, delta) & (VALID | RESET)
  {
    var base := MergeBase(top, delta);
    var f1 := Override(base, TRIM, delta);
    var f2 := Toggle(f1, delta);
    TakeTrimFields(base, delta);
    ToggleFields(f1, delta);
    RecolourFields(f2, delta);
  }

  /** TRIM is always taken from the delta: it does not propagate through the stack. */
  lemma MergeTrim(top: Mask, delta: Mask)
    requires Has(delta, VALID)
    ensures Merge(top, delta) & TRIM == delta & TRIM
  {
    var base := MergeBase(top, delta);
    var f1 := Override(base, TRIM, delta);
    var f2 := Toggle(f1, delta);
    TakeTrimFields(base, delta);
    ToggleFields(f1, delta);
    RecolourFields(f2, delta);
  }

  /** The attribute bits of the merge are those of the base XOR those of the delta. */
  lemma MergeToggles(top: Mask, delta: Mask)
    requires Has(delta, VALID)
    ensures Merge(top, delta) & FORMAT_MASK == (MergeBase(top, delta) ^ delta) & FORMAT_MASK
  {
    var base := MergeBase(top, delta);
    var f1 := Override(base, TRIM, delta);
    var f2 := Toggle(f1, delta);
    TakeTrimFields(base, delta);
    ToggleFields(f1, delta);
    RecolourFields(f2, delta);
    XorAgree(f1, base, delta, FORMAT_MASK);
  }

  /** The fg field (colour and light bit) of the merge is the delta's unless the delta's fg is CURRENT. */
  lemma MergeFg(top: Mask, delta: Mask)
    requires Has(delta, VALID)
    ensures Merge(top, delta) & FG_MASK == (if GetFg(delta) != CURRENT_COLOR then delta else MergeBase(top, delta)) & FG_MASK
  {
    var base := MergeBase(top, delta);
    var f1 := Override(base, TRIM, delta);
    var f2 := Toggle(f1, delta);
    TakeTrimFields(base, delta);
    ToggleFields(f1, delta);
    RecolourFields(f2, delta);
  }

  /** The bg field of the merge is the delta's unless the delta's bg is CURRENT. */
  lemma MergeBg(top: Mask, delta: Mask)
    requires Has(delta, VALID)
    ensures Merge(top, delta) & BG_MASK == (if GetBg(delta) != CURRENT_COLOR then delta else MergeBase(top, delta)) & BG_MASK
  {
    var base := MergeBase(top, delta);
    var f1 := Override(base, TRIM, delta);
    var f2 := Toggle(f1, delta);
    TakeTrimFields(base, delta);
    ToggleFields(f1, delta);
    RecolourFields(f2, delta);
  }

  lemma XorAgree(a: Mask, b: Mask, d: Mask, m: Mask)
    requires a & m == b & m
    ensures (a ^ d) & m == (b ^ d) & m
  {
  }

  /** An attribute of the merged format is set iff exactly one of base and delta sets it. */
  lemma MergeAttr(top: Mask, delta: Mask, a: Attr)
    requires Has(delta, VALID)
    ensures Has(Merge(top, delta), AttrBit(a)) <==> (Has(MergeBase(top, delta), AttrBit(a)) != Has(delta, AttrBit(a)))
  {
    MergeToggles(top, delta);
    AttrOfToggle(Merge(top, delta), MergeBase(top, delta), delta, a);
  }

  lemma AttrOfToggle(r: Mask, base: Mask, delta: Mask, a: Attr)
    requires r & FORMAT_MASK == (base ^ delta) & FORMAT_MASK
    ensures Has(r, AttrBit(a)) <==> (Has(base, AttrBit(a)) != Has(delta, AttrBit(a)))
  {
    AttrBitSingle(a);
    BitOfToggle(r, base, delta, AttrBit(a));
  }

  /** Every attribute bit is a single bit inside FORMAT_MASK. */
  lemma AttrBitSingle(a: Attr)
    ensures AttrBit(a) & FORMAT_MASK == AttrBit(a) && AttrBit(a) != 0 && AttrBit(a) & (AttrBit(a) - 1) == 0
  {
  }

  lemma BitOfToggle(r: Mask, base: Mask, delta: Mask, bit: Mask)
    requires r & FORMAT_MASK == (base ^ delta) & FORMAT_MASK
    requires bit & FORMAT_MASK == bit && bit != 0 && bit & (bit - 1) == 0
    ensures Has(r, bit) <==> (Has(base, bit) != Has(delta, bit))
  {
  }

  lemma BaseAbsolute(top: Mask, delta: Mask)
    requires Absolute(top)
    ensures Absolute(MergeBase(top, delta))
  {
    InitialIsAbsolute();
  }

  /** Two masks that agree on the fg field have the same fg colour and fg light bit ... */
  lemma FgField(r: Mask, from: Mask)
    requires r & FG_MASK == from & FG_MASK
    ensures GetFg(r) == GetFg(from) && (Has(r, FG_LIGHT) <==> Has(from, FG_LIGHT))
  {
  }

  /** ... and likewise for the bg field. */
  lemma BgField(r: Mask, from: Mask)
    requires r & BG_MASK == from & BG_MASK
    ensures GetBg(r) == GetBg(from) && (Has(r, BG_LIGHT) <==> Has(from, BG_LIGHT))
  {
  }

  /** Masks that agree outside the fg field agree on the bg field and on VALID ... */
  lemma OutsideFg(r: Mask, from: Mask)
    requires r & !FG_MASK == from & !FG_MASK
    ensures r & BG_MASK == from & BG_MASK && (Has(r, VALID) <==> Has(from, VALID))
  {
  }

  /** ... and likewise outside the bg field. */
  lemma OutsideBg(r: Mask, from: Mask)
    requires r & !BG_MASK == from & !BG_MASK
    ensures r & FG_MASK == from & FG_MASK && (Has(r, VALID) <==> Has(from, VALID))
  {
  }

  /** Setting bits outside the colour fields keeps a tag mask a delta. */
  lemma OrKeepsDelta(mask: Mask, op: Mask)
    requires Delta(mask) && op & (FG_MASK | BG_MASK) == 0
    ensures Delta(mask | op)
  {
    OrKeepsFg(mask, op);
    OrKeepsBg(mask, op);
    FgField(mask | op, mask);
    BgField(mask | op, mask);
  }

  lemma OrKeepsFg(mask: Mask, op: Mask)
    requires op & (FG_MASK | BG_MASK) == 0
    ensures (mask | op) & FG_MASK == mask & FG_MASK
  {
  }

  lemma OrKeepsBg(mask: Mask, op: Mask)
    requires op & (FG_MASK | BG_MASK) == 0
    ensures (mask | op) & BG_MASK == mask & BG_MASK
  {
  }

  /** Setting a colour part that is itself a delta colour keeps a tag mask a delta. */
  lemma WithColorDelta(mask: Mask, color: Mask, part: int)
    requires Delta(mask) && color < 0x20 && DeltaColor(color & FG_COLOR, Has(color, FG_LIGHT))
    ensures Delta(WithColor(mask, color, part))
  {
    if part == 0 {
      WithFgDelta(mask, color);
    } else {
      WithBgDelta(mask, color, part);
    }
  }

  lemma WithFgDelta(mask: Mask, color: Mask)
    requires Delta(mask) && color < 0x20 && DeltaColor(color & FG_COLOR, Has(color, FG_LIGHT))
    ensures Delta(WithColor(mask, color, 0))
  {
    var r := WithColor(mask, color, 0);
    assert GetFg(r) == color & FG_COLOR && (Has(r, FG_LIGHT) <==> Has(color, FG_LIGHT));
    assert r & !FG_MASK == mask & !FG_MASK;
    FgPartDelta(r, mask, color);
  }

  lemma WithBgDelta(mask: Mask, color: Mask, part: int)
    requires Delta(mask) && color < 0x20 && DeltaColor(color & FG_COLOR, Has(color, FG_LIGHT)) && part != 0
    ensures Delta(WithColor(mask, color, part))
  {
    var r := WithColor(mask, color, part);
    assert GetBg(r) == color & FG_COLOR && (Has(r, BG_LIGHT) <==> Has(color, FG_LIGHT));
    assert r & !BG_MASK == mask & !BG_MASK;
    BgPartDelta(r, mask, color);
  }

  lemma FgPartDelta(r: Mask, mask: Mask, color: Mask)
    requires Delta(mask) && DeltaColor(color & FG_COLOR, Has(color, FG_LIGHT))
    requires GetFg(r) == color & FG_COLOR && (Has(r, FG_LIGHT) <==> Has(color, FG_LIGHT))
    requires r & !FG_MASK == mask & !FG_MASK
    ensures Delta(r)
  {
    OutsideFg(r, mask);
    BgField(r, mask);
  }

  lemma BgPartDelta(r: Mask, mask: Mask, color: Mask)
    requires Delta(mask) && DeltaColor(color & FG_COLOR, Has(color, FG_LIGHT))
    requires GetBg(r) == color & FG_COLOR && (Has(r, BG_LIGHT) <==> Has(color, FG_LIGHT))
    requires r & !BG_MASK == mask & !BG_MASK
    ensures Delta(r)
  {
    OutsideBg(r, mask);
    FgField(r, mask);
  }

  lemma MergeFgConcrete(top: Mask, delta: Mask)
    requires Absolute(top) && Delta(delta)
    ensures ConcreteColor(GetFg(Merge(top, delta)), Has(Merge(top, delta), FG_LIGHT))
  {
    BaseAbsolute(top, delta);
    MergeFg(top, delta);
    FgField(Merge(top, delta), if GetFg(delta) != CURRENT_COLOR then delta else MergeBase(top, delta));
  }

  lemma MergeBgConcrete(top: Mask, delta: Mask)
    requires Absolute(top) && Delta(delta)
    ensures ConcreteColor(GetBg(Merge(top, delta)), Has(Merge(top, delta), BG_LIGHT))
  {
    BaseAbsolute(top, delta);
    MergeBg(top, delta);
    BgField(Merge(top, delta), if GetBg(delta) != CURRENT_COLOR then delta else MergeBase(top, delta));
  }

  lemma MergeValid(top: Mask, delta: Mask)
    requires Absolute(top) && Has(delta, VALID)
    ensures Has(Merge(top, delta), VALID) && Has(Merge(top, delta), RESET)
  {
    BaseAbsolute(top, delta);
    MergeControl(top, delta);
    ControlBits(Merge(top, delta), MergeBase(top, delta));
  }

  lemma ControlBits(r: Mask, base: Mask)
    requires r & (VALID | RESET) == base & (VALID | RESET)
    ensures (Has(r, VALID) <==> Has(base, VALID)) && (Has(r, RESET) <==> Has(base, RESET))
  {
  }

  /** Applying a delta to an absolute format gives an absolute format: VALID and RESET stay set, and no colour is CURRENT. */
  lemma MergeAbsolute(top: Mask, delta: Mask)
    requires Absolute(top) && Delta(delta)
    ensures Absolute(Merge(top, delta))
    ensures GetFg(Merge(top, delta)) != CURRENT_COLOR && GetBg(Merge(top, delta)) != CURRENT_COLOR
  {
    MergeValid(top, delta);
    MergeFgConcrete(top, delta);
    MergeBgConcrete(top, delta);
  }

  /** Without '0' in the delta, the attribute bits of the merge are those of the top XOR the delta. */
  lemma MergeTogglesTop(top: Mask, delta: Mask)
    requires Has(delta, VALID) && !Has(delta, RESET)
    ensures Merge(top, delta) & FORMAT_MASK == (top ^ delta) & FORMAT_MASK
  {
    MergeToggles(top, delta);
  }

  /** Toggle cancellation: applying the same delta (without '0') twice restores the attribute bits. */
  lemma ToggleCancels(top: Mask, delta: Mask)
    requires Has(delta, VALID) && !Has(delta, RESET)
    ensures Merge(Merge(top, delta), delta) & FORMAT_MASK == top & FORMAT_MASK
  {
    var once := Merge(top, delta);
    assert once & FORMAT_MASK == (top ^ delta) & FORMAT_MASK by { MergeTogglesTop(top, delta); }
    ToggleAgain(top, delta, once);
  }

  lemma ToggleAgain(top: Mask, delta: Mask, once: Mask)
    requires Has(delta, VALID) && !Has(delta, RESET)
    requires once & FORMAT_MASK == (top ^ delta) & FORMAT_MASK
    ensures Merge(once, delta) & FORMAT_MASK == top & FORMAT_MASK
  {
    MergeTogglesTop(once, delta);
  }

  /** Colour inheritance: a tag whose first colour is ';' keeps the enclosing foreground and sets only the background. */
  lemma InheritForeground(top: Mask, bg: Mask)
    requires Absolute(top) && bg <= WHITE
    ensures var delta := WithColor(WithColor(EMPTY_FORMAT_MASK, CURRENT_COLOR, 0), bg, 1);
      var r := Merge(top, delta);
      GetFg(r) == GetFg(top) && (Has(r, FG_LIGHT) <==> Has(top, FG_LIGHT))
      && GetBg(r) == bg && !Has(r, BG_LIGHT)
  {
    var delta := WithColor(WithColor(EMPTY_FORMAT_MASK, CURRENT_COLOR, 0), bg, 1);
    assert Has(delta, VALID) && !Has(delta, RESET);
    assert GetFg(delta) == CURRENT_COLOR && GetBg(delta) == bg && !Has(delta, BG_LIGHT);
    MergeFg(top, delta);
    MergeBg(top, delta);
    FgField(Merge(top, delta), top);
    BgField(Merge(top, delta), delta);
  }

  /** The nine toggled attributes, by their bit in the mask and their SGR parameter. */
  datatype Attr = Reversed | Blink | Bold | Italic | Underline | Overline | DoubleUnderline | Strikethrough | Dim

  const ALL_ATTRS: set<Attr> :=
    {Reversed, Blink, Bold, Italic, Underline, Overline, DoubleUnderline, Strikethrough, Dim}

  function AttrBit(a: Attr): Mask {
    match a
    case Reversed => REVERSED
    case Blink => BLINK
    case Bold => BOLD
    case Italic => ITALIC
    case Underline => UNDERLINE
    case Overline => OVERLINE
    case DoubleUnderline => DOUBLE_UNDERLINE
    case Strikethrough => STRIKETHROUGH
    case Dim => DIM
  }

  function AttrCode(a: Attr): nat {
    match a
    case Bold => 1
    case Dim => 2
    case Italic => 3
    case Underline => 4
    case Blink => 6
    case Reversed => 7
    case Strikethrough => 9
    case DoubleUnderline => 21
    case Overline => 53
  }

  /** The SGR parameters a mask's reset and attribute bits may contribute. */
  const CONTROL_CODES: set<nat> := {0, 1, 2, 3, 4, 6, 7, 9, 21, 53}

  predicate StrictlyIncreasing(s: seq<nat>) {
    forall i, j :: 0 <= i < j < |s| ==> s[i] < s[j]
  }

  lemma PrependIncreasing(x: nat, s: seq<nat>)
    requires StrictlyIncreasing(s) && forall k :: k in s ==> x < k
    ensures StrictlyIncreasing([x] + s)
  {
    forall i, j | 0 <= i < j < |[x] + s| ensures ([x] + s)[i] < ([x] + s)[j] {
      assert s[j - 1] in s;
    }
  }

  /** The number of reset and attribute tests formatToAnsi makes. */
  const SGR_TESTS: nat := 10

  /** The bit checked by the i-th reset or attribute test of formatToAnsi ... */
  function SgrBit(i: nat): Mask
    requires i < SGR_TESTS
  {
    [RESET, BOLD, DIM, ITALIC, UNDERLINE, BLINK, REVERSED, STRIKETHROUGH, DOUBLE_UNDERLINE, OVERLINE][i]
  }

  /** ... and the SGR parameter it pushes when the bit is set. */
  function SgrCode(i: nat): nat
    requires i < SGR_TESTS
  {
    [0, 1, 2, 3, 4, 6, 7, 9, 21, 53][i]
  }

  /** A bound below every parameter of the tests from the i-th on. */
  function SgrFloor(i: nat): nat { if i < SGR_TESTS then SgrCode(i) else 54 }

  lemma SgrCodesIncrease(i: nat)
    requires i < SGR_TESTS
    ensures SgrCode(i) < SgrFloor(i + 1)
    ensures forall j :: i < j < SGR_TESTS ==> SgrCode(i) < SgrCode(j)
    ensures SgrCode(i) in CONTROL_CODES
  {
  }

  /** The parameters pushed by the tests from the i-th on. */
  function ControlCodesFrom(m: Mask, i: nat): seq<nat>
    requires i <= SGR_TESTS
    decreases SGR_TESTS - i
  {
    if i == SGR_TESTS then []
    else if Has(m, SgrBit(i)) then [SgrCode(i)] + ControlCodesFrom(m, i + 1)
    else ControlCodesFrom(m, i + 1)
  }

  /** The parameters from the i-th test on are reset/attribute parameters no smaller than the i-th. */
  lemma {:induction false} ControlCodesBounded(m: Mask, i: nat)
    requires i <= SGR_TESTS
    ensures forall k :: k in ControlCodesFrom(m, i) ==> SgrFloor(i) <= k && k in CONTROL_CODES
    decreases SGR_TESTS - i
  {
    if i < SGR_TESTS {
      ControlCodesBounded(m, i + 1);
      SgrCodesIncrease(i);
    }
  }

  /** They come in ascending order ... */
  lemma {:induction false} ControlCodesIncreasing(m: Mask, i: nat)
    requires i <= SGR_TESTS
    ensures StrictlyIncreasing(ControlCodesFrom(m, i))
    decreases SGR_TESTS - i
  {
    if i < SGR_TESTS {
      ControlCodesIncreasing(m, i + 1);
      ControlCodesBounded(m, i + 1);
      SgrCodesIncrease(i);
      if Has(m, SgrBit(i)) {
        PrependIncreasing(SgrCode(i), ControlCodesFrom(m, i + 1));
      }
    }
  }

  /** ... and a test's parameter is there exactly when its bit is set. */
  lemma {:induction false} ControlCodesPresent(m: Mask, i: nat)
    requires i <= SGR_TESTS
    ensures forall j :: i <= j < SGR_TESTS ==> (SgrCode(j) in ControlCodesFrom(m, i) <==> Has(m, SgrBit(j)))
    decreases SGR_TESTS - i
  {
    if i < SGR_TESTS {
      ControlCodesPresent(m, i + 1);
      ControlCodesBounded(m, i + 1);
      SgrCodesIncrease(i);
    }
  }

  /** The reset and attribute parameters of formatToAnsi: those of the set bits, in ascending order. */
  function ControlCodes(m: Mask): seq<nat> { ControlCodesFrom(m, 0) }

  /** The SGR parameters of formatToAnsi, in emission order: the control codes, then fg, then bg. */
  function Codes(m: Mask): (r: seq<nat>)
    ensures |r| >= 2 && r[..|r| - 2] == ControlCodes(m) && r[|r| - 2] == FgAnsi(m) && r[|r| - 1] == BgAnsi(m)
  {
    var codes := ControlCodes(m);
    assert codes == (codes + [FgAnsi(m), BgAnsi(m)])[..|codes|];
    codes + [FgAnsi(m), BgAnsi(m)]
  }

  /** The control codes are ascending and start with 0 exactly for a mask with RESET. */
  lemma CodesOrder(m: Mask)
    ensures StrictlyIncreasing(ControlCodes(m))
    ensures 0 in ControlCodes(m) <==> Has(m, RESET)
  {
    ControlCodesIncreasing(m, 0);
    ControlCodesPresent(m, 0);
    assert SgrCode(0) == 0 && SgrBit(0) == RESET;
  }

  /** The position of an attribute's test in formatToAnsi. */
  function AttrTest(a: Attr): (i: nat)
    ensures i < SGR_TESTS && SgrBit(i) == AttrBit(a) && SgrCode(i) == AttrCode(a)
  {
    match a
    case Bold => 1
    case Dim => 2
    case Italic => 3
    case Underline => 4
    case Blink => 5
    case Reversed => 6
    case Strikethrough => 7
    case DoubleUnderline => 8
    case Overline => 9
  }

  /** An attribute's SGR parameter is rendered exactly when its bit is set; nothing outside the table is. */
  lemma ControlCodesAttr(m: Mask, a: Attr)
    ensures AttrCode(a) in ControlCodes(m) <==> Has(m, AttrBit(a))
    ensures forall k :: k in ControlCodes(m) ==> k in CONTROL_CODES
  {
    var i := AttrTest(a);
    ControlCodesPresent(m, 0);
    ControlCodesBounded(m, 0);
  }

  /** The colour parameters of an absolute format: 30-37 / 90-97 (or 39 for DEFAULT) for fg, 40-47 / 100-107 (or 49) for bg. */
  lemma ColourCodes(m: Mask)
    requires Absolute(m)
    ensures GetFg(m) == DEFAULT_COLOR ==> FgAnsi(m) == 39
    ensures GetBg(m) == DEFAULT_COLOR ==> BgAnsi(m) == 49
    ensures GetFg(m) <= WHITE ==> FgAnsi(m) == GetFg(m) as nat + (if Has(m, FG_LIGHT) then 90 else 30)
    ensures GetBg(m) <= WHITE ==> BgAnsi(m) == GetBg(m) as nat + (if Has(m, BG_LIGHT) then 100 else 40)
    ensures FgAnsi(m) !in CONTROL_CODES && BgAnsi(m) !in CONTROL_CODES
  {
  }

  /** Decimal digits of a non-negative number, most significant first. */
  function NatToString(n: nat): (s: string)
    ensures |s| >= 1
  {
    if n < 10 then [(n + '0' as int) as char] else NatToString(n / 10) + NatToString(n % 10)
  }

  /** The concatenation of ";" + code for every code, as formatToAnsi accumulates it. */
  function Tagged(codes: seq<nat>): (s: string)
    ensures |codes| > 0 ==> |s| > 0 && s[0] == ';'
  {
    if |codes| == 0 then "" else ";" + NatToString(codes[0]) + Tagged(codes[1..])
  }

  /** The accumulation of formatToAnsi's loop: appending a code appends ";" and its digits. */
  lemma {:induction false} TaggedAppend(codes: seq<nat>, x: nat)
    ensures Tagged(codes + [x]) == Tagged(codes) + ";" + NatToString(x)
  {
    if |codes| == 0 {
      assert codes + [x] == [x];
    } else {
      assert (codes + [x])[1..] == codes[1..] + [x];
      TaggedAppend(codes[1..], x);
    }
  }

  /**
   * formatToAnsi: ESC [ then the codes joined by ';' (the accumulated string less its first ';')
   * then 'm'. The source asserts that the format is VALID and RESET; every format the automaton
   * renders is (Formatter.TopRenders).
   */
  function FormatToAnsi(m: Mask): string {
    "\U{1B}[" + Tagged(Codes(m))[1..] + "m"
  }

  lemma IncreasingStartsAtMin(s: seq<nat>)
    requires StrictlyIncreasing(s) && |s| > 0
    ensures forall x :: x in s ==> s[0] <= x
  {
    forall x | x in s ensures s[0] <= x {
      var k :| 0 <= k < |s| && s[k] == x;
      assert k == 0 || s[0] < s[k];
    }
  }

  /** The reset parameter 0 is the first code of a mask with RESET. */
  lemma ResetCodeFirst(m: Mask)
    requires Has(m, RESET)
    ensures Codes(m)[0] == 0
  {
    CodesOrder(m);
    IncreasingStartsAtMin(ControlCodes(m));
  }

  /** Every rendering of a mask with RESET starts with ESC "[0;" and ends with 'm'. */
  lemma FormatToAnsiResets(m: Mask)
    requires Has(m, VALID) && Has(m, RESET)
    ensures FormatToAnsi(m)[..4] == "\U{1B}[0;"
    ensures FormatToAnsi(m)[|FormatToAnsi(m)| - 1] == 'm'
  {
    ResetCodeFirst(m);
    RenderZeroFirst(Codes(m));
  }

  /** The escape sequence of a code list that starts with 0 and has more codes after it. */
  lemma RenderZeroFirst(codes: seq<nat>)
    requires |codes| >= 2 && codes[0] == 0
    ensures var s := "\U{1B}[" + Tagged(codes)[1..] + "m";
      s[..4] == "\U{1B}[0;" && s[|s| - 1] == 'm'
  {
    var rest := Tagged(codes[1..]);
    assert Tagged(codes) == ";0" + rest;
    assert rest[0] == ';';
    assert "\U{1B}[" + Tagged(codes)[1..] + "m" == "\U{1B}[0" + rest + "m";
  }

  /** The literal values above are the source's shift expressions. */
  lemma MaskConstants()
    ensures FG_MASK == FG_LIGHT | FG_COLOR && BG_LIGHT == FG_LIGHT << 5 && BG_COLOR == FG_COLOR << 5
    ensures BG_MASK == BG_LIGHT | BG_COLOR && FORMAT_MASK == 0x1ff << 20
    ensures REVERSED == 1 << 20 && BLINK == 1 << 21 && BOLD == 1 << 22 && ITALIC == 1 << 23
    ensures UNDERLINE == 1 << 24 && OVERLINE == 1 << 25 && DOUBLE_UNDERLINE == 1 << 26
    ensures STRIKETHROUGH == 1 << 27 && DIM == 1 << 28
    ensures TRIM == 1 << 29 && RESET == 1 << 30 && VALID == 1 << 31
    ensures INITIAL_FORMAT_MASK == VALID | RESET | (DEFAULT_COLOR << 5) | DEFAULT_COLOR
    ensures EMPTY_FORMAT_MASK == VALID | (CURRENT_COLOR << 5) | CURRENT_COLOR
  {
  }
}
