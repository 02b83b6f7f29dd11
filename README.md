# A verified model of the formatter, the algorithm library and the terrain codecs

This project models, in Dafny, the following parts of the repository and proves properties of each.

- **The markup-to-ANSI translator** (`stuff/formatter/formatter.cpp`).
  - A 32-bit format mask holds a foreground and a background colour, each with a light bit. It also holds nine attribute bits and the control bits TRIM, RESET and VALID.
  - `formatToAnsi` renders an absolute mask as an SGR escape sequence (Select Graphic Rendition, section 8.3.117 of ECMA-48).
  - `pushFormat` merges a tag's delta onto the top of a format stack; `popFormat` removes the top again.
  - `accept` is a per-character automaton. It buffers literal text in `store`, parses an opening tag `{<options>--` into a delta mask, and closes the innermost tag on `--}`.
  - `FormatMask` holds the mask algebra and the renderer as pure functions.
  - `Formatter` holds the automaton twice:
    - as a value: `Machine`, with `Step` for one call of `accept`;
    - as the class `FormatterAutomaton`, whose fields are updated in place and whose `Accept` is proved to perform exactly `Step`.
  - The standard output is the string `out`, which the automaton appends to.
- **The binary min-heap** (`algo/algorithms/heap/Heap.hpp`), as the class `BinaryHeap.Heap`. It has the sift-up and sift-down loops, the index helpers and `lvl_`.
- **Union-find with union by size** (`algo/algorithms/unionFind.cpp`), as the class `UnionFind.UnionFind` over an `array<int>` table. Ghost fields record each element's representative.
- **Knuth–Morris–Pratt** (`KMP.kt`): the prefix function `pi` and the search `kmp`. Both are proved against the longest-border definition, and the search against a brute-force `indexOf` scan. Texts and patterns are sequences of UTF-16 code units, the units in which a Kotlin `String` is indexed, so positions count code units.
- **The Fenwick tree** (`FenwickTree.kt`) over integers, the additive group standing in for the generic group.
- **The leftist heap** (`algo/algorithms/leftistHeap.js`) as a persistent datatype, with `join`, `insert` and `deleteMin`.
- **The terrain of the water-basins prototype** (`game.js`):
  - the run-length and nibble-packed save formats of the height grid;
  - the single-tile editing operations on the class `Terrain.GameState`.
- **The basin helpers** (`basins.js`):
  - the bijective base-26 basin names;
  - the depth-bucketed priority queue;
  - the tile and diagonal-step tests.
- **`Vec2Int` and `Direction`** (`util2D.kt`). Kotlin `Int` arithmetic is written out as 32-bit wrap-around. The `Long` packing works on 64-bit patterns.
- **`Bits`**: `and`/`or` on naturals, shared by the Fenwick tree and the vector packing.

Where the code and its own documentation disagree, the model follows the code:
- **Whitespace in the default state.** It is buffered in `store` and written with the next flush (formatter.cpp:244-246). It is not written at once.
- **The `{--` tag.** An empty tag `{--` pushes EMPTY_FORMAT_MASK, which carries no RESET bit. It therefore inherits the enclosing format; it does not reset it.
- **The colour counter.** `parsedColorParts` is reset only in `cleanAfterBracketParse`. It is not reset on `{`, and not when `}` or a literal character abandons a tag. A tag that follows an abandoned tag with two colours therefore fails at its first colour letter. This is stated by `Formatter.StaleColourCount`.
- **Depths one past MAX_DEPTH.** `getMinNeighborHeight` starts its minimum at MAX_DEPTH + 1, which its comment calls an impossible value (game.js:96). The generator can produce it, though: it clamps the scaled noise to [0, 1] and multiplies by MAX_DEPTH + 1 (noise.js:345-346), so a clamped 1 gives MAX_DEPTH + 1. The model lets the grid hold MAX_DEPTH + 1. `Terrain.GeneratedDepth` states when the generator yields it, `increaseDepthAt` brings such a tile back to MAX_DEPTH, and `getMinNeighborHeight` falls back to the tile's own depth when every neighbour in the world is at MAX_DEPTH + 1.

## Model

| member | source | states |
|---|---|---|
| FormatMask.Override | stuff/formatter/formatter.cpp:128 | the bits under the submask come from the source and every other bit from the target |
| FormatMask.WithColor | stuff/formatter/formatter.cpp:129-132 | part 0 sets the fg colour and light bit from the colour and keeps everything outside FG_MASK; any other part does the same for the bg field |
| FormatMask.GetFg | stuff/formatter/formatter.cpp:123 | definition: the foreground colour field; ColourCodes and MergeFg state how it is used |
| FormatMask.GetBg | stuff/formatter/formatter.cpp:124 | definition: the background colour field shifted down by 5; ColourCodes and MergeBg state how it is used |
| FormatMask.Lighter | stuff/formatter/formatter.cpp:125 | definition: the colour with its light bit set; OptionLetterCase states how it is used |
| FormatMask.FgAnsi | stuff/formatter/formatter.cpp:126 | definition: foreground colour + 30, plus 60 when light; ColourCodes states its values |
| FormatMask.BgAnsi | stuff/formatter/formatter.cpp:127 | definition: background colour + 40, plus 60 when light; ColourCodes states its values |
| FormatMask.Merge | stuff/formatter/formatter.cpp:180-187 | definition: the absolute format pushFormat computes from the top and the delta; MergeControl, MergeTrim, MergeToggles, MergeAttr, MergeFg, MergeBg, MergeValid and MergeAbsolute state its fields |
| FormatMask.MaskConstants | stuff/formatter/formatter.cpp:71-114 | the bit position of every enum constant, and INITIAL/EMPTY as VALID\|RESET\|DEFAULT colours and VALID\|CURRENT colours |
| FormatMask.InitialIsAbsolute | stuff/formatter/formatter.cpp:112 | INITIAL is absolute: VALID and RESET set, DEFAULT fg and bg, no attribute and no TRIM |
| FormatMask.EmptyIsDelta | stuff/formatter/formatter.cpp:113 | EMPTY is a valid delta with CURRENT fg and bg and no attribute, TRIM or RESET |
| FormatMask.TakeTrimFields | stuff/formatter/formatter.cpp:184 | taking TRIM from the delta copies TRIM and leaves the control, attribute and colour fields alone |
| FormatMask.ToggleFields | stuff/formatter/formatter.cpp:185 | the toggle XORs the nine attribute bits and changes nothing else |
| FormatMask.RecolourFields | stuff/formatter/formatter.cpp:186-187 | each colour field is taken from the delta unless it is CURRENT; all other fields stay |
| FormatMask.MergeControl | stuff/formatter/formatter.cpp:183 | after a merge, VALID and RESET are those of the base: INITIAL when the delta has RESET, else the top |
| FormatMask.MergeTrim | stuff/formatter/formatter.cpp:184 | the merged TRIM bit is the delta's own: TRIM does not propagate down the stack |
| FormatMask.MergeToggles | stuff/formatter/formatter.cpp:185 | the merged attribute bits are the base's XOR the delta's |
| FormatMask.MergeAttr | stuff/formatter/formatter.cpp:185 | each attribute is set after the merge iff exactly one of base and delta has it |
| FormatMask.MergeFg | stuff/formatter/formatter.cpp:186 | the merged fg field is the delta's unless the delta's fg is CURRENT, else the base's |
| FormatMask.MergeBg | stuff/formatter/formatter.cpp:187 | the merged bg field is the delta's unless the delta's bg is CURRENT, else the base's |
| FormatMask.MergeValid | stuff/formatter/formatter.cpp:180-187 | merging a valid delta onto an absolute top keeps VALID and RESET set |
| FormatMask.MergeAbsolute | stuff/formatter/formatter.cpp:180-187 | merging a delta onto an absolute format gives an absolute format, and neither colour is CURRENT |
| FormatMask.MergeTogglesTop | stuff/formatter/formatter.cpp:183-185 | without RESET in the delta, the merged attributes are the top's XOR the delta's |
| FormatMask.ToggleCancels | stuff/formatter/formatter.cpp:185 | pushing the same non-resetting delta twice restores the original attribute bits |
| FormatMask.InheritForeground | stuff/formatter/formatter.cpp:186-187 | a tag whose first colour is ';' keeps the enclosing foreground and sets only the background |
| FormatMask.SgrCodesIncrease | stuff/formatter/formatter.cpp:158-167 | the SGR codes 0,1,2,3,4,6,7,9,21,53 that formatToAnsi checks for are strictly increasing and all are control codes |
| FormatMask.ControlCodesPresent | stuff/formatter/formatter.cpp:158-167 | each code is in the control part iff its bit is set in the mask |
| FormatMask.ControlCodesIncreasing | stuff/formatter/formatter.cpp:158-167 | the control codes come out in strictly increasing order |
| FormatMask.ControlCodesBounded | stuff/formatter/formatter.cpp:158-167 | every emitted control code is one of the ten control codes, at or above the current test |
| FormatMask.Codes | stuff/formatter/formatter.cpp:156-169 | the code list is the control codes followed by the fg code and then the bg code |
| FormatMask.CodesOrder | stuff/formatter/formatter.cpp:158-167 | the control codes are strictly increasing, and 0 is among them iff RESET is set |
| FormatMask.AttrTest | stuff/formatter/formatter.cpp:159-167 | every attribute has its own test, whose bit and SGR code are the attribute's |
| FormatMask.ControlCodesAttr | stuff/formatter/formatter.cpp:159-167 | an attribute's SGR code is emitted iff its bit is set, and every control code is from the fixed set |
| FormatMask.ColourCodes | stuff/formatter/formatter.cpp:126-127 | fg = colour+30 and bg = colour+40, each +60 when light; DEFAULT gives 39/49; colour codes never collide with control codes |
| FormatMask.TaggedAppend | stuff/formatter/formatter.cpp:171 | joining codes appends ";" and the decimal digits of each code in turn |
| FormatMask.ResetCodeFirst | stuff/formatter/formatter.cpp:158 | with RESET set, the first code is 0 |
| FormatMask.FormatToAnsiResets | stuff/formatter/formatter.cpp:153-173 | a rendered absolute format starts with ESC "[0;" and ends with 'm' |
| FormatMask.FormatToAnsi | stuff/formatter/formatter.cpp:153-174 | definition: ESC "[" then the codes joined by ';' then "m"; Codes, CodesOrder, FormatToAnsiResets and RenderZeroFirst state what it renders |
| FormatMask.RenderZeroFirst | stuff/formatter/formatter.cpp:170-173 | dropping the leading ';' of a code list that starts with 0 gives ESC "[0;..." |
| Formatter.FindFormatCharFrom | stuff/formatter/formatter.cpp:116-121 | the first position at or after i of the character in the option alphabet, or None iff there is none |
| Formatter.FindFormatCharAt | stuff/formatter/formatter.cpp:277 | the lookup returns the first position of a character of the option alphabet |
| Formatter.FindFormatCharNone | stuff/formatter/formatter.cpp:277 | a character outside the alphabet is not found |
| Formatter.OptionLetterCase | stuff/formatter/formatter.cpp:285 | an option colour letter is upper case iff it is one of the light colours 11-18 |
| Formatter.OptionColourIsDelta | stuff/formatter/formatter.cpp:285 | the colour a letter stands for (a light one lowered by 11) is a base colour (light or not), DEFAULT or CURRENT |
| Formatter.SymbolMask | stuff/formatter/formatter.cpp:293-306 | the bit of a symbol option never touches the colour fields |
| Formatter.DropTrailingSpace | stuff/formatter/formatter.cpp:322 | drops exactly the maximal run of trailing whitespace: a prefix not ending in a space, and only spaces removed |
| Formatter.CutClosing | stuff/formatter/formatter.cpp:320-323 | removes the "--}" marker, and with trim also the whitespace before it |
| Formatter.FindFormatChar | stuff/formatter/formatter.cpp:277 | definition: formatChars.find(c) from position 0; FindFormatCharAt and FindFormatCharNone state its result |
| Formatter.OptionColour | stuff/formatter/formatter.cpp:285 | the colour an option letter stands for fits the 5-bit colour field (colour and light bit) |
| Formatter.Emit | stuff/formatter/formatter.cpp:137-140 | definition: printANSI, which writes nothing in strip mode; StripWritesNoEscape relies on it |
| Formatter.Flush | stuff/formatter/formatter.cpp:214-217 | definition: flushStore appends the store to the output and empties it |
| Formatter.Cleaned | stuff/formatter/formatter.cpp:229-234 | keeps the stack and the strip flag; CleanedInv states that it keeps the invariant |
| Formatter.AcceptSpace | stuff/formatter/formatter.cpp:244-247 | the whitespace branch of accept keeps the stack and the strip flag; LeadingPadding states when the space is stored |
| Formatter.AcceptOpen | stuff/formatter/formatter.cpp:251-257 | the '{' branch keeps the stack and the strip flag; OpenKeepsColourCount states the new state, store and output |
| Formatter.AcceptDash | stuff/formatter/formatter.cpp:261-273 | the '-' branch leaves the stack non-empty and keeps the strip flag; OpeningTag and DashOutsideTag state its two cases |
| Formatter.AcceptColour | stuff/formatter/formatter.cpp:280-289 | the colour branch keeps the stack and the strip flag; ThirdColourAbandons and StaleColourCount state when it abandons the tag |
| Formatter.AcceptSymbol | stuff/formatter/formatter.cpp:292-311 | the symbol branch keeps the stack and the strip flag; RepeatedSymbolAbandons states when it abandons the tag |
| Formatter.AcceptClose | stuff/formatter/formatter.cpp:316-334 | the '}' branch leaves the stack non-empty and keeps the strip flag; ClosingTag, UnbalancedClosingTag and StepCloses state its cases |
| Formatter.CloseTag | stuff/formatter/formatter.cpp:319-329 | closing on "--}" leaves the stack non-empty and keeps the strip flag; ClosingTag and UnbalancedClosingTag state its result |
| Formatter.AcceptLiteral | stuff/formatter/formatter.cpp:337-341 | the literal branch keeps the stack and the strip flag; LiteralKeepsColourCount states its result |
| Formatter.Step | stuff/formatter/formatter.cpp:241-343 | one call of accept leaves the stack non-empty and keeps the strip flag; StepInv states that it keeps the whole invariant |
| Formatter.Run | stuff/formatter/formatter.cpp:387-388 | feeding characters one by one leaves the stack non-empty and keeps the strip flag; RunInv and RunAppend state the rest |
| Formatter.Finished | stuff/formatter/formatter.cpp:345-348 | definition: the destructor flushes the store and renders INITIAL |
| Formatter.Translate | stuff/formatter/formatter.cpp:385-388 | definition: construct an automaton, feed it the argument and destroy it; FormatArgument and StripWritesNoEscape state its output |
| Formatter.Initial | stuff/formatter/formatter.cpp:143-147 | the constructed automaton satisfies the invariant |
| Formatter.Pushed | stuff/formatter/formatter.cpp:177-190 | the stack grows by one and the entries below are unchanged |
| Formatter.Popped | stuff/formatter/formatter.cpp:197-198 | the stack is never emptied: the bottom entry is never removed |
| Formatter.PushPopRestores | stuff/formatter/formatter.cpp:190-199 | pushing then popping restores the stack, so the parent's rendering is re-emitted |
| Formatter.StepInv | stuff/formatter/formatter.cpp:241-343 | every accept keeps the invariant: non-empty stack, INITIAL at the bottom, absolute entries, a delta in the tag mask, at most two colour parts |
| Formatter.RunInv | stuff/formatter/formatter.cpp:241-343 | any input keeps the invariant |
| Formatter.RunAppend | stuff/formatter/formatter.cpp:241-343 | feeding one more character is one more accept |
| Formatter.TopRenders | stuff/formatter/formatter.cpp:154 | the top of the stack always has VALID and RESET, so formatToAnsi's assertion holds |
| Formatter.RenderingResets | stuff/formatter/formatter.cpp:154-173 | every sequence emitted for the top starts with ESC "[0;" |
| Formatter.InitialRendering | stuff/formatter/formatter.cpp:143-147 | INITIAL renders as ESC "[0;39;49m", which the constructor writes unless stripping |
| Formatter.OpeningTag | stuff/formatter/formatter.cpp:261-269 | "--" in a tag pushes the merge of the top and the tag mask, writes its rendering (unless stripping), drops the store and skips padding iff the tag had '#' |
| Formatter.DashOutsideTag | stuff/formatter/formatter.cpp:270-272 | a '-' outside a tag is stored and leaves padding-skipping |
| Formatter.ClosingTag | stuff/formatter/formatter.cpp:316-329 | "--}" above the bottom pops the top and writes the store without the marker (and the padding before it under TRIM unless stripping), then the new top's rendering |
| Formatter.UnbalancedClosingTag | stuff/formatter/formatter.cpp:319-327 | "--}" with only the bottom entry keeps the marker in the text and re-renders INITIAL |
| Formatter.StepCloses | stuff/formatter/formatter.cpp:316 | a '}' is never an option character, so it always reaches the closing branch |
| Formatter.LeadingPadding | stuff/formatter/formatter.cpp:244-247 | whitespace is dropped while skipping padding outside strip mode, and stored otherwise |
| Formatter.ThirdColourAbandons | stuff/formatter/formatter.cpp:284-289 | a third colour letter writes the store as literal text, returns to DEFAULT and resets the tag mask and colour count |
| Formatter.RepeatedSymbolAbandons | stuff/formatter/formatter.cpp:307-308 | a repeated symbol option abandons the tag in the same way |
| Formatter.OpenKeepsColourCount | stuff/formatter/formatter.cpp:251-257 | '{' writes the store, starts a tag and leaves the colour count as it was |
| Formatter.LiteralKeepsColourCount | stuff/formatter/formatter.cpp:337-341 | any other character is written as text and returns to DEFAULT, leaving the colour count |
| Formatter.StaleColourCount | stuff/formatter/formatter.cpp:226-234 | after a tag abandoned with two colours, the first colour letter of the next tag abandons it |
| Formatter.StripWritesNoEscape | stuff/formatter/formatter.cpp:137-140 | in strip mode the output holds no escape character that the input did not |
| Formatter.JoinCodes | stuff/formatter/formatter.cpp:170-171 | the joining loop builds ";" and the digits of every code |
| Formatter.FormatterAutomaton.constructor | stuff/formatter/formatter.cpp:143-147 | the fields hold the initial machine |
| Formatter.FormatterAutomaton.PrintAnsi | stuff/formatter/formatter.cpp:137-140 | the sequence is appended to the output unless stripping |
| Formatter.FormatterAutomaton.StoreChar | stuff/formatter/formatter.cpp:212 | the character is appended to the store and nothing else changes |
| Formatter.FormatterAutomaton.ClearStore | stuff/formatter/formatter.cpp:213 | the store is emptied and nothing else changes |
| Formatter.FormatterAutomaton.FlushStore | stuff/formatter/formatter.cpp:214-217 | the store is appended to the output and emptied |
| Formatter.FormatterAutomaton.FormatToAnsi | stuff/formatter/formatter.cpp:153-174 | the rendering is that of the codes, joined |
| Formatter.FormatterAutomaton.PushFormat | stuff/formatter/formatter.cpp:177-194 | the merged format is pushed and its rendering returned |
| Formatter.FormatterAutomaton.PopFormat | stuff/formatter/formatter.cpp:197-200 | the top is popped unless it is the bottom, and the new top's rendering is returned |
| Formatter.FormatterAutomaton.CleanAfterBracketParse | stuff/formatter/formatter.cpp:229-234 | the store is dropped or written, the colour count and tag mask reset, and padding is skipped iff success with TRIM |
| Formatter.FormatterAutomaton.Accept | stuff/formatter/formatter.cpp:241-343 | the fields change exactly as one Step of the machine, and the invariant is kept |
| Formatter.FormatterAutomaton.AcceptDashChar | stuff/formatter/formatter.cpp:261-273 | the '-' branch performs AcceptDash |
| Formatter.FormatterAutomaton.AcceptColourOption | stuff/formatter/formatter.cpp:283-289 | the colour branch performs AcceptColour |
| Formatter.FormatterAutomaton.AcceptSymbolOption | stuff/formatter/formatter.cpp:292-311 | the symbol branch performs AcceptSymbol |
| Formatter.FormatterAutomaton.AcceptCloseChar | stuff/formatter/formatter.cpp:316-334 | the '}' branch performs AcceptClose |
| Formatter.FormatterAutomaton.CloseTagChars | stuff/formatter/formatter.cpp:319-329 | the "--}" branch performs CloseTag |
| Formatter.FormatterAutomaton.CutClosingStore | stuff/formatter/formatter.cpp:320-323 | above the bottom entry the store loses the marker (and padding under TRIM) |
| Formatter.FormatterAutomaton.Close | stuff/formatter/formatter.cpp:345-348 | the destructor flushes the store and renders INITIAL |
| Formatter.FormatArgument | stuff/formatter/formatter.cpp:385-388 | one automaton fed an argument character by character writes exactly Translate of it |
| BinaryHeap.Parent | algo/algorithms/heap/Heap.hpp:325-328 | -1 exactly off the valid non-root indices, else an index below with the child at 2p+1 or 2p+2 |
| BinaryHeap.LeftSon | algo/algorithms/heap/Heap.hpp:331-335 | 2i+1 when that is a valid index, -1 exactly otherwise |
| BinaryHeap.RightSon | algo/algorithms/heap/Heap.hpp:338-342 | 2i+2 when that is a valid index, -1 exactly otherwise |
| BinaryHeap.SonsOfParent | algo/algorithms/heap/Heap.hpp:325-342 | the parent of each son is the index, and the only indices with that parent are its two sons |
| BinaryHeap.MinSon | algo/algorithms/heap/Heap.hpp:345-348 | -1 exactly when there is no son, else a son of the index |
| BinaryHeap.MinSonLeast | algo/algorithms/heap/Heap.hpp:351-356 | the chosen son is no larger than any son |
| BinaryHeap.RootIsMin | algo/algorithms/heap/Heap.hpp:431-434 | the root of a heap is no larger than any element |
| BinaryHeap.FloorLog2Bounds | algo/algorithms/heap/Heap.hpp:359-363 | 2^lvl ≤ n < 2^(lvl+1) |
| BinaryHeap.LevelsOfTop | algo/algorithms/heap/Heap.hpp:131 | lvl_(0)=0, lvl_(1)=lvl_(2)=1, lvl_(3)=2 |
| BinaryHeap.LevelOfParent | algo/algorithms/heap/Heap.hpp:325-363 | a parent sits exactly one level above its child |
| BinaryHeap.Level | algo/algorithms/heap/Heap.hpp:359-363 | the shifting loop computes floor(log2(index+1)) |
| BinaryHeap.Heap.constructor | algo/algorithms/heap/Heap.hpp:153 | the empty heap |
| BinaryHeap.Heap.FromVector | algo/algorithms/heap/Heap.hpp:154-158 | heapify gives a heap holding exactly the given elements |
| BinaryHeap.Heap.IsEmpty | algo/algorithms/heap/Heap.hpp:421-423 | true iff no elements |
| BinaryHeap.Heap.Size | algo/algorithms/heap/Heap.hpp:426-428 | the number of elements |
| BinaryHeap.Heap.GetMin | algo/algorithms/heap/Heap.hpp:431-434 | None iff empty, else an element no larger than any other |
| BinaryHeap.Heap.GetContainer | algo/algorithms/heap/Heap.hpp:438-440 | the element vector, of the heap's size and in heap order |
| BinaryHeap.Heap.BubbleUp | algo/algorithms/heap/Heap.hpp:284-299 | a heap with one element too small for its place becomes a heap with the same elements |
| BinaryHeap.Heap.BubbleDown | algo/algorithms/heap/Heap.hpp:302-317 | heap order below the index is restored with the same elements |
| BinaryHeap.Heap.Insert | algo/algorithms/heap/Heap.hpp:381-385 | the heap grows by one and holds the old elements plus the new one |
| BinaryHeap.Heap.DeleteMin | algo/algorithms/heap/Heap.hpp:402-409 | on a non-empty heap the old root is removed and a heap remains; an empty heap is unchanged and reports failure |
| BinaryHeap.Heap.ExtractMin | algo/algorithms/heap/Heap.hpp:388-399 | returns the old minimum and removes it, or None on an empty heap |
| BinaryHeap.Heap.Clear | algo/algorithms/heap/Heap.hpp:412-415 | empty and size 0 |
| UnionFind.InitialForest | algo/algorithms/unionFind.cpp:9 | the all -1 table is a forest where every element is its own representative |
| UnionFind.Compress | algo/algorithms/unionFind.cpp:13 | pointing an element straight at its representative keeps the forest and every representative |
| UnionFind.Link | algo/algorithms/unionFind.cpp:19-20 | hanging one root under another gives a forest whose representatives are relabelled, with the size sum at the winner |
| UnionFind.RelabelCountTo | algo/algorithms/unionFind.cpp:19 | after relabelling, the winner's set has both sets' elements |
| UnionFind.RelabelCountFrom | algo/algorithms/unionFind.cpp:20 | after relabelling, nothing has the loser as representative |
| UnionFind.RelabelCountOther | algo/algorithms/unionFind.cpp:19-20 | other sets keep their size |
| UnionFind.RelabelJoins | algo/algorithms/unionFind.cpp:16-21 | after relabelling, two elements share a representative iff they did, or they were in the two joined sets |
| UnionFind.UnionFind.constructor | algo/algorithms/unionFind.cpp:9 | every element is its own root with size 1 |
| UnionFind.UnionFind.Rank | algo/algorithms/unionFind.cpp:11 | the size of a representative's set |
| UnionFind.UnionFind.Find | algo/algorithms/unionFind.cpp:13 | returns the representative, a root; roots stay roots and non-roots stay non-roots |
| UnionFind.UnionFind.Union | algo/algorithms/unionFind.cpp:16-21 | both elements end with the returned root; already joined changes nothing; else the larger set's root (a's on a tie) survives with the sum of sizes |
| UnionFind.UnionFind.Hang | algo/algorithms/unionFind.cpp:19-20 | the loser's set is relabelled to the winner, whose size becomes the sum |
| Kmp.BorderExtend | algo/kotlin/src/main/kotlin/me/tooster/algorithms/KMP.kt:16-17 | a border followed by a matching character extends to a border one longer |
| Kmp.Fallback | algo/kotlin/src/main/kotlin/me/tooster/algorithms/KMP.kt:14-15 | the fallback to pi[j-1] skips no border that could still extend |
| Kmp.Settle | algo/kotlin/src/main/kotlin/me/tooster/algorithms/KMP.kt:16-18 | the value stored for i is the longest proper border of pat[0..i] |
| Kmp.Pi | algo/kotlin/src/main/kotlin/me/tooster/algorithms/KMP.kt:10-21 | pi has the pattern's length and pi[i] is the longest proper border of the first i+1 characters |
| Kmp.DistinctHasNoBorder | algo/kotlin/src/test/kotlin/me/tooster/algorithms/KMPKtTest.kt:32-35 | in a string of distinct characters every longest border is empty |
| Kmp.RepeatedHasLongBorder | algo/kotlin/src/test/kotlin/me/tooster/algorithms/KMPKtTest.kt:37-40 | in a string of one repeated character the longest border of n characters has n-1 |
| Kmp.MatchesBelowMembers | algo/kotlin/src/main/kotlin/me/tooster/algorithms/KMP.kt:33-34 | the reference list holds exactly the occurrences below the bound |
| Kmp.MatchesBelowIncreasing | algo/kotlin/src/main/kotlin/me/tooster/algorithms/KMP.kt:33-34 | the reference list is strictly increasing |
| Kmp.ShiftSkipsNothing | algo/kotlin/src/main/kotlin/me/tooster/algorithms/KMP.kt:35-36 | shifting the window by the border skips no occurrence and keeps the matched prefix |
| Kmp.Search | algo/kotlin/src/main/kotlin/me/tooster/algorithms/KMP.kt:24-41 | for a non-empty pattern, exactly the ascending start positions of all occurrences; for an empty one, 0..|text|-1 |
| Kmp.IndexOf | algo/kotlin/src/test/kotlin/me/tooster/algorithms/KMPKtTest.kt:44-47 | String.indexOf(pattern, from) for a non-empty pattern: -1, or a position at or after from where the pattern occurs inside the text |
| Kmp.BruteFind | algo/kotlin/src/test/kotlin/me/tooster/algorithms/KMPKtTest.kt:42-50 | definition: indexOf from 0, then again from one past each hit; BruteFindIsMatchesFrom states that it lists every occurrence |
| Kmp.IndexOfBounds | algo/kotlin/src/test/kotlin/me/tooster/algorithms/KMPKtTest.kt:42-50 | indexOf returns the first occurrence at or after from, or -1 when there is none |
| Kmp.BruteFindIsMatchesFrom | algo/kotlin/src/test/kotlin/me/tooster/algorithms/KMPKtTest.kt:42-50 | the brute-force scan lists exactly the occurrences from the start position |
| Kmp.SearchIsBruteForce | algo/kotlin/src/test/kotlin/me/tooster/algorithms/KMPKtTest.kt:52-57 | for a non-empty pattern the search result equals the brute-force indexOf scan |
| Fenwick.StartHalves | algo/kotlin/src/main/kotlin/me/tooster/dataStructures/FenwickTree.kt:23 | i and (i+1) clears the trailing one bits of i |
| Fenwick.EndHalves | algo/kotlin/src/main/kotlin/me/tooster/dataStructures/FenwickTree.kt:24 | i or (i+1) sets the lowest zero bit of i |
| Fenwick.SegmentBounds | algo/kotlin/src/main/kotlin/me/tooster/dataStructures/FenwickTree.kt:23-24 | getSegmentStart(i) ≤ i < getSegmentEnd(i), so both loops terminate |
| Fenwick.EndContains | algo/kotlin/src/main/kotlin/me/tooster/dataStructures/FenwickTree.kt:55-60 | the segment of getSegmentEnd(i) contains the segment of i |
| Fenwick.BetweenStartsAbove | algo/kotlin/src/main/kotlin/me/tooster/dataStructures/FenwickTree.kt:55-60 | a segment strictly between i and the next segment end does not contain i |
| Fenwick.RangeSumSplit | algo/kotlin/src/main/kotlin/me/tooster/dataStructures/FenwickTree.kt:31 | a range sum splits at any middle point |
| Fenwick.RangeSumPoint | algo/kotlin/src/main/kotlin/me/tooster/dataStructures/FenwickTree.kt:55-60 | adding delta at k adds delta to exactly the range sums that contain k |
| Fenwick.RangeSumDoubled | algo/kotlin/src/test/kotlin/me/tooster/dataStructures/FenwickTreeTest.kt:39-46 | doubling every element doubles every range sum |
| Fenwick.FenwickTree.constructor | algo/kotlin/src/main/kotlin/me/tooster/dataStructures/FenwickTree.kt:17-21 | a zero tree updated once per element stands for exactly the elements |
| Fenwick.FenwickTree.Query | algo/kotlin/src/main/kotlin/me/tooster/dataStructures/FenwickTree.kt:31 | the difference of two prefix sums, which is the sum of data[first..last] for a range inside the data |
| Fenwick.FenwickTree.QueryAt | algo/kotlin/src/main/kotlin/me/tooster/dataStructures/FenwickTree.kt:38 | the element at the index |
| Fenwick.FenwickTree.PrefixQuery | algo/kotlin/src/main/kotlin/me/tooster/dataStructures/FenwickTree.kt:40-48 | the sum of data[0..end], and 0 when end is not an index (prefixQuery(-1) is zero) |
| Fenwick.FenwickTree.Update | algo/kotlin/src/main/kotlin/me/tooster/dataStructures/FenwickTree.kt:55-61 | delta is added to element idx only; an index outside changes nothing |
| LeftistHeap.Key | algo/algorithms/leftistHeap.js:5 | None exactly for the null tree, else a key of the tree |
| LeftistHeap.Join | algo/algorithms/leftistHeap.js:7-17 | the size is the sum of the sizes and the root key is one of the two root keys |
| LeftistHeap.JoinKeys | algo/algorithms/leftistHeap.js:7-17 | the keys of the join are the multiset union of both trees' keys |
| LeftistHeap.JoinHeap | algo/algorithms/leftistHeap.js:11-16 | the join of two heap-ordered trees is heap-ordered |
| LeftistHeap.JoinLeftist | algo/algorithms/leftistHeap.js:13-16 | the join of two leftist trees is leftist, with h(node) = h(R)+1 |
| LeftistHeap.JoinIdentity | algo/algorithms/leftistHeap.js:8-9 | joining with the null tree on either side gives the other tree |
| LeftistHeap.RootIsLeast | algo/algorithms/leftistHeap.js:11 | the root of a heap-ordered tree is no larger than any of its keys |
| LeftistHeap.Insert | algo/algorithms/leftistHeap.js:23-26 | adds exactly the key and keeps a valid tree valid |
| LeftistHeap.DeleteMin | algo/algorithms/leftistHeap.js:19-21 | None iff null; else the least key and a valid tree of the remaining keys, one smaller |
| LeftistHeap.SpineIsLogarithmic | algo/algorithms/leftistHeap.js:15-16 | the stored h is the right-spine length and 2^h ≤ size+1 |
| LeftistHeap.InsertAll | algo/algorithms/leftistHeap.js:32-33 | inserting a sequence adds exactly its keys and keeps validity |
| LeftistHeap.Drain | algo/algorithms/leftistHeap.js:36-39 | repeated deleteMin yields as many keys as the tree holds; DrainKeys and DrainSorted state which keys and in what order |
| LeftistHeap.DrainKeys | algo/algorithms/leftistHeap.js:36-39 | repeated deleteMin yields exactly the keys of the tree |
| LeftistHeap.DrainSorted | algo/algorithms/leftistHeap.js:36-39 | repeated deleteMin on a valid tree yields the keys in ascending order |
| LeftistHeap.HeapSort | algo/algorithms/leftistHeap.js:29-39 | inserting a sequence and draining gives it sorted and as a permutation |
| Terrain.Flatten | stuff/factorio-prototype-water-basins/modules/game.js:358 | definition: heights.flat(), the rows one after the other; FlattenIndex states its length and cell positions |
| Terrain.FlattenIndex | stuff/factorio-prototype-water-basins/modules/game.js:358 | the flattened grid has h*w cells and cell (x,y) is at y*w+x |
| Terrain.RunLengthEncode | stuff/factorio-prototype-water-basins/modules/game.js:357-380 | the last run carries the value of the last cell |
| Terrain.EncodeCanonical | stuff/factorio-prototype-water-basins/modules/game.js:363-372 | every run has count ≥ 1, consecutive runs differ in value and the counts sum to the cell count |
| Terrain.ExpandEncode | stuff/factorio-prototype-water-basins/modules/game.js:357-372 | expanding the runs gives back the flattened cells |
| Terrain.Repeat | stuff/factorio-prototype-water-basins/modules/game.js:426-428 | count copies of the value, none for a count of 0 or less |
| Terrain.Unflatten | stuff/factorio-prototype-water-basins/modules/game.js:431-437 | a grid of h rows of w cells |
| Terrain.UnflattenCell | stuff/factorio-prototype-water-basins/modules/game.js:435 | cell (x,y) is flat[y*w+x] |
| Terrain.RunLengthDecode | stuff/factorio-prototype-water-basins/modules/game.js:423-439 | when it succeeds, a grid of the stated size (a negative size read as 0) |
| Terrain.RunLengthRoundTrip | stuff/factorio-prototype-water-basins/modules/game.js:357-439 | decoding the encoding of a non-empty w×h grid gives back the grid |
| Terrain.UnflattenFlatten | stuff/factorio-prototype-water-basins/modules/game.js:431-437 | unflattening the flattened grid gives back the grid |
| Terrain.Pack | stuff/factorio-prototype-water-basins/modules/game.js:387-391 | one byte per two cells, the odd tail padded |
| Terrain.Unpack | stuff/factorio-prototype-water-basins/modules/game.js:449-452 | two cells per byte |
| Terrain.PairRoundTrip | stuff/factorio-prototype-water-basins/modules/game.js:390-451 | (v1<<4)\|v2 unpacks to v1 then v2 for values 0..15 |
| Terrain.UnpackPack | stuff/factorio-prototype-water-basins/modules/game.js:387-452 | unpacking the packing gives back the cells, plus a 0 after an odd count |
| Terrain.PackedDecode | stuff/factorio-prototype-water-basins/modules/game.js:441-463 | a grid of the stated size |
| Terrain.PackedDecodeCell | stuff/factorio-prototype-water-basins/modules/game.js:458-459 | a cell is the unpacked value at its index, or 0 beyond the data |
| Terrain.PackedDecodeZeroFill | stuff/factorio-prototype-water-basins/modules/game.js:459 | cells beyond the packed data are 0 |
| Terrain.PackedRoundTrip | stuff/factorio-prototype-water-basins/modules/game.js:382-463 | a grid of depths 0..15 survives packing and decoding |
| Terrain.Clamp | stuff/factorio-prototype-water-basins/modules/game.js:64 | the depth forced into [0, MAX_DEPTH], unchanged when already inside |
| Terrain.SetCell | stuff/factorio-prototype-water-basins/modules/game.js:64 | only cell (x,y) changes |
| Terrain.GeneratedDepth | stuff/factorio-prototype-water-basins/modules/noise.js:343-346 | the generated depth lies in [0, MAX_DEPTH + 1], and it is MAX_DEPTH + 1 exactly when noise plus offset reaches 1 |
| Terrain.GameState.constructor | stuff/factorio-prototype-water-basins/modules/game.js:21-22 | the grid is WORLD_H×WORLD_W, each tile holds the generator's depth for its noise value, and all depths are in [0, MAX_DEPTH + 1] |
| Terrain.Neighbours | stuff/factorio-prototype-water-basins/modules/game.js:97 | definition: the four orthogonal neighbours in the order getMinNeighborHeight visits them |
| Terrain.GameState.SetDepthAtBatch | stuff/factorio-prototype-water-basins/modules/game.js:62-66 | a tile in the world takes the depth clamped to [0, MAX_DEPTH]; input outside changes nothing; depths stay in range |
| Terrain.GameState.IncreaseDepthAt | stuff/factorio-prototype-water-basins/modules/game.js:73-78 | the tile deepens by one up to MAX_DEPTH, so a generated MAX_DEPTH + 1 becomes MAX_DEPTH; only that tile changes; depths stay in range |
| Terrain.GameState.DecreaseDepthAt | stuff/factorio-prototype-water-basins/modules/game.js:80-85 | the tile rises by one down to 0 (a generated MAX_DEPTH + 1 becomes MAX_DEPTH); only that tile changes; depths stay in range |
| Terrain.GameState.GetMinNeighborHeight | stuff/factorio-prototype-water-basins/modules/game.js:95-107 | the least depth among in-world 4-neighbours when one of them is at most MAX_DEPTH; otherwise, with no such neighbour or all of them at MAX_DEPTH + 1, the tile's own depth (None when the tile itself is outside the world) |
| Basins.Rem26 | stuff/factorio-prototype-water-basins/modules/basins.js:12 | JavaScript's % 26: Euclidean for a non-negative index, never positive for a negative one |
| Basins.Letters | stuff/factorio-prototype-water-basins/modules/basins.js:7-17 | a non-empty name of 'A'..'Z' letters, one letter long iff the index is below 26 |
| Basins.GenerateLetterSequence | stuff/factorio-prototype-water-basins/modules/basins.js:7-17 | the do-while loop computes the bijective base-26 name; a negative index gives one character |
| Basins.FromLettersLetters | stuff/factorio-prototype-water-basins/modules/basins.js:7-17 | reading a name back gives the index |
| Basins.LettersFromLetters | stuff/factorio-prototype-water-basins/modules/basins.js:7-17 | every non-empty word of capitals is the name of its reading |
| Basins.LettersInjective | stuff/factorio-prototype-water-basins/modules/basins.js:11-14 | distinct indices get distinct names |
| Basins.LettersExamples | stuff/factorio-prototype-water-basins/modules/basins.js:6 | 0→A, 25→Z, 26→AA, 27→AB, 701→ZZ, 702→AAA |
| Basins.TotalRemove | stuff/factorio-prototype-water-basins/modules/basins.js:46-52 | the total can count any bucket first |
| Basins.TotalUpdate | stuff/factorio-prototype-water-basins/modules/basins.js:46-52 | replacing one bucket changes the total by the difference of lengths |
| Basins.DepthPriorityQueue.constructor | stuff/factorio-prototype-water-basins/modules/basins.js:21-24 | no buckets and maxDepth -1 |
| Basins.DepthPriorityQueue.Push | stuff/factorio-prototype-water-basins/modules/basins.js:26-33 | the item is appended to its depth's bucket, maxDepth rises to it, and the count grows by one |
| Basins.DepthPriorityQueue.Pop | stuff/factorio-prototype-water-basins/modules/basins.js:35-44 | the last item of the deepest non-empty bucket, removed, with the count one less; None iff no bucket of depth ≥ 0 has items |
| Basins.DepthPriorityQueue.Length | stuff/factorio-prototype-water-basins/modules/basins.js:46-52 | the total number of items in all buckets |
| Basins.ValidTileIndexes | stuff/factorio-prototype-water-basins/modules/basins.js:380-382 | a tile is valid iff it indexes a cell of a world-sized grid |
| Basins.OrthogonalStepValid | stuff/factorio-prototype-water-basins/modules/basins.js:478 | a step that is not two taxicab units long is always valid |
| Basins.IsDiagonalValid | stuff/factorio-prototype-water-basins/modules/basins.js:474-494 | definition: a taxicab-2 step is refused when both tiles it cuts between are in the world and land; OrthogonalStepValid, DiagonalBlocked, DiagonalSymmetric and StraightTwoStep state its cases |
| Basins.DiagonalBlocked | stuff/factorio-prototype-water-basins/modules/basins.js:484-493 | a diagonal step is blocked iff both crossing tiles are in the world and have depth 0 |
| Basins.DiagonalSymmetric | stuff/factorio-prototype-water-basins/modules/basins.js:474-494 | a diagonal step is valid iff the reverse step is |
| Basins.StraightTwoStep | stuff/factorio-prototype-water-basins/modules/basins.js:478-490 | a straight step of two is checked too: blocked iff the target and the start are land |
| Grid2D.Wrap | algo/kotlin/src/common/kotlin/me/tooster/util/util2D.kt:75 | an integer already in Int range is unchanged |
| Grid2D.Add | algo/kotlin/src/common/kotlin/me/tooster/util/util2D.kt:81 | definition: Int addition, wrapped to 32 bits; WordGroup and AddAssoc state its laws |
| Grid2D.Sub | algo/kotlin/src/common/kotlin/me/tooster/util/util2D.kt:82 | definition: Int subtraction, wrapped; WordGroup states that it adds the negation |
| Grid2D.Mul | algo/kotlin/src/common/kotlin/me/tooster/util/util2D.kt:83 | definition: Int multiplication, wrapped; WordTimes states its laws |
| Grid2D.Negate | algo/kotlin/src/common/kotlin/me/tooster/util/util2D.kt:79 | definition: Int negation, wrapped (MIN_VALUE is its own negation); WordGroup and NormsOfNeg use it |
| Grid2D.Abs | algo/kotlin/src/common/kotlin/me/tooster/util/util2D.kt:91 | definition: kotlin.math.abs on Int, which leaves MIN_VALUE negative; NormsOfNeg states that it ignores the sign |
| Grid2D.WrapInner | algo/kotlin/src/common/kotlin/me/tooster/util/util2D.kt:81 | wrapping an intermediate sum does not change the wrapped result |
| Grid2D.WordGroup | algo/kotlin/src/common/kotlin/me/tooster/util/util2D.kt:79-82 | Int addition is a commutative group with 0 and negation; subtraction adds the negation and undoes addition |
| Grid2D.AddAssoc | algo/kotlin/src/common/kotlin/me/tooster/util/util2D.kt:81 | wrapped addition is associative |
| Grid2D.WordTimes | algo/kotlin/src/common/kotlin/me/tooster/util/util2D.kt:83 | Int multiplication distributes over addition; times 0, 1, -1 and 2 |
| Grid2D.Value | algo/kotlin/src/common/kotlin/me/tooster/util/util2D.kt:41 | definition: the direction of an ordinal below 8, in the order N, NE, ..., NW |
| Grid2D.Ordinal | algo/kotlin/src/common/kotlin/me/tooster/util/util2D.kt:34 | the ordinal of a direction is below 8 |
| Grid2D.DeltaX | algo/kotlin/src/common/kotlin/me/tooster/util/util2D.kt:58 | definition: the x step of each direction; CompassDeltas states the table |
| Grid2D.DeltaY | algo/kotlin/src/common/kotlin/me/tooster/util/util2D.kt:59 | definition: the y step of each direction; CompassDeltas states the table |
| Grid2D.CwOffset | algo/kotlin/src/common/kotlin/me/tooster/util/util2D.kt:46 | definition: the clockwise offset of each relative direction; GetOrdinal states how get uses it |
| Grid2D.GetRose | algo/kotlin/src/common/kotlin/me/tooster/util/util2D.kt:49 | definition: the direction at floorMod(index, 8); RoseOrdinal states its ordinal and period |
| Grid2D.Get | algo/kotlin/src/common/kotlin/me/tooster/util/util2D.kt:56 | definition: getRose of the ordinal plus the relative offset; GetOrdinal, TwoTurns, QuarterTurns and BackIsOpposite state its laws |
| Grid2D.RoseOrdinal | algo/kotlin/src/common/kotlin/me/tooster/util/util2D.kt:49 | getRose(i) is the direction of ordinal floorMod(i, 8), so getRose(i+8) == getRose(i) |
| Grid2D.CardinalPoints | algo/kotlin/src/common/kotlin/me/tooster/util/util2D.kt:52-53 | the cardinals (even ordinals) are N, E, S, W and the diagonals the rest |
| Grid2D.Neg | algo/kotlin/src/common/kotlin/me/tooster/util/util2D.kt:79 | definition: both components negated with wrap-around; PlusGroup and NormsOfNeg state its laws |
| Grid2D.Plus | algo/kotlin/src/common/kotlin/me/tooster/util/util2D.kt:81 | definition: componentwise wrapped addition; PlusGroup states its laws |
| Grid2D.Minus | algo/kotlin/src/common/kotlin/me/tooster/util/util2D.kt:82 | definition: componentwise wrapped subtraction; PlusGroup states that it adds the negation |
| Grid2D.Times | algo/kotlin/src/common/kotlin/me/tooster/util/util2D.kt:83 | definition: both components times the scalar, wrapped; TimesLaws states its laws |
| Grid2D.Quot | algo/kotlin/src/common/kotlin/me/tooster/util/util2D.kt:84 | definition: Int division truncated toward zero and wrapped; DivLaws and TruncDivRemainder state its laws |
| Grid2D.Norm2 | algo/kotlin/src/common/kotlin/me/tooster/util/util2D.kt:88 | definition: x*x + y*y with wrap-around; NormsOfNeg and NormsExact state its values |
| Grid2D.NormTaxi | algo/kotlin/src/common/kotlin/me/tooster/util/util2D.kt:91 | definition: abs(x) + abs(y) with wrap-around; NormsOfNeg, NormsExact and CardinalIsUnitStep state its values |
| Grid2D.Delta | algo/kotlin/src/common/kotlin/me/tooster/util/util2D.kt:60 | definition: the unit step of a direction; CompassDeltas and DeltasAreNeighbours state its values |
| Grid2D.Translated | algo/kotlin/src/common/kotlin/me/tooster/util/util2D.kt:96 | definition: the vector plus the direction's step; TranslatedBack states that BACK undoes it |
| Grid2D.PlusGroup | algo/kotlin/src/common/kotlin/me/tooster/util/util2D.kt:79-82 | vector plus is a commutative group; minus adds the negation and undoes plus |
| Grid2D.TimesLaws | algo/kotlin/src/common/kotlin/me/tooster/util/util2D.kt:83 | times distributes over plus; times 0, 1, -1 and 2 |
| Grid2D.Div | algo/kotlin/src/common/kotlin/me/tooster/util/util2D.kt:84 | None (the ArithmeticException) iff the scalar is 0 |
| Grid2D.DivLaws | algo/kotlin/src/common/kotlin/me/tooster/util/util2D.kt:84 | division by 1 and -1; quotients truncate toward zero except MIN_VALUE / -1 |
| Grid2D.TruncDivRemainder | algo/kotlin/src/common/kotlin/me/tooster/util/util2D.kt:84 | the truncated quotient leaves a remainder smaller than the divisor with the dividend's sign |
| Grid2D.NormsOfNeg | algo/kotlin/src/common/kotlin/me/tooster/util/util2D.kt:88-91 | both norms are unchanged by negation |
| Grid2D.NormsExact | algo/kotlin/src/common/kotlin/me/tooster/util/util2D.kt:88-91 | for small components norm2 = x²+y² and normTaxi = \|x\|+\|y\| |
| Grid2D.CompassDeltas | algo/kotlin/src/common/kotlin/me/tooster/util/util2D.kt:44-45 | N=(0,1), E=(1,0), S=(0,-1), W=(-1,0) |
| Grid2D.CardinalIsUnitStep | algo/kotlin/src/common/kotlin/me/tooster/util/util2D.kt:44-53 | cardinal iff the delta has taxicab and squared norm 1; diagonal iff both are 2 |
| Grid2D.DeltasAreNeighbours | algo/kotlin/src/common/kotlin/me/tooster/util/util2D.kt:44-45 | the deltas are distinct and are exactly the eight unit neighbours |
| Grid2D.BackIsOpposite | algo/kotlin/src/common/kotlin/me/tooster/util/util2D.kt:46-56 | get(BACK) has the negated delta, and applying it twice returns the direction |
| Grid2D.QuarterTurns | algo/kotlin/src/common/kotlin/me/tooster/util/util2D.kt:46-56 | RIGHT rotates the delta clockwise; LEFT and RIGHT cancel; the back turns compose from a quarter and a front turn |
| Grid2D.GetOrdinal | algo/kotlin/src/common/kotlin/me/tooster/util/util2D.kt:56 | get(r) moves the ordinal by the clockwise offset, modulo 8 |
| Grid2D.TwoTurns | algo/kotlin/src/common/kotlin/me/tooster/util/util2D.kt:56 | two turns move the ordinal by the sum of their offsets |
| Grid2D.TurnsAndCardinality | algo/kotlin/src/common/kotlin/me/tooster/util/util2D.kt:52-56 | an even offset keeps cardinality and an odd offset flips it |
| Grid2D.TranslatedBack | algo/kotlin/src/common/kotlin/me/tooster/util/util2D.kt:96 | translating by d and then by get(BACK) returns to the start |
| Grid2D.Encoded | algo/kotlin/src/common/kotlin/me/tooster/util/util2D.kt:98 | definition: x in the high 32 bits and y in the low 32 bits of a Long; EncodedInjective states that no two vectors share an encoding |
| Grid2D.Decoded | algo/kotlin/src/common/kotlin/me/tooster/util/util2D.kt:108 | definition: the high half by an unsigned shift and the low half, each read as an Int; DecodedEncoded states that it inverts encoded |
| Grid2D.DecodedEncoded | algo/kotlin/src/common/kotlin/me/tooster/util/util2D.kt:98-108 | decoded(v.encoded()) == v for all Int x and y |
| Grid2D.EncodedInjective | algo/kotlin/src/common/kotlin/me/tooster/util/util2D.kt:98 | distinct vectors have distinct encodings |
| Bits.BitAnd | algo/kotlin/src/main/kotlin/me/tooster/dataStructures/FenwickTree.kt:23 | the and of two naturals is at most each of them |
| Bits.BitOr | algo/kotlin/src/main/kotlin/me/tooster/dataStructures/FenwickTree.kt:24 | the or of two naturals is at least each of them |
| Bits.LowBits | algo/kotlin/src/common/kotlin/me/tooster/util/util2D.kt:98 | and with 2^k-1 keeps the value modulo 2^k |
| Bits.DisjointOr | algo/kotlin/src/common/kotlin/me/tooster/util/util2D.kt:98 | or with a value below 2^k after a shift by k is addition |

## Left out

- The formatter's `main`: option parsing, the argument and stdin loops, exit codes, and the separating spaces between arguments. `FormatArgument` models one automaton over one argument. The HELP and LEGEND texts are left out too.
- `storeContains` compiles a regular expression. The model compares plain suffixes ("--" and "--}"), which is what both anchored patterns test. The `\s*--}$` replacement is modelled as dropping "--}" and then the maximal run of trailing whitespace.
- `formatToAnsi`'s `assert` is a proof obligation: every mask that reaches it is shown to have VALID and RESET.
- Formatter.Flush and Formatter.FormatterAutomaton.FlushStore: the store is written whole. The source writes it with `printf("%s", ...)`, which stops at the first NUL character. So a NUL read from standard input is not printed, and neither is the rest of the store up to the next flush. This C-string truncation is not modelled. An argument cannot contain a NUL.
- Characters are modelled as Dafny `char`, and `isspace`/`isupper` as in the C locale. Bytes above 127 and locale effects are not modelled.
- Heap elements are `int` under `<`. The generic element type, the `Compare` parameter and the tree-drawing debug output are left out.
- BinaryHeap.Heap.FromVector: requires a non-empty vector, because `heapify_` calls `bubbleDown_(0)`, which throws on an empty heap.
- The heap's throwing `getMin`/`extractMin`/`deleteMin` on an empty heap are modelled as `None` or a `false` result, not as exceptions.
- The union-find table is a fixed array of the needed size, not 10^7 entries. `main`'s command loop is I/O and is left out.
- Fenwick tree: `Group<T>` is replaced by integer addition. The other group instances and overflow of Kotlin `Int` in the sums are not modelled.
- Kmp.IndexOf: stated only for a non-empty pattern. With an empty pattern the test's brute-force scan never ends, because `indexOf("", from)` past the end keeps returning the text length. `Search`'s empty-pattern result is stated separately.
- Terrain.RunLengthDecode: a run list holding fewer than width×height cells gives None. The source fills the missing cells with `undefined`.
- Terrain.RunLengthEncode: requires a non-empty grid. On an empty one the source emits a run of `undefined`, which has no counterpart here.
- Terrain: the noise generator except its final scaling (`GeneratedDepth`), `recomputeAll`, the water and pump simulation, and `btoa`/`atob`/JSON are left out. The packed format is modelled on bytes before base-64.
- Terrain.GeneratedDepth: the noise value, the offset and their scaling are real numbers, not doubles. Rounding in the double arithmetic is not modelled.
- Basins: items of negative depth are pushed but never popped, as in the source. `Pop` states this.
- Basins: the water-level and overflow computations are floating-point work and are left out.
- Basins.IsDiagonalValid: a straight step of two also passes the taxicab-2 test and is checked like a diagonal. The model keeps this, and `StraightTwoStep` states it.
- Grid2D: `BitMap2D`, `normMax`, `orthogonalTo`, `IntRange2D`, `TreePath`, `hashCode`, `toString` and `AXIS` are left out. `normMax` and `orthogonalTo` do not match their own documentation.
- Grid2D.NormsExact: states the plain-integer norms only for components small enough not to wrap. In general the norms are the wrapped Int results.
- Grid2D: a `Long` is modelled by its unsigned 64-bit pattern, a natural below 2^64. The signed reading of `encoded()` is not modelled.
- The other heaps, trees and scripts of the repository (MinMaxHeap, the 1-based heap, splay trees, segment trees, the AoC and contest solutions, the UI modules) are not part of this model.
