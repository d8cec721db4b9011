# shadcn-colors, modelled in Dafny

`shadcn-colors` is a VS Code extension. It finds CSS custom-property declarations whose value is a bare HSL triple, such as `--primary: 210 40% 98%;`. It decorates each one with a hover text and an inline swatch of its hex colour. It also offers a command that converts a selected HSL triple to hex, lets the user edit that hex value, and writes the result back as HSL. Everything lives in one file, `src/extension.ts`.

The model is split into modules that follow that file:

- `Text` (`text.dfy`): the ECMAScript string primitives the extension relies on. These are the `\s`, `\d` and `\w` classes, `trim`, `split` on one character, and `replace` of the first occurrence of a character. It also defines `Join`, the inverse of `split`, which the model uses for the hover text and the replacement text.
- `Pattern` (`pattern.dfy`): the expression `/--[\w-]+:\s*([\d.]+)\s+([\d.]+)%\s+([\d.]+)%;?/`.
  - It is written as a deterministic matcher, `MatchAt`. Each step of the pattern is followed by a disjoint class, so greedy matching with no backtracking is exact.
  - It is also written as a grammar, `Decl`/`Spell`.
  - The matcher is proved sound and complete against the grammar.
- `GlobalScan` (`globalscan.dfy`): `exec` on a global regular expression, for any matcher that only matches where it is tried.
  - It covers the `lastIndex` protocol and the loop of `findColorMatches`.
  - It proves that the loop's result is the unique leftmost, non-overlapping scan.
- `Scanner` (`scanner.dfy`): that scan instantiated with the colour pattern, with worked examples.
- `Annotator` (`annotator.dfy`): `findColorMatches`' mapping of hits to numbers, `createDecorationOptions` and `updateDecorations`.
- `Lifecycle` (`lifecycle.dfy`): the extension object over time.
  - It holds the active editor, the single debounce timer slot, the persisted flag `shadcnColorsEnabled`, the editor event guards, the toggle command, `dispose` and `activate`.
  - Time is an explicit clock. The timer's history is a log of set, fired and cleared timers.
- `ColorChange` (`colorchange.dfy`): the `changeColor` command, as a function from the editor's selection and the user's answers in the input box to an outcome. The possible outcomes are: no editor, no selection, not HSL, cancelled, or replace.

The library calls are parameters with no interpretation. These are `parseFloat`, the printing of numbers in template strings, `color-convert`'s `hsl.hex` and `hex.hsl`, `toFixed(1)` and `validate-color`'s `validateHTMLColorHex`. A JavaScript number is `Num = Finite(real) | NaN`, which is enough to decide `lightness > 50`.

Behaviour of the code worth knowing:

- The flag reads `false` when unset. `activate` writes `true` only after the constructor's first render, so that first render uses the previously stored value.
- The toggle command redraws at once.
- Besides disposing the decoration type, `dispose` only clears the pending timer, so later events could arm a new one.
- The selection is split on single spaces after `trim`, so a double space yields an extra, empty part, four parts in all, and is rejected.
- There is no "invalid hex input" outcome. The input box's validator refuses such a value and keeps the box open.
- `[\d.]+` accepts numbers like `1.2.3` or a lone `.`.

## Model

| member | source | states |
|---|---|---|
| Text.TrimStart | src/extension.ts:178 | leading whitespace is removed and nothing else: the result is a suffix of the input, everything dropped is whitespace, and the result does not start with whitespace |
| Text.TrimEnd | src/extension.ts:178 | trailing whitespace is removed and nothing else: the result is a prefix of the input, everything dropped is whitespace, and the result does not end with whitespace |
| Text.Trim | src/extension.ts:178 | the trimmed selection neither starts nor ends with whitespace, a string with no whitespace at either end is unchanged, and an all-whitespace string becomes empty |
| Text.TrimIdempotent | src/extension.ts:178 | trimming a trimmed selection changes nothing |
| Text.Split | src/extension.ts:178 | `split(" ")` yields one part more than there are separators, and no part contains the separator |
| Text.JoinSplit | src/extension.ts:178 | joining the parts of a split with the separator restores the string |
| Text.SplitJoin | src/extension.ts:121 | splitting a join of separator-free parts gives the parts back (used to read the hover text's lines) |
| Text.RemoveFirst | src/extension.ts:189-190 | `replace("%", "")` removes exactly the first `%` when there is one (the result is the text before it followed by the text after it, one `%` fewer) and leaves a string without `%` alone |
| Text.IndexOf | src/extension.ts:189-190 | the first occurrence of a character, none before it |
| Text.CountSplit | src/extension.ts:189-190 | occurrences in a concatenation add up |
| Pattern.Declaration | src/extension.ts:14-15 | the pattern consumes at least `--` and one name character, and never more than the text |
| Pattern.MatchAt | src/extension.ts:14-15 | a match tried at offset `i` starts at `i`, is non-empty and lies inside the text |
| Pattern.MatchAtComplete | src/extension.ts:14-15 | every well-formed declaration (name of `[\w-]`, optional whitespace, number, whitespace, number `%`, whitespace, number `%`, optional `;`) is matched exactly, with its three numbers captured and a following `;` taken in |
| Pattern.NameTailComplete | src/extension.ts:14-15 | after `--`, a name, `:` and the rest of a declaration are consumed exactly, with the captures |
| Pattern.HueGapComplete | src/extension.ts:14-15 | `\s*` then the hue number and the rest are consumed exactly |
| Pattern.HueTailComplete | src/extension.ts:14-15 | greedy `[\d.]+` for the hue stops at the whitespace and continues with the saturation |
| Pattern.SaturationGapComplete | src/extension.ts:14-15 | `\s+` before the saturation is consumed exactly |
| Pattern.SaturationTailComplete | src/extension.ts:14-15 | the saturation number and its `%` are consumed exactly |
| Pattern.LightnessGapComplete | src/extension.ts:14-15 | `\s+` before the lightness is consumed exactly |
| Pattern.LightnessTailComplete | src/extension.ts:14-15 | the lightness number, its `%` and an optional `;` are consumed exactly |
| Pattern.MatchAtSound | src/extension.ts:14-15 | every match is the spelling of a well-formed declaration whose numbers are the captures, and a `;` right after a match without one cannot occur |
| Pattern.NameTailSound | src/extension.ts:14-15 | what the name state accepts is a name, `:` and a well-formed rest, greedily |
| Pattern.HueGapSound | src/extension.ts:14-15 | what the hue state accepts is whitespace, a number and a well-formed rest |
| Pattern.HueTailSound | src/extension.ts:14-15 | the hue capture is a run of digits and dots followed by a well-formed rest |
| Pattern.SaturationGapSound | src/extension.ts:14-15 | non-empty whitespace, then a well-formed saturation and lightness |
| Pattern.SaturationTailSound | src/extension.ts:14-15 | the saturation capture is digits and dots followed by `%` and a well-formed lightness |
| Pattern.LightnessGapSound | src/extension.ts:14-15 | non-empty whitespace, then a well-formed lightness |
| Pattern.LightnessTailSound | src/extension.ts:14-15 | the lightness capture is digits and dots followed by `%` and the optional `;`, taken greedily |
| GlobalScan.Exec | src/extension.ts:81 | `exec` from `lastIndex` returns a match at or after `lastIndex`, inside the text |
| GlobalScan.ExecLeftmost | src/extension.ts:81 | `exec` skips no offset where the expression matches; when it fails there is none left |
| GlobalScan.ExecAt | src/extension.ts:81 | `exec` returns the match at the first matching offset |
| GlobalScan.ExecNone | src/extension.ts:81 | `exec` fails when nothing matches from `lastIndex` on |
| GlobalScan.ScanLeftmost | src/extension.ts:77-96 | the repeated `exec` loop yields hits inside the text, in ascending non-overlapping order, and misses no offset where the expression would match |
| GlobalScan.LeftmostHead | src/extension.ts:81 | the first element of any leftmost scan is what `exec` returns |
| GlobalScan.LeftmostTail | src/extension.ts:81 | after the first hit, the rest is the leftmost scan from that hit's end |
| GlobalScan.EmptyScan | src/extension.ts:81 | with nothing to find, the loop finds nothing |
| GlobalScan.ScanUnique | src/extension.ts:77-96 | the leftmost non-overlapping scan is unique: any list with those properties is the loop's result |
| GlobalScan.FindAll | src/extension.ts:77-96 | the `while` loop over a global expression returns exactly the leftmost scan and leaves `lastIndex` at 0 |
| Scanner.MatchAtSticky | src/extension.ts:14-15 | the colour pattern matches only where it is tried, never empty |
| Scanner.FindColorMatches | src/extension.ts:77-96 | `findColorMatches`' loop over the shared colour expression returns the leftmost scan of the text and resets `lastIndex` to 0 |
| Scanner.NoMatchWithoutDash | src/extension.ts:14-15 | no declaration starts at a character other than `-` |
| Scanner.NoDashNoHits | src/extension.ts:77-96 | text without `-` (the empty text included) yields no matches |
| Scanner.ExampleOneDeclaration | src/extension.ts:14-15 | `--bg: 210 40% 98%;` is one match of 18 characters with captures 210, 40, 98 |
| Scanner.ExampleTwoDeclarations | src/extension.ts:77-96 | two declarations on a line are found left to right, the search resuming after the first |
| Scanner.ExampleLooseNumbers | src/extension.ts:14-15 | `1.2.3`, `.` and `..` are accepted as numbers, a tab as whitespace, no space after `:` |
| Scanner.ExampleNoColor | src/extension.ts:77-96 | "not a color" yields no matches |
| Annotator.Enabled | src/extension.ts:101-104 | the flag reads true exactly when `true` was stored; an unset flag reads false |
| Annotator.ToColorMatches | src/extension.ts:86-92 | one `ColorMatch` per hit, in order, with the hit's offsets and its captures read by `parseFloat` |
| Annotator.Decorate | src/extension.ts:106-135 | the payload keeps the match's range; it has hover and swatch exactly when enabled; the swatch's text and background are `#` and the hex colour; the text is `#000` exactly when lightness is above 50 and `#fff` otherwise, and the border is `rgba(0,0,0,0.25)` when lightness is above 50 and `rgba(255,255,255,0.25)` otherwise |
| Annotator.DecorationOptions | src/extension.ts:98-136 | the flag is read once and every match gets its payload, in order |
| Annotator.HexColor | src/extension.ts:107-111 | the swatch colour is `#` followed by `hsl.hex` of the match's three numbers |
| Annotator.HoverMessage | src/extension.ts:121 | the hover text is the four lines Hue, Saturation, Lightness and Hex joined by line feeds; HoverReadsBack states how it reads back |
| Annotator.BareAll | src/extension.ts:113-117 | each payload reduced to its range |
| Annotator.DisabledIsBare | src/extension.ts:98-136 | with colours off or never stored, the payloads are the enabled ones with everything but the range removed |
| Annotator.HoverReadsBack | src/extension.ts:121-124 | the hover text has four lines, Hue with a degree sign, Saturation and Lightness with `%`, and Hex equal to the swatch text |
| Annotator.ThresholdAtFifty | src/extension.ts:126-131 | lightness exactly 50, or not a number, gets white text and a light border |
| Annotator.UpdateDecorations | src/extension.ts:138-147 | nothing is set without an active editor |
| Annotator.RenderedRanges | src/extension.ts:138-147 | the payloads set on an editor are one per match, inside the text, exactly the matched span, in order and not overlapping |
| Annotator.MatchesAreDeclarations | src/extension.ts:77-96 | every match handed to the payload builder spells a well-formed declaration whose numbers are the parsed captures |
| Lifecycle.Update | src/extension.ts:138-147 | a redraw happens exactly when there is an active editor, with the flag as read at that moment |
| Lifecycle.TriggerUpdate | src/extension.ts:67-75 | the pending timer, if any, is cleared and exactly one new one is pending, due 500 later |
| Lifecycle.Toggle | src/extension.ts:149-159 | only the flag changes, to the negation of the flag as read; the message says Disabled when the flag was on; then a redraw follows with the new flag; the timer is untouched |
| Lifecycle.Advance | src/extension.ts:71-74 | a pending update that falls due fires once, at its due time, clearing the slot and redrawing with the editor and flag of that moment, which it leaves unchanged; one not yet due stays pending and nothing else happens |
| Lifecycle.Step | src/extension.ts:37-51 | an editor change records the new editor and arms a timer exactly when there is one; a text change arms one exactly when it is in the active editor's document; neither touches the clock or the flag or redraws at once; `dispose` only empties the timer slot; the toggle command is `Toggle` and passing time is `Advance` |
| Lifecycle.Activate | src/extension.ts:236-240 | the constructor it calls (lines 21-34 and 64) arms a timer due one delay later and redraws with the stored flag exactly when there is an editor; afterwards the flag is `true`, and the state and timer history satisfy what the debounce law starts from |
| Lifecycle.StepValid | src/extension.ts:67-75 | one event keeps a pending timer due within one delay and leaves a timer history the single slot allows |
| Lifecycle.RunValid | src/extension.ts:67-75 | over any sequence of events at most one timer is pending, each is due 500 after it is set, and each either fires exactly when due or is cleared before |
| Lifecycle.ActivatedRunValid | src/extension.ts:236-240 | from activation on, whatever events follow, the timer history is one the single slot allows |
| Lifecycle.ValidAppend | src/extension.ts:67-75 | valid timer histories compose |
| Lifecycle.FiredWasLastArmed | src/extension.ts:67-75 | a timer that fires is the last one set; a cleared or replaced timer never fires |
| Lifecycle.DisposeThenWait | src/extension.ts:228-233 | after `dispose`, waiting any time redraws nothing |
| Lifecycle.ToggleTwice | src/extension.ts:149-159 | toggling twice restores the flag as read |
| Lifecycle.ToggleMessage | src/extension.ts:149-159 | the message says Disabled exactly when the stored flag was `true`; the first toggle of an unset flag enables |
| Lifecycle.Coalesce | src/extension.ts:67-75 | two edits 100 apart and a quiet second give one redraw, 500 after the second edit |
| Lifecycle.OtherDocumentIgnored | src/extension.ts:44-51 | a change in another document changes nothing |
| ColorChange.ErrorMessage | src/extension.ts:162-184 | an error message is shown exactly for no editor, no selection and not-HSL, and each of the three messages exactly for its own outcome |
| ColorChange.Validate | src/extension.ts:194-202 | a value is accepted exactly when it starts with `#` and is a valid hex colour; a refusal says "Color should start with #" exactly when the `#` is missing and "Invalid hex color!" exactly when it is present |
| ColorChange.FirstValid | src/extension.ts:186-203 | the first entry the validator accepts; all before it are refused |
| ColorChange.InputBox | src/extension.ts:186-203 | the box returns the first accepted entry, every earlier entry having been refused, and nothing exactly when every submitted entry was refused |
| ColorChange.HslParts | src/extension.ts:178 | the selection's parts contain no space |
| ColorChange.Suggestion | src/extension.ts:186-191 | the box opens on `#` followed by `hsl.hex` of the three parts read by `parseFloat`, the first `%` dropped from the second and third |
| ColorChange.HslString | src/extension.ts:208-212 | the replacement text is the three `hex.hsl` numbers formatted by `toFixed(1)`, the last two followed by `%`, joined by single spaces; ReplacementIsHsl states that it is read back as three parts |
| ColorChange.HandleColorChange | src/extension.ts:161-226 | no editor, no selection and not exactly three parts end the command in that order; the command is cancelled exactly when the box returns nothing; a replacement is the accepted `#` hex value converted back and formatted, with the "Converted" message |
| ColorChange.PartsOfJoin | src/extension.ts:178 | space-free parts joined by single spaces are read back as the same parts |
| ColorChange.ExampleTwoNumbers | src/extension.ts:178-184 | `210 40%` is not an HSL colour |
| ColorChange.ExampleDoubleSpace | src/extension.ts:178-184 | `210  40% 98%` splits into four parts and is not an HSL colour |
| ColorChange.DropPercent | src/extension.ts:189-190 | `x%` loses exactly its `%` |
| ColorChange.SuggestionMatchesSwatch | src/extension.ts:186-191 | selecting a found declaration's numbers as `h s% l%` opens the box on exactly that declaration's swatch colour |
| ColorChange.ReplacementIsHsl | src/extension.ts:208-216 | the written-back text is read again as three parts when `toFixed(1)` writes no whitespace |
| ColorChange.ReplacementScans | src/extension.ts:208-216 | a declaration whose value was replaced is found again by the scanner with the new numbers |
| ColorChange.AcceptSuggestion | src/extension.ts:186-220 | pressing Enter on a valid suggestion replaces the selection with its HSL form |
| ColorChange.RefusedNeverReplaces | src/extension.ts:194-207 | if no entry starts with `#`, the document is left alone |

## Left out

- Character offsets are Unicode scalar values, while JavaScript string offsets count UTF-16 code units. Text outside the Basic Multilingual Plane shifts JavaScript's offsets; this is not modelled.
- `positionAt` and `vscode.Range` are left out. Ranges are character offsets into the document text.
- Floating point is left out. `parseFloat`, the printing of numbers, `toFixed(1)`, `color-convert` and `validate-color` are parameters without interpretation. No property depends on their values beyond the stated hypotheses of HoverReadsBack, ReplacementIsHsl and ReplacementScans.
- The CSS text of the swatch (`textDecoration`) is left out. Only its three colours are kept: border, background and text.
- The `decorationType` resource, its `dispose`, `setDecorations`, message boxes and command registration are left out. They appear only as effects (`Render`, `Inform`) or outcomes.
- Asynchrony is left out. `await`s are modelled as values the user supplies, and real timers are replaced by the explicit clock of `Lifecycle`.
- `editor.edit` failing is left out. The code shows the "Converted" message whatever `edit` returns.
- The `catch` branch of `handleColorChange` is left out, because the conversions are total functions in the model.
- `deactivate` does nothing and is not modelled.
- Lifecycle.Step: the host disposes the event subscriptions, so they are not disposed with the object here. After `Dispose`, later events still arm timers, as the object's own code would.
- ColorChange.ReplacementIsHsl: this is stated only for `toFixed(1)` output without whitespace, which real `toFixed` output satisfies but the model does not compute.
- Annotator.HoverReadsBack: this is stated only when `show` and `hsl.hex` write no line feed, which the model does not compute.
- ColorChange.ReplacementScans: this is stated only when `toFixed(1)` writes a non-empty run of digits and dots, which real output of non-negative finite numbers satisfies but the model does not compute.
