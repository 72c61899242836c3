# Temperature converter — Dafny model

This project models the logic of a single-page temperature converter
(`src/app/page.tsx`). The page holds three inputs: the typed temperature
text, a source scale and a target scale. It shows one result line such as
`100 °C = 212.00 °F`. The model covers the four pieces of logic in that page:

- **Units** (`units.dfy`): the closed scale type `Unit`, its display
  symbols, and `Convert`, the pairwise conversion, written branch for branch
  as the page writes it. Values are exact `real`s, so identity, round trip
  and composition hold exactly rather than within a tolerance. Every
  formula is checked against one reference: read the value in kelvin, then
  read that kelvin value on the target scale.
- **Filter** (`filter.dfy`): the keystroke filter. A candidate text is
  stored only if it is empty or matches `^-?\d*\.?\d*$`. The language is
  written three ways, and the lemmas prove them equal: the expression as it
  reads (`Matches`), a per-character rule (`WellFormed`), and a one-pass
  scan (`Scan`).
- **Decimal** (`decimal.dfy`): `parseFloat` on the texts the filter admits.
  Such a text splits uniquely into sign, whole digits, optional point and
  fraction digits (`Lex`, `Spell`, proved inverse). Parsing fails exactly
  when the text has no digit. Otherwise it gives the signed decimal value.
  That value is also proved equal to a reference reading: remove the point,
  read all digits as one integer, and shift it by the number of fraction
  digits.
- **Controller** (`controller.dfy`): the state record `{text, from, to,
  result}` with its initial value, and the three handlers (text edit,
  source pick, target pick). Each handler is followed by the recompute step
  that plays the part of the page's effect. `Run` replays any sequence of
  user events from a fresh start, beginning with the effect's run at
  mount. `toFixed(2)` is an uninterpreted parameter `fmt: real -> string`,
  so any fact about concrete digits assumes the formatter output it needs
  (for example `fmt(212.0) == "212.00"`).

Two behaviours of the code are worth stating plainly:

- **Parse failure.** When the text does not parse, the line shows the
  literal `0`, not the typed text (`src/app/page.tsx:64-71`). So `-`
  displays as `0 °C = 32.00 °F`. `Controller.Recompute`,
  `Controller.DigitFreeShowsZero` and `Controller.LoneMinusShowsZero` state
  this.
- **Grammar.** The expression `^-?\d*\.?\d*$` admits `-`, `.`, `-.` and
  `3.` as well as ordinary numbers. The model admits exactly what the
  expression admits.

Two dead paths in the page are proved dead rather than modelled as live:

- **Convert fallback.** The final `return temp` of the conversion
  (`src/app/page.tsx:52`) cannot be reached. In `Units.Convert` it is an
  `assert false` branch.
- **`|| "0"`.** The fallback at `src/app/page.tsx:60` never fires, because
  a text that parses is never empty.

The `value === ""` test in front of the expression
(`src/app/page.tsx:77`) is harmless but redundant, since the expression
already matches the empty string (`Filter.EmptyDisjunctRedundant`).

## Model

| member | source | states |
|---|---|---|
| `Units.Convert` | src/app/page.tsx:38-53 | The same scale on both sides returns the value unchanged. Every pair agrees with the kelvin reference. The closing fallback branch is unreachable. |
| `Units.PairFormulas` | src/app/page.tsx:40-51 | Each of the six ordered pairs of distinct scales follows its formula, restated with the factor 1.8. |
| `Units.RoundTrip` | src/app/page.tsx:41-50 | Converting from a to b and back from b to a returns the original value exactly, for all scales a, b. |
| `Units.Compose` | src/app/page.tsx:38-53 | Converting a→b, then b→c, equals converting a→c directly. |
| `Units.ViaCelsius` | src/app/page.tsx:45-50 | F→K equals F→C followed by C→K. K→F equals K→C followed by C→F. |
| `Units.Affine` | src/app/page.tsx:41-50 | A step of d degrees on the source scale becomes d times the ratio of the degree sizes on the target scale. |
| `Units.Anchors` | src/app/page.tsx:41-49 | 0 °C = 32 °F, 100 °C = 212 °F, 0 °C = 273.15 K, -40 °C = 233.15 K, 32 °F = 0 °C, -40 °C = -40 °F, 0 K = -273.15 °C. |
| `Units.SymbolsDistinct` | src/app/page.tsx:26-30 | Two scales have the same symbol only if they are the same scale. |
| `Filter.UnsignedAgree` | src/app/page.tsx:77 | The unsigned part `\d*\.?\d*` matches exactly the texts of digits and points with no two points. |
| `Filter.MatchesIffWellFormed` | src/app/page.tsx:77 | A text matches `^-?\d*\.?\d*$` iff every character is a digit, a point, or a minus at index 0, and there is at most one point. |
| `Filter.PrefixClosed` | src/app/page.tsx:77 | Every prefix of a matching text matches. |
| `Filter.EmptyDisjunctRedundant` | src/app/page.tsx:77 | "Empty or matches" accepts exactly what "matches" accepts. |
| `Filter.Scan` | src/app/page.tsx:77 | The single left-to-right scan returns true iff the text matches the expression. |
| `Filter.Examples` | src/app/page.tsx:77 | The filter admits `""`, `-`, `.`, `-.`, `3`, `3.`, `.5`, `0.`, `3.5` and `-3.5`. It refuses `3.5.2`, `abc`, `3a` and `--3`. |
| `Decimal.SpellMatches` | src/app/page.tsx:77 | Every valid numeral spells a text the filter admits. |
| `Decimal.Lex` | src/app/page.tsx:56 | Every admitted text splits into a valid numeral whose spelling is that text. |
| `Decimal.PointOfUnsigned` | src/app/page.tsx:56 | In a numeral's unsigned text, the first point sits right after the whole digits. The fraction digits follow it. |
| `Decimal.SpellInjective` | src/app/page.tsx:56 | Two valid numerals with the same spelling are equal. |
| `Decimal.LexSpell` | src/app/page.tsx:56 | Lexing the spelling of a valid numeral returns that numeral. |
| `Decimal.HasDigitIffRuns` | src/app/page.tsx:56-57 | A spelled numeral contains a digit iff its whole or fraction run is non-empty. |
| `Decimal.ValueSign` | src/app/page.tsx:56 | A numeral's value is at most 0 under a minus sign and at least 0 without one. |
| `Decimal.Parse` | src/app/page.tsx:56-57 | Parsing fails (NaN) iff the text contains no digit. A parsed value is at most 0 when the text starts with `-` and at least 0 otherwise. |
| `Decimal.NatOfAppend` | src/app/page.tsx:56 | Reading digits a followed by digits b as one integer gives a times 10^(length of b), plus b. |
| `Decimal.ValueIsShiftedDigits` | src/app/page.tsx:56 | The whole-plus-fraction value equals all digits read as one integer, divided by 10 to the number of fraction digits, then signed. |
| `Decimal.ParseSpelling` | src/app/page.tsx:56-57 | Parsing a spelled numeral that has a digit gives the point-free digits, shifted by the fraction length and signed. |
| `Decimal.ParseNumeral` | src/app/page.tsx:56-57 | Parsing the spelling of a valid numeral gives no number when both digit runs are empty, and the numeral's value otherwise. |
| `Decimal.PointDoesNotCount` | src/app/page.tsx:56 | Two numerals with the same sign and digit runs parse to the same result, whether or not a point is written. |
| `Decimal.TrailingPointKeepsValue` | src/app/page.tsx:56 | Typing a point after a number without one leaves the parse result unchanged. |
| `Decimal.AppendZero` | src/app/page.tsx:56 | Adding a trailing zero to the fraction keeps the numeral valid and spells the old text followed by `0`. |
| `Decimal.TrailingZeroKeepsValue` | src/app/page.tsx:56 | Typing a zero after the point of a text that has a digit leaves the parse result unchanged. |
| `Decimal.ZeroExample` | src/app/page.tsx:56 | `0` parses to 0. |
| `Decimal.NoNumberExamples` | src/app/page.tsx:56-57 | `""`, `-`, `.` and `-.` do not parse. |
| `Decimal.TrailingPointExample` | src/app/page.tsx:56 | `3.` parses to 3. |
| `Decimal.LeadingPointExample` | src/app/page.tsx:56 | `-.5` parses to -0.5. |
| `Decimal.WholeExample` | src/app/page.tsx:56 | `100` parses to 100. |
| `Decimal.NegativeExample` | src/app/page.tsx:56 | `-40` parses to -40. |
| `Controller.Recompute` | src/app/page.tsx:55-73 | With a digit: the line is the raw text, the source symbol, ` = `, the formatted conversion of the parsed value, and the target symbol. The fallback to `"0"` for an empty text is dead. Without a digit: the left operand is the literal `0` and the right is the formatted conversion of 0. |
| `Controller.DigitFreeShowsZero` | src/app/page.tsx:64-71 | Any text without a digit gives the same line as typing `0`. |
| `Controller.EditText` | src/app/page.tsx:75-80 | The stored text becomes the candidate iff the candidate is empty or matches. A refused candidate changes nothing. An accepted one leaves a consistent state. Scales are never changed. |
| `Controller.SelectFrom` | src/app/page.tsx:113 | The source scale becomes the picked one. Text and target are untouched. The result is recomputed. |
| `Controller.SelectTo` | src/app/page.tsx:129 | The target scale becomes the picked one. Text and source are untouched. The result is recomputed. |
| `Controller.Settle` | src/app/page.tsx:55-73 | After the effect the state is consistent, with text and scales untouched. The effect leaves a state unchanged exactly when the state was already consistent. |
| `Controller.Step` | src/app/page.tsx:55-129 | Any single user event keeps the stored text inside the filter's language, and a consistent state stays consistent. |
| `Controller.Run` | src/app/page.tsx:33-73 | Starting from the initial state and the effect's run at mount, every reachable text matches the filter. It has at most one point, a minus only at index 0, and digits elsewhere. |
| `Controller.InitConsistent` | src/app/page.tsx:33-73 | If `toFixed(2)` renders 32 as `32.00`, the initial line `0 °C = 32.00 °F` is what the effect computes for text `""`, Celsius to Fahrenheit, so the effect's run at mount leaves the initial state unchanged. |
| `Controller.RunConsistent` | src/app/page.tsx:33-80 | For every formatter, after the mount run and any sequence of events, the displayed line is the one computed from the stored text and scales. |
| `Controller.EditsKeepScales` | src/app/page.tsx:75-80 | A sequence of text edits alone leaves the scales at Celsius and Fahrenheit. |
| `Controller.HundredCelsius` | src/app/page.tsx:55-63 | Text `100`, Celsius to Fahrenheit, gives `100 °C = 212.00 °F` when 212 formats as `212.00`. |
| `Controller.MinusFortyCelsius` | src/app/page.tsx:55-63 | Text `-40`, Celsius to Kelvin, gives `-40 °C = 233.15 K` when 233.15 formats as `233.15`. |
| `Controller.LoneMinusShowsZero` | src/app/page.tsx:64-71 | Text `-` displays `0 °C = 32.00 °F`, not `- °C = …`. |
| `Controller.SecondPointRefused` | src/app/page.tsx:75-80 | Typing a second point into `3.5` leaves the state, text and line included, exactly as it was. |
| `Controller.TypingHundred` | src/app/page.tsx:33-80 | Typing `1`, `10`, `100` from a fresh start displays `100 °C = 212.00 °F`. |

## Left out

- Layout, styling, cards, labels, icons and the select/input widgets
  (`src/app/page.tsx:1-22`, `82-149`) are presentation and third-party UI
  code. The model takes their events as `Event` values.
- React scheduling: `useState`/`useEffect` is modelled as a direct call of
  the recompute step once at mount and after each handler. React skips the
  effect when a value is set to what it already holds. After such a set
  the model's state is the same anyway, because the stored line is already
  consistent (`Controller.Settle`).
- The selectors pass strings cast to `Unit`. The model takes `Unit` values
  directly, since the selectors offer only the three options.
- IEEE-754 doubles: temperatures are exact reals. Binary rounding of the
  formulas and of `parseFloat`, and the sign of `-0`, are not modelled.
- `Number.prototype.toFixed(2)` is an uninterpreted parameter. Its digit
  output is floating-point formatting, not logic of this page.
- Decimal.Parse: models `parseFloat` only on texts the filter admits
  (its `requires Matches(s)`). Leading whitespace, exponents, `Infinity`
  and trailing junk can never reach it from the stored text, so they are
  not modelled.
- Controller.Recompute: requires the text to be one the filter admits,
  because the effect only ever sees stored texts. `Controller.Run` proves
  that every reachable stored text is such a text.
