# what3chords: a verified model of the app's integer and string logic

what3chords is a browser map that shows three guitar chords for whatever point
is under the mouse. The map, the tooltip and the data loading are glue over
third-party libraries. This project models the parts of
`what3chords-app/js/app-es6.js` that are plain integer and string logic, and
proves what they promise:

- **GridCode**: the integer stage of `getCode`. A grid point `(x, y)` with
  `0 <= x <= 130400` and `0 <= y <= 65200` is linearised to
  `i = x + y * 130400`. That index is split into three base-2041 digits
  `[p, q, r]`, the chord triple.
- **JsNumber**: the `divide` helper. It models JavaScript's `Math.floor(x / y)`
  and `x % y` on integers of any sign.
- **Catalog**: `processChords`, which flattens the nested chord dataset into
  the global `CHORDS` list. It also models the tooltip's three unchecked
  lookups `CHORDS[abc[k]]`.
- **Theme**: `getThemeFromURL` and `switchTheme`. They read the theme from the
  query string and build the URL that the page reloads with.
- **Arith** holds a few facts about Euclidean division that the proofs share.
  **Sequences** holds concatenation and summation over a sequence, with the
  facts the flattened catalog needs. **Wrappers** holds `Option`.

The code is modelled in the form the source uses:

- `CHORDS` and `THEME` are globals that the source updates in place. Each is a
  field of a class: `Catalog.ChordCatalog.chords` and `Theme.PageTheme.theme`.
- `processChords` has three nested `for` loops that push onto `CHORDS`. They
  are three methods with one loop each: `ProcessChords`, `PushVariants` and
  `PushPositions`.
- The digit arithmetic, `divide` and the split/slice chain of
  `getThemeFromURL` are pure functions.

The browser's `window.location.href` is a parameter. The reload in
`switchTheme` is modelled by the URL string it would assign.

Three facts about the code shape the model:

- A catalog record holds only the label and the MIDI notes, because
  `processChords` (app-es6.js:88-91) stores only `{chord, midi}`. The other
  fields of a position (frets, capo, fingers) are never read.
- The top digit `p` of `getCode` (app-es6.js:154) is not always below the
  radix 2041. At the grid's north-east corner it is exactly 2041
  (`GridCode.TopDigitReachesRadix`).
- The tooltip's lookup (app-es6.js:130-133) does not check its index. It
  reads `CHORDS[abc[k]]` directly. The model turns that into a precondition of
  `ChordCatalog.ChordsFor`. `Catalog.EveryCodeIndexesIff` proves that this
  precondition holds for every grid point exactly when the catalog has more
  than 2041 records.

## Model

| member | source | states |
|---|---|---|
| `JsNumber.FloorDiv` | what3chords-app/js/app-es6.js:161 | `Math.floor(x / y)` is the floor quotient: `a*y <= x < a*y + y` for `y > 0`, and the mirrored bounds for `y < 0` |
| `JsNumber.TruncDiv` | what3chords-app/js/app-es6.js:161 | the quotient truncated toward zero behind JavaScript's `%` is not negative when the real quotient is not, and not positive otherwise |
| `JsNumber.TruncDivBounds` | what3chords-app/js/app-es6.js:161 | the truncated quotient's magnitude times `|y|` is at most `|x|` and less than `|y|` short of it |
| `JsNumber.JsRem` | what3chords-app/js/app-es6.js:161 | JavaScript `x % y` is smaller in magnitude than `y` and has the sign of `x` |
| `JsNumber.TruncatedIdentity` | what3chords-app/js/app-es6.js:161 | `x % y` is what the truncated quotient leaves: `TruncDiv(x, y) * y + x % y == x` |
| `JsNumber.Divide` | what3chords-app/js/app-es6.js:160-162 | `divide(x, y)` is the pair (floor quotient, JavaScript remainder); there is no finite result exactly when `y == 0` |
| `JsNumber.FloorVersusTrunc` | what3chords-app/js/app-es6.js:161 | the floor equals the truncated quotient when the division is exact or the signs agree; otherwise the floor is one less |
| `JsNumber.DivideNonNegative` | what3chords-app/js/app-es6.js:160-162 | for `x >= 0` and `y > 0`, `divide(x, y) = [a, b]` has `a*y + b == x` and `0 <= b < y` |
| `JsNumber.DivideRecombines` | what3chords-app/js/app-es6.js:160-162 | `a*y + b == x` holds if and only if `b == 0` or the signs of `x` and `y` agree; otherwise `a*y + b == x - y` |
| `GridCode.Linearize` | what3chords-app/js/app-es6.js:153 | `i = x + y*130400` is at most `130400 * 65201` on the grid |
| `GridCode.Digits` | what3chords-app/js/app-es6.js:154-156 | `p = floor(i/2041/2041)`, `q = floor((i - p*2041*2041)/2041)`, `r = i % 2041` give back `i` as `p*2041^2 + q*2041 + r`, with `q` and `r` below 2041 |
| `GridCode.GetCode` | what3chords-app/js/app-es6.js:153-157 | for a grid point the triple has `p*2041^2 + q*2041 + r == x + y*130400`, `q, r < 2041` and `p <= 2041` |
| `GridCode.DigitsUnique` | what3chords-app/js/app-es6.js:154-156 | the triple is the base-2041 numeral of `i`: any triple with low digits below 2041 and value `i` is that triple |
| `GridCode.TopDigitIsRadixIff` | what3chords-app/js/app-es6.js:147-154 | `p == 2041` exactly when `i >= 2041^3` |
| `GridCode.TopDigitReachesRadix` | what3chords-app/js/app-es6.js:147-154 | the bound `p <= 2041` is tight: at `(130400, 65200)`, `p == 2041` |
| `GridCode.GridPoint` | what3chords-app/js/app-es6.js:153 | an index's column is below 130400 and column plus row times 130400 gives the index back |
| `GridCode.GridPointInverts` | what3chords-app/js/app-es6.js:153 | off the last column, `GridPoint` undoes the linearisation |
| `GridCode.LastColumnCollides` | what3chords-app/js/app-es6.js:147-153 | column 130400 of row `y` and column 0 of row `y + 1` get the same index |
| `GridCode.GetCodeInjective` | what3chords-app/js/app-es6.js:153-157 | two grid points off the last column with equal triples are equal |
| `Theme.Split` | what3chords-app/js/app-es6.js:48 | `split` on one character gives at least one piece |
| `Theme.SplitPiecesFree` | what3chords-app/js/app-es6.js:48 | no piece of a split holds the separator |
| `Theme.SplitFree` | what3chords-app/js/app-es6.js:48 | a string without the separator splits into itself alone |
| `Theme.SplitAppendPiece` | what3chords-app/js/app-es6.js:48 | appending a separator and a separator-free piece to a string appends that piece to its split |
| `Theme.JoinSplit` | what3chords-app/js/app-es6.js:48 | joining the pieces of a split with the separator gives the string back |
| `Theme.SplitJoin` | what3chords-app/js/app-es6.js:48 | splitting the join of pieces that have no separator gives the pieces back |
| `Theme.AfterLastUnique` | what3chords-app/js/app-es6.js:48 | "the text after the last separator" names one string at most |
| `Theme.LastOfSplitSnoc` | what3chords-app/js/app-es6.js:48 | one more character ends the last piece with that character, or starts an empty last piece when it is the separator |
| `Theme.LastAfterSeparator` | what3chords-app/js/app-es6.js:48 | the last piece of a string depends only on the text after any separator in it |
| `Theme.AfterLastWhole` | what3chords-app/js/app-es6.js:48 | the text after the last separator is the whole string exactly when the string has no separator |
| `Theme.Last` | what3chords-app/js/app-es6.js:48 | `.slice(-1)[0]` is the last element of a non-empty list; with `LastPiece` it is the text after the last separator |
| `Theme.LastPiece` | what3chords-app/js/app-es6.js:48 | `split(sep).slice(-1)[0]` is the text after the last separator, and the whole string when it has none |
| `Theme.ThemeFromURL` | what3chords-app/js/app-es6.js:45-51 | a URL without `?` gives `"light"`; with a `?`, the theme holds neither `?` nor `=` |
| `Theme.ThemeIsLastValue` | what3chords-app/js/app-es6.js:47-49 | with a `?`, the theme is the text after the last `=` of the text after the last `?`, or all of that text when it has no `=` |
| `Theme.Toggle` | what3chords-app/js/app-es6.js:55 | the new theme is `"dark"` or `"light"`, and it is `"light"` exactly when the old one was `"dark"` |
| `Theme.ToggleInvolution` | what3chords-app/js/app-es6.js:55 | on `"dark"` and `"light"` the toggle changes the theme, and toggling twice restores it |
| `Theme.ThemeURL` | what3chords-app/js/app-es6.js:56 | the reload URL ends in `?theme=<t>`, and what precedes that is the page URL before its first `?` (all of it when it has none) |
| `Theme.QueryOfThemeURL` | what3chords-app/js/app-es6.js:56 | the text after the last `?` of a reload URL is `theme=<t>` when `t` holds no `?` |
| `Theme.ValueOfThemeQuery` | what3chords-app/js/app-es6.js:48 | the text after the last `=` of `theme=<t>` is `t` when `t` holds no `=` |
| `Theme.BeforeFirstUnique` | what3chords-app/js/app-es6.js:56 | "the text before the first separator" names one string at most |
| `Theme.JoinAfterFirst` | what3chords-app/js/app-es6.js:56 | in a join of two pieces or more, the first piece is directly followed by a separator |
| `Theme.FirstPiece` | what3chords-app/js/app-es6.js:56 | `href.split("?")[0]` is the text before the first `?` of `href`: a `?`-free prefix that is all of `href` or is followed by a `?` |
| `Theme.ThemeURLRoundTrip` | what3chords-app/js/app-es6.js:54-57 | for any theme without `?` or `=`, reading the theme from the reload URL gives that theme back, whatever the old URL was |
| `Theme.PageTheme.constructor` | what3chords-app/js/app-es6.js:7 | on load, the page's theme is the one read from its URL |
| `Theme.PageTheme.SwitchTheme` | what3chords-app/js/app-es6.js:54-57 | `switchTheme` toggles the theme and returns a reload URL from which the new theme reads back |
| `Catalog.DigitChar` | what3chords-app/js/app-es6.js:89 | a digit's character is `'0'`..`'9'` and stands for that digit |
| `Catalog.DecimalString` | what3chords-app/js/app-es6.js:89 | `${i}` is a non-empty string of decimal digits with no leading zero: it starts with `0` only when it is `"0"` and `i == 0` |
| `Catalog.DecimalUnique` | what3chords-app/js/app-es6.js:89 | any non-empty decimal numeral without leading zeros that denotes `i` is `DecimalString(i)`, so `${i}` is fixed by the properties above |
| `Catalog.DecimalValuePositive` | what3chords-app/js/app-es6.js:89 | a numeral that does not start with `0` denotes a number of at least 1 |
| `Catalog.DecimalRoundTrip` | what3chords-app/js/app-es6.js:89 | reading the decimal string of `i` gives `i` back |
| `Catalog.Label` | what3chords-app/js/app-es6.js:89 | the label template `${v.key}${v.suffix} ${i}`: it begins with `<key><suffix> `, and the rest is a non-empty decimal numeral without leading zeros that reads back as `i`, which by `DecimalUnique` is exactly `${i}` |
| `Catalog.MakeEntry` | what3chords-app/js/app-es6.js:88-91 | the record pushed for position `i`: its label and `positions[i].midi`; `PositionEntriesAt` places it |
| `Catalog.LabelsDistinct` | what3chords-app/js/app-es6.js:89 | different positions of one variant get different labels `<key><suffix> <i>` |
| `Catalog.PositionEntries` | what3chords-app/js/app-es6.js:87-92 | the first `n` positions of a variant give `n` records |
| `Catalog.PositionEntriesAt` | what3chords-app/js/app-es6.js:87-92 | record `i` of a variant has label `<key><suffix> <i>` and the MIDI notes of position `i` |
| `Catalog.Flatten` | what3chords-app/js/app-es6.js:85-94 | the records of the whole loop nest as a value: the records of each root in root order; `FlattenLength`, `FlattenAt` and `FlattenOrder` state its length, contents and order |
| `Catalog.RootEntriesLength` | what3chords-app/js/app-es6.js:86-93 | a root gives as many records as its variants have positions |
| `Catalog.FlattenLength` | what3chords-app/js/app-es6.js:85-94 | the dataset gives as many records as it has positions over all variants of all roots |
| `Catalog.RootEntriesAt` | what3chords-app/js/app-es6.js:86-92 | position `i` of variant `j` of a root is recorded right after the positions of the earlier variants |
| `Catalog.FlattenRootAt` | what3chords-app/js/app-es6.js:85-94 | record `k` of root `r` is recorded right after the records of the earlier roots |
| `Catalog.FlattenAt` | what3chords-app/js/app-es6.js:85-92 | position `i` of variant `j` of root `r` is recorded at `Offset(data, r, j) + i`, with label `<key><suffix> <i>` and `midi == positions[i].midi` |
| `Catalog.FlattenOrder` | what3chords-app/js/app-es6.js:85-92 | records appear in root order, then variant order, then position order |
| `Catalog.EveryCodeIndexesIff` | what3chords-app/js/app-es6.js:130-133 | every grid point's triple indexes the catalog if and only if the catalog has more than 2041 records |
| `Catalog.ChordCatalog.constructor` | what3chords-app/js/app-es6.js:82 | `CHORDS` starts empty |
| `Catalog.ChordCatalog.ProcessChords` | what3chords-app/js/app-es6.js:83-95 | `CHORDS` becomes its old contents followed by the flattened dataset: earlier records are kept, and a second call appends the same records again |
| `Catalog.ChordCatalog.PushVariants` | what3chords-app/js/app-es6.js:86-93 | the middle loop appends the records of every variant of one root, in order |
| `Catalog.ChordCatalog.PushPositions` | what3chords-app/js/app-es6.js:87-92 | the inner loop appends one record per position of the variant, in order |
| `Catalog.ChordCatalog.ChordsFor` | what3chords-app/js/app-es6.js:130-133 | when each digit is below the catalog length, the tooltip's three records are `CHORDS[abc[0]]`, `CHORDS[abc[1]]` and `CHORDS[abc[2]]` |

## Left out

- `rescale`, `arnoldsCat`, `doTheShuffle` and the `Math.round` steps of `getCode` (app-es6.js:146-152, 164-184) are left out. They are floating-point numerics: a chaotic `mod 1` map is iterated 16 times on doubles. A model over exact reals would compute different values. Their output enters the model only as the grid bounds `0 <= x <= 130400` and `0 <= y <= 65200` (`GridCode.OnGrid`).
- `GridCode.Digits` works on unbounded integers, not JavaScript doubles. `i`, `p * 2041 * 2041`, the difference `i - p * 2041 * 2041` and `i % 2041` are integers far below 2^53, so doubles compute them exactly. The quotients `i / 2041`, `i / 2041 / 2041` and `(i - p * 2041 * 2041) / 2041` are not integers in general, and doubles round them. That rounding does not change the floors. An exact integer quotient stays exact, because every double operation is correctly rounded and the result is representable. Otherwise the real quotient (at most about 2042 for the top digit and 2041 for the middle one, with a divisor of 2041 or 2041^2) lies at least 1/2041^2, about 2.4e-7, below the next integer. The rounding error of one or two divisions at that size is about 1e-12. So `Math.floor` of the double quotient is the integer quotient, and `Math.floor(i / 2041 / 2041)` is modelled as integer division by 2041 twice.
- `JsNumber.Divide`: a zero divisor is `None`. The model does not give the `Infinity` or `NaN` values that JavaScript returns there. `divide` is never called in the file.
- `JsNumber.Divide` takes unbounded integers. JavaScript's `divide` takes doubles of any size, and fractional values too. The model does not capture rounding of quotients, integers beyond 2^53, fractional arguments, `-0`, `Infinity` or `NaN`.
- `Catalog.ChordCatalog.ChordsFor`: each digit must be below the catalog length. The source has no bounds check there. Out of range, `CHORDS[k]` is `undefined` and reading `.chord` from it throws a `TypeError`. The model does not capture that throw.
- The UI code is left out: deck.gl setup, `render`, the HTML and style writes of `setTooltip`, `clearLoader`, the loading spinner, and the `$.getJSON` loading of `guitar-chords.json` and `rect.geojson` (app-es6.js:33-41, 60-80, 99-142). It is only glue over third-party libraries and I/O. The dataset that the loading produces is the parameter of `ProcessChords`.
- `Object.entries(DATA.chords)` yields string keys in insertion order, but integer-like keys first in ascending order. The model assumes that no root key of the dataset is integer-like, and takes the roots as a sequence in insertion order. The dataset file `guitar-chords.json` is not part of this model. The root key itself is not used: the label uses `v.key`.
- A position's other fields (frets, fingers, capo, base fret) are not modelled, because `processChords` does not read them. The unused local `chordsFlattened` is not modelled either.
- The assignment to `window.location` in `switchTheme` (app-es6.js:56) is a browser side effect that navigates to the new URL. Usually that loads the page again, but when `href` has a fragment and no `?` (`https://h/p#a` becomes `https://h/p#a?theme=dark`) only the fragment changes: the page is not loaded again, so `THEME` flips while the map style stays. Only the URL string is modelled.
- The lookup `THEMES[THEME]` for the map style (app-es6.js:34) is left out. For a theme other than `"dark"` or `"light"` it is not one of the two style URLs (usually `undefined`, but a name that objects inherit, such as `toString`, gives a function), which is left to the map library.
- temptest/testing.js is a literal configuration object for a third-party chord-diagram library, with no logic of its own.
