# Genre vote bubbles: tally, CSV export, registry and label fitting

This project models the bookkeeping of `src/components/Bubbles.jsx`, the component of
vote_game that shows one floating bubble per music genre. A click on a bubble is a vote. The
bubble gets a kick and is replaced by a bigger one. "Export CSV & Reset" writes the tally as
CSV, zeroes it and shrinks every bubble back to the base size. Every frame, each bubble's
genre label is wrapped and fitted inside the circle.

The model has these modules:

- `Common`: `Option`, JavaScript's `Array.prototype.join`, and concatenation of strings.
- `Decimal`: `String(n)` for an integer count, and the decimal reading that undoes it.
- `Csv`: cell quoting in the style of section 2 of RFC 4180, row and record joining, and a
  reader that parses the written text back into rows.
- `Genres`: the fifteen-entry catalog, and the `find` lookups for a key's colour and label.
- `Tally`: the vote map. It covers a vote (the object spread), the reset, and the export rows.
- `TextFit`: `wrapIntoLines` and the font search of the `afterRender` handler.
  - `split(/\s+/)` is the function `SplitWords`.
  - The `flatMap` over the words, the per-word hard split and the packing loop are methods.
  - Each of those methods is proved equal to a recursive specification function.
  - The facts about each specification function are proved as lemmas.
- `Bubbles`: the body registry as a class `Board`.
  - Its fields are the tally (`votesRef.current`) and a `map` from genre key to body
    (`bodyMapRef.current`).
  - Its methods are the `mousedown` handler, `exportCSV` and the per-body label layout.
  - `nearestOther` is a method over the registry.

The model abstracts these things as inputs:

- The canvas text measurement is a parameter `measure(font, text)`. Nothing is assumed about it.
- The radius curve `radiusForVotes` is a function-valued field of the board.
- The hit test of the pointer is an input.
- The random kick vector is an input.
- The spawn positions and velocities are inputs.

Two consequences of the code are easy to miss, and the model keeps both:

- The font search starts at `floor(r * 0.25)` (`src/components/Bubbles.jsx:319`).
- When no font size fits, no line is chosen, so nothing is drawn for that bubble
  (`src/components/Bubbles.jsx:318`, `:340`).

## Model

| member | source | states |
|---|---|---|
| Csv.QuoteCell | src/components/Bubbles.jsx:72 | a cell is written starting with a quote exactly when it contains `"`, `,`, LF or CR; otherwise it is written verbatim |
| Csv.UnquoteQuote | src/components/Bubbles.jsx:72 | unquoting a written cell (strip the surrounding quotes, undouble inner quotes) gives back the original cell, quoted or not |
| Csv.ReadPlain | src/components/Bubbles.jsx:72 | an unquoted cell runs up to the next `"`, `,`, LF or CR and contains none of them |
| Csv.ReadCellQuoted | src/components/Bubbles.jsx:72 | a written cell followed by `,`, CR or the end of the text reads back as the original cell, leaving the rest of the text unread |
| Csv.ReadRowEncoded | src/components/Bubbles.jsx:71-73 | a row whose cells are written and joined by `,` reads back as the same cells |
| Csv.CsvRoundTrip | src/components/Bubbles.jsx:70-74 | rows written with cells joined by `,`, rows joined by CRLF and a trailing CRLF read back as exactly the same rows |
| Csv.SerializeTerminated | src/components/Bubbles.jsx:73-74 | joining the rows with CRLF and adding one CRLF is the same as ending every row with CRLF |
| Csv.SerializeEndsWithCrlf | src/components/Bubbles.jsx:74 | the written text ends with CRLF |
| Decimal.NatToString | src/components/Bubbles.jsx:68 | `String(n)` of a count is a non-empty run of digits with no leading zero |
| Decimal.IntRoundTrip | src/components/Bubbles.jsx:68 | the decimal spelling of a count reads back as the count and contains only digits and a minus sign |
| Genres.Find | src/components/Bubbles.jsx:105 | `GENRES.find` gives nothing exactly when no entry has the key, and otherwise the first entry with that key |
| Genres.FindDistinct | src/components/Bubbles.jsx:244 | with distinct keys, a key's colour and label are those of its own catalog entry |
| Genres.GenresWellFormed | src/components/Bubbles.jsx:10-26 | the catalog has fifteen entries with distinct keys and a colour each |
| Tally.Increment | src/components/Bubbles.jsx:233 | a vote sets the key to its old count (0 when absent) plus one and leaves every other key's entry as it was |
| Tally.CastAllCounts | src/components/Bubbles.jsx:233 | after any sequence of votes, each key's count has grown by the number of votes cast on it |
| Tally.Zeroed | src/components/Bubbles.jsx:88 | the reset tally has exactly the catalog keys, each at 0 |
| Tally.ZeroedReadsZero | src/components/Bubbles.jsx:88 | after the reset every catalog key reads 0 |
| Tally.GenreRowsAt | src/components/Bubbles.jsx:68 | there is one genre row per catalog entry, in catalog order |
| Tally.ExportRowsNonEmpty | src/components/Bubbles.jsx:66-69 | the export has the header plus one row per genre, and no row is empty |
| Tally.GenreRowFacts | src/components/Bubbles.jsx:68 | a genre row holds the key, the label and a count cell that reads back as the count, `"0"` for a key missing from the tally |
| Tally.ExportCsvReadsBack | src/components/Bubbles.jsx:66-74 | the exported text reads back as the header `genre_key,genre_label,votes`, then one row per genre in catalog order with its key, its label and its count |
| Tally.HeaderEncoded | src/components/Bubbles.jsx:67 | the header row is written verbatim as `genre_key,genre_label,votes` |
| Tally.ExportCsvFraming | src/components/Bubbles.jsx:66-74 | the exported text starts with the header line and its CRLF and ends with CRLF |
| TextFit.DropSpaces | src/components/Bubbles.jsx:268 | the result is the text after its leading run of whitespace: what is dropped is all whitespace, and what is kept starts with a non-space or is empty |
| TextFit.SplitWords | src/components/Bubbles.jsx:268 | `split(/\s+/)` gives at least one piece, no piece holds whitespace, and the pieces concatenate to the text's non-space characters |
| TextFit.SplitWordsCollapse | src/components/Bubbles.jsx:268 | the pieces joined by single spaces are the text with every maximal whitespace run replaced by one space, so the cuts fall exactly at the whitespace runs |
| TextFit.SplitWordsExact | src/components/Bubbles.jsx:268 | any non-empty list of space-free pieces that joins by single spaces to the collapsed text is the split, so the split is determined by the text |
| TextFit.ChunksFromFacts | src/components/Bubbles.jsx:269-281 | from any state of the chunk loop, the chunks still to come are non-empty, concatenate to the open chunk plus the rest of the word, fit unless single characters, and are closed only when the next character overflows |
| TextFit.HardSplitFacts | src/components/Bubbles.jsx:268-282 | the chunks of a word are non-empty and concatenate back to the word; a chunk of more than one character fits the width; a chunk is closed only when adding the next character overflows; an empty word gives no chunk |
| TextFit.SplitWord | src/components/Bubbles.jsx:269-281 | the per-word loop returns exactly the hard split of the word |
| TextFit.FlatChunksFacts | src/components/Bubbles.jsx:268-282 | the chunks of all words are non-empty, fit unless single characters, and concatenate to the words' concatenation |
| TextFit.PiecesFacts | src/components/Bubbles.jsx:268-282 | the pieces of a text are non-empty, fit unless single characters, and concatenate to its non-space characters |
| TextFit.SplitText | src/components/Bubbles.jsx:268-282 | the `flatMap` over the words returns exactly the pieces of the text |
| TextFit.PackFromJoin | src/components/Bubbles.jsx:284-295 | from any state of the packing loop, the remaining lines are non-empty and, joined by spaces, equal the open line joined with the remaining chunks |
| TextFit.PackFromWidth | src/components/Bubbles.jsx:284-295 | from any state of the packing loop, each remaining line is the open line, fits the width, or is a single remaining chunk |
| TextFit.StartsUnique | src/components/Bubbles.jsx:287 | a line opens with at most one space-free chunk (the chunk itself, or the chunk and a space), so the chunk that starts a line is determined by the line |
| TextFit.PackFromGreedy | src/components/Bubbles.jsx:286-293 | from any state of the packing loop, the first remaining line is the open line or the open line followed by a space, and each line but the last was closed only because the chunk that starts the next line (the whole line, or the line up to its first space) does not fit after it |
| TextFit.PackFacts | src/components/Bubbles.jsx:284-296 | packed lines are non-empty; joined by single spaces they equal the chunks joined by single spaces; each line fits the width or is a single chunk; there are lines exactly when there are chunks; a line is closed only when the chunk that starts the next line does not fit after it |
| TextFit.PackLines | src/components/Bubbles.jsx:284-296 | the packing loop returns exactly the greedy packing of the chunks |
| TextFit.WrapFacts | src/components/Bubbles.jsx:266-297 | the wrapped lines are non-empty, lose no character other than whitespace, each fits the width or is a single chunk, are empty exactly when the text has no visible character, and a line is closed only when the chunk that starts the next line does not fit after it |
| TextFit.WrapIntoLines | src/components/Bubbles.jsx:266-297 | `wrapIntoLines` returns exactly the wrapping of the text |
| TextFit.FitFont | src/components/Bubbles.jsx:318-334 | if some size in `[8, floor(r*0.25)]` gives at most 3 lines with `lines*(size+2) <= r*1.3`, the largest such size is chosen with its layout; otherwise the size stays `floor(r*0.25)` and no line is chosen |
| Bubbles.NearestOther | src/components/Bubbles.jsx:180-190 | the result is none exactly when there is no other body; otherwise it is another body at the least squared distance, and no other body visited before it is as close |
| Bubbles.Board.constructor | src/components/Bubbles.jsx:154-177 | one body per catalog key at its spawn position and velocity, with its colour and the radius of its stored count; the board is valid: one body per key, labelled with it, filled with its genre colour and sized by its count |
| Bubbles.Board.SpawnBodies | src/components/Bubbles.jsx:154-176 | one body per catalog key, at its spawn position and velocity, with its genre colour and the radius of its stored count |
| Bubbles.Board.MountGenres | src/components/Bubbles.jsx:154-177 | mounting with the shipped catalog gives a valid board with the stored tally and exactly fifteen bodies, one per genre key |
| Bubbles.Board.OnMouseDown | src/components/Bubbles.jsx:222-252 | with no hit nothing changes; otherwise the key's count goes up by one, and its body is replaced by one at the same position with the kicked velocity, the same key, the same colour and the radius of the new count; other bodies and counts are kept, as is the invariant tying each body's label, colour and radius to its key |
| Bubbles.Board.ExportCsv | src/components/Bubbles.jsx:64-114 | returns the CSV of the tally as it was, zeroes every catalog key, and replaces every body by one at the same position and velocity with the same key, the same colour and the zero-vote radius; the key set is unchanged and the board stays valid |
| Bubbles.Board.ShrinkAll | src/components/Bubbles.jsx:97-112 | every body is replaced by one at the same position and velocity, with the same key, the zero-vote radius and its genre colour; the key set and the tally are unchanged |
| Bubbles.Board.LabelLayouts | src/components/Bubbles.jsx:308-334 | every body gets the font size and lines the font search chooses for its genre label (the key when the genre is unknown) and its radius (the base radius when it has none) |

## Left out

- The Matter.js engine, renderer, runner, walls, collisions and mouse constraint are a foreign library. The model has no physics step.
- The hit test `Query.point` is an input `hit` of `OnMouseDown`.
- Bodies are records in a map. Removing the old body from the world and adding the new one, and the other physics options, are not modelled.
- Random initial velocities, the kick towards the nearest body with its jitter, and the anti-stick nudge depend on `Math.random` and floating-point trigonometry.
  - The kick is an input vector that is added to the velocity.
  - `NearestOther` is modelled on its own and is not connected to the kick.
- `radiusForVotes` uses `Math.sqrt` on floats. It is a function-valued field of the board, so its numerics are not modelled.
- `localStorage`, JSON reading and writing, and React state (`setVotes`, the effect that mirrors `votes`) are browser I/O. Stored counts are taken to be integers, and other JSON values are not modelled.
- Tally.Increment: counts are taken to be safe integers (absolute value below 2^53). JavaScript counts are IEEE doubles, and above 2^53 `(votes[key] || 0) + 1` no longer adds one; the model's unbounded integers always do.
- Decimal.IntToString: counts are taken to be safe integers. `String(n)` switches to exponent form from 1e21 (`"1e+21"`); the model always writes every digit.
- TextFit.PiecesFacts: the model does not prove that each hard-split piece lies inside one word of the text. It proves where the text is cut (`SplitWordsCollapse`, `SplitWordsExact`) and that each word's chunks concatenate back to the word (`HardSplitFacts`).
- The Blob download, the object URL and the timestamped file name depend on the browser and the clock.
- The canvas styling and the `fillText` calls that draw the chosen lines are not modelled. Teardown and the JSX are also left out.
- `src/App.jsx` is not part of this model.
- Iteration order: the model does not fix the order of `Object.keys` / `Object.values`.
  - `ExportCsv` and `LabelLayouts` visit the keys in an arbitrary order. The result does not depend on the order.
  - `NearestOther` takes the visiting order as an explicit input.
- Text is a sequence of Unicode scalar values. The model does not show the difference between UTF-16 `length` and code-point iteration.
- Real numbers are exact. Floating-point rounding of the measurements and of `r * 1.6`, `r * 1.3` and `r * 0.25` is not modelled.
- Bubbles.Board.constructor: it requires distinct keys and a colour for every genre. The component only ever mounts `GENRES`, and `GenresWellFormed` proves both for it (`MountGenres` uses this). A catalog without a colour is not modelled.
- Bubbles.Board.ExportCsv: the `engine && map` guard is always true once the component is mounted, so the model has no unmounted board. The `if (!old) continue` guard cannot fire on a map with a body per key, so it is not modelled.
