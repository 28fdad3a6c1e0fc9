# mif in Dafny

A model of `mif`, a converter from binary memory dumps to MIF (Memory
Initialization File) text. The model covers two layers.

**The word store `Mif<u128>` (src/lib.rs).** A store holds:
- a run-length collapsed sequence of `(word, bulk)` runs;
- a word width in bits (1 to 128);
- a depth in words;
- a log of labelled memory areas.

Its operations are `new`, `max_value`, `align`, `area`, `push`, `join`,
`read` and `write`. The store of the model is the datatype `Store.Mif`.
Operations that mutate the store in the library are functions here.
`area` cannot fail and returns the new store. `push`, `join` and `read`
can fail: they return the store as it is after the call together with a
status (`Effect`; `ReadEffect` also carries the reader's position). That
makes it possible to state what a failed call leaves behind. The reader of `read`
is a byte sequence plus a position. `write` is a pure function to a string
(`MifText.Write`). A small reader for the text it produces
(`MifText.ParseMif`) serves as its partner, so that the output can be
proved to read back as the store.

**The orchestration (src/cli.rs).**
- `dump` renders one binary (`Cli.Dump`).
- `join` splits binaries into memory areas. It checks each skipped area
  against its list of allowed words, and joins each other area into one or
  more MIF accumulators, created on first reference. It then renders every
  accumulator (`Cli.JoinAll`).

Binaries are given in memory as `(label, bytes, areas)` records. The
accumulators are an insertion-ordered map (`Cli.Accs`). The outputs are
`(label, MIF text)` pairs in the order they would be written.

`CliFacts` states what `join` amounts to without the accumulators, as a
list of events, one per area joined into one MIF. The main theorem,
`CliFacts.JoinAllReadsBack`, says the following about a successful run:
- there is one output per label named by a join, in order of first
  reference;
- each output reads back as the words of the areas joined into it, in file
  and area order, with a comment per joined area at the address where its
  words start;
- every binary is consumed to its last byte.

Edge cases of the code that the model keeps:
- A failed `push` leaves the store unchanged. The early return at
  src/lib.rs:258 comes before the depth update at src/lib.rs:265.
- A push of a word that does not match the last run is checked against
  the width even when its bulk is 0 (src/lib.rs:257-262). Such a push can
  fail while adding nothing.
- A short input makes `read` fail through the exact read at
  src/lib.rs:279-281, with the words before it already pushed. The check
  at src/lib.rs:286-288 is reached only after all words were read, so
  `MissingWords`, documented as "Less words read than expected"
  (src/lib.rs:185-187), is never raised. The model never produces it.
- With comments asked for, the area comments and a blank line come before
  the `WIDTH=` header (src/lib.rs:298-312).

Modules, one file each:
- `Base` (base.dfy): wrappers, errors, powers.
- `Numeric` (numeric.dfy): 128-bit shift and wrapping subtraction,
  alignment, pads.
- `Numerals` (numerals.dfy): hex and decimal numerals and their parsing.
- `Endian` (endian.dfy): byte order and word decoding.
- `Store` (store.dfy): the word store.
- `MifText` and `MifTextFacts` (text.dfy, text_facts.dfy): MIF text and
  its round trip.
- `Cli` and `CliFacts` (cli.dfy, cli_facts.dfy): `dump` and `join`.

## Model

| member | source | states |
|---|---|---|
| Numeric.Align | src/lib.rs:232-234 | the byte width of a word is `width / 8` rounded up: the least r with width <= 8r |
| Numeric.AlignBounds | src/lib.rs:215-234 | a width in [1, max_width] takes between 1 and max_align = 16 bytes, where max_width = 8 * max_align = 128 |
| Numeric.WrappingSubFacts | src/lib.rs:225 | the wrapping subtraction is the plain difference when nothing wraps, and 0 - 1 wraps to 2^128 - 1 |
| Numeric.WordPads | src/lib.rs:297 | words take `width / 4` rounded up hex digits: the least r with width <= 4r |
| Numeric.AddrPads | src/lib.rs:296 | addresses take the least k with 16^k >= depth hex digits (0 for a depth of 0 or 1) |
| Numeric.BitOrShifted | src/cli.rs:177 | or-ing a value below 2^k into a value shifted left by k bits adds the two |
| Numerals.ValueNumeral | src/lib.rs:300-320 | the numeral written for n (decimal or upper-case hex) denotes n |
| Numerals.PadNumeralValue | src/lib.rs:300-320 | a zero-padded numeral still denotes its number and consists of digits only |
| Numerals.PadNumeralWidth | src/lib.rs:300-320 | a number below base^w padded to w digits takes exactly w digits |
| Numerals.ParsePadNumeral | src/lib.rs:300-320 | a padded numeral followed by a non-digit parses back to its number and leaves the rest |
| Endian.DefaultFirst | src/lib.rs:340-342 | the default byte order is least significant byte first |
| Endian.ParseFirst | src/lib.rs:344-354 | parsing accepts exactly `lsb` and `msb`; any other string fails with `NeitherLsbNorMsbFirst` |
| Endian.ParseFirstName | src/lib.rs:344-354 | each byte order's spelling parses back to that byte order |
| Endian.DecodeMeaning | src/lib.rs:278-281 | a decoded word of n bytes is below 256^n; `Lsb` weighs byte i by 256^i; `Msb` is `Lsb` of the reversed bytes |
| Endian.DecodeEncodeLsb | src/lib.rs:279 | decoding the n little-endian bytes of a value below 256^n gives the value back |
| Endian.EncodeDecodeLsb | src/lib.rs:279 | encoding a decoded chunk in as many bytes gives the chunk back |
| Endian.DecodeMsbReversed | src/lib.rs:280 | big-endian decoding equals little-endian decoding of the reversed bytes |
| Endian.EndianRoundTrip | src/lib.rs:278-281 | a value below 256^n survives encode/decode both little-endian and, with the bytes reversed, big-endian |
| Store.New | src/lib.rs:207-213 | creating a store succeeds iff 1 <= width <= 128; the new store is valid, empty, of depth 0 with no areas; otherwise it fails with `WidthOutOfRange(width, 128)` |
| Store.MaxValue | src/lib.rs:223-226 | the largest word is 2^width - 1 for every valid width, including 128 |
| Store.MaxValueOf | src/lib.rs:223-226 | the checked shift and wrapping subtraction give 2^width - 1 for every width in [1, 128] |
| Store.MaxValueMeaning | src/lib.rs:224-225 | at width 128 the checked shift yields none, taken as 0, and 0 - 1 wraps to all ones; below 128 the shift is 2^width |
| Store.Area | src/lib.rs:248-250 | recording an area appends (depth, label) to the log and changes nothing else; validity (addresses non-decreasing, at most the depth) is kept |
| Store.Push | src/lib.rs:252-267 | a push fails iff the word differs from the last run's word (or there is none) and exceeds the largest word, even for a bulk of 0; it then fails with `ValueOutOfWidth(depth, width)` and the store is unchanged; otherwise the expanded words gain bulk copies of the word, the depth grows by bulk, and validity is kept |
| Store.PushMergedValid | src/lib.rs:254-255 | merging into an equal last run keeps the store valid: no equal neighbours, positive bulks, depth the sum of the bulks |
| Store.PushAppendedValid | src/lib.rs:256-262 | appending a new run of positive bulk after the width check keeps the store valid |
| Store.JoinRuns | src/lib.rs:270 | pushing runs one after another: on success the expanded words are the old ones followed by the runs' and the depth grows by their bulks; for a valid store it succeeds iff every run's word fits; a valid store stays valid whether the join succeeds or fails; on failure it stopped at a run k whose word is too wide, with `ValueOutOfWidth` at the depth reached and the runs before k merged, and in a valid store every run before k fits, so k is the first run that does not |
| Store.Join | src/lib.rs:269-271 | joining another store appends its expanded words and grows the depth by the sum of its bulks, leaving width and areas untouched; a valid store stays valid whether the join succeeds or fails; for a valid store it succeeds iff every word of the other fits; a failed join stops at the first run that does not fit, with the runs before it merged |
| Store.JoinSameWidth | src/lib.rs:269-271 | joining a valid store of the same width never fails and adds the depths |
| Store.Read | src/lib.rs:273-290 | reading n words into a valid store succeeds iff n words of `align` bytes are available and each decodes within the largest word; then exactly n * align bytes are consumed, depth grows by n and the expanded words gain the decoded words; on failure the words before the failing one stay pushed and the next one ran out of bytes (I/O error) or was too wide (`ValueOutOfWidth`) |
| Store.ReadShort | src/lib.rs:278-281 | a read that has fewer bytes left than one word ends with an unexpected-end I/O error, the store as it was and the bytes consumed, which meets every promise of `read` |
| Store.ReadRejected | src/lib.rs:282-283 | a read whose next decoded word the push rejects ends with the push's error and the store as it was, which meets every promise of `read` |
| MifTextFacts.ParseAreaLinesOf | src/lib.rs:298-302 | the area comment lines read back as the area log, for labels without a line break |
| MifTextFacts.ParseHeaderOf | src/lib.rs:305-312 | the header reads back as the width and depth it was written with |
| MifTextFacts.ParseEntryOf | src/lib.rs:315-321 | a content line reads back as its first address, last address (equal for a bulk of 1, first + bulk - 1 otherwise) and word |
| MifTextFacts.ParseEntriesOf | src/lib.rs:313-323 | the content lines read back as one entry per run |
| MifTextFacts.WriteParse | src/lib.rs:295-326 | the whole text reads back as the area log (only when asked for), the width, the depth and one entry per run, and nothing follows `END;` |
| MifTextFacts.EntriesTile | src/lib.rs:313-323 | the content lines' address ranges tile [addr, addr + sum of bulks) in order, and their words expand to the runs' words |
| MifTextFacts.AddressColumns | src/lib.rs:296-320 | every address below the depth is written in exactly the address pad digits (one digit when the pad is 0) |
| MifTextFacts.WordColumns | src/lib.rs:297-320 | every word within the width is written in exactly `width / 4` rounded up digits |
| CliFacts.WriteReadsBack | src/lib.rs:295-326 | the text of a valid store reads back as its width, its expanded words address after address from 0, and its area log when comments are asked for |
| Cli.DefaultWidth | src/lib.rs:357 | the default width is 16, a valid width |
| Cli.AsWord | src/cli.rs:173-179 | a one-part word is its value; a two-part word is msb * 2^64 + lsb |
| CliFacts.AsWordHalves | src/cli.rs:177 | the two halves are recovered from a two-part word: distinct halves give distinct words |
| Cli.NewStore | src/cli.rs:92 | a store for an area is created iff its width is in [1, 128], and it is then valid and empty |
| Cli.Dump | src/cli.rs:50 | `dump` with an out-of-range width fails with `WidthOutOfRange(width, 128)` |
| CliFacts.DumpOutcome | src/cli.rs:43-56 | for a valid width, `dump` fails with "no integral multiple" iff the count is not a multiple of the word's bytes, and succeeds iff it is and every word of the count bytes can be read and fits the width |
| CliFacts.DumpReadsBack | src/cli.rs:43-56 | a successful `dump` reads back, without area comments, as the words decoded from the first count bytes, count being count/align whole words |
| Cli.Touch | src/cli.rs:102-112 | an accumulator exists afterwards; an existing one is left alone; a missing one is created iff the width is valid, as an empty store of that width appended at the end of the order, and otherwise the call fails with `WidthOutOfRange(width, 128)` |
| Cli.JoinOne | src/cli.rs:101-118 | a successful join into a target leaves it existing with the area's width, and all accumulators valid |
| CliFacts.JoinOneWidth | src/cli.rs:113-115 | joining into a target fails iff an earlier area joined into it had a different width, and then with "different width" naming it |
| CliFacts.JoinOneReflects | src/cli.rs:113-117 | after a join the target's store is the area label logged at its depth followed by the area's words, and every other accumulator is unchanged |
| CliFacts.JoinTargetsReflect | src/cli.rs:101-118 | joining an area into its targets in order adds one event per target |
| Cli.ProcessArea | src/cli.rs:91-120 | an area that succeeds consumes exactly depth * align bytes; a skipped area changes no accumulator |
| CliFacts.SkipArea | src/cli.rs:94-100 | a skipped area passes iff it reads in full and its skip list is empty or holds every word read; read in full with a word not in a non-empty list, it fails naming the binary |
| CliFacts.RunsSkippable | src/cli.rs:96-98 | checking every run's word equals checking every expanded word |
| CliFacts.ReadArea | src/cli.rs:92-93 | reading an area into a fresh store succeeds iff every word is available and fits; the store then holds exactly the decoded words |
| CliFacts.ProcessAreaReflects | src/cli.rs:91-120 | processing an area adds exactly its join events to what the accumulators reflect |
| Cli.ProcessAreas | src/cli.rs:91-120 | processing a file's areas in order consumes the sum of their depth * align bytes and keeps the accumulators valid |
| CliFacts.ProcessAreasReflects | src/cli.rs:91-120 | processing a file's areas in order adds exactly their join events, area after area, to what the accumulators reflect |
| Cli.ProcessFile | src/cli.rs:85-125 | once the areas are read, a file succeeds iff they consume it exactly; bytes left over fail with their count and the file's label |
| CliFacts.ProcessFilesReflects | src/cli.rs:85-125 | the accumulators after all files are what the files' join events make of them, in first-reference order |
| CliFacts.ProcessFilesConsumed | src/cli.rs:121-124 | after a successful run, every file's areas cover exactly its bytes |
| Cli.Outputs | src/cli.rs:126-129 | one MIF text per accumulator, in creation order, each written with the same comment flag |
| CliFacts.JoinAllReadsBack | src/cli.rs:79-131 | a successful `join` writes one MIF per target, each once, in order of first reference; each reads back as the joined areas' words in file and area order, with their labels logged at their start addresses when comments are asked for; every binary is consumed to its end |

## Left out

- File and stream I/O: `open`, `load`, opening binaries, creating output
  files, buffered readers and writers. Binaries are given as byte
  sequences and outputs are returned as `(label, text)` pairs. An output
  file is created and truncated at first reference even when the run fails
  later; that effect is not modelled.
- TOML/serde deserialisation and its defaults. An `Area` record is taken
  with its byte order and width already resolved; `Endian.DefaultFirst` and
  `Cli.DefaultWidth` give the defaults.
- The `f64` arithmetic of `align` and of the pads. It is replaced by the
  integer values `(width + 7) / 8`, `(width + 3) / 4` and the least k with
  16^k >= depth. Float rounding at huge depths is not modelled.
- `usize` overflow of depths, bulks and addresses: all counts are
  unbounded naturals.
- Genericity over the word type, and the `from_u128` failure path at
  src/lib.rs:282-283, which cannot fail for `u128`.
- `MissingWords`: the datatype keeps the variant, but no operation
  produces it, as in the code.
- I/O errors of writing, and anyhow context strings. Errors are an
  abstract datatype.
- `PathBuf` display: labels are opaque strings. The read-back theorems
  (`CliFacts.WriteReadsBack`, `CliFacts.JoinAllReadsBack`) require labels
  without a line break, because a label containing one cannot be told
  apart from the next line.
- Cli.Dump: takes the byte count as a parameter, where the library takes it
  from the file's metadata or from the length of standard input. Its own
  contract states only the width error; `CliFacts.DumpOutcome` and
  `CliFacts.DumpReadsBack` state the rest.
- Cli.JoinOne: its contract states the width and validity. What the
  target then holds is stated by `CliFacts.JoinOneReflects`, and the
  width-mismatch error by `CliFacts.JoinOneWidth`.
- Cli.ProcessArea: its contract states the bytes consumed and that a
  skipped area changes no accumulator. When a skip fails is stated by
  `CliFacts.SkipArea`, and what a join adds by
  `CliFacts.ProcessAreaReflects` (through `CliFacts.JoinTargetsReflect`).
- Cli.ProcessAreas: its contract states the bytes consumed and validity.
  What the accumulators then hold is stated by
  `CliFacts.ProcessAreasReflects`.
- Cli.JoinAll has no contract of its own; `CliFacts.JoinAllReadsBack`
  states what it produces.
- MifText.Write is stated through its read-back lemmas
  (`MifTextFacts.WriteParse`, `CliFacts.WriteReadsBack`) and requires a
  valid store, as every store the library builds is one.
- The bytes written to output files before a failure: the model returns
  outputs only for a run that succeeds.
- `src/bin/mif.rs` (argument parsing and dispatch) is not part of this
  model.
