# midiiconv, modelled in Dafny

midiiconv rewrites the character encoding of the text fields of a Standard MIDI
File: track names, lyrics, markers, cue points and the other meta-events that carry
a `Text` payload. The library (`midiiconv.go`) provides two things:

- `Iconv` walks every track and every event in order. It converts each text field in
  place with the external `iconv` converter and then runs a string post-process on
  the result. It stops at the first conversion error and does not roll back the
  fields it has already converted.
- `Detect` walks the same fields without changing them. It records, for each field,
  the guesses of the external `chardet` detector, the text itself and the detector's
  error.

The command (`cmd/midi-iconv.go`) has two modes:

- With `-charset-detect` it sums the detector's confidences per charset name over the
  whole file, flattens the sums into a list and sorts the list by descending score.
- Otherwise it converts the file, turning every `\r` into `\r\n` when `-fix-crlf` is
  given. It only logs a conversion error, and still writes the sequence to `-output`,
  or over the input file when `-output` is empty.

The Dafny modules follow that structure:

- `Wrappers` (`wrappers.dfy`): `Option`, `Result` and Go's opaque `error`.
- `Midi` (`midi.dfy`): the decoded sequence.
  - `Event` is `NonMeta` or `Meta(text: Option<string>)`. `text` is `Some` exactly when
    the meta-event's struct has a valid, settable `Text` field.
  - `Sequence` is a class whose `tracks` field the converter updates.
  - `Fields` lists the text payloads in track-then-event order, the order in which they
    are visited.
  - A Dafny `string` stands for a Go byte string, one character per byte. The text
    fields hold raw bytes in whatever encoding the file uses. So `FixCrLf` inserts a
    `\n` byte after every `\r` byte, as `strings.ReplaceAll` does, even inside a
    multi-byte code unit: in UTF-16LE text the bytes `0D 00` become `0D 0A 00`.
- `MidiIconv` (`midiiconv.dfy`): `Iconv` and `Detect` as methods with loop invariants.
  - `ConvertTracks` is the reference definition of the fail-fast pass. `Iconv` is
    proved equal to it.
  - `ConvertFields` and `FirstFailure` are the same pass on the flat list of fields.
    The fail-fast properties are proved on that list.
  - The external converter is a function-valued parameter
    `convert(text, from, to): Result<string, Error>`. The detector is a parameter
    `detectAll(text): (guesses, error)`.
- `CrLf` (`crlf.dfy`): the `-fix-crlf` post-process and its properties.
- `CharsetStats` (`charset_stats.dfy`): the per-charset aggregation, the flattening of
  the map, the in-place sort and the resulting ranking.
- `Command` (`command.dfy`): one run of the program on a decoded sequence, in either
  mode.

## Model

| member | source | states |
|---|---|---|
| `MidiIconv.Iconv` | midiiconv.go:48-68 | The tracks after the call, and the returned error, are exactly the fail-fast pass `ConvertTracks` over the tracks before the call. Fields are updated in place in track-then-event order. The method returns at the first conversion error and does not roll back. |
| `MidiIconv.ConvertEvents` | midiiconv.go:50-64 | The pass over one track keeps the number of events. |
| `MidiIconv.ConvertEventsShape` | midiiconv.go:50-64 | Within one track, every event equals its original except for the text of a text-bearing meta-event. Non-meta events and meta-events without a `Text` field are untouched. |
| `MidiIconv.ConvertTracks` | midiiconv.go:49-66 | The pass over a sequence keeps the number of tracks. |
| `MidiIconv.ConvertTracksShape` | midiiconv.go:49-66 | After conversion, every track has its original number of events. Every event differs from its original at most in the `Text` payload of a text-bearing meta-event. |
| `MidiIconv.FirstFailure` | midiiconv.go:57-58 | The index returned is the first field whose conversion fails. Every earlier field converts. When no field fails, it equals the number of fields. |
| `MidiIconv.ConvertFieldsFailFast` | midiiconv.go:57-61 | On the flat field list, the pass reports no error exactly when no field fails. Otherwise it reports the first failing field's own error. Earlier fields become `post(convert(old))`. That field and all later ones keep their text. |
| `MidiIconv.ConvertTracksFields` | midiiconv.go:49-66 | Seen through its text fields in visiting order, the pass over tracks and events is the flat pass: same resulting fields, same error. |
| `MidiIconv.IconvFailFast` | midiiconv.go:56-61 | Fail-fast contract of `Iconv`. With k the first failing field in track-then-event order, the error is absent exactly when k is the number of fields, and is field k's error otherwise. Fields before k hold `spf(convert(old))`, with the post-process applied after the conversion. Fields k onward keep their original text. The number of fields is unchanged. |
| `MidiIconv.DefaultStringProcess` | midiiconv.go:20-23 | `DefaultStringProcessFunc` returns its argument unchanged. |
| `MidiIconv.ConvertEvent` | midiiconv.go:51-63 | One event: it succeeds exactly when the event has no settable `Text` field or the converter succeeds on its text. On success only the text changes, to `post` of the converter's output. On failure the error is the converter's own. |
| `MidiIconv.DefaultProcessKeepsRawConversion` | midiiconv.go:20-23 | With `DefaultStringProcessFunc` as post-process, every field converted before the first failure holds exactly the converter's output. |
| `MidiIconv.Detect` | midiiconv.go:25-45 | The sequence is not modified. There is exactly one record per text field, in track-then-event order. Each record carries the field's text unchanged, and that field's detector guesses and error. A detector error never stops the later fields from being visited. |
| `CrLf.FixCrLf` | cmd/midi-iconv.go:113 | `strings.ReplaceAll(str, "\r", "\r\n")`: the fixed string is longer than the input by exactly the number of `\r` in the input. |
| `CrLf.FixCrLfCrThenLf` | cmd/midi-iconv.go:111-115 | Every `\r` in the fixed string is immediately followed by `\n`. |
| `CrLf.FixCrLfRoundTrip` | cmd/midi-iconv.go:111-115 | Dropping the `\n` after each `\r` of the fixed string gives back the input, so the fix only inserts line feeds after carriage returns. |
| `CrLf.FixCrLfKeepsCrCount` | cmd/midi-iconv.go:111-115 | The fix neither adds nor removes carriage returns. |
| `CrLf.FixCrLfWithoutCr` | cmd/midi-iconv.go:111-115 | A string without `\r` is left unchanged. |
| `CrLf.FixCrLfIdempotentIff` | cmd/midi-iconv.go:111-115 | Applying the fix twice gives the same as applying it once exactly when the input has no `\r`, so the fix is not idempotent. |
| `CrLf.FixCrLfTwiceOnCrLf` | cmd/midi-iconv.go:111-115 | Concrete case: `"\r\n"` becomes `"\r\n\n"`, and then `"\r\n\n\n"`. |
| `Command.PostProcess` | cmd/midi-iconv.go:111-115 | The closure handed to `Iconv`. With `-fix-crlf`, every `\r` of its output is followed by `\n`, and dropping those line feeds gives its input back. Without `-fix-crlf`, it returns its input unchanged. |
| `Command.FixCrLfConvertedFields` | cmd/midi-iconv.go:111-115 | With `-fix-crlf`, every field converted before the first failure has each `\r` followed by `\n`. Removing those line feeds gives the raw converter output. |
| `CharsetStats.Aggregate` | cmd/midi-iconv.go:79-88 | The map's keys are exactly the charset names in the results of all records. Each name maps to the sum of the confidences of all results with that name. |
| `CharsetStats.Flatten` | cmd/midi-iconv.go:90-101 | The list has one entry per map key, with no name repeated. An entry is in the list exactly when it is a key with its map value. The order is arbitrary. |
| `CharsetStats.SortByScore` | cmd/midi-iconv.go:102-104 | After the in-place sort the array is ordered by non-increasing score and is a permutation of its previous contents. |
| `CharsetStats.RankCharsets` | cmd/midi-iconv.go:79-104 | The report is ordered by non-increasing score. It holds exactly one entry per charset name found in any result and no other names. Each entry's score is that name's summed confidence. |
| `CharsetStats.RankingPreservesTotal` | cmd/midi-iconv.go:80-101 | The scores of a report add up to the sum of all confidences of all results of all records. |
| `CharsetStats.PermutationKeepsDistinct` | cmd/midi-iconv.go:102-104 | Sorting cannot make a charset name appear twice: a permutation of a list without repeated names has none. |
| `Command.Run` | cmd/midi-iconv.go:49-129 | Detection mode does not change the sequence. It yields one detection record per text field and a ranking of their results. Conversion mode always produces an output: the converted sequence together with the logged error, if any. That sequence has the fields converted before a failure. It goes to `-output`, or to the input path when `-output` is empty, so the path is never empty. The input path must be non-empty, as the flag check requires before anything runs. The post-process is the CRLF fix exactly when `-fix-crlf` is set, and the identity otherwise. |

## Left out

- Decoding and encoding of the Standard MIDI File (`midimark.DecodeSequenceFromSMF`, `EncodeSMF`) belong to an external library. The sequence is modelled as already decoded. Writing the file is represented by the `Saved` outcome.
- `iconv.ConvertString` and `chardet`'s `DetectAll` are foreign calls. They appear as function-valued parameters with no properties assumed. The conversion of the text to bytes before detection is part of that parameter.
- Reflection (`reflect.ValueOf`, `FieldByNameFunc`, `IsValid`, `CanSet`, `SetString`) is replaced by `Meta(text: Option<string>)`. Fields reached through a pointer's `Elem()` are settable, so `IsValid` and `CanSet` are one flag here.
- Events are Go pointers mutated through the interface. In the model, the `tracks` field of `Sequence` is reassigned, so aliasing is not modelled. If the same event object were shared by two positions, the Go code would convert it twice.
- Flag parsing, the `log.Fatalln` exits, opening and creating files, and logging are I/O. `Options` holds the parsed flags. The check that `-input` is non-empty is the precondition of `Command.Run`.
- The `text/template` rendering of the report is cosmetic and uses a foreign template engine.
- `cmd/main.go` is an alternate entry point. It repeats the CRLF closure and the output default, and adds per-event printing, which is I/O. It is not part of this model.
- `CharsetStats.SortByScore`: Go's `sort.Slice` algorithm is library code. An insertion sort stands in for it, and only its contract is claimed: sorted by non-increasing score, and a permutation. The order of equal scores is left open, as it is in Go, where both map iteration and `sort.Slice` are unordered. The code has no tie-break between equal scores, such as first-seen order, and neither has the model.
- `CharsetStats.Aggregate`: confidences and scores are unbounded integers. Overflow of Go's `int` is not modelled.
- The aggregation sums the results of every detection record, including records whose detector reported an error. The code does not filter by the detector's error, and neither does the model.
- The CRLF fix, `strings.ReplaceAll(str, "\r", "\r\n")`, is not idempotent: an existing `\r\n` gains a second `\n` (`CrLf.FixCrLfIdempotentIff`).
