# CaptionCut upload component: a verified model

CaptionCut is a browser app that turns an uploaded video or audio file into
editable, timed subtitles. Its upload component does the following:

- It refuses files over 50 MiB.
- It re-encodes the decoded audio track as a 16-bit PCM WAV file. A
  file the browser cannot decode is passed through unchanged when it is
  audio, and refused otherwise.
- It sends the audio to a transcription service and parses the SubRip
  (`.srt`) reply into a caption list.
- It highlights the caption under the playback position.
- It lets the user edit caption texts and exports the list as SubRip
  again.

The model is written in Dafny in five modules:

- `Text` holds the ECMAScript string built-ins the component relies on:
  `trim`, `split` on one character, `join`, the decimal rendering of an
  integer, and `parseInt` without a radix, including the sign, the `0x`
  prefix and trailing junk.
- `Srt` holds the caption record and the `HH:MM:SS,mmm` timestamp. It
  also holds `parseSRT`, with the regular-expression split
  `/\n\s*\n/` and the leftmost timestamp-pair match, and the
  serializer. It proves that exporting and re-importing an exportable
  caption list gives the list back.
- `Timeline` holds the caption shown at a playback time (`find`) and the
  text edit of the captions with a given id (`map`).
- `Wav` holds `audioBufferToWav` as imperative code over a byte array:
  the 44-byte RIFF header, then the channel-interleaved samples. The
  resulting bytes are proved equal to a functional description of the
  file. That description is in turn proved to read back each header
  field and every quantised sample at its offset.
- `Pipeline` holds the size gate and its `toFixed(1)` message, the
  export file name, `extractAudio`'s decision, and the component's
  state as a `Session` class. The class covers `processFile`,
  `validateAndProcess`, caption editing, Discard, the current caption and
  the download. A ghost trace records every status the session passes
  through and is proved to follow the allowed status changes.

Times are whole milliseconds: `startMs` is the source's `startSeconds`
times 1000. The playback position is a real number of seconds. The
transcription reply and the outcome of audio decoding are parameters.

Three behaviours of the component are worth noting:

- `processFile` clears the captions before it starts. So a failed run
  leaves an empty caption list, not the previous one.
- Discard only returns to the upload screen and drops the preview. The
  caption list is kept.
- A file refused by the size gate only sets the error status and
  message. The caption list, file name and preview are left as they
  were.

## Model

| member | source | states |
|---|---|---|
| Text.Trim | captioncut/components/UploadBox.tsx:120 | `trim` keeps a slice of the input that has whitespace only before and after it, and the slice is empty or starts and ends with a visible character; `TrimFramed` shows which slice |
| Text.TrimStart | captioncut/components/UploadBox.tsx:120 | the result is no longer than the input, does not start with whitespace, and everything removed from the front is whitespace |
| Text.TrimStartSuffix | captioncut/components/UploadBox.tsx:120 | what the leading trim keeps is exactly a suffix of the input |
| Text.TrimEnd | captioncut/components/UploadBox.tsx:120 | the result is a prefix of the input, does not end with whitespace, and everything removed from the end is whitespace |
| Text.TrimEndAppend | captioncut/components/UploadBox.tsx:120 | trailing whitespace after a non-whitespace last character is exactly what the end trim removes |
| Text.TrimStartNoop | captioncut/components/UploadBox.tsx:120 | a string starting with a non-whitespace character loses nothing at the front |
| Text.TrimFramed | captioncut/components/UploadBox.tsx:120 | `trim` of a string framed by visible characters followed by whitespace is that string |
| Text.TrimStartSkips | captioncut/components/UploadBox.tsx:123 | leading whitespace before a visible character is skipped as `parseInt` does |
| Text.Split | captioncut/components/UploadBox.tsx:122 | `split('\n')` gives at least one piece and no piece contains a line feed |
| Text.JoinSplit | captioncut/components/UploadBox.tsx:122 | joining the pieces of a split with the separator gives the string back |
| Text.SplitCons | captioncut/components/UploadBox.tsx:122 | a separator-free prefix followed by the separator splits off as the first piece |
| Text.SplitNone | captioncut/components/UploadBox.tsx:122 | a string without the separator is one piece |
| Text.DigitChar | captioncut/components/UploadBox.tsx:241 | the digit character of d is a decimal digit whose value is d |
| Text.NatToString | captioncut/components/UploadBox.tsx:241 | the rendering of a natural number is a nonempty digit string with no leading zero whose decimal value is the number |
| Text.IntToString | captioncut/components/UploadBox.tsx:241 | the rendering of an id is nonempty, starts with a visible character and has no line feed |
| Text.ParseInt | captioncut/components/UploadBox.tsx:123 | `parseInt` of blank text is `NaN` (`None`), and a negative value comes only from a `-` after the whitespace; `ParseIntOfIntToString` shows it reads back every rendered id |
| Text.DigitPrefix | captioncut/components/UploadBox.tsx:123 | `parseInt` reads the longest prefix of digits of the radix; the character after it is not a digit |
| Text.DigitPrefixStops | captioncut/components/UploadBox.tsx:123 | a digit run followed by a non-digit is read exactly up to the non-digit |
| Text.MagnitudeOfNatToString | captioncut/components/UploadBox.tsx:123 | the digits of any natural number, before non-digit text, are read back as that number, except that `0` followed by `x` or `X` would start a hex prefix |
| Text.SignedOfIntToString | captioncut/components/UploadBox.tsx:123 | the rendering of any integer, sign included, is read back as that integer |
| Text.NegativeNumeral | captioncut/components/UploadBox.tsx:123 | a minus sign and digits are read back as the negative number |
| Text.SignedAfterMinus | captioncut/components/UploadBox.tsx:123 | a leading `-` negates the magnitude that follows it |
| Text.SignedUnsigned | captioncut/components/UploadBox.tsx:123 | without a sign, the value is the magnitude |
| Text.ParseIntOfIntToString | captioncut/components/UploadBox.tsx:123 | `parseInt(ws + String(n) + junk)` is n for any integer n, leading whitespace and trailing non-digit text |
| Srt.SrtTimeToMillis | captioncut/components/UploadBox.tsx:44-53 | the whole seconds are hours * 3600 + minutes * 60 + seconds, and the rest is the millisecond field read as a decimal number, as `parseInt(ms) / 1000` adds it |
| Srt.TimestampRoundTrip | captioncut/components/UploadBox.tsx:44-53 | a canonical `HH:MM:SS,mmm` rendering of a time under 100 hours is a timestamp, and `srtTimeToSeconds` reads back the time it was written from |
| Srt.Pad2Value | captioncut/components/UploadBox.tsx:44-53 | a two-digit field reads back as its value |
| Srt.NoRangeCheck | captioncut/components/UploadBox.tsx:44-53 | minutes and seconds are not range-checked: `00:00:75,000` and `00:01:15,000` both denote 75 s |
| Srt.FindTimePair | captioncut/components/UploadBox.tsx:127 | the timestamp-pair pattern matches at the result and at no earlier position; no result means it matches nowhere |
| Srt.SeparatorAt | captioncut/components/UploadBox.tsx:120 | the match of `\n\s*\n` at the start of a text, if any, is a separator, and it is the longest one |
| Srt.SeparatorScan | captioncut/components/UploadBox.tsx:120 | the backtracking of greedy `\s*` ends at the last line feed of the whitespace run, which gives the longest separator |
| Srt.SplitBlocks | captioncut/components/UploadBox.tsx:120 | `split(/\n\s*\n/)` gives at least one block, and at most one more than the characters; `SplitCharacterised` pins the blocks down exactly |
| Srt.SplitBlocksFrom | captioncut/components/UploadBox.tsx:120 | the split yields at least one block and no more blocks than characters plus one; what the blocks are is stated by `SplitBlocksSpec` and `SplitCharacterised` |
| Srt.SplitBlocksSpec | captioncut/components/UploadBox.tsx:120 | `split(/\n\s*\n/)` gives blocks with no match of the pattern inside them. Glued back with the separators matched between them, in order, they rebuild the input. Each separator is the leftmost match after its block, since no match starts inside the block given the text that follows it, and the longest match where it starts |
| Srt.SplitRebuild | captioncut/components/UploadBox.tsx:120 | there is one separator fewer than blocks, and blocks and separators, interleaved, give back the text read so far followed by the rest |
| Srt.SplitLongest | captioncut/components/UploadBox.tsx:120 | every separator consumed is the longest match at its position, given the text that follows it |
| Srt.SplitClean | captioncut/components/UploadBox.tsx:120 | when no match starts inside the piece already read, no block contains a match; for the last block, after which no text follows, this is the leftmost condition |
| Srt.SplitLeftmost | captioncut/components/UploadBox.tsx:120 | no match of the pattern starts inside any block, given the separator and the text after it: the split cuts at the leftmost match |
| Srt.SplitCharacterised | captioncut/components/UploadBox.tsx:120 | a list of blocks and separators meets the conditions of `SplitBlocksSpec` (rebuilds the input, leftmost and longest separators, last block free of matches) exactly when it is the split: the two conditions determine it |
| Srt.SplitDetermined | captioncut/components/UploadBox.tsx:120 | any decomposition that cuts at the leftmost, longest matches is what the left-to-right scan produces |
| Srt.SplitPast | captioncut/components/UploadBox.tsx:120 | text in which no match starts, given what follows it, is copied into the current block and consumes no separator |
| Srt.SplitPastText | captioncut/components/UploadBox.tsx:120 | text without a blank line is copied into the current block |
| Srt.SplitAtBlankLine | captioncut/components/UploadBox.tsx:120 | two or three line feeds before a visible character close the current block |
| Srt.ParseBlock | captioncut/components/UploadBox.tsx:121-130 | every caption built from a block has well-formed times whose millisecond values agree with the strings |
| Srt.ParseBlockSpec | captioncut/components/UploadBox.tsx:122-130 | a block gives a caption exactly when line 0 starts with an integer and line 1 holds a timestamp pair. The caption then has that id, the leftmost pair verbatim with its values, and lines 2 onward joined by spaces, all on one line |
| Srt.JoinKeepsOut | captioncut/components/UploadBox.tsx:128 | joining line-feed-free lines with spaces gives text without a line feed |
| Srt.ParseBlocks | captioncut/components/UploadBox.tsx:121-131 | the filter keeps at most one caption per block, and every kept caption is well-formed and on one line |
| Srt.ParseBlocksMembers | captioncut/components/UploadBox.tsx:121-131 | a caption is in the result exactly when some block parses to it |
| Srt.ParseBlocksAppend | captioncut/components/UploadBox.tsx:121-131 | a dropped block does not affect the others: parsing distributes over concatenation of block lists |
| Srt.ParseEach | captioncut/components/UploadBox.tsx:121-131 | blocks that each parse give exactly their captions, in order |
| Srt.ParseSrt | captioncut/components/UploadBox.tsx:119-132 | `parseSRT` gives at most one caption per block of the trimmed text, each well-formed and on one line |
| Srt.ParseEmpty | captioncut/components/UploadBox.tsx:119-132 | an empty reply gives no captions |
| Srt.CueShape | captioncut/components/UploadBox.tsx:241 | an exported cue is its block followed by its trailing line feeds |
| Srt.TimeLineShape | captioncut/components/UploadBox.tsx:241 | the timing line of a well-formed caption is 29 characters on one line, matches the timestamp pattern at 0 and holds the two times verbatim |
| Srt.PairShape | captioncut/components/UploadBox.tsx:241 | two timestamps around ` --> ` form a one-line match of the pattern at its start |
| Srt.CoreShape | captioncut/components/UploadBox.tsx:241 | the block of an exportable cue starts and ends with visible characters and contains no blank line |
| Srt.CoreSplit | captioncut/components/UploadBox.tsx:241 | the block of an exportable cue splits into its id, timing line and (when nonempty) text |
| Srt.ParseCore | captioncut/components/UploadBox.tsx:122-130 | parsing the block of an exportable cue gives the cue back |
| Srt.ParseBlockFound | captioncut/components/UploadBox.tsx:122-130 | when line 0 reads as an integer and line 1 holds a pair, the block gives a caption that is what the block says, on one line |
| Srt.ParseBlockOf | captioncut/components/UploadBox.tsx:122-130 | a block whose lines are an id, a timing line starting with the pair, and the text lines parses to the caption built from them |
| Srt.BodyEnds | captioncut/components/UploadBox.tsx:241 | an export before its final whitespace starts and ends with visible characters |
| Srt.Serialize | captioncut/components/UploadBox.tsx:241 | the export is empty exactly when there are no captions; `RoundTrip` shows it parses back to the captions when every caption is exportable |
| Srt.SerializeCons | captioncut/components/UploadBox.tsx:241 | the export of two or more cues is the first cue, a line feed, and the export of the rest |
| Srt.SerializeShape | captioncut/components/UploadBox.tsx:241 | an export is its body (the blocks separated by blank lines) followed by the last cue's trailing line feeds |
| Srt.Cores | captioncut/components/UploadBox.tsx:241 | the parser-side view of an export has one block per cue, the i-th being the block of cue i |
| Srt.SplitBody | captioncut/components/UploadBox.tsx:120 | the blank-line split of an export body gives exactly one block per cue |
| Srt.ParseCores | captioncut/components/UploadBox.tsx:121-131 | the blocks of exportable cues parse back to the cues |
| Srt.TrimSerialize | captioncut/components/UploadBox.tsx:120 | trimming an export leaves its body |
| Srt.RoundTrip | captioncut/components/UploadBox.tsx:119-132 | export then re-import is the identity on lists of exportable captions: ids, time strings, millisecond values and texts all come back, in order |
| Timeline.ActiveCaption | captioncut/components/UploadBox.tsx:76-78 | `find` gives nothing exactly when no caption covers the time, and otherwise the first caption in list order that covers it |
| Timeline.ActiveAppend | captioncut/components/UploadBox.tsx:76-78 | the search stops at the first covering caption: anything after a covering prefix is never looked at |
| Timeline.SharedBoundary | captioncut/components/UploadBox.tsx:76-78 | at a boundary two captions share, both cover the instant and the earlier one in the list is shown |
| Timeline.BoundaryExample | captioncut/components/UploadBox.tsx:76-78 | cues at 0-2 s and 2-4 s: at 2.0 s the first is shown |
| Timeline.EditOne | captioncut/components/UploadBox.tsx:462 | one caption after the edit: id and times are kept, and the text becomes the new one exactly when the id matches |
| Timeline.EditText | captioncut/components/UploadBox.tsx:462 | the edit keeps the length; every caption with the id gets the new text and every other caption is unchanged |
| Timeline.EditKeepsTiming | captioncut/components/UploadBox.tsx:462 | an edit keeps every id and time, so well-formed times stay well-formed |
| Timeline.EditLastWins | captioncut/components/UploadBox.tsx:462 | editing the same id twice is the same as the last edit alone |
| Timeline.EditCommute | captioncut/components/UploadBox.tsx:462 | edits of two different ids commute |
| Timeline.ActiveAfterEdit | captioncut/components/UploadBox.tsx:76-78 | after an edit, the caption shown at any time is the edited version of the one shown before |
| Wav.U16RoundTrip | captioncut/components/UploadBox.tsx:193 | `setUint16(v, true)` bytes read back little-endian as v modulo 2^16 |
| Wav.U32RoundTrip | captioncut/components/UploadBox.tsx:194 | `setUint32(v, true)` bytes read back little-endian as v modulo 2^32 |
| Wav.I16RoundTrip | captioncut/components/UploadBox.tsx:205 | a 16-bit sample in range reads back, signed, as itself |
| Wav.ReadU16Within | captioncut/components/UploadBox.tsx:193 | a 16-bit field read inside the file only depends on its own bytes |
| Wav.ReadI16Within | captioncut/components/UploadBox.tsx:205 | a signed 16-bit field read inside the file is the value written there |
| Wav.ReadU32Within | captioncut/components/UploadBox.tsx:194 | a 32-bit field read inside the file only depends on its own bytes |
| Wav.ReadI16After | captioncut/components/UploadBox.tsx:205 | a sample field of the data part reads back from the whole file at the header's length plus its offset |
| Wav.EncodingPrefix | captioncut/components/UploadBox.tsx:193-194 | writing one more field appends exactly its bytes |
| Wav.TruncBounds | captioncut/components/UploadBox.tsx:204 | `\| 0` truncates toward zero: it moves a value toward zero by less than one |
| Wav.TruncMonotone | captioncut/components/UploadBox.tsx:204 | truncation keeps the order of its arguments |
| Wav.Clamp | captioncut/components/UploadBox.tsx:203 | the clamp lies in [-1, 1], is the identity inside, and gives -1 below and 1 above |
| Wav.Quantize | captioncut/components/UploadBox.tsx:203-204 | every sample becomes a 16-bit value in [-0x8000, 0x7fff] of the same sign. Its value is the clamped sample times 0x8000 when negative, or times 0x7fff otherwise, truncated toward zero: within one below the scaled value for non-negative samples, within one above it for negative ones |
| Wav.QuantizeExtremes | captioncut/components/UploadBox.tsx:203-204 | full scale: anything at or above 1 gives 0x7fff, at or below -1 gives -0x8000, and 0 gives 0 |
| Wav.QuantizeMonotone | captioncut/components/UploadBox.tsx:203-204 | quantisation never reverses the order of two samples |
| Wav.WavHeader | captioncut/components/UploadBox.tsx:195-199 | the header is 44 bytes |
| Wav.HeaderBytes | captioncut/components/UploadBox.tsx:195-199 | the header is the thirteen fields written in order: tags, RIFF size, PCM format, channels, rates, alignment, depth, data size |
| Wav.HeaderFields | captioncut/components/UploadBox.tsx:195-199 | every header field reads back. The RIFF size is length - 8, the format 1 and the byte rate sampleRate * 2 * channels. The block align is channels * 2, the depth 16 and the data size length - 44, each modulo its width |
| Wav.RiffFields | captioncut/components/UploadBox.tsx:195 | the RIFF tag, size and WAVE tag read back |
| Wav.FormatFields | captioncut/components/UploadBox.tsx:196-198 | the `fmt ` chunk fields read back |
| Wav.FormatTagFields | captioncut/components/UploadBox.tsx:196 | the `fmt ` tag, chunk size 16, format 1 and channel count read back |
| Wav.RateFields | captioncut/components/UploadBox.tsx:197-198 | the sample rate, byte rate, block align and bit depth read back |
| Wav.DataFields | captioncut/components/UploadBox.tsx:199 | the `data` tag and the data size read back |
| Wav.HeaderTags | captioncut/components/UploadBox.tsx:195-199 | the chunk tags spell `RIFF`, `WAVE`, `fmt ` and `data` in ASCII |
| Wav.TagBytes | captioncut/components/UploadBox.tsx:195-199 | the four tag constants, little-endian, are those ASCII bytes |
| Wav.FrameBytes | captioncut/components/UploadBox.tsx:202-207 | a frame holds two bytes per channel |
| Wav.InterleavedLength | captioncut/components/UploadBox.tsx:201-209 | the sample data of k frames holds 2 * channels * k bytes |
| Wav.WavSize | captioncut/components/UploadBox.tsx:190 | the file is exactly the allocated `length * channels * 2 + 44` bytes |
| Wav.FrameSample | captioncut/components/UploadBox.tsx:202-207 | within a frame, channel c's sample is at byte 2c |
| Wav.LastFrameSample | captioncut/components/UploadBox.tsx:201-209 | the samples of the last frame written come after all earlier frames |
| Wav.InterleavedSample | captioncut/components/UploadBox.tsx:201-209 | frame f, channel c is at byte 2 * (f * channels + c) of the sample data |
| Wav.WavSample | captioncut/components/UploadBox.tsx:189-211 | every sample of the buffer reads back from the file, quantised, at 44 + 2 * (f * channels + c) |
| Wav.EarlierFrame | captioncut/components/UploadBox.tsx:201-209 | a sample of an earlier frame lies before the last frame |
| Wav.FrameFits | captioncut/components/UploadBox.tsx:201 | while `pos < length` a whole further frame fits, and there is at least one channel |
| Wav.AllFrames | captioncut/components/UploadBox.tsx:201 | when `pos` reaches `length` every frame has been written |
| Wav.NoChannels | captioncut/components/UploadBox.tsx:201 | with no channels there is no sample data |
| Wav.NextFrame | captioncut/components/UploadBox.tsx:208 | completing frame `offset` extends the data by that frame |
| Wav.PutU32 | captioncut/components/UploadBox.tsx:194 | `setUint32` writes the four little-endian bytes at `pos`, keeps every byte before and after them, and advances by 4 |
| Wav.PutU16 | captioncut/components/UploadBox.tsx:193 | `setUint16` writes the two little-endian bytes at `pos`, keeps every byte before and after them, and advances by 2 |
| Wav.WriteHeader | captioncut/components/UploadBox.tsx:195-199 | the header writes leave the 44-byte header at the start of the view, with `pos` at 44, and every byte after it unchanged |
| Wav.WriteFrame | captioncut/components/UploadBox.tsx:202-207 | the channel loop appends the quantised samples of one frame, channel by channel, keeping the bytes before and after them |
| Wav.WriteSamples | captioncut/components/UploadBox.tsx:201-209 | the sample loop fills the rest of the view with the interleaved samples, frame by frame, and stops exactly when it is full |
| Wav.AudioBufferToWav | captioncut/components/UploadBox.tsx:189-211 | the blob is `audio/wav` and holds the header followed by the interleaved samples |
| Pipeline.TooLarge | captioncut/components/UploadBox.tsx:96 | a file is refused exactly when it has more than 52 428 800 bytes (50 MiB). `SizeGateBoundary` pins the strict boundary, and `Session.ValidateAndProcess` states what a refused file does to the session |
| Pipeline.SizeGateBoundary | captioncut/components/UploadBox.tsx:96 | the gate is strict: exactly 50 MiB passes, one byte more is refused |
| Pipeline.Tenths | captioncut/components/UploadBox.tsx:99 | the count of tenths is the size in MiB rounded to the nearest tenth, halves up |
| Pipeline.TenthsUnique | captioncut/components/UploadBox.tsx:99 | the nearest tenth is unique |
| Pipeline.FormatMegabytes | captioncut/components/UploadBox.tsx:99 | the size in the "File is too large" message is written with a point second to last and no other point; `FormatMegabytesValue` shows the digits read back as the nearest tenth |
| Pipeline.FormatMegabytesValue | captioncut/components/UploadBox.tsx:99 | the `toFixed(1)` text is digits, a point and one digit, and reads back as the tenths |
| Pipeline.FormatExample | captioncut/components/UploadBox.tsx:99 | 60 MiB is written `60.0`, and 52 480 000 bytes is written `50.0` |
| Pipeline.ExtSuffixUnique | captioncut/components/UploadBox.tsx:246 | `/\.[^/.]+$/` can match at one position at most |
| Pipeline.ExtScan | captioncut/components/UploadBox.tsx:246 | the backward scan finds the match if there is one before its start, and reports none only when there is none |
| Pipeline.ExtStart | captioncut/components/UploadBox.tsx:246 | the match position, if the pattern matches at all |
| Pipeline.ExportName | captioncut/components/UploadBox.tsx:246 | the download name is the upload name cut at the start of the match, or kept whole when there is none, followed by `_CaptionCut.srt` |
| Pipeline.ExportNameOfStem | captioncut/components/UploadBox.tsx:246 | `stem.ext` with an extension free of `.` and `/` becomes `stem_CaptionCut.srt` |
| Pipeline.ExportNameNoDot | captioncut/components/UploadBox.tsx:246 | a name without a dot is kept whole |
| Pipeline.ExportNameSlashAfterDot | captioncut/components/UploadBox.tsx:246 | a dot followed later by a `/` is not an extension: the name is kept whole |
| Pipeline.ExportNameTrailingDot | captioncut/components/UploadBox.tsx:246 | a name ending in a dot is kept whole |
| Pipeline.ExportNameDottedDirectory | captioncut/components/UploadBox.tsx:246 | `v1.0/raw` becomes `v1.0/raw_CaptionCut.srt` |
| Pipeline.ExtractAudio | captioncut/components/UploadBox.tsx:175-187 | a decoded buffer gives its WAV encoding; an undecodable `audio/` file is passed through unchanged; anything else fails with the extraction message |
| Pipeline.CompletedFollowsPipeline | captioncut/components/UploadBox.tsx:148-164 | in every run the session can make, a result is shown only right after transcription, which comes right after extraction |
| Pipeline.ValidTraceExtend | captioncut/components/UploadBox.tsx:134-173 | a valid trace followed by a chained run that starts with a permitted step is valid |
| Pipeline.ErrorText | captioncut/components/UploadBox.tsx:171 | the error message is the thrown message when it has one, and `Interrupted. Please check your connection and try again.` when it is empty |
| Pipeline.ProcessRun | captioncut/components/UploadBox.tsx:134-173 | a run ends completed exactly when audio was obtained and the transcription came back. It then holds the parsed reply and passes through extracting, transcribing and completed. A failed extraction ends with the extraction message after extracting alone. A failed transcription ends with the thrown message, or the default one, after extracting and transcribing. A failure leaves no captions |
| Pipeline.Session.constructor | captioncut/components/UploadBox.tsx:59-69 | the session starts idle, with no captions, file name, message, preview or current file |
| Pipeline.Session.ProcessFile | captioncut/components/UploadBox.tsx:134-173 | records the file name and preview kind and sets status, message and captions to the run's ending. The trace grows by the run's statuses, and the session invariant is kept |
| Pipeline.Session.ValidateAndProcess | captioncut/components/UploadBox.tsx:95-110 | an oversized file only moves to the error status with the size message. Without a signed-in user nothing changes. Otherwise the file becomes current and is processed |
| Pipeline.Session.EditCaption | captioncut/components/UploadBox.tsx:462 | the captions become the edited list and nothing else changes |
| Pipeline.Session.Discard | captioncut/components/UploadBox.tsx:415 | from the result screen: back to idle without a preview, captions, name and message kept |
| Pipeline.Session.CurrentCaption | captioncut/components/UploadBox.tsx:76-78 | the highlighted caption is the first caption in list order that covers the time; there is none exactly when no caption covers it |
| Pipeline.Session.Export | captioncut/components/UploadBox.tsx:239-246 | the download has the export name and the SubRip text, which parses back to the caption list whenever every caption is exportable |

## Left out

- `transcribeAudio` calls a remote model over the network. Its reply, or the message it threw, is a parameter of `ProcessFile`. An empty `response.text` reaches the model as an empty reply.
- Decoding with `AudioContext.decodeAudioData` is a browser call. Its outcome is a parameter: either the decoded buffer or nothing. Reading the file (`file.arrayBuffer()`), creating the `AudioContext` and closing it in the `finally` are assumed to succeed. In the source, any of them throwing would end the run in `error` with that call's own message.
- Object URLs (`createObjectURL`/`revokeObjectURL`) are modelled only as whether a video preview is held. Seeking and playing on click, scrolling the active caption into view, sounds, drag state, progress percentages and messages, the style choice, and all rendering are left out.
- `incrementUsage` and `login` belong to the authentication context, which is not part of this model. Being signed in is a parameter.
- `Pipeline.Session.ProcessFile`: the statuses `extracting` and `transcribing` that the source shows between awaits are recorded in the ghost trace. The fields themselves are assigned once, at the end of the run, because awaits and the re-renders between them are not modelled.
- `Srt.SrtTimeToMillis`: times are exact whole milliseconds. The source's floating-point seconds are these values over 1000 and are not modelled. Neither is the rounding of `parseInt(ms) / 1000`.
- `Timeline.ActiveCaption`: the playback position is an exact real number. `NaN` and floating-point comparison are not modelled.
- `Wav.Quantize`: samples are exact reals. `NaN` and infinities in channel data, and the float rounding of the scaling, are not modelled.
- `Wav.AudioBufferToWav`: the 32-bit wrap-around of `setUint32` and `setUint16` is modelled. Buffers so large that `length` exceeds an ArrayBuffer's limit are not.
- `Wav.WavHeader`: the sample rate is taken to be a whole number of hertz. In the source `buffer.sampleRate` is a float. `setUint32` truncates it, and truncates the byte rate `sampleRate * 2 * numOfChan` computed from it.
- `Text.ParseInt`: the value is the exact integer. The source's `parseInt` returns a double, so a numeral above 2^53 is rounded to the nearest double (`9007199254740993` gives 9007199254740992). The model keeps ids of any size exact.
- `Text.IntToString`: ids are integers. The source's Number can hold non-integral or very large ids, whose `toString` uses exponent or fraction notation.
- `Pipeline.FormatMegabytes`: `size / 2^20` is exact in binary and `toFixed(1)` is exact on it, so the model's rational arithmetic agrees with the source. `toFixed` on values of 10^21 or more, where it switches to exponent notation, is not modelled.
- Line endings are `\n` only: a reply with `\r\n` is parsed as the source would parse it, with `\r` kept inside the lines. No property is claimed about it.
- Strings are sequences of code points, not UTF-16 code units.
