# Japanese subtitle writer — a Dafny model

`transcribe/transcribe_japanese.py` turns an audio or video file into an SRT
subtitle file, and optionally into a plain-text transcript. It cleans the
audio with ffmpeg, runs Whisper on it, and post-processes the recognised
segments. This project models the deterministic part of that program and
proves properties of it. That part has three pieces:

- `format_timestamp` renders seconds as `HH:MM:SS,mmm`. It is modelled in
  module `Timestamp` over exact reals, on top of `Decimal` (Python's
  `f"{n:0w}"` and its inverse).
- The loop of `transcribe_to_srt` is modelled in two modules:
  - `Segments` holds the filter. It strips each text and drops a segment
    that is shorter than `min_duration` or repeats the last written text.
    It numbers the survivors from 1. This is the pure function
    `PostProcess`.
  - `Srt` holds the two writers and the loop as the program writes it
    (`WriteSubtitles`, one segment at a time in `WriteSegment`). It proves
    that the loop writes exactly `RenderSrt(PostProcess(segs))` and
    `RenderTxt(PostProcess(segs))`, and that the files read back line by
    line as four lines per subtitle.
- The `--mode` table of `main` and the temperature that `transcribe_to_srt`
  derives from `beam_size` are in module `Modes`.

`Strings` models Python's `str.strip()`, using the code points for which
`str.isspace()` holds, including the ideographic space U+3000. It also
models `str.split(sep)`. `Wrappers` holds `Option` and `Result`.

Three behaviours of the code worth knowing:

- A segment with `end == start` is dropped, not stretched to half a second.
  Line 80 discards everything shorter than 0.5 s, so the clamp of lines
  82-83 can never fire (`Segments.ClampNeverFires`,
  `Segments.DegenerateDropped`).
- The millisecond field is rounded on its own and nothing carries into the
  seconds. A fractional part of at least 0.9995 shows `,1000`: for example,
  0.9996 s is written `00:00:00,1000`, which is 13 characters, one more
  than the three-digit `,mmm` field of an SRT timestamp.
- 59.999 s is written `00:00:59,999`, not `00:01:00,000`.

## Model

| member | source | states |
|---|---|---|
| Strings.Strip | transcribe/transcribe_japanese.py:78 | `text.strip()` leaves no whitespace at either end and is never longer than its input |
| Strings.StripInfix | transcribe/transcribe_japanese.py:78 | the stripped text is a contiguous part of the input with only whitespace before and after it |
| Strings.StripUnique | transcribe/transcribe_japanese.py:78 | any whitespace-surrounded part of the input that has no whitespace at its ends is the stripped text, so strip is fully characterised |
| Strings.StripIdempotent | transcribe/transcribe_japanese.py:78 | stripping a stripped text changes nothing |
| Strings.StripAllSpace | transcribe/transcribe_japanese.py:78 | a text of whitespace only strips to the empty string |
| Decimal.NatToStringDigits | transcribe/transcribe_japanese.py:85 | `f"{segment_index}"` is all digits, has no leading zero unless the number is 0, and denotes the number |
| Decimal.NatToString | transcribe/transcribe_japanese.py:85 | `f"{segment_index}"` is never empty; `Decimal.NatToStringDigits` fixes it as the digits of the number without a leading zero |
| Decimal.FormatInt | transcribe/transcribe_japanese.py:36 | a zero-padded field takes at least its width |
| Decimal.FormatIntDigits | transcribe/transcribe_japanese.py:36 | a padded field is the digits of the number, after a minus sign when it is negative |
| Decimal.FormatIntRoundTrip | transcribe/transcribe_japanese.py:36 | reading a padded field back gives the same integer, for every width and sign |
| Decimal.FormatIntWidth | transcribe/transcribe_japanese.py:36 | a number whose digits fit the width is padded to exactly that width |
| Decimal.FormatIntUnpadded | transcribe/transcribe_japanese.py:36 | a number whose digits fill the width is written without padding |
| Decimal.FormatIntChars | transcribe/transcribe_japanese.py:36 | a padded field holds nothing but digits and a possible minus sign |
| Timestamp.FloorDiv | transcribe/transcribe_japanese.py:32-33 | `x // d` is the integer q with q <= x/d < q + 1 |
| Timestamp.Mod | transcribe/transcribe_japanese.py:33-34 | `x % d` lies in [0, d) and differs from x by a multiple of d |
| Timestamp.Trunc | transcribe/transcribe_japanese.py:34-35 | `int(x)` rounds toward zero: within one of x, on the side of zero |
| Timestamp.RoundHalfEven | transcribe/transcribe_japanese.py:35 | `round` is within 0.5 of its argument and picks the even neighbour on a tie |
| Timestamp.RoundIsNearest | transcribe/transcribe_japanese.py:35 | no integer is closer to the argument than its rounding |
| Timestamp.Hours | transcribe/transcribe_japanese.py:32 | the hour field is non-negative for non-negative input |
| Timestamp.Minutes | transcribe/transcribe_japanese.py:33 | the minute field lies in 0..59 for every input |
| Timestamp.Seconds | transcribe/transcribe_japanese.py:34 | the second field lies in 0..59 for every input |
| Timestamp.Millis | transcribe/transcribe_japanese.py:35 | the millisecond field lies in -1000..1000, and in 0..1000 for non-negative input |
| Timestamp.FieldsOf | transcribe/transcribe_japanese.py:32-35 | minutes and seconds lie in 0..59 and ms in -1000..1000; for non-negative input the hour and ms are non-negative. `Timestamp.WholeSecondsDecompose` and `Timestamp.MillisOverflow` fix the values |
| Timestamp.Render | transcribe/transcribe_japanese.py:36 | a rendered timestamp has at least 12 characters; `Timestamp.ParseBack` shows it keeps all four fields and `Timestamp.RenderWidth` gives the exact widths |
| Timestamp.FormatTimestamp | transcribe/transcribe_japanese.py:31-36 | `format_timestamp` gives at least 12 characters; `Timestamp.FormatTimestampRoundTrip`, `Timestamp.TimestampWidth` and `Timestamp.HalfMillisecondAccurate` show what the text means |
| Timestamp.WholeSecondsDecompose | transcribe/transcribe_japanese.py:32-34 | 3600 h + 60 m + s is the floor of the input, negative inputs included |
| Timestamp.HalfMillisecondAccurate | transcribe/transcribe_japanese.py:31-36 | for non-negative input, the time the four fields denote is within half a millisecond of the input |
| Timestamp.WholeInputZeroMillis | transcribe/transcribe_japanese.py:35 | a whole number of seconds shows 0 ms |
| Timestamp.MillisOverflow | transcribe/transcribe_japanese.py:35 | for non-negative input ms lies in 0..1000, and is 1000 exactly when the fractional part is at least 0.9995 |
| Timestamp.FormatTimestampRoundTrip | transcribe/transcribe_japanese.py:31-36 | parsing the timestamp text gives back the four fields it was made from |
| Timestamp.ParseBack | transcribe/transcribe_japanese.py:36 | `H:M:S,ms` text splits at its separators back into the four numbers |
| Timestamp.TimestampChars | transcribe/transcribe_japanese.py:36 | a timestamp holds only digits, `-`, `:` and `,`, so never a line break |
| Timestamp.TimestampWidth | transcribe/transcribe_japanese.py:31-36 | below 100 hours a timestamp is 12 characters, or 13 when ms is 1000 |
| Timestamp.RenderWidth | transcribe/transcribe_japanese.py:36 | fields in range render with widths 2, 2, 2 and 3, or 4 for ms = 1000 |
| Timestamp.FieldsOneHourOneMinute | transcribe/transcribe_japanese.py:32-35 | 3661.5 s has the fields 1 h, 1 min, 1 s, 500 ms |
| Timestamp.FormatOneHourOneMinute | transcribe/transcribe_japanese.py:31-36 | 3661.5 s is written `01:01:01,500` |
| Timestamp.RenderOneHourOneMinute | transcribe/transcribe_japanese.py:36 | the fields (1, 1, 1, 500) render as `01:01:01,500` |
| Timestamp.FieldsJustUnderAMinute | transcribe/transcribe_japanese.py:32-35 | 59.999 s keeps 59 s and 999 ms; nothing rounds up into the minute |
| Timestamp.FormatJustUnderAMinute | transcribe/transcribe_japanese.py:31-36 | 59.999 s is written `00:00:59,999` |
| Timestamp.RenderJustUnderAMinute | transcribe/transcribe_japanese.py:36 | the fields (0, 0, 59, 999) render as `00:00:59,999` |
| Timestamp.FormatMillisOverflow | transcribe/transcribe_japanese.py:35-36 | 0.9996 s has ms = 1000 and 0 s; its text is 13 characters and reads back with ms = 1000 |
| Timestamp.FormatMillisOverflowText | transcribe/transcribe_japanese.py:31-36 | 0.9996 s is written `00:00:00,1000` |
| Timestamp.RenderMillisOverflow | transcribe/transcribe_japanese.py:36 | the fields (0, 0, 0, 1000) render as `00:00:00,1000` |
| Segments.ClampNeverFires | transcribe/transcribe_japanese.py:80-83 | a segment that passes line 80 ends after it starts, so the clamp leaves its end unchanged |
| Segments.LongEnough | transcribe/transcribe_japanese.py:80 | a segment is long enough exactly when it lasts at least half a second, and then it ends after it starts |
| Segments.Keeps | transcribe/transcribe_japanese.py:80 | a written segment ends after it starts, and a segment whose stripped text equals `last_text` is never written; `Segments.KeptIff` gives both directions |
| Segments.ClampEnd | transcribe/transcribe_japanese.py:82-83 | the clamped end always lies after the start, and an end already after the start is kept |
| Segments.Emit | transcribe/transcribe_japanese.py:76-87 | one segment yields a subtitle exactly when it is long enough and its stripped text differs from the last, carrying the current number, its own times and the stripped text |
| Segments.Advance | transcribe/transcribe_japanese.py:92-93 | the number moves on by one and `last_text` becomes the stripped text for each subtitle written; a skipped segment changes nothing |
| Segments.Run | transcribe/transcribe_japanese.py:75-93 | the loop writes at most one subtitle per segment |
| Segments.PostProcess | transcribe/transcribe_japanese.py:71-93 | subtitles are numbered 1, 2, … without gaps, each lasts at least 0.5 s, no two neighbours share a text, the first is not blank, and there are no more than segments |
| Segments.RunWellFormed | transcribe/transcribe_japanese.py:71-93 | from any loop state the written subtitles are numbered on from the state's counter, are long enough, and never repeat the previous text |
| Segments.AfterCounts | transcribe/transcribe_japanese.py:93 | after the loop the counter has moved on by the number of subtitles written and `last_text` is the last written text |
| Segments.After | transcribe/transcribe_japanese.py:93 | the counter never goes down and moves on by at most one per segment; `Segments.AfterCounts` gives the exact count |
| Segments.RunAppend | transcribe/transcribe_japanese.py:75-93 | processing two stretches of input one after the other equals processing them joined |
| Segments.RunStep | transcribe/transcribe_japanese.py:75-93 | across one iteration, what is written plus what the rest will write is still the whole output |
| Segments.PostProcessSnoc | transcribe/transcribe_japanese.py:75-93 | one more segment adds at most one subtitle, numbered one past the last, exactly when it is long enough and differs from the last text, and changes none of the earlier ones |
| Segments.PostProcessPrefix | transcribe/transcribe_japanese.py:75-93 | the subtitles of a prefix of the input are a prefix of the subtitles of the whole input |
| Segments.KeptIff | transcribe/transcribe_japanese.py:80-81 | segment i is written if and only if it is long enough and its stripped text differs from the last written text |
| Segments.EmptyTextDroppedFirst | transcribe/transcribe_japanese.py:73 | while nothing has been written, a blank segment is dropped because `last_text` starts as "" |
| Segments.DegenerateDropped | transcribe/transcribe_japanese.py:80-83 | a segment that does not end after it starts never yields a subtitle |
| Segments.NonAdjacentRepeatKept | transcribe/transcribe_japanese.py:92 | in A, B, A the second A is written: only the immediately preceding written text counts as a repeat |
| Segments.PostProcessSelects | transcribe/transcribe_japanese.py:75-87 | every subtitle comes from its own input segment, in input order, with the segment's times and its stripped text |
| Segments.SelectsFrom | transcribe/transcribe_japanese.py:75-87 | from any loop state the written subtitles come from increasing input positions with those segments' times and stripped texts |
| Srt.BlockIsFourLines | transcribe/transcribe_japanese.py:85-87 | the three writes for one subtitle are its number, range, text and a blank line, each ended by a line break |
| Srt.TimeRange | transcribe/transcribe_japanese.py:86 | the time-range line holds two timestamps around ` --> `, at least 29 characters; `Srt.CueOfSingleLine` shows it has no line break |
| Srt.Block | transcribe/transcribe_japanese.py:85-87 | no contract of its own; `Srt.BlockIsFourLines` shows one subtitle is its number, range, text and a blank line |
| Srt.RenderSrt | transcribe/transcribe_japanese.py:85-87 | no contract of its own; `Srt.SrtReadsBack` and `Srt.FileLayout` show the file splits back into four lines per subtitle, block k holding subtitle k |
| Srt.RenderTxt | transcribe/transcribe_japanese.py:89-90 | no contract of its own; `Srt.RenderTxtLines` and `Srt.TxtReadsBack` show the transcript is the texts, one per line |
| Srt.RenderCuesLines | transcribe/transcribe_japanese.py:85-87 | the subtitle file is its lines, four per subtitle, each ended by a line break |
| Srt.RenderTxtLines | transcribe/transcribe_japanese.py:89-90 | the transcript is the subtitle texts, one per line |
| Srt.CueOfSingleLine | transcribe/transcribe_japanese.py:85-86 | a subtitle's number and time range never contain a line break, so its block is single-line per field exactly when its text is |
| Srt.SrtReadsBack | transcribe/transcribe_japanese.py:85-87 | with single-line texts, splitting the file at line breaks gives four lines per subtitle and a final empty piece |
| Srt.TxtReadsBack | transcribe/transcribe_japanese.py:89-90 | with single-line texts, splitting the transcript at line breaks gives the texts in order and a final empty piece |
| Srt.FileLayout | transcribe/transcribe_japanese.py:85-87 | line 4k of the file is subtitle k's number, then its time range, its text and a blank line; the file has 4n + 1 pieces |
| Srt.SubtitleFileLayout | transcribe/transcribe_japanese.py:71-93 | block k of the written file is numbered k + 1 and holds the k-th kept segment's range and text |
| Srt.RenderSrtAppend | transcribe/transcribe_japanese.py:85-87 | the file of two runs of subtitles is the two files one after the other |
| Srt.RenderTxtAppend | transcribe/transcribe_japanese.py:89-90 | likewise for the transcript |
| Srt.RenderOne | transcribe/transcribe_japanese.py:85-90 | one subtitle's part of each file is its block and its text line |
| Srt.WriteSegment | transcribe/transcribe_japanese.py:76-93 | one loop iteration appends exactly the post-processor's subtitle for the segment to both files and advances the counter and `last_text` as the post-processor does |
| Srt.WriteSubtitles | transcribe/transcribe_japanese.py:67-103 | the loop writes exactly the rendering of the post-processed subtitles, writes the transcript only when asked, reports their count and the last segment's end, and fails exactly when there were no segments |
| Modes.ParseMode | transcribe/transcribe_japanese.py:112 | an accepted `--mode` string names its mode |
| Modes.ParseModeName | transcribe/transcribe_japanese.py:112 | each mode's name is accepted and read back as that mode |
| Modes.SearchFor | transcribe/transcribe_japanese.py:122-134 | never both a beam and a `best_of`, and at least one of them exactly for the three accepted names |
| Modes.Truthy | transcribe/transcribe_japanese.py:45 | `beam_size` is false exactly when it is `None` or 0 |
| Modes.Temperature | transcribe/transcribe_japanese.py:45-48 | temperature is 0.0 or 0.3, and 0.0 exactly when `beam_size` is truthy (set and non-zero) |
| Modes.DecodingFor | transcribe/transcribe_japanese.py:122-134 | every mode sets exactly one search option; temperature 0.0 goes with a beam and 0.3 with `best_of` |
| Modes.ModeTable | transcribe/transcribe_japanese.py:122-134 | fast is (no beam, best_of 3, 0.3), balanced is (beam 2, 0.0), accurate is (beam 5, 0.0), and the default is balanced |
| Modes.ModesOrderedByBeam | transcribe/transcribe_japanese.py:113 | fast uses no beam and balanced's beam is narrower than accurate's, as the help text says |
| Modes.UnknownModeFallsThrough | transcribe/transcribe_japanese.py:132-134 | a string outside the choices reaches the `else` branch: no beam, no `best_of`, temperature 0.3 |

## Left out

- The ffmpeg check and audio preprocessing (lines 8-29) are calls to an external binary with a fixed filter string. There is nothing to compute in them.
- Whisper model loading and inference (lines 38-65) are a third-party call. The segments it returns are the input of `WriteSubtitles`. The decoding settings are modelled (`Modes`), but handing them to the model is not.
- Opening, writing and closing files (lines 69-70, 95-96) are not modelled. Each file is the string of its writes, in order.
- The progress prints (lines 39, 50, 67, 98-101) are not modelled. Line 98's two numbers are returned as `Summary`. Their `.2f` text format is not modelled.
- Error exits: `sys.exit` and the `except` of lines 102-103 are modelled only for the empty segment list. There, line 98 raises `IndexError` after both files are written. Other failures are I/O.
- Argument parsing, path and file-name construction, and temporary-file cleanup (lines 105-121, 136-155) are process control. Only the `--mode` choices and default are modelled.
- IEEE-754 doubles: seconds are exact reals. The `//`, `%`, `int` and `round` of lines 32-35, the `-` and `* 1000` of line 35, and the `end - start < min_duration` of line 80 are applied to exact values. A double can round differently near a boundary. For example, with start = 2^-56 and end = 0.5 the exact difference is just under 0.5, so `Segments.Emit` drops the segment, while in doubles it rounds to 0.5 and Python keeps it.
- Python text semantics: characters are code points, with no normalisation. File encoding (UTF-8) is not modelled.
- Srt.SrtReadsBack: holds only when no subtitle text contains a line break. `strip()` removes only outer whitespace, so a text with an inner line break would spread over more lines.
- Srt.TxtReadsBack: the same single-line requirement as `Srt.SrtReadsBack`.
- Srt.FileLayout: the same single-line requirement as `Srt.SrtReadsBack`.
- Srt.SubtitleFileLayout: the same single-line requirement as `Srt.SrtReadsBack`.
- Timestamp.HalfMillisecondAccurate: stated only for non-negative input. Speech segments never start before 0.
- Timestamp.TimestampWidth: stated only below 100 hours. Above that the hour field takes more than two digits.
- Timestamp.Hours: bounded only from below. The hour field has no upper bound.
