# SRT conversion of timestamped transcript chunks

A Dafny model of the subtitle writer in insanely-fast-whisper: the module
`convert_object_to_srt.py` turns a list of transcript chunks (start offset,
end offset, text) into SubRip (SRT) text.

- `format_time` prints an offset as `HH:MM:SS,mmm`. It goes through
  `datetime.timedelta`, which normalises the offset into whole days,
  seconds in 0..86399 and microseconds in 0..999999. It then prints only the
  seconds and microseconds, so whole days are dropped. The hour stays in
  0..23, and a negative offset wraps round within one day. Milliseconds are
  truncated, not rounded.
- `convert_object_to_srt` numbers the chunks from 1 in input order. Each
  chunk becomes a block of three lines, each ending in a newline: the
  number, the two clocks around ` --> `, and the text stripped of
  surrounding whitespace (`str.strip()`). The blocks are joined by a
  single newline.

The model has four modules:

- `Decimal` (`decimal.dfy`): `str(n)` and `f"{n:0Wd}"` for non-negative
  integers, and the digit reader that inverts them.
- `Clock` (`clock.dfy`): the `timedelta` normalisation, the `divmod`
  fields, `format_time`, and a clock reader used to state round trips.
- `Whitespace` (`whitespace.dfy`): `str.isspace()` and `str.strip()`.
- `Srt` (`srt.dfy`): blocks, `"\n".join`, `convert_object_to_srt` (as a
  function and as the loop the source runs), and a block reader used to
  state what a block carries.

`Options` (`options.dfy`) holds the `Option` type.

An offset is modelled as the integer number of microseconds a `timedelta`
stores. The source receives seconds as a Python float, and `timedelta`
rounds that to the nearest microsecond. That float-to-integer step is
outside the model (see "Left out").

The module's docstring calls the timestamps seconds elapsed from the start
of the video (line 20), which suggests hours that run past 24. The code
keeps the hour in 0..23, because `timedelta.seconds` excludes whole days,
and the model follows the code (`DropsWholeDays`,
`FormatTimeTwentyFiveHours`). The milliseconds can never exceed 999,
because `timedelta.microseconds` is below 10^6. The source truncates a
float quotient of the microseconds by 1000 toward zero. For 0 <=
microseconds < 10^6 that equals the integer division the model uses,
since the quotient is never within rounding distance of the next integer.

## Model

| member | source | states |
|---|---|---|
| Clock.FromMicrosSpec | src/insanely_fast_whisper/utils/convert_object_to_srt.py:60 | `timedelta(microseconds=u)` keeps seconds in 0..86399 and microseconds in 0..999999, whatever the sign of `u`, and still totals `u` |
| Clock.NormalizedUnique | src/insanely_fast_whisper/utils/convert_object_to_srt.py:60 | two normalised `timedelta` values with the same total are equal, so the normalisation is the only one |
| Clock.FieldsSpec | src/insanely_fast_whisper/utils/convert_object_to_srt.py:60-63 | hours < 24, minutes < 60, seconds < 60, milliseconds < 1000, and h*3600000 + m*60000 + s*1000 + ms is the offset's millisecond of the day, `(u mod 86400000000) div 1000` |
| Clock.FieldsUnique | src/insanely_fast_whisper/utils/convert_object_to_srt.py:61-63 | in-range fields are determined by the millisecond count they stand for |
| Clock.FormatTimeShape | src/insanely_fast_whisper/utils/convert_object_to_srt.py:64 | the clock is always 12 characters: two digits, ':', two digits, ':', two digits, ',', three digits |
| Clock.ReadFormattedFields | src/insanely_fast_whisper/utils/convert_object_to_srt.py:61-64 | the four digit groups of the printed clock read back as the hours, minutes, seconds and milliseconds that were computed |
| Clock.ParseFormatRoundTrip | src/insanely_fast_whisper/utils/convert_object_to_srt.py:54-64 | reading the printed clock gives back the offset's millisecond of the day |
| Clock.FormatParseRoundTrip | src/insanely_fast_whisper/utils/convert_object_to_srt.py:54-64 | every accepted clock below 24 hours is printed, character for character, for its own millisecond count, so the printer hits every valid clock |
| Clock.FormatTimeEqIff | src/insanely_fast_whisper/utils/convert_object_to_srt.py:54-64 | two offsets print the same clock if and only if they fall on the same millisecond of the day |
| Clock.DropsWholeDays | src/insanely_fast_whisper/utils/convert_object_to_srt.py:60-61 | shifting an offset by any whole number of days, forward or back, does not change the clock |
| Clock.TruncatesMicros | src/insanely_fast_whisper/utils/convert_object_to_srt.py:63 | the microseconds below the millisecond never change the clock, so milliseconds are truncated |
| Clock.MillisOfDayAlt | src/insanely_fast_whisper/utils/convert_object_to_srt.py:60-63 | the millisecond of the day is the truncated millisecond count taken modulo one day |
| Clock.FormatTimeOf | src/insanely_fast_whisper/utils/convert_object_to_srt.py:61-64 | the clock is the zero-padded spelling of any in-range fields that stand for the offset's millisecond of the day |
| Clock.FormatsFiveAndAHalfSeconds | src/insanely_fast_whisper/utils/convert_object_to_srt.py:87 | any offset at 5.5 s into a day prints `00:00:05,500` |
| Clock.FormatsMixedFields | src/insanely_fast_whisper/utils/convert_object_to_srt.py:61-64 | 1 h 1 min 1.25 s into a day prints `01:01:01,250` |
| Clock.FormatTimeTwentyFiveHours | src/insanely_fast_whisper/utils/convert_object_to_srt.py:60-61 | 25 hours prints `01:00:00,000`: the day is dropped |
| Clock.FormatTimeNegative | src/insanely_fast_whisper/utils/convert_object_to_srt.py:60-61 | -1 ms prints `23:59:59,999`: a negative offset wraps round within the day |
| Decimal.NatToStringCanonical | src/insanely_fast_whisper/utils/convert_object_to_srt.py:49 | `str(n)` is digits only, has a leading '0' exactly when n is 0, and is one character exactly when n < 10 |
| Decimal.DecimalRoundTrip | src/insanely_fast_whisper/utils/convert_object_to_srt.py:49 | reading `str(n)` back gives n |
| Decimal.CanonicalRoundTrip | src/insanely_fast_whisper/utils/convert_object_to_srt.py:49 | every digit string without a superfluous leading zero is `str` of its value |
| Decimal.NatToStringInjective | src/insanely_fast_whisper/utils/convert_object_to_srt.py:49 | different numbers get different spellings, so block numbers are distinct |
| Decimal.ZeroPadSpec | src/insanely_fast_whisper/utils/convert_object_to_srt.py:64 | `:0Wd` never truncates: a long spelling is kept as is, a short one gets exactly W characters, all '0' before the spelling |
| Decimal.PaddedField | src/insanely_fast_whisper/utils/convert_object_to_srt.py:64 | a value below 10^W pads to exactly W digits that read back as the value |
| Decimal.PaddedDigits | src/insanely_fast_whisper/utils/convert_object_to_srt.py:64 | every W-digit string is the W-padded spelling of its own value |
| Whitespace.Strip | src/insanely_fast_whisper/utils/convert_object_to_srt.py:47 | `str.strip()` leaves no whitespace at either end, returns the piece of the text that starts after the leading whitespace with only whitespace after it, and is empty exactly when the text is all whitespace |
| Whitespace.StripUnique | src/insanely_fast_whisper/utils/convert_object_to_srt.py:47 | any trimmed piece of the text with only whitespace around it is the stripped text |
| Whitespace.StripTrimmed | src/insanely_fast_whisper/utils/convert_object_to_srt.py:47 | text with no whitespace at either end is left unchanged |
| Whitespace.StripIdempotent | src/insanely_fast_whisper/utils/convert_object_to_srt.py:47 | stripping twice is stripping once |
| Whitespace.StripExample | src/insanely_fast_whisper/utils/convert_object_to_srt.py:47 | `"  hello  "` strips to `"hello"` |
| Srt.Block | src/insanely_fast_whisper/utils/convert_object_to_srt.py:45-49 | a block is never empty and always ends with "\n" |
| Srt.BlockEnding | src/insanely_fast_whisper/utils/convert_object_to_srt.py:47-49 | a block ends with the stripped text and one "\n" |
| Srt.ParseBlockRoundTrip | src/insanely_fast_whisper/utils/convert_object_to_srt.py:45-49 | reading a block back gives its number, the millisecond of the day of both offsets, and the stripped text |
| Srt.NumberedAt | src/insanely_fast_whisper/utils/convert_object_to_srt.py:42-50 | entry i (from 0) is chunk i rendered with number i + 1 |
| Srt.NumberedSnoc | src/insanely_fast_whisper/utils/convert_object_to_srt.py:44-50 | appending a chunk appends its rendering, numbered one past the chunks before it |
| Srt.BlocksAt | src/insanely_fast_whisper/utils/convert_object_to_srt.py:42-50 | there is one block per chunk, and block i is chunk i's block numbered i + 1 |
| Srt.JoinLength | src/insanely_fast_whisper/utils/convert_object_to_srt.py:52 | the joined text is as long as its parts plus one separator between each pair |
| Srt.JoinParts | src/insanely_fast_whisper/utils/convert_object_to_srt.py:52 | every part appears in the joined text at its offset |
| Srt.JoinSeparators | src/insanely_fast_whisper/utils/convert_object_to_srt.py:52 | a separator sits just before every part but the first |
| Srt.JoinEndsWithLast | src/insanely_fast_whisper/utils/convert_object_to_srt.py:52 | the joined text ends with its last part, with no separator after it |
| Srt.Convert | src/insanely_fast_whisper/utils/convert_object_to_srt.py:34-52 | the SRT text is empty exactly when there are no chunks |
| Srt.ConvertObjectToSrt | src/insanely_fast_whisper/utils/convert_object_to_srt.py:40-52 | the loop with a running `subtitle_index`, followed by the join, computes the SRT text of the chunk sequence |
| Srt.ConvertSnoc | src/insanely_fast_whisper/utils/convert_object_to_srt.py:44-52 | one more chunk adds "\n" and that chunk's block, numbered one past the others |
| Srt.ConvertLayout | src/insanely_fast_whisper/utils/convert_object_to_srt.py:42-52 | the blocks numbered 1..n appear in input order, each at its offset, with a single "\n" between neighbours and nothing after the last block |
| Srt.ConvertEnding | src/insanely_fast_whisper/utils/convert_object_to_srt.py:47-52 | the text ends with the last chunk's stripped text and one "\n"; if that text is not empty, the character before the final "\n" is not whitespace |

Helpers with small contracts (`DivModOf`, `FieldsSum`, `AssembleSlices`,
`ThreeLines`, `FirstNewlineAt`, the `...Text` literal lemmas and the like)
support the lemmas above and have no row.

## Left out

- `process_object` (lines 66-79) is left out. It writes the text to a file and prints a message; that is I/O.
- The `__main__` demonstration (lines 82-94) is left out. Its first chunk's clocks are covered by `FormatsMidnight` and `FormatsFiveAndAHalfSeconds`, and the next chunk's by `FormatsSixSeconds` and `FormatsTenPointTwoSeconds`.
- Float seconds are not modelled. `timedelta(seconds=x)` rounds a float to the nearest microsecond, with ties to even, and the model starts from that integer microsecond count. Floating point is outside the model.
- `OverflowError` is not modelled. `timedelta` raises it beyond ±999999999 days, and the model accepts every integer offset.
- Input shape errors are not modelled. A chunk is a typed record, so the `KeyError` for a missing `"chunks"`, `"timestamp"` or `"text"` cannot arise. A `TypeError` from a `None` timestamp cannot arise either. The `"speakers"` entry is never read by the source and is not represented.
- Clock.ParseClock: the reader accepts hour fields up to 99, since only the printer's side matters. `FormatParseRoundTrip` therefore assumes a value below one day.
- Whitespace.IsSpace: the table is the code-point list of Python's `str.isspace()`. It is not derived from the Unicode database.
- Srt.ConvertSnoc: stated for a non-empty prefix. With an empty prefix the result is the single block, which `Convert` gives directly.
- Srt.Block: its own contract states only that a block is non-empty and ends with "\n". What a block carries is stated by `ParseBlockRoundTrip`.
- Srt.Convert: its own contract states only when the text is empty. The layout of the text is stated by `ConvertLayout` and `ConvertEnding`.
