# tstee elapsed-time formatter, modelled in Dafny

tstee prefixes every line it copies with a timestamp. When it stamps time that
has passed (since start, or since the last line), it uses a small formatter of
its own instead of calendar formatting. That formatter lives in
`src/fmt_duration.rs` and works in two stages:

- **Compile** (`DelayedFormat::new`). The format string is cut once by the
  closed grammar `(%[HhMmSs])|(%\.[1-9]?f)`. The result is the literal
  segments between matches (`spstr`), the matched placeholder texts
  (`delimiter`) and their count (`len`).
- **Render** (`MyDuration` and its `Display` implementation). Every line
  renders the compiled template against a duration, given as whole seconds
  and nanoseconds. The fields are total and of-unit hours, minutes and
  seconds. The fraction is the nanoseconds divided down to N digits. The
  render loop writes segment, placeholder, segment, ..., trailing segment.

The project has four modules:

- `Decimal` (`decimal.dfy`): Rust's `{}` and `{:0>W}` for naturals. It also
  holds an independent fixed-width digit reading, used to state widths and
  truncation.
- `Template` (`template.dfy`): the compile stage. The regular expression
  becomes a hand-written scanner, `MatchLen`. `Split` and `FindIter` model
  `Regex::split` and `Regex::find_iter`. `LeftmostCut` says what a correct
  cut of the string is. The module proves that `Split`/`FindIter` produce
  such a cut, and that no other cut exists.
- `Render` (`render.dfy`): the placeholders as a datatype and the duration
  with its accessors. `Render` is the render specification and `Fmt` is
  the render loop as a method, proved equal to it. The module also holds
  the width, truncation and fallback properties.
- `DocumentedExamples` (`examples_doc.dfy`): the documented examples,
  proved for the model. These are every row of the help text at
  `src/main.rs:136-148` and all fourteen `test_format` calls at
  `src/fmt_duration.rs:103-117`. Each test call is proved as a whole stamp:
  the format string is compiled, then rendered at 94028.602718334 s or at
  4028.000183340 s. The help text's one-placeholder rows are proved as
  placeholder renders, its two format strings as whole stamps.

Notes on how the model reads the source:

- **Matching is case-sensitive.** The comment at `src/fmt_duration.rs:14`
  says "Case insensitive". The expression on the next line is
  case-sensitive, and the model follows the expression: `%.F` is literal
  text.
- **The precision digit is greedy.** The digit in `%\.[1-9]?f` is optional
  but tried first, so `%.3f` is one placeholder. `%.0f` and `%.10f` are not
  placeholders at all.
- **Leftmost-first is leftmost-unique.** The alternatives of the
  expression never match at the same position with different lengths
  (`MatchLenExact`). So leftmost-first matching is the same as taking the
  unique match at the first position that has one.

## Model

| member | source | states |
|---|---|---|
| Template.MatchLen | src/fmt_duration.rs:15 | The scanner that stands for the compiled expression. Its result is 0 or a match length of 2, 3 or 4 that fits in the string, and a match starts with `%`. `MatchLenExact` characterizes it completely. |
| Template.Split | src/fmt_duration.rs:16 | `re.split`: always exactly one more segment than `FindIter` finds matches. `SplitIsLeftmostCut` and `LeftmostCutUnique` characterize it, together with `FindIter`. |
| Template.FindIter | src/fmt_duration.rs:17 | `re.find_iter`: every match found is one of the sixteen placeholder texts. The matches are at most half as many as the characters, because each has at least two. |
| Template.MatchLenExact | src/fmt_duration.rs:15 | A prefix of length k is one of the sixteen placeholder texts exactly when k is the scanner's match length there. So at most one alternative of the expression matches at any position. |
| Template.Compile | src/fmt_duration.rs:13-20 | The compiled template has one more segment than placeholders, and `len` is the placeholder count. Interleaving segments and placeholders gives back the format string. Every placeholder is one of the sixteen texts, and no segment contains a match. |
| Template.SplitIsLeftmostCut | src/fmt_duration.rs:16-17 | `split` and `find_iter` cut the string into segments without matches, separated by matches, in order. |
| Template.LeftmostCutUnique | src/fmt_duration.rs:16-17 | Any such cut is exactly the `split`/`find_iter` result, so the cut a correct leftmost-first matcher produces is determined. |
| Template.CompileIsLeftmostCut | src/fmt_duration.rs:13-20 | Compile yields segments sp and placeholders de if and only if (sp, de) is a leftmost cut of the string. |
| Template.CompileLiteral | src/fmt_duration.rs:15-19 | A string compiles to one segment (itself) and no placeholder if and only if no match occurs in it. |
| Template.InterleaveIsPiecesThenLast | src/fmt_duration.rs:59-83 | The interleaving is the pieces "segment i, placeholder i" for every i, then the trailing segment: the order the render loop writes them in. |
| Render.Classify | src/fmt_duration.rs:62-79 | Picks the arm of the render `match`. A recognised text names a valid placeholder (a fraction precision of 1 to 9). `ClassifyRecognisesTokens`, `ClassifyArms` and `ClassifySpelling` characterize it. |
| Render.MyDuration.RenderToken | src/fmt_duration.rs:62-80 | The text the `match` yields for one delimiter. It is the fallback text exactly when the delimiter is not one of the sixteen arms. |
| Render.MyDuration.RenderPlaceholder | src/fmt_duration.rs:63-78 | The bodies of the sixteen arms. A field renders as a non-empty digit string. A fraction of precision N renders as a point followed by at least N digits. `OfUnitFieldsTwoDigits`, `TotalFieldsUnpadded` and `FractionTruncates` give the exact texts. |
| Render.MyDuration.FractionText | src/fmt_duration.rs:69-78 | The fraction arms: a point followed by at least N digits. With nanoseconds below 10^9 it is exactly N digits, the truncated fraction, as `FractionTruncates` states. |
| Render.ClassifyRecognisesTokens | src/fmt_duration.rs:62-79 | A delimiter text reaches a non-fallback arm of the render `match` exactly when it is one of the sixteen texts the expression matches. |
| Render.ClassifyArms | src/fmt_duration.rs:62-78 | Each of the sixteen arms names its placeholder: `%h`, `%H`, `%m`, `%M`, `%s`, `%S`, then `%.f` and `%.1f` at precision 1, and `%.Nf` at precision N. |
| Render.ClassifySpelling | src/fmt_duration.rs:62-78 | Every placeholder is recognised from its spelling. A recognised text is that spelling, or `%.f` for precision 1. |
| Render.FractionDivisor | src/fmt_duration.rs:69-78 | The divisor of the N-digit arm is 10^(9-N). |
| Render.MyDuration.SSub | src/fmt_duration.rs:37-39 | `s_sub` is below 60, at most `secs`, and differs from `secs` by whole minutes. |
| Render.MyDuration.M | src/fmt_duration.rs:40-42 | `m` is the number of whole minutes in `secs`: m*60 <= secs < m*60+60. |
| Render.MyDuration.MSub | src/fmt_duration.rs:43-45 | `m_sub` is below 60 and is what is left of the whole minutes after the whole hours. |
| Render.MyDuration.H | src/fmt_duration.rs:46-48 | `h` is the number of whole hours in `secs`: h*3600 <= secs < h*3600+3600. |
| Render.MyDuration.HSub | src/fmt_duration.rs:49-51 | `h_sub` is below 24, at most `h`, and differs from `h` by whole days. |
| Render.ClockDecomposition | src/fmt_duration.rs:37-51 | secs = h*3600 + m_sub*60 + s_sub; m = h*60 + m_sub; h = (h/24)*24 + h_sub. |
| Render.MyDuration.Fmt | src/fmt_duration.rs:55-84 | The render loop's output is the render specification: each segment followed by its rendered placeholder, then the trailing segment. |
| Render.OfUnitFieldsTwoDigits | src/fmt_duration.rs:64-68 | `%H`, `%M` and `%S` render exactly the two-digit fixed-width reading of their field, `00` included. |
| Render.OfUnitFieldsValue | src/fmt_duration.rs:64-68 | A two-digit rendering reads back as the field's value. |
| Render.TotalFieldsUnpadded | src/fmt_duration.rs:63-67 | `%h`, `%m` and `%s` render digits whose value is the total, with no leading zero except for `0` itself, however many digits the total has. |
| Render.FractionTruncates | src/fmt_duration.rs:69-78 | For N in 1..9 and nanos below 10^9, `%.Nf` renders a dot and exactly N digits. They are the first N of the nine zero-padded digits of the nanoseconds, and their value is nanos / 10^(9-N): truncation, not rounding. |
| Render.DefaultPrecision | src/fmt_duration.rs:69-70 | `%.f` renders the same as `%.1f`. |
| Render.PlaceholderIsNotFallback | src/fmt_duration.rs:62-79 | No placeholder renders as the fallback text. |
| Render.CompiledNeverFallsBack | src/fmt_duration.rs:62-79 | Every delimiter of a compiled template is recognised, and none renders the fallback text: the `_` arm is unreachable. |
| Render.LiteralFormatRendersVerbatim | src/fmt_duration.rs:59-83 | A format string with no match renders as itself. |
| Decimal.NatToString | src/fmt_duration.rs:63-70 | `format!("{}", n)`: a non-empty digit string with no leading zero unless it is `0`, which is the text of 0 only. `NatToStringValue` and `NatToStringOfValue` make it the inverse of reading digits. |
| Decimal.NatToStringValue | src/fmt_duration.rs:63-67 | The `{}` text of a number reads back as that number. |
| Decimal.NatToStringWidth | src/fmt_duration.rs:63-67 | The `{}` text has exactly as many digits as the number needs. |
| Decimal.NatToStringOfValue | src/fmt_duration.rs:63-67 | A digit string with no superfluous leading zero is the `{}` text of its value. |
| Decimal.PadZero | src/fmt_duration.rs:64-78 | `{:0>W}` gives max(length, W) characters: the text right-aligned, with zeros in front, so a digit string stays a digit string. |
| Decimal.PadZeroIsFixedDigits | src/fmt_duration.rs:64-78 | Zero-padding the text of a value that fits in W digits gives its W-digit fixed-width reading. |
| Decimal.FixedDigitsValue | src/fmt_duration.rs:64-78 | The W-digit fixed-width reading of v denotes v mod 10^W. |
| Decimal.FixedDigitsPrefix | src/fmt_duration.rs:69-78 | Dividing by 10^B keeps the leading digits: the first A of the A+B fixed-width digits of v are the A digits of v / 10^B. |
| Decimal.DropDigitsBound | src/fmt_duration.rs:69-78 | A number of at most A+B digits, divided by 10^B, has at most A digits. |
| DocumentedExamples.TotalSecondsAt94028 | src/main.rs:136 | At 94028.602718334 s, `%s` renders `94028`. |
| DocumentedExamples.SecondOfMinuteAt94028 | src/main.rs:137 | `%S` renders `08`. |
| DocumentedExamples.TotalMinutesAt94028 | src/main.rs:138 | `%m` renders `1567`. |
| DocumentedExamples.MinuteOfHourAt94028 | src/main.rs:139 | `%M` renders `07`. |
| DocumentedExamples.TotalHoursAt94028 | src/main.rs:140 | `%h` renders `26`. |
| DocumentedExamples.HourOfDayAt94028 | src/main.rs:141 | `%H` renders `02`. |
| DocumentedExamples.TenthsAt94028 | src/main.rs:142-143 | `%.f` and `%.1f` render `.6`. |
| DocumentedExamples.HundredthsAt94028 | src/main.rs:144 | `%.2f` renders `.60`. |
| DocumentedExamples.MicrosAt94028 | src/main.rs:145 | `%.6f` renders `.602718`. |
| DocumentedExamples.NanosAt94028 | src/main.rs:146 | `%.9f` renders `.602718334`. |
| DocumentedExamples.UnitsFormat | src/main.rs:147 | `%Hh:%Mm:%S%.3fs` compiles and renders `02h:07m:08.602s`. The test call at `src/fmt_duration.rs:105` is the same example. |
| DocumentedExamples.TotalsFormat | src/main.rs:148 | `total %h hours ,or %m minutes, or %s seconds` renders `total 26 hours ,or 1567 minutes, or 94028 seconds`. |
| DocumentedExamples.ClockFormat | src/fmt_duration.rs:104 | `%H:%M:%S%.3f` (the relative-time default) renders `02:07:08.602` at 94028.602718334 s. |
| DocumentedExamples.SecondsNanosFormat | src/fmt_duration.rs:103 | `%s%.9f` renders `94028.602718334`. |
| DocumentedExamples.ClockFormatAt4028 | src/fmt_duration.rs:112 | `%H:%M:%S%.3f` renders `01:07:08.000` at 4028.000183340 s. |
| DocumentedExamples.FractionsAt4028 | src/fmt_duration.rs:115 | At 183340 ns, `%.f`, `%.1f`, `%.2f` and `%.3f` render `.0`, `.0`, `.00` and `.000`. |
| DocumentedExamples.CompileClock | src/fmt_duration.rs:13-20 | `%H:%M:%S%.3f` compiles to segments `"", ":", ":", "", ""` and placeholders `%H, %M, %S, %.3f`. |
| DocumentedExamples.CompileTotals | src/fmt_duration.rs:13-20 | The totals sentence compiles to its four text pieces and the placeholders `%h, %m, %s`. |
| DocumentedExamples.TotalsHourFormat | src/fmt_duration.rs:106 | `total %h hour ,or %m minutes, or %s seconds` renders `total 26 hour ,or 1567 minutes, or 94028 seconds`. |
| DocumentedExamples.ShortFractionsFormat | src/fmt_duration.rs:107 | `%.f %.1f %.2f %.3f` renders `.6 .6 .60 .602` at 94028.602718334 s. |
| DocumentedExamples.MiddleFractionsFormat | src/fmt_duration.rs:108 | `%.4f %.5f %.6f` renders `.6027 .60271 .602718`. |
| DocumentedExamples.LongFractionsFormat | src/fmt_duration.rs:109 | `%.7f %.8f %.9f` renders `.6027183 .60271833 .602718334`. |
| DocumentedExamples.SecondsNanosFormatAt4028 | src/fmt_duration.rs:111 | `%s%.9f` renders `4028.000183340` at 4028.000183340 s: the nanoseconds keep their leading zeros. |
| DocumentedExamples.UnitsFormatAt4028 | src/fmt_duration.rs:113 | `%Hh:%Mm:%S%.3fs` renders `01h:07m:08.000s`. |
| DocumentedExamples.TotalsHourFormatAt4028 | src/fmt_duration.rs:114 | The tests' totals sentence renders `total 1 hour ,or 67 minutes, or 4028 seconds`. |
| DocumentedExamples.ShortFractionsFormatAt4028 | src/fmt_duration.rs:115 | `%.f %.1f %.2f %.3f` renders `.0 .0 .00 .000`. |
| DocumentedExamples.MiddleFractionsFormatAt4028 | src/fmt_duration.rs:116 | `%.4f %.5f %.6f` renders `.0001 .00018 .000183`. |
| DocumentedExamples.LongFractionsFormatAt4028 | src/fmt_duration.rs:117 | `%.7f %.8f %.9f` renders `.0001833 .00018334 .000183340`. |
| DocumentedExamples.CompileTotalsHour | src/fmt_duration.rs:13-20 | The tests' totals sentence (with `hour`) compiles to its four text pieces and the placeholders `%h, %m, %s`. |
| DocumentedExamples.CompileShortFractions | src/fmt_duration.rs:13-20 | `%.f %.1f %.2f %.3f` compiles to the segments `"", " ", " ", " ", ""` and its four placeholders. |
| DocumentedExamples.CompileMiddleFractions | src/fmt_duration.rs:13-20 | `%.4f %.5f %.6f` compiles to the segments `"", " ", " ", ""` and its three placeholders. |
| DocumentedExamples.CompileLongFractions | src/fmt_duration.rs:13-20 | `%.7f %.8f %.9f` compiles to the segments `"", " ", " ", ""` and its three placeholders. |
| DocumentedExamples.NearMissesVerbatim | src/fmt_duration.rs:15 | `%x %.0f %.10f %%` holds no placeholder and renders verbatim. |
| DocumentedExamples.UpperCaseFractionVerbatim | src/fmt_duration.rs:15 | Matching is case-sensitive: `%.F%.3F` renders verbatim. |
| DocumentedExamples.TruncationNotRounding | src/fmt_duration.rs:70 | 999999999 ns at `%.1f` renders `.9`, not a rounded value. |

## Left out

- `src/main.rs` is not part of this model, except its help text, which supplies documented examples. Everything else in it is I/O, the system clock or a foreign library: command-line parsing, file creation and appending, the line-reading loop, the clock reads, chrono's absolute-time formatting and its panic-based format check.
- The `regex` crate is not modelled. Its effect on this one expression is modelled by the scanner `MatchLen` and the recursive `Split`/`FindIter`. `SplitIsLeftmostCut` and `LeftmostCutUnique` tie these to the leftmost-first, non-overlapping semantics.
- `std::fmt::Formatter` and `fmt::Result` are not modelled. `Fmt` returns the text, so a write error cannot occur in the model.
- `std::time::Duration` is not modelled; the model starts from `as_secs()` and `subsec_nanos()`. `secs`, a `u64` in the source, is an unbounded natural. The accessors only divide and take remainders, so no wrap-around can occur. `nanos` below 10^9 is what `subsec_nanos` guarantees. Only `FractionTruncates` needs it, so it is a requirement there and nowhere else.
- `MyDuration` holds a borrowed `&DelayedFormat`. The model holds the template by value. The template is never changed after compiling, so sharing it is not observable.
- Rust strings are UTF-8 byte strings. The model works on sequences of characters. The expression only involves ASCII characters, so the cut points are the same.
- The sixteen string arms of the render `match` are decided by `Classify` character by character, not by comparing whole strings. `ClassifyArms` and `ClassifyRecognisesTokens` relate it to the sixteen texts.
