# Hour: a Dafny model of the `Hour` value class

`Hour` (lib/hour.rb) holds a time as three integers: hours `h`, minutes `m`
and seconds `s`. This project models it in three Dafny files:

- `hour.dfy`, module `Hours`. The datatype `Hour(h, m, s)`, the
  positional and keyword constructors with their range checks, the
  normalising factory `Hour.from`, addition with carry, the hour, minute and
  second unit views (`value`, `round`, `total`, `round_total`), `to_s` and
  `parse`.
- `text.dfy`, module `Text`. Ruby's `Integer#to_s` for the integers `to_s`
  writes. It also holds a reader that splits a text on `:` and reads each
  field back as an integer. That reader is the inverse used to state what
  `to_s` produces.
- `outcome.dfy`, module `Outcome`. `Option`, and `Result`, which is a value
  or the error the Ruby code raises.

How the Ruby code is stated in Dafny:

- The fields are set only during construction, so an `Hour` is a datatype
  value. `+` returns a new value and leaves both operands as they were.
- Each `ArgumentError` (and the `NameError` in `parse`) is a constructor of
  `Hours.Error`, returned in `Err`.
- Keyword arguments are Dafny parameters with default values. For example,
  `NewFromKeywords(s := 5)` is `Hour.new(s: 5)`.
- Ruby's `/` and `%` round towards negative infinity. With the divisor 60
  they agree with Dafny's `/` and `%`. So addition preserves the total for
  every integer input, including negative fields.
- The abstraction function is `seconds.total`, `h*3600 + m*60 + s`
  (`Hours.SecondsTotal`). A value whose minutes and seconds lie in `0..59` is
  `Normalized`. `Normalize(n)` is the normalised value with total `n`. It is
  an independent reference definition that `+` and `from` are compared with.
- The constructor rejects only `m > 60` and `s > 60`. It accepts 60 itself
  and negative values, and the model does the same. Rounding follows the
  `(0..29).include?` test exactly, so a negative `m` rounds the hours up.
- `Hour.from` recurses forever when minutes is 0 and seconds is below 60, or
  when minutes is negative and seconds is 0. Its last branch then reaches
  `from(minutes: 0)`, which calls itself again. `Hours.From` requires
  `FromTerminates` to exclude those arguments. `Hours.FromWithin` unfolds the
  same recursion within a step budget on every input. Lemmas prove that it
  never returns outside `FromTerminates`, and that inside it agrees with
  `From` after at most two calls.

`to_s` writes the three integers without zero padding: the padding is only
a TODO comment at lib/hour.rb:166. The constructor accepts 60 for minutes
and seconds, because its checks at lib/hour.rb:120-126 reject only values
above 60.

## Model

| member | source | states |
|---|---|---|
| `Hours.Check` | lib/hour.rb:120-126 | construction fails exactly when m > 60 or s > 60. The minutes error wins when both fail. Otherwise the fields are the arguments unchanged, and 60 itself passes |
| `Hours.New` | lib/hour.rb:111-127 | positional construction pads missing trailing arguments with 0. More than three arguments fail (a negative `Array.new` size). Otherwise the result is exactly `Check` of the padded arguments: it succeeds exactly when the padded m and s are at most 60, the fields are the padded arguments, and the error names the first field out of range |
| `Hours.NewFromKeywords` | lib/hour.rb:178-180 | keyword construction, each keyword defaulting to 0, is positional construction with all three arguments |
| `Hours.SecondsTotal` | lib/hour.rb:53-55 | `seconds.total` of a normalised value is not negative exactly when its hours are not |
| `Hours.HoursValue` | lib/hour.rb:21-23 | for a normalised value, `hours.value` is `seconds.total` / 60 / 60, rounding down |
| `Hours.MinutesValue` | lib/hour.rb:31-33 | for a normalised value, `minutes.value` is the remainder of the whole minutes of `seconds.total` modulo 60 |
| `Hours.SecondsValue` | lib/hour.rb:49-51 | for a normalised value, `seconds.value` is `seconds.total` modulo 60 |
| `Hours.MinutesTotal` | lib/hour.rb:39-41 | `minutes.total` is the whole minutes of the total: total*60 + s is `seconds.total` |
| `Hours.HoursRound` | lib/hour.rb:25-27 | for 0 <= m <= 60, `hours.round` is the nearest whole hour to the minute total, with a half hour rounding up. A negative m rounds up |
| `Hours.MinutesRound` | lib/hour.rb:35-37 | for 0 <= s <= 60, `minutes.round` is m*60 + s rounded to the nearest minute, half up. A negative s rounds up |
| `Hours.MinutesRoundTotal` | lib/hour.rb:43-45 | for 0 <= s <= 60, `minutes.round_total` is the seconds total rounded to the nearest minute. It adds to `minutes.total` the same step `minutes.round` adds to m |
| `Hours.NormalizedUnique` | lib/hour.rb:53-55 | two normalised values with the same `seconds.total` are equal |
| `Hours.Add` | lib/hour.rb:129-137 | `a + b` has the sum of the operands' totals. Its m and s lie in 0..59, so the constructor accepts it. Its h is not negative when the summed total is not |
| `Hours.AddIsNormalizeOfSum` | lib/hour.rb:132-136 | `a + b` is the normal form of total(a) + total(b) |
| `Hours.AddZeroKeepsNormalized` | lib/hour.rb:132-136 | adding `Hour.new` to a normalised value gives that value back |
| `Hours.AddZeroIdentity` | lib/hour.rb:132-136 | adding `Hour.new` leaves a value unchanged exactly when it is normalised. A value with m or s of 60 is carried over |
| `Hours.From` | lib/hour.rb:88-103 | on the arguments where it returns, `from` fails exactly when both minutes and seconds are non-zero. Otherwise it gives a normalised value whose total is minutes*60 + seconds |
| `Hours.FromWithin` | lib/hour.rb:93-103 | the recursion of `from` as written, run on every argument with a step budget. Whenever it returns, the arguments satisfy `FromTerminates` and the result is `From`'s |
| `Hours.FromDivergesOutside` | lib/hour.rb:98-102 | outside `FromTerminates`, the recursion of `from` is still running after any number of steps |
| `Hours.FromWithinAgrees` | lib/hour.rb:93-103 | inside `FromTerminates`, the recursion of `from` returns within two calls, with the result of `From` |
| `Hours.FromMinutes` | lib/hour.rb:98-99 | `from(minutes: n)` for n > 0 is h = n / 60, m = n % 60, s = 0, with m < 60 and h*60 + m = n |
| `Hours.FromIsNormalize` | lib/hour.rb:98-102 | whenever `from` returns a value, it is the normal form of minutes*60 + seconds |
| `Hours.FromIntended` | lib/hour.rb:93-103 | `from` as intended, on every argument: it fails exactly when both minutes and seconds are non-zero, and otherwise gives the normalised value whose total is minutes*60 + seconds |
| `Hours.FromIntendedAgrees` | lib/hour.rb:93-103 | wherever `from` as written returns, it returns what the intended definition gives |
| `Hours.FromDivergenceExamples` | lib/hour.rb:98-102 | `from(seconds: 30)`, `from` with no arguments and `from(minutes: -5)` never return, where the intended definition gives 0:0:30, 0:0:0 and -1:55:0 |
| `Hours.ToS` | lib/hour.rb:165-169 | `to_s` is three decimal integers joined by ':'. Splitting it on ':' and reading the fields gives back h, m and s |
| `Hours.ToSUnique` | lib/hour.rb:167-169 | the text `to_s` writes is the only text whose ':'-separated fields read back as h, m and s. A padded "09" or a "-0" is not read as a field |
| `Hours.ParseAsWritten` | lib/hour.rb:74-75 | `parse` as written fails on every call: its first line reads a name that is not defined |
| `Hours.Parse` | lib/hour.rb:77-85 | `parse` as intended, on the integers of the segments. Three segments give exactly what `new` gives for them: a value only when m and s are at most 60, else `new`'s error. Fewer than three, or more than three, fail with their own errors |
| `Hours.ParseOfToS` | lib/hour.rb:74-86 | parsing the text `to_s` writes is positional construction from h, m, s. It gives back the value exactly when m and s are at most 60 |
| `Hours.ParseAsWrittenRejects` | lib/hour.rb:75 | on the text of every constructible value, `parse` as written fails where the intended `parse` returns the value |
| `Hours.ConstructionExamples` | lib/hour.rb:111-127 | `Hour.new(1, 10)` has s = 0. No arguments give zero. 60 is accepted and 61 rejected. Four positional arguments fail |
| `Hours.AddExample` | spec/hour_spec.rb:23-30 | `Hour.new(m: 25, s: 10) + Hour.new(h: 1)` is 1:25:10 |
| `Hours.AddCarryExample` | lib/hour.rb:132-136 | 0:60:0 + 0:0:0 carries the 60 minutes into the hours: 1:0:0 |
| `Hours.FromMinutesExample` | spec/hour_spec.rb:33-40 | `from(minutes: 85)` is 1:25:0, and giving both units fails |
| `Hours.FromSecondsExample` | lib/hour.rb:91-92 | `from(seconds: 120)` is 0:2:0 |
| `Hours.FromSecondsSpecExample` | spec/hour_spec.rb:42-49 | `from(seconds: 8705)` is 2:25:5 |
| `Hours.HoursValueExamples` | spec/hour_spec.rb:53-58 | `Hour.new(1, 10).hours.value` and `Hour.new(1, 59).hours.value` are 1 |
| `Hours.HoursRoundExamples` | spec/hour_spec.rb:60-67 | `Hour.new(1, 10).hours.round` is 1 and `Hour.new(1, 59).hours.round` is 2 |
| `Hours.HoursRoundHalfExamples` | spec/hour_spec.rb:60-67 | `Hour.new(1, 29, 59).hours.round` is 1 and `Hour.new(1, 30).hours.round` is 2 |
| `Hours.MinutesExamples` | spec/hour_spec.rb:70-95 | for `Hour.new(1, 25, 52)`, `minutes.value` is 25, `round` 26, `total` 85 and `round_total` 86 |
| `Hours.SecondsExamples` | spec/hour_spec.rb:97-109 | `Hour.new(m: 1, s: 25).seconds` has value 25 and total 85. `Hour.new(1, 10, 25).seconds.total` is 4225 |
| `Hours.UnitDocExamples` | lib/hour.rb:139-163 | `Hour.new(1, 25).hours.round` is 1 and `Hour.new(1, 45).hours.round` is 2. `Hour.new(m: 1, s: 10).seconds.value` is 10 and `Hour.new(1, 45, 10).seconds.total` is 6310 |
| `Hours.ToSExample` | lib/hour.rb:167-169 | 1:9:5 is written "1:9:5", without zero padding |

## Left out

- `Hour.now` and `Hour.from_time` (lib/hour.rb:59-66): they read the wall clock. They also call `hours`, `minutes` and `seconds` on a Ruby `Time`, which has no such methods.
- `Hour#to_time` (lib/hour.rb:173-175): it builds a Ruby `Time` and calls a method that is not defined.
- The abstract `Unit#value` (lib/hour.rb:11-13) and the unit classes as objects. The views are functions of the `Hour` they were built from.
- The module export line (lib/hour.rb:184): it is module-system glue.
- Arguments that are not integers (nil, floats, strings), an unknown keyword, and a hash mixed with other positional arguments. Ruby raises its own errors for these, and the model takes integers only.
- `Hours.From`: requires `FromTerminates`. On the other arguments Ruby recurses until the stack overflows. `Hours.FromWithin` and `Hours.FromDivergesOutside` state that non-termination instead of modelling the stack error.
- `Hours.Parse`: takes the integers of the segments, not the text. String#split and Ruby's lenient String#to_i are not part of this model. The formatting string is ignored, as the source ignores it.
- `Hours.ToS`: the reader it is stated against accepts only canonical decimal literals. Ruby's `to_i` reads those the same way.

## Findings

| source | as written | input that shows it | evidently intended | confidence | as-written member | corrected member |
|---|---|---|---|---|---|---|
| lib/hour.rb:101 | with minutes 0 and seconds below 60, `from` calls `from(minutes: 0)`, which reaches the same line again and never returns. A negative minutes with seconds 0 ends up there too | `Hour.from(seconds: 30)`, `Hour.from`, `Hour.from(minutes: -5)` | every argument pair gives the normal form of minutes*60 + seconds, or the error when both are given | not executed | `Hours.FromWithin`, shown by `Hours.FromDivergesOutside` and `Hours.FromDivergenceExamples` | `Hours.FromIntended`, with `Hours.FromIntendedAgrees` |
| lib/hour.rb:75 | `parse` splits `serialised_hour`, a name defined nowhere, so every call raises NameError | `Hour.parse("1:02:30")` | split the `string` parameter, then dispatch on the segment count (lib/hour.rb:77-85) | not executed | `Hours.ParseAsWritten`, shown by `Hours.ParseAsWrittenRejects` | `Hours.Parse`, with `Hours.ParseOfToS` |
