# Elapsed-time utility

A Dafny model of the time-difference helper of the winter-activities
service (`hello.js`). `calculateTimeDifference(date1, date2)` takes the
absolute difference of two instants in milliseconds and splits it into
whole hours and the whole minutes left over after those hours, dropping
any seconds and milliseconds. `generateTimeDifferenceMessage(date1, date2)`
puts those two numbers into the fixed sentence
`The difference is <hours> hours and <minutes> minutes.`

Both are pure, so the model is two modules of functions and lemmas:

- `Decimal` (`decimal.dfy`): the decimal numeral a template literal writes
  for a non-negative integer (`NatToDecimal`), the reading of a digit
  string back to its number (`DigitsValue`), and the facts that the two
  are inverse and that a numeral followed by a non-digit can be split off
  in only one way.
- `TimeDifference` (`time_difference.dfy`): instants are integer
  millisecond counts, the result is `Duration(hours, minutes)`.
  `CalculateTimeDifference` is characterised by `Decomposes`: fewer than 60
  minutes, and `hours·3,600,000 + minutes·60,000 <= |date2 − date1|`, short
  of it by less than one minute. `DecompositionUnique` shows that this
  characterisation has exactly one solution; `WholeHours` and
  `RemainderTruncated` are proved by exhibiting that solution, and the
  concrete cases are instances of those two. The message is the fixed
  text (`Opening`, `Between`, `Closing`) around the numerals of the
  computed duration, and `MessageDeterminesDuration` shows that two pairs
  of instants get the same sentence exactly when they are the same hours
  and minutes apart.

## Model

| member | source | states |
|---|---|---|
| `Decimal.NatToDecimal` | hello.js:13 | the numeral written for a count is at least one digit, only digits, has no leading zero (unless it is "0"), and reads back as that count |
| `Decimal.DecimalOfValue` | hello.js:13 | conversely, every such canonical numeral is the one written for the number it denotes |
| `Decimal.NatToDecimalInjective` | hello.js:13 | different counts are written as different numerals |
| `TimeDifference.CalculateTimeDifference` | hello.js:3-8 | minutes are in 0..59, and hours·3,600,000 + minutes·60,000 is at most the absolute millisecond difference and falls short of it by less than 60,000 |
| `TimeDifference.DecompositionUnique` | hello.js:4-6 | any duration with fewer than 60 minutes that accounts for the absolute difference to within one minute is the one computed |
| `TimeDifference.OrderIndependent` | hello.js:4 | swapping the two instants gives the same duration, since only the absolute difference is used |
| `TimeDifference.SameInstant` | hello.js:4-7 | an instant against itself gives 0 hours and 0 minutes |
| `TimeDifference.TotalWholeMinutes` | hello.js:5-6 | hours·60 + minutes is the number of whole minutes in the absolute difference |
| `TimeDifference.WholeHours` | hello.js:5-6 | instants exactly k hours apart, in either order, give k hours and 0 minutes |
| `TimeDifference.RemainderTruncated` | hello.js:5-6 | h hours, m < 60 minutes and any sub-minute remainder give exactly h hours and m minutes: the remainder is dropped, never rounded up |
| `TimeDifference.TruncationExamples` | hello.js:5-6 | 59,999 ms gives 0 h 0 min; 1 h 59 min 59 s gives 1 h 59 min; 24 hours gives 24 h 0 min |
| `TimeDifference.GenerateTimeDifferenceMessage` | hello.js:11-13 | the message is "The difference is ", the hours numeral, " hours and ", the minutes numeral, " minutes." for the duration between the two instants, with the same words whatever the counts |
| `TimeDifference.RenderInjective` | hello.js:13 | two durations rendered to the same sentence are equal, so the sentence carries the hours and minutes exactly |
| `TimeDifference.MessageDeterminesDuration` | hello.js:12-13 | two pairs of instants get the same message if and only if they get the same duration |
| `TimeDifference.MessageOrderIndependent` | hello.js:12-13 | swapping the two instants gives the same message |
| `TimeDifference.MessageTwoHoursFifteen` | hello.js:13 | 2 h 15 min 30 s apart reads "The difference is 2 hours and 15 minutes." |
| `TimeDifference.MessageNoSingular` | hello.js:13 | example: 1 h 1 min apart, instants in reverse order, reads "The difference is 1 hours and 1 minutes." (the fixed words for every count come from the contract of `GenerateTimeDifferenceMessage`) |

## Left out

- `server.js` is not part of this model: it is the HTTP routing, middleware, document-store schema, seeding and server start-up of the service, all of it I/O over libraries whose code is not here.
- JavaScript `Date` values are modelled only by their millisecond counts; invalid dates (whose difference is `NaN`) and the conversion of a `Date` to a number are not modelled, and callers are taken to pass valid instants.
- Arithmetic is on unbounded integers, not IEEE-754 doubles. The two coincide while the difference stays below 2^53 ms (about 285,000 years). Larger differences arise between dates on opposite sides of 1970 that are more than about 285,000 years apart; JavaScript rounds those differences before `Math.floor` is applied, and the model does not.
- `Decimal.NatToDecimal`: JavaScript writes numbers of 10^21 and above in exponent form ("1e+21"); the model always writes plain decimal digits. Such hour counts lie far outside the `Date` range.
