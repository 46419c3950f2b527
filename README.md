# pvt-bus schedule screen, modelled in Dafny

The app's only screen (`Index` in `app/index.tsx`) lets a rider look up private bus schedules.
The rider types a start and a destination, and enters hours and minutes in two small fields.
The fields are confirmed into a time string. Submitting sends a GET request to the schedule
endpoint and shows the trips it returns.

This project models the logic behind that screen:

- the keystroke filter on the two time fields (`handleHourChange`, `handleMinuteChange`);
- JavaScript's `Number()` on the at most two characters that filter lets through, with values
  in tenths so that `"5."` is 50 and `".5"` is 5;
- the range test and the unpadded `hours:minutes` string of `handleConfirm`, and the
  notification it raises otherwise;
- the normalisation `toLowerCase().trimEnd().split(' ').join('+')` of the two place names;
- the request URL;
- the update of the trip list once the request has settled.

The screen's state is the class `Screen.ScheduleScreen`. It holds six of the component's seven
state fields (`start`, `destination`, `data`, `time`, `hours` and `minutes`; the unused `error`
is left out), initialised as at mount.
Each handler is a method whose `modifies` clause names the one field it sets, so every other
field provably keeps its value.

The class invariant `Valid()` says three things:

- both time fields pass the keystroke filter;
- the confirmed time is either still empty or two such fields, in range, joined by `':'`;
- those two fields can be read back from the confirmed time.

Modules, in dependency order:

- `Wrappers` (wrappers.dfy): `Option`.
- `JsString` (js_string.dfy): the ECMAScript white-space class, `trimEnd`, `trimStart`,
  `trim` and `indexOf`, each stated by a lemma.
- `JsNumber` (js_number.dfy): `Number()` on strings of at most two characters.
  - The model is an explicit case list.
  - The case list is proved to agree with a reference decimal-literal grammar, without
    exponent or Infinity, that works for any length.
- `TimeFields` (time_fields.dfy): the filter, the range test, the confirmed time string,
  and reading a time string back into its fields.
- `Query` (query.dfy): lower-casing, `split`/`join`, the normalisation and the URL.
  - `ParseQuery` reads the URL back into its three parameters.
- `Screen` (screen.dfy): the class, its handlers, and whole sessions from mount to submit.

The filter and the range test follow the code exactly. The URL does too, apart from the
ASCII-only lower-casing listed under "## Left out". Some consequences:

- `""` and `" 1"` pass the filter.
- `""`/`""` confirms to `":"`.
- `"-0"`/`".5"` confirms to `"-0:.5"`.
- The time goes into the URL verbatim, so an unconfirmed session sends `time=`.

One might expect the confirmed time to be always of the form HH:MM with hours 0..23 and
minutes 0..59. The code allows the strings above, and the model follows the code.

## Model

| member | source | states |
|---|---|---|
| JsString.TrimEnd | app/index.tsx:42 | trimEnd as the code applies it to a place name: drops white space from the end, never lengthening the text; its meaning is given by TrimEndSpec |
| JsString.TrimStart | app/index.tsx:17 | trimStart, the first half of the trimming Number() does; never lengthens the text; its meaning is given by TrimStartSpec |
| JsString.Trim | app/index.tsx:24 | trim, the trimming Number() applies to a field before reading it; never lengthens the text; its meaning is given by TrimSpec |
| JsString.TrimEndSpec | app/index.tsx:42 | trimEnd keeps the longest prefix that does not end in white space, and everything it removes is white space |
| JsString.TrimStartSpec | app/index.tsx:17 | trimStart, which Number() applies, keeps the longest suffix that does not start with white space, and everything it removes is white space |
| JsString.TrimSpec | app/index.tsx:17 | the text Number() reads is the slice of its argument that neither starts nor ends with white space, with only white space on either side |
| JsString.TrimUnpadded | app/index.tsx:17 | a string that neither starts nor ends with white space is read unchanged |
| JsString.TrimAllWhite | app/index.tsx:24 | a string of white space only trims to the empty string |
| JsNumber.ShortNumeralTenths | app/index.tsx:17 | Number() on an already trimmed string of at most two characters, in tenths: "" is 0, then one or two digits, a sign and a digit, "d." or ".d", and NaN for everything else; checked against the decimal grammar by ShortNumeralMatchesGrammar |
| JsNumber.NumberTenths | app/index.tsx:24 | Number() on a field of at most two characters: the trimmed text read by ShortNumeralTenths, as StringToNumber ignores surrounding white space |
| JsNumber.ShortNumeralMatchesGrammar | app/index.tsx:17 | the two-character case list for Number() accepts exactly the strings the decimal-literal grammar accepts, gives each the grammar's value in tenths, and gives "" the value 0 |
| JsNumber.DigitStringValue | app/index.tsx:17 | one or two ASCII digits are read as the decimal number they spell |
| JsNumber.LeftPaddedDigit | app/index.tsx:17 | white space before a digit is ignored |
| JsNumber.RightPaddedDigit | app/index.tsx:17 | white space after a digit is ignored |
| JsNumber.WhiteStringIsZero | app/index.tsx:24 | the empty string and white space only are read as 0, so the filter accepts them |
| TimeFields.FieldAccepted | app/index.tsx:17 | the guard of both keystroke handlers: at most two characters and Number() not NaN; characterised in both directions by FieldAcceptedIffNumeral |
| TimeFields.TimeInRange | app/index.tsx:31 | the four comparisons of handleConfirm, with a NaN failing each; on digit fields DigitTimeInRange gives it as the clock range |
| TimeFields.FormatTime | app/index.tsx:32 | the template `${hours}:${minutes}` with no padding; SplitFormatTime proves it is undone by splitting at the first ':' |
| TimeFields.FieldAcceptedIffNumeral | app/index.tsx:17 | the keystroke filter in both directions: a string passes exactly when it has at most two characters and its trimmed form is empty or a decimal numeral |
| TimeFields.AcceptedFieldAlphabet | app/index.tsx:17 | every character of an accepted field is white space, a digit, '+', '-' or '.' |
| TimeFields.AcceptedFieldHasNoColon | app/index.tsx:32 | an accepted field never contains ':', so the confirmed time splits back at its first ':' |
| TimeFields.SplitFormatTime | app/index.tsx:32 | the `hours:minutes` template is undone by splitting at the first ':' |
| TimeFields.ConfirmedTimeOfFields | app/index.tsx:31-33 | confirming accepted, in-range fields stores a time string of the confirmed form, from which both fields are recovered exactly |
| TimeFields.DigitFieldAccepted | app/index.tsx:17 | at most two ASCII digits always pass the filter |
| TimeFields.DigitTimeInRange | app/index.tsx:31 | on digit fields the confirm test holds exactly when the hours are at most 23 and the minutes at most 59 |
| TimeFields.EmptyFieldsConfirm | app/index.tsx:31-33 | two empty fields pass the filter and the test, and confirm to ":" |
| TimeFields.HourTwentyFiveRefused | app/index.tsx:31 | hour 25 fails the test whatever the minutes |
| TimeFields.SignedZeroAndHalf | app/index.tsx:17 | "-0" is read as 0 and ".5" as half a unit |
| TimeFields.SignedZeroAndHalfConfirmed | app/index.tsx:31-33 | "-0" and ".5" pass the test and "-0:.5" becomes a confirmed time |
| TimeFields.DanglingPrefixRefused | app/index.tsx:17 | "1e" and "0x" are NaN, so the filter refuses them |
| Query.Lower | app/index.tsx:42 | toLowerCase over ASCII, keeping the length; its meaning is given by LowerNoCapital and LowerFixedIff |
| Query.LowerNoCapital | app/index.tsx:42 | toLowerCase leaves no ASCII capital |
| Query.LowerFixedIff | app/index.tsx:42 | toLowerCase leaves a text unchanged exactly when it holds no ASCII capital |
| Query.LowerIdempotent | app/index.tsx:42 | lowering twice is lowering once |
| Query.Split | app/index.tsx:42 | split always yields at least one part |
| Query.SplitPartsFree | app/index.tsx:42 | no part of a split holds the separator |
| Query.Join | app/index.tsx:42 | join('+') puts the separator between consecutive parts and nowhere else; JoinSplitReplace gives its composition with split |
| Query.JoinSplitIdentity | app/index.tsx:42 | splitting and then joining on the same character gives the string back |
| Query.JoinSplitReplace | app/index.tsx:42 | split(a).join(b) replaces every a by b |
| Query.Normalize | app/index.tsx:42-43 | the chain toLowerCase().trimEnd().split(' ').join('+') applied to start and destination; its properties are the Normalize lemmas below |
| Query.NormalizeIsReplace | app/index.tsx:42-43 | the normalised text is the lower-cased, right-trimmed text with every space turned into '+' |
| Query.NormalizeNoSpace | app/index.tsx:42-43 | a normalised text holds no space |
| Query.NormalizeNoTrailingWhite | app/index.tsx:42-43 | a normalised text does not end in white space |
| Query.NormalizeLength | app/index.tsx:42-43 | the normalised text is as long as the lower-cased, right-trimmed text, which is no longer than the input |
| Query.NormalizeLowerCase | app/index.tsx:42-43 | a normalised text holds no ASCII capital |
| Query.NormalizeIdempotent | app/index.tsx:42-43 | normalising twice is normalising once |
| Query.NormalizeNoAmpersand | app/index.tsx:42-43 | normalisation introduces no '&' |
| Query.NormalizeWord | app/index.tsx:42 | a text with no space and no trailing white space only has its letters lowered |
| Query.NormalizeMgRd | app/index.tsx:42 | "MG Rd " is sent as "mg+rd" |
| Query.NormalizeHsr | app/index.tsx:43 | "Hsr" is sent as "hsr" |
| Query.QueryUrl | app/index.tsx:44-48 | baseurl, then departure= and the normalised start, &destination= and the normalised destination, &time= and the time verbatim; QueryUrlRoundTrip reads it back |
| Query.ParseQueryParts | app/index.tsx:44-48 | three '&'-free values placed after departure=, &destination= and &time= on the endpoint are read back exactly |
| Query.QueryUrlRoundTrip | app/index.tsx:44-48 | given inputs free of '&', the URL carries the normalised start, the normalised destination and the time verbatim, and each is read back exactly |
| Query.ExampleQuery | app/index.tsx:42-48 | start "MG Rd ", destination "Hsr" and time "8:30" give departure=mg+rd, destination=hsr and time=8:30 |
| Screen.ScheduleScreen.constructor | app/index.tsx:7-12 | at mount, start, destination and time are empty, data is the empty list, both time fields are "00", and the invariant holds |
| Screen.ScheduleScreen.SetStart | app/index.tsx:86 | typing a start stores it and changes nothing else |
| Screen.ScheduleScreen.SetDestination | app/index.tsx:93 | typing a destination stores it and changes nothing else |
| Screen.ScheduleScreen.HandleHourChange | app/index.tsx:16-20 | the hours take the input exactly when it passes the filter, and otherwise keep their value; no other field changes and the invariant holds |
| Screen.ScheduleScreen.HandleMinuteChange | app/index.tsx:23-27 | the same on the minutes only |
| Screen.ScheduleScreen.HandleConfirm | app/index.tsx:30-39 | in range, the fields as typed joined by ':' become the time and no notification is raised; otherwise the time is kept and the invalid-time message is raised; only the time can change |
| Screen.ScheduleScreen.SubmitUrl | app/index.tsx:41-48 | the requested URL is the endpoint with the normalised places and the time |
| Screen.ScheduleScreen.FetchCompleted | app/index.tsx:50-61 | a response replaces the trip list wholesale, in response order; a failure changes nothing; only data can change |
| Screen.ScheduleScreen.HandleSubmit | app/index.tsx:41-62 | a submit requests that URL and then applies the fetch outcome |
| Screen.RefusedSession | app/index.tsx:30-37 | a fresh screen accepts "25" as hours, refuses it at confirmation with the invalid-time message, and keeps the time empty |
| Screen.TypeAndConfirm | app/index.tsx:16-39 | typing two accepted fields into an unconfirmed screen leaves them in the fields; confirming stores their join and raises nothing when they are in range, and otherwise keeps the time empty and raises the invalid-time message; places and trips are untouched |
| Screen.RunSession | app/index.tsx:7-62 | from mount, typing two places and two accepted fields, confirming and submitting raises the invalid-time message exactly when the fields are out of range, sends the URL of the typed places and of the joined fields, or of the empty time when refused, and leaves the response's trips or none |
| Screen.TypedSession | app/index.tsx:41-48 | the query of such a session reads back as the normalised places and, exactly when the fields are in range, their join, otherwise the empty time |
| Screen.AcceptedFieldsNoAmpersand | app/index.tsx:44-48 | a confirmed time holds no '&', so it cannot split the query |

## Left out

- Rendering (`renderItem` and the returned tree, app/index.tsx:64-146) and the styles
  (app/index.tsx:149-235): user interface only. Only the two text inputs' `onChangeText`
  setters are modelled, as `SetStart` and `SetDestination`.
- The `axios.get` request (app/index.tsx:51): network I/O. Its outcome is the `FetchOutcome`
  parameter of `HandleSubmit`. A failed request or an error status is `FetchFailed`.
- Responses whose body is not a list of trips are outside the model, because the code stores
  `response.data` unchecked (app/index.tsx:58). `Fetched` carries a list of trips only.
  - A body that is not iterable (an error object, `null`) makes every later submit throw when
    `data` is copied (app/index.tsx:53), before `setData` is reached.
  - A body that does not parse is kept as text. A later submit still reaches `setData`,
    because copying a string gives its characters. A non-empty text body makes the list
    render throw at `item.stations.map` (app/index.tsx:69).
- The `console.log` and `console.error` calls (app/index.tsx:49, 52, 60): logging, with no
  effect on state.
- `ToastAndroid.show` (app/index.tsx:36): a platform call. `HandleConfirm` returns the message
  it would show, or `None`.
- The sorted copy of the old trip list (app/index.tsx:53-57): it is never stored or read, so
  it has no effect on state. Its `Date` comparator would also need date parsing and floating
  point.
- The `error` state (app/index.tsx:13): it is declared but never read or set.
- Races between overlapping submits, and edits made while a request is pending:
  concurrency. `HandleSubmit` models a submit whose request settles before anything else
  happens.
- The `maxLength` and the numeric keyboard of the time inputs (app/index.tsx:104-105): the
  handlers enforce the two-character limit themselves, and the model allows any characters.
- Query.Lower: maps only the ASCII capitals, because full Unicode case mapping (with its
  length-changing cases) is beyond this model. Every other character is kept as it is.
- JsNumber.NumberTenths: models `Number()` only for strings of at most two characters. Only
  those reach it: the filter checks the length first, and `Valid()` keeps both fields at
  two characters or fewer. Hexadecimal, octal and binary literals, exponents and `Infinity`
  all need at least three characters.
- String lengths are counted in code points, while JavaScript's `length` counts UTF-16 code
  units. No filter outcome changes: a character outside the Basic Multilingual Plane is never
  white space or a digit, so the guard refuses it either way. NormalizeLength is a statement
  about code points.
- Query.QueryUrl: like the code, puts the texts into the URL without percent-encoding.
  Only spaces are rewritten (to '+'). `QueryUrlRoundTrip` therefore needs inputs free of
  '&', and its "read back exactly" holds only for `ParseQuery`. That reader splits on '&' and
  strips the keys, with no percent-decoding, no '+' to space and no cut at a '#' fragment.
  A place name holding '#', '%' or '+' still reaches the endpoint changed, and the round trip
  covers nothing about that.
